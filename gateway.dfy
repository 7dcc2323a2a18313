/** The `data` table as the scraper uses it: a sequence of rows whose key
    `(reference_num, signatures)` is unique, queried by `sqlite_petition_row_exists`
    and extended by `sqlite_petition_row_insert`. */
module Gateway {
  import opened Wrappers
  import opened Records

  /** What SQLite reports when an insert would break `UNIQUE (reference_num, signatures)`. */
  datatype StoreError = ConstraintViolation

  predicate HasKey(rows: seq<CanonicalRow>, referenceNum: string, signatures: string) {
    exists i :: 0 <= i < |rows| && rows[i].referenceNum == referenceNum && rows[i].signatures == signatures
  }

  /** No two rows share the key. */
  predicate UniqueKeys(rows: seq<CanonicalRow>) {
    forall i, j :: 0 <= i < j < |rows| ==>
      !(rows[i].referenceNum == rows[j].referenceNum && rows[i].signatures == rows[j].signatures)
  }

  /** `SELECT COUNT() FROM data WHERE reference_num = ? AND signatures = ?`. */
  function CountKey(rows: seq<CanonicalRow>, referenceNum: string, signatures: string): (n: nat)
    ensures n <= |rows|
    ensures n > 0 <==> HasKey(rows, referenceNum, signatures)
    decreases |rows|
  {
    if rows == [] then 0
    else
      var init := rows[..|rows| - 1];
      var last := rows[|rows| - 1];
      assert forall i :: 0 <= i < |init| ==> init[i] == rows[i];
      CountKey(init, referenceNum, signatures) +
      (if last.referenceNum == referenceNum && last.signatures == signatures then 1 else 0)
  }

  /** Under the unique key, the count of a key is at most one. */
  lemma {:induction false} CountKeyAtMostOne(rows: seq<CanonicalRow>, referenceNum: string, signatures: string)
    requires UniqueKeys(rows)
    ensures CountKey(rows, referenceNum, signatures) <= 1
    decreases |rows|
  {
    if rows != [] {
      var init := rows[..|rows| - 1];
      var last := rows[|rows| - 1];
      assert UniqueKeys(init);
      CountKeyAtMostOne(init, referenceNum, signatures);
    }
  }

  /** The loop body of `run` on the table: a row is appended exactly when its key
      is new. */
  function Step(rows: seq<CanonicalRow>, row: CanonicalRow): seq<CanonicalRow> {
    if HasKey(rows, row.referenceNum, row.signatures) then rows else rows + [row]
  }

  /** The table after the rows `incoming` have gone through `Step` in order. */
  function Admit(rows: seq<CanonicalRow>, incoming: seq<CanonicalRow>): seq<CanonicalRow>
    decreases |incoming|
  {
    if incoming == [] then rows
    else Step(Admit(rows, incoming[..|incoming| - 1]), incoming[|incoming| - 1])
  }

  /** Admitting one more row is one more `Step`. */
  lemma AdmitSnoc(rows: seq<CanonicalRow>, incoming: seq<CanonicalRow>, row: CanonicalRow)
    ensures Admit(rows, incoming + [row]) == Step(Admit(rows, incoming), row)
  {
    assert (incoming + [row])[..|incoming|] == incoming;
  }

  /** `Step` keeps the key unique, keeps every earlier row in place, and leaves
      the row's key present. */
  lemma StepKeepsUnique(rows: seq<CanonicalRow>, row: CanonicalRow)
    requires UniqueKeys(rows)
    ensures UniqueKeys(Step(rows, row))
    ensures |Step(rows, row)| >= |rows| && Step(rows, row)[..|rows|] == rows
    ensures HasKey(Step(rows, row), row.referenceNum, row.signatures)
  {
    var r := Step(rows, row);
    if !HasKey(rows, row.referenceNum, row.signatures) {
      assert r[|rows|] == row;
      assert r[..|rows|] == rows;
      forall i, j | 0 <= i < j < |r|
        ensures !(r[i].referenceNum == r[j].referenceNum && r[i].signatures == r[j].signatures)
      {
        if j == |rows| {
          assert r[i] == rows[i];
        } else {
          assert r[i] == rows[i] && r[j] == rows[j];
        }
      }
    } else {
      assert r[..|rows|] == rows;
    }
  }

  /** Admitting rows keeps the key unique and never changes or removes a row
      already in the table. */
  lemma {:induction false} AdmitKeepsUnique(rows: seq<CanonicalRow>, incoming: seq<CanonicalRow>)
    requires UniqueKeys(rows)
    ensures UniqueKeys(Admit(rows, incoming))
    ensures |Admit(rows, incoming)| >= |rows| && Admit(rows, incoming)[..|rows|] == rows
    decreases |incoming|
  {
    if incoming != [] {
      var mid := Admit(rows, incoming[..|incoming| - 1]);
      AdmitKeepsUnique(rows, incoming[..|incoming| - 1]);
      StepKeepsUnique(mid, incoming[|incoming| - 1]);
      assert Admit(rows, incoming)[..|mid|] == mid;
      assert mid[..|rows|] == rows;
    }
  }

  /** A key in the table stays there. */
  lemma KeyStays(rows: seq<CanonicalRow>, row: CanonicalRow, referenceNum: string, signatures: string)
    requires HasKey(rows, referenceNum, signatures)
    ensures HasKey(Step(rows, row), referenceNum, signatures)
  {
    var i :| 0 <= i < |rows| && rows[i].referenceNum == referenceNum && rows[i].signatures == signatures;
    assert Step(rows, row)[i] == rows[i];
  }

  /** After admitting, the key of every incoming row is in the table. */
  lemma {:induction false} AdmitHasEveryKey(rows: seq<CanonicalRow>, incoming: seq<CanonicalRow>)
    ensures forall k :: 0 <= k < |incoming| ==>
              HasKey(Admit(rows, incoming), incoming[k].referenceNum, incoming[k].signatures)
    decreases |incoming|
  {
    if incoming != [] {
      var n := |incoming| - 1;
      var init := incoming[..n];
      var mid := Admit(rows, init);
      AdmitHasEveryKey(rows, init);
      forall k | 0 <= k < |incoming|
        ensures HasKey(Admit(rows, incoming), incoming[k].referenceNum, incoming[k].signatures)
      {
        if k < n {
          assert incoming[k] == init[k];
          KeyStays(mid, incoming[n], incoming[k].referenceNum, incoming[k].signatures);
        } else if !HasKey(mid, incoming[n].referenceNum, incoming[n].signatures) {
          assert Step(mid, incoming[n])[|mid|] == incoming[n];
        }
      }
    }
  }

  /** Rows whose keys are all in the table already leave it unchanged. */
  lemma {:induction false} AdmitPresentKeys(rows: seq<CanonicalRow>, incoming: seq<CanonicalRow>)
    requires forall k :: 0 <= k < |incoming| ==> HasKey(rows, incoming[k].referenceNum, incoming[k].signatures)
    ensures Admit(rows, incoming) == rows
    decreases |incoming|
  {
    if incoming != [] {
      var n := |incoming| - 1;
      var init := incoming[..n];
      assert forall k :: 0 <= k < n ==> init[k] == incoming[k];
      AdmitPresentKeys(rows, init);
    }
  }

  /** Running the same rows through the table a second time adds nothing. */
  lemma AdmitIdempotent(rows: seq<CanonicalRow>, incoming: seq<CanonicalRow>)
    ensures Admit(Admit(rows, incoming), incoming) == Admit(rows, incoming)
  {
    AdmitHasEveryKey(rows, incoming);
    AdmitPresentKeys(Admit(rows, incoming), incoming);
  }

  /** The table of the scraper's database: its rows in insertion order. */
  class PetitionTable {
    var rows: seq<CanonicalRow>

    ghost predicate Valid()
      reads this
    {
      UniqueKeys(rows)
    }

    /** `create_sqlite_database` on a fresh database file: an empty table. */
    constructor ()
      ensures Valid() && rows == []
    {
      rows := [];
    }

    /** `sqlite_petition_row_exists`: counts the rows with the key and reports
        whether the count is positive. */
    method Exists(referenceNum: string, signatures: string) returns (found: bool)
      ensures found <==> HasKey(rows, referenceNum, signatures)
    {
      var count := 0;
      var i := 0;
      while i < |rows|
        invariant 0 <= i <= |rows|
        invariant count == CountKey(rows[..i], referenceNum, signatures)
      {
        assert rows[..i + 1][..i] == rows[..i];
        if rows[i].referenceNum == referenceNum && rows[i].signatures == signatures {
          count := count + 1;
        }
        i := i + 1;
      }
      assert rows[..i] == rows;
      found := count > 0;
    }

    /** `sqlite_petition_row_insert`: appends the row and returns its rowid (one
        more than the number of earlier rows, since rows are never deleted), or
        fails on the unique key, leaving the table as it was. */
    method Insert(row: CanonicalRow) returns (r: Result<nat, StoreError>)
      requires Valid()
      modifies this
      ensures Valid()
      ensures HasKey(old(rows), row.referenceNum, row.signatures) ==>
                r == Failure(ConstraintViolation) && rows == old(rows)
      ensures !HasKey(old(rows), row.referenceNum, row.signatures) ==>
                r == Success(|old(rows)| + 1) && rows == old(rows) + [row]
      ensures rows == Step(old(rows), row)
    {
      var found := Exists(row.referenceNum, row.signatures);
      if found {
        return Failure(ConstraintViolation);
      }
      StepKeepsUnique(rows, row);
      rows := rows + [row];
      return Success(|rows|);
    }
  }
}
