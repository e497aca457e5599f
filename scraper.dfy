/**
  The scan over the ID range. Every number in the range is checked; for each
  valid ID the dashboard is asked once for the text of its name cell, and a
  usable name is inserted into the `students` table.

  The browser is an oracle `query`. For an ID it yields the text of the first
  `span.cell-value` element of the page once that element is visible. It yields
  `Failure` when any statement of the per-ID `try` body before the INSERT
  raised: navigation, a wait that timed out (including a first span that never
  becomes visible), reading the text, or one of the two progress messages
  printed inside the `try`. The exception handler around each ID swallows such
  failures, so they leave the table alone.
 */
module Scraper {
  import opened DlsuId
  import opened StudentStore

  /** What one page interaction for an ID produced. */
  datatype PageResult = Text(text: string) | Failure

  /** The first and last ID of the scanned range, both included. */
  const FirstId: nat := 11900000
  const LastId: nat := 12600000

  /** A name text worth storing: non-empty and not exactly "No data".
      The comparison is exact and case-sensitive, so "NO DATA" is stored. */
  predicate IsRecordable(text: string) {
    text != "" && text != "No data"
  }

  /** The ID passes the check and its page produced a name worth storing. */
  predicate Records(id: nat, page: PageResult) {
    IsDlsuId(id) && page.Text? && IsRecordable(page.text)
  }

  /** The table after the loop body has run for one ID. */
  function Step(rows: map<int, string>, id: nat, query: nat -> PageResult): (r: map<int, string>) {
    if !IsDlsuId(id) then rows
    else match query(id)
      case Failure => rows
      case Text(name) => if IsRecordable(name) then InsertRow(rows, id, name) else rows
  }

  /** The table after the loop has run for every ID in [lo, hi), in ascending order. */
  function Scan(rows: map<int, string>, lo: nat, hi: nat, query: nat -> PageResult): (r: map<int, string>)
    decreases hi
  {
    if hi <= lo then rows else Step(Scan(rows, lo, hi - 1, query), hi - 1, query)
  }

  /** The IDs in [lo, hi) that the loop queries, in the order it queries them. */
  function QueriedIds(lo: nat, hi: nat): (ids: seq<nat>)
    decreases hi
  {
    if hi <= lo then [] else QueriedIds(lo, hi - 1) + (if IsDlsuId(hi - 1) then [hi - 1] else [])
  }

  /** Every record that a scan of [lo, hi) finds, with no table to collide with:
      the reference definition that `ScanClosedForm` ties the loop to. */
  function Finds(lo: nat, hi: nat, query: nat -> PageResult): (m: map<int, string>) {
    map k: nat | lo <= k < hi && Records(k, query(k)) :: query(k).text
  }

  /** The loop of the program over [lo, hi): check each number, query each
      valid one, insert each usable name. A failed query and a rejected
      duplicate both leave the table unchanged and the loop goes on. */
  method ScanRange(table: StudentTable, lo: nat, hi: nat, query: nat -> PageResult)
    returns (queried: seq<nat>)
    modifies table
    ensures table.rows == Scan(old(table.rows), lo, hi, query)
    ensures table.rows == Finds(lo, hi, query) + old(table.rows)
    ensures queried == QueriedIds(lo, hi)
  {
    queried := [];
    var i := lo;
    while i < hi
      invariant lo <= i <= if lo <= hi then hi else lo
      invariant table.rows == Scan(old(table.rows), lo, i, query)
      invariant queried == QueriedIds(lo, i)
    {
      var valid := CheckDlsuId(i);
      if valid {
        queried := queried + [i];
        var page := query(i);
        match page {
          case Failure =>
          case Text(name) =>
            // the test `student_name and student_name != 'No data'`
            if IsRecordable(name) {
              var _ := table.Insert(i, name);
            }
        }
      }
      i := i + 1;
    }
    ScanClosedForm(old(table.rows), lo, hi, query);
  }

  /** The program's own run: the fixed range 11900000 .. 12600000. */
  method ScanAllIds(table: StudentTable, query: nat -> PageResult) returns (queried: seq<nat>)
    modifies table
    ensures table.rows == Finds(FirstId, LastId + 1, query) + old(table.rows)
    ensures queried == QueriedIds(FirstId, LastId + 1)
  {
    queried := ScanRange(table, FirstId, LastId + 1, query);
  }

  // ---------------------------------------------------------------------
  // What a scan does to the table

  lemma FindsStep(lo: nat, hi: nat, query: nat -> PageResult)
    requires lo < hi
    ensures Finds(lo, hi, query)
         == if Records(hi - 1, query(hi - 1))
            then Finds(lo, hi - 1, query)[hi - 1 := query(hi - 1).text]
            else Finds(lo, hi - 1, query)
  {
    var m := hi - 1;
    if Records(m, query(m)) {
      assert Finds(lo, hi, query) == Finds(lo, m, query)[m := query(m).text];
    } else {
      assert Finds(lo, hi, query) == Finds(lo, m, query);
    }
  }

  /** The comparison alone is exact and case-sensitive: "NO DATA" passes,
      "No data" and "" do not. */
  lemma RecordableIsExact()
    ensures IsRecordable("NO DATA") && IsRecordable("DELACRUZ, JUAN")
    ensures !IsRecordable("No data") && !IsRecordable("")
  {
  }

  /** One loop body: the table gains the row (id, text) exactly when the ID is
      valid, its page showed a recordable text and the ID was not yet stored;
      otherwise it is unchanged. */
  lemma StepEffect(rows: map<int, string>, id: nat, query: nat -> PageResult)
    ensures Step(rows, id, query)
         == if Records(id, query(id)) && id !in rows then rows[id := query(id).text] else rows
  {
  }

  /** The table after a scan is the table before it, with every record the
      scan finds added under an ID the table did not yet hold. */
  lemma {:induction false} ScanClosedForm(rows: map<int, string>, lo: nat, hi: nat, query: nat -> PageResult)
    ensures Scan(rows, lo, hi, query) == Finds(lo, hi, query) + rows
    decreases hi
  {
    if hi <= lo {
      assert Finds(lo, hi, query) == map[];
      assert map[] + rows == rows;
    } else {
      var m := hi - 1;
      ScanClosedForm(rows, lo, m, query);
      FindsStep(lo, hi, query);
      var before := Finds(lo, m, query);
      assert m !in before;
      if Records(m, query(m)) && m !in rows {
        assert Finds(lo, hi, query) + rows == (before + rows)[m := query(m).text];
      } else if Records(m, query(m)) {
        assert Finds(lo, hi, query) + rows == before + rows;
      }
    }
  }

  /** Rows that were in the table keep their values: nothing is overwritten. */
  lemma {:induction false} ScanKeepsExistingRows(rows: map<int, string>, lo: nat, hi: nat, query: nat -> PageResult)
    ensures forall k :: k in rows ==> k in Scan(rows, lo, hi, query) && Scan(rows, lo, hi, query)[k] == rows[k]
  {
    ScanClosedForm(rows, lo, hi, query);
  }

  /** Every row a scan adds lies in the range, passes the check, and holds the
      recordable text the page showed for that ID. */
  lemma {:induction false} ScanAddsOnlyFinds(rows: map<int, string>, lo: nat, hi: nat, query: nat -> PageResult)
    ensures forall k :: k in Scan(rows, lo, hi, query) && k !in rows ==>
      && lo <= k < hi
      && IsDlsuId(k)
      && query(k) == Text(Scan(rows, lo, hi, query)[k])
      && IsRecordable(Scan(rows, lo, hi, query)[k])
  {
    ScanClosedForm(rows, lo, hi, query);
  }

  /** Every valid ID in the range whose page shows a recordable name ends up in
      the table, under that name unless the table already held the ID. */
  lemma {:induction false} ScanRecordsEveryFind(rows: map<int, string>, lo: nat, hi: nat, query: nat -> PageResult, id: nat)
    requires lo <= id < hi && Records(id, query(id))
    ensures id in Scan(rows, lo, hi, query)
    ensures Scan(rows, lo, hi, query)[id] == if id in rows then rows[id] else query(id).text
  {
    ScanClosedForm(rows, lo, hi, query);
  }

  /** An ID whose query failed, or showed "" or "No data", is left as it was. */
  lemma {:induction false} FailedIdUntouched(rows: map<int, string>, lo: nat, hi: nat, query: nat -> PageResult, id: nat)
    requires !Records(id, query(id))
    ensures id in Scan(rows, lo, hi, query) <==> id in rows
    ensures id in rows ==> Scan(rows, lo, hi, query)[id] == rows[id]
  {
    ScanClosedForm(rows, lo, hi, query);
  }

  /** Failure isolation: making the query for one ID fail changes the outcome
      for that ID only; every other ID ends up exactly as before. */
  lemma {:induction false} FailureIsolated(rows: map<int, string>, lo: nat, hi: nat, query: nat -> PageResult,
                        failing: nat -> PageResult, id: nat)
    requires failing(id) == Failure
    requires forall k :: k != id ==> failing(k) == query(k)
    ensures forall k :: k != id ==>
      && (k in Scan(rows, lo, hi, failing) <==> k in Scan(rows, lo, hi, query))
      && (k in Scan(rows, lo, hi, query) ==> Scan(rows, lo, hi, failing)[k] == Scan(rows, lo, hi, query)[k])
    ensures id in Scan(rows, lo, hi, failing) <==> id in rows
  {
    ScanClosedForm(rows, lo, hi, query);
    ScanClosedForm(rows, lo, hi, failing);
  }

  /** Scanning the same range again with the same answers changes nothing, so
      rerunning an already covered range is harmless. */
  lemma {:induction false} RescanIsIdempotent(rows: map<int, string>, lo: nat, hi: nat, query: nat -> PageResult)
    ensures Scan(Scan(rows, lo, hi, query), lo, hi, query) == Scan(rows, lo, hi, query)
  {
    ScanClosedForm(rows, lo, hi, query);
    ScanClosedForm(Scan(rows, lo, hi, query), lo, hi, query);
    var f := Finds(lo, hi, query);
    assert f + (f + rows) == f + rows;
  }

  // ---------------------------------------------------------------------
  // Which IDs are queried

  /** QueriedIds(lo, hi) lists exactly the valid IDs of [lo, hi), strictly ascending. */
  lemma {:induction false} QueriedIdsExact(lo: nat, hi: nat)
    ensures forall a, b :: 0 <= a < b < |QueriedIds(lo, hi)| ==> QueriedIds(lo, hi)[a] < QueriedIds(lo, hi)[b]
    ensures forall k :: k in QueriedIds(lo, hi) <==> lo <= k < hi && IsDlsuId(k)
    decreases hi
  {
    if hi > lo {
      QueriedIdsExact(lo, hi - 1);
      var before := QueriedIds(lo, hi - 1);
      var q := QueriedIds(lo, hi);
      assert forall a :: 0 <= a < |before| ==> q[a] == before[a] && before[a] in before;
    }
  }

  /** In a range of eight-digit numbers, such as the program's, a number is
      queried only when it satisfies the arithmetic checksum. */
  lemma QueriedIdsSatisfyChecksum(lo: nat, hi: nat, k: nat)
    requires 10000000 <= lo && hi <= 100000000
    requires k in QueriedIds(lo, hi)
    ensures ChecksumHolds(k)
  {
    QueriedIdsExact(lo, hi);
    IsDlsuIdIffChecksum(k);
  }

  // ---------------------------------------------------------------------
  // A worked scenario

  /** Of 12345670 .. 12345680 only 12345679 passes the check. If its page shows
      "DELACRUZ, JUAN", a scan into an empty table queries that one ID and
      stores exactly that one row. */
  lemma SampleScan(query: nat -> PageResult)
    requires query(12345679) == Text("DELACRUZ, JUAN")
    ensures QueriedIds(12345670, 12345681) == [12345679]
    ensures Scan(map[], 12345670, 12345681, query) == map[12345679 := "DELACRUZ, JUAN"]
  {
    SampleQueries();
    SampleRows(query);
  }

  lemma SampleQueries()
    ensures QueriedIds(12345670, 12345681) == [12345679]
  {
    SampleRangeChecks();
    QueriedIdsExact(12345670, 12345681);
    var q := QueriedIds(12345670, 12345681);
    assert 12345679 in q;
  }

  lemma SampleRows(query: nat -> PageResult)
    requires query(12345679) == Text("DELACRUZ, JUAN")
    ensures Scan(map[], 12345670, 12345681, query) == map[12345679 := "DELACRUZ, JUAN"]
  {
    ScanClosedForm(map[], 12345670, 12345681, query);
    SampleFinds(query);
    var f := Finds(12345670, 12345681, query);
    assert f + map[] == f;
  }

  lemma SampleFinds(query: nat -> PageResult)
    requires query(12345679) == Text("DELACRUZ, JUAN")
    ensures Finds(12345670, 12345681, query) == map[12345679 := "DELACRUZ, JUAN"]
  {
    SampleRangeChecks();
    var f := Finds(12345670, 12345681, query);
    assert f.Keys == {12345679};
  }

  lemma SampleRangeChecks()
    ensures forall k: nat :: 12345670 <= k < 12345681 ==> (IsDlsuId(k) <==> k == 12345679)
  {
    forall k: nat | 12345670 <= k < 12345681
      ensures IsDlsuId(k) <==> k == 12345679
    {
      SampleCheck(k);
    }
  }

  /** The check on one number of 12345670 .. 12345680, through its digits. */
  lemma SampleCheck(k: nat)
    requires 12345670 <= k < 12345681
    ensures IsDlsuId(k) <==> k == 12345679
  {
    IsDlsuIdIffChecksum(k);
    var p := k / 10;
    var last := k % 10;
    SampleDigits(k);
    if k < 12345680 {
      assert p == 1234567;
      assert ChecksumHolds(k) <==> (112 + last) % 11 == 0;
    } else {
      assert p == 1234568;
      assert ChecksumHolds(k) <==> 114 % 11 == 0;
    }
  }

  /** The digits of the numbers 12345670 .. 12345680, place by place. */
  lemma SampleDigits(k: nat)
    requires 12345670 <= k < 12345681
    ensures k / 10 == 1234567 ==>
      Digit(k, 7) == 1 && Digit(k, 6) == 2 && Digit(k, 5) == 3 && Digit(k, 4) == 4
      && Digit(k, 3) == 5 && Digit(k, 2) == 6 && Digit(k, 1) == 7
    ensures k / 10 == 1234568 ==>
      Digit(k, 7) == 1 && Digit(k, 6) == 2 && Digit(k, 5) == 3 && Digit(k, 4) == 4
      && Digit(k, 3) == 5 && Digit(k, 2) == 6 && Digit(k, 1) == 8 && Digit(k, 0) == 0
  {
    var p := k / 10;
    assert Digit(k, 7) == Digit(p, 6) && Digit(k, 6) == Digit(p, 5) && Digit(k, 5) == Digit(p, 4);
    assert Digit(k, 4) == Digit(p, 3) && Digit(k, 3) == Digit(p, 2) && Digit(k, 2) == Digit(p, 1);
    assert Digit(k, 1) == Digit(p, 0);
    assert Digit(1234567, 6) == 1 && Digit(1234567, 5) == 2 && Digit(1234567, 4) == 3;
    assert Digit(1234567, 3) == 4 && Digit(1234567, 2) == 5 && Digit(1234567, 1) == 6;
    assert Digit(1234567, 0) == 7;
    assert Digit(1234568, 6) == 1 && Digit(1234568, 5) == 2 && Digit(1234568, 4) == 3;
    assert Digit(1234568, 3) == 4 && Digit(1234568, 2) == 5 && Digit(1234568, 1) == 6;
    assert Digit(1234568, 0) == 8;
  }
}
