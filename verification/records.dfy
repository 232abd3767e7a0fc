/** The slot-machine records of the uploaded table and the per-group
    selection applied to them: exact model-name match, payout at or above
    the threshold, ordered by unit number. */
module Records {

  /** One row of the table.  `unit`, `games` and `diff` are the columns
      台番, G数 and 差枚 read as integers; `big`, `reg` and `art` are the
      BB, RB and ART columns already turned into text, since the report
      only copies them. */
  datatype Record = Record(
    model: string,
    unit: int,
    games: int,
    big: string,
    reg: string,
    art: string,
    diff: int)

  /** The loaded table.  `hasModelColumn` records whether the column
      機種名（データサイト表記） is present; `records` keeps the file order. */
  datatype Table = Table(hasModelColumn: bool, records: seq<Record>)

  /** One report group: the model name as it appears in the table, the
      label shown in the report, and the payout threshold. */
  datatype Target = Target(csvName: string, displayName: string, threshold: int)

  /** A record belongs to a group when its model name equals the group's
      exactly and its payout is at least the threshold (inclusive). */
  predicate Qualifies(r: Record, csvName: string, threshold: int) {
    r.model == csvName && r.diff >= threshold
  }

  /** The qualifying records, in file order. */
  function Qualifying(rs: seq<Record>, csvName: string, threshold: int): (q: seq<Record>)
    ensures forall x :: x in q <==> x in rs && Qualifies(x, csvName, threshold)
    ensures forall x :: multiset(q)[x] == if Qualifies(x, csvName, threshold) then multiset(rs)[x] else 0
    decreases |rs|
  {
    if |rs| == 0 then []
    else
      assert rs == [rs[0]] + rs[1..];
      (if Qualifies(rs[0], csvName, threshold) then [rs[0]] else []) + Qualifying(rs[1..], csvName, threshold)
  }

  /** Records in non-decreasing unit-number order. */
  predicate SortedByUnit(s: seq<Record>) {
    forall i, j :: 0 <= i < j < |s| ==> s[i].unit <= s[j].unit
  }

  /** Inserts one record into a unit-ordered sequence, before the first
      record whose unit number is not smaller. */
  function InsertByUnit(x: Record, s: seq<Record>): (r: seq<Record>)
    requires SortedByUnit(s)
    ensures SortedByUnit(r)
    ensures forall y :: y in r ==> y == x || y in s
    decreases |s|
  {
    if |s| == 0 || x.unit <= s[0].unit then [x] + s
    else
      var rest := InsertByUnit(x, s[1..]);
      assert forall j :: 0 <= j < |rest| ==> s[0].unit <= rest[j].unit by {
        forall j | 0 <= j < |rest| ensures s[0].unit <= rest[j].unit {
          assert rest[j] in rest;
        }
      }
      var r := [s[0]] + rest;
      assert forall i, j :: 0 <= i < j < |r| ==> r[i].unit <= r[j].unit by {
        forall i, j | 0 <= i < j < |r| ensures r[i].unit <= r[j].unit {
          if i > 0 {
            assert r[i] == rest[i - 1] && r[j] == rest[j - 1];
          }
        }
      }
      r
  }

  /** Inserting adds exactly the one record. */
  lemma {:induction false} InsertPermutes(x: Record, s: seq<Record>)
    requires SortedByUnit(s)
    ensures multiset(InsertByUnit(x, s)) == multiset(s) + multiset{x}
    decreases |s|
  {
    if |s| > 0 && x.unit > s[0].unit {
      InsertPermutes(x, s[1..]);
      assert s == [s[0]] + s[1..];
      assert InsertByUnit(x, s) == [s[0]] + InsertByUnit(x, s[1..]);
    }
  }

  /** A non-empty sequence holds its first element and the rest. */
  lemma HeadTail(s: seq<Record>)
    requires |s| > 0
    ensures multiset(s) == multiset(s[1..]) + multiset{s[0]}
  {
    assert s == [s[0]] + s[1..];
  }

  /** Orders records by unit number (the `sort_values('台番')` step).
      The result is a permutation of the input; the order among records
      with equal unit numbers is not specified by the program, so no
      property about it is claimed. */
  function SortByUnit(s: seq<Record>): (r: seq<Record>)
    ensures SortedByUnit(r)
    ensures multiset(r) == multiset(s)
    decreases |s|
  {
    if |s| == 0 then []
    else
      var rest := SortByUnit(s[1..]);
      InsertPermutes(s[0], rest);
      HeadTail(s);
      InsertByUnit(s[0], rest)
  }

  /** The records a group reports, in the order the report lists them. */
  function Selection(t: Table, csvName: string, threshold: int): (e: seq<Record>)
    ensures SortedByUnit(e)
    ensures forall x :: x in e <==> x in t.records && Qualifies(x, csvName, threshold)
    ensures forall x :: multiset(e)[x] == if Qualifies(x, csvName, threshold) then multiset(t.records)[x] else 0
    ensures |e| == |Qualifying(t.records, csvName, threshold)|
  {
    var q := Qualifying(t.records, csvName, threshold);
    var e := SortByUnit(q);
    assert forall x :: x in e <==> x in q by {
      forall x ensures x in e <==> x in q {
        assert x in e <==> x in multiset(e);
      }
    }
    assert |e| == |multiset(e)| == |multiset(q)| == |q|;
    e
  }
}
