/**
  Turning a day-indexed map into a gap-free list (dev/buildchecker/history.go,
  mapToRecords).  A valid date is its day number; the sort is by selection of the least day.
 */
module Records {
  datatype Record = Record(day: int, value: int)

  predicate Ascending(rs: seq<Record>) {
    forall i, j :: 0 <= i < j < |rs| ==> rs[i].day < rs[j].day
  }

  // The records are the entries of the map.
  ghost predicate Lists(rs: seq<Record>, m: map<int, int>) {
    && (forall i :: 0 <= i < |rs| ==> rs[i].day in m && rs[i].value == m[rs[i].day])
    && (forall d :: d in m ==> Record(d, m[d]) in rs)
  }

  function At(m: map<int, int>, d: int): int {
    if d in m then m[d] else 0
  }

  // One record a day from the first day on, with zero where the map has nothing.
  predicate Consecutive(rs: seq<Record>, first: int, m: map<int, int>) {
    forall i :: 0 <= i < |rs| ==> rs[i] == Record(first + i, At(m, first + i))
  }

  lemma SomeElement(s: set<int>)
    requires s != {}
    ensures exists x :: x in s
  {
    assert (forall x :: x !in s) ==> s == {};
  }

  lemma {:induction false} LeastExists(s: set<int>)
    requires s != {}
    ensures exists d :: d in s && forall e :: e in s ==> d <= e
  {
    SomeElement(s);
    var x :| x in s;
    if s == {x} {
      assert forall e :: e in s ==> x <= e;
    } else {
      LeastExists(s - {x});
      var d :| d in s - {x} && forall e :: e in s - {x} ==> d <= e;
      var least := if x < d then x else d;
      forall e | e in s ensures least <= e {
        assert e == x || e in s - {x};
      }
      assert least in s;
    }
  }

  method SortedRecords(m: map<int, int>) returns (rs: seq<Record>)
    ensures Ascending(rs) && Lists(rs, m)
  {
    rs := [];
    var todo := m.Keys;
    while todo != {}
      invariant todo <= m.Keys && Ascending(rs)
      invariant forall i :: 0 <= i < |rs| ==> rs[i].day in m && rs[i].value == m[rs[i].day]
      invariant forall d :: d in m && d !in todo ==> Record(d, m[d]) in rs
      invariant forall i, d :: 0 <= i < |rs| && d in todo ==> rs[i].day < d
      decreases todo
    {
      LeastExists(todo);
      var d :| d in todo && forall e :: e in todo ==> d <= e;
      rs := rs + [Record(d, m[d])];
      todo := todo - {d};
    }
  }

  // No record of an ascending list lies between two neighbours.
  lemma NothingBetween(rs: seq<Record>, m: map<int, int>, k: nat, d: int)
    requires Ascending(rs) && Lists(rs, m) && 0 < k < |rs| && rs[k - 1].day < d < rs[k].day
    ensures d !in m
  {
    forall i | 0 <= i < |rs| ensures rs[i].day != d {
      assert i < k - 1 ==> rs[i].day < rs[k - 1].day;
      assert k < i ==> rs[k].day < rs[i].day;
    }
  }

  // Zero records for the days from a up to but not including b.
  function Zeros(a: int, b: int): seq<Record> {
    seq(if a < b then b - a else 0, i => Record(a + i, 0))
  }

  // The inner loop: one zero record in front of `record` for every day after prev.
  method InsertGap(records: seq<Record>, index: nat, prev: int, record: int)
    returns (filled: seq<Record>, index': nat)
    requires index <= |records|
    ensures filled == records[..index] + Zeros(prev + 1, record) + records[index..]
    ensures index' == index + |Zeros(prev + 1, record)|
  {
    filled, index' := records, index;
    var gapDate := prev + 1;
    while record - gapDate >= 1
      invariant gapDate > prev && (gapDate == prev + 1 || gapDate <= record)
      invariant index' == index + |Zeros(prev + 1, gapDate)|
      invariant filled == records[..index] + Zeros(prev + 1, gapDate) + records[index..]
      decreases record - gapDate
    {
      var insertRecord := Record(gapDate, 0);
      assert Zeros(prev + 1, gapDate + 1) == Zeros(prev + 1, gapDate) + [insertRecord];
      assert filled[..index'] == records[..index] + Zeros(prev + 1, gapDate) && filled[index'..] == records[index..];
      filled := filled[..index'] + ([insertRecord] + filled[index'..]);
      index' := index' + 1;
      gapDate := gapDate + 1;
    }
  }

  // Extending the consecutive days over a gap and over the record after it.
  lemma ExtendDays(rs: seq<Record>, first: int, sorted: seq<Record>, m: map<int, int>, k: nat)
    requires Ascending(sorted) && Lists(sorted, m) && 0 < k < |sorted|
    requires Consecutive(rs, first, m) && |rs| == sorted[k - 1].day - first + 1
    ensures var zeros := Zeros(sorted[k - 1].day + 1, sorted[k].day);
            && Consecutive(rs + zeros + [sorted[k]], first, m)
            && |rs + zeros + [sorted[k]]| == sorted[k].day - first + 1
  {
    var a, b := sorted[k - 1].day, sorted[k].day;
    assert a < b;
    var zeros := Zeros(a + 1, b);
    forall d | a < d < b ensures d !in m {
      NothingBetween(sorted, m, k, d);
    }
    var all := rs + zeros + [sorted[k]];
    forall i | 0 <= i < |all| ensures all[i] == Record(first + i, At(m, first + i)) {
    }
  }

  lemma InsertedPrefix(head: seq<Record>, zeros: seq<Record>, tail: seq<Record>)
    requires tail != []
    ensures var all := head + zeros + tail; var n := |head + zeros|;
            all[..n + 1] == head + zeros + [tail[0]] && all[n + 1..] == tail[1..]
  {
  }

  // The insertion loop before record k of the sorted list: what is filled, and what is left.
  ghost predicate Filling(records: seq<Record>, index: nat, prev: Record, sorted: seq<Record>, k: nat, m: map<int, int>)
    requires sorted != []
  {
    && index <= |records| && k <= |sorted| && records[index..] == sorted[k..]
    && Consecutive(records[..index], sorted[0].day, m)
    && prev == sorted[if k == 0 then 0 else k - 1]
    && index == if k == 0 then 0 else prev.day - sorted[0].day + 1
  }

  lemma FirstDay(sorted: seq<Record>, m: map<int, int>)
    requires Ascending(sorted) && Lists(sorted, m) && sorted != []
    ensures Filling(sorted, 1, sorted[0], sorted, 1, m)
  {
    assert sorted[..1] == [sorted[0]];
  }

  lemma FillStep(records: seq<Record>, index: nat, prev: Record, sorted: seq<Record>, k: nat, m: map<int, int>)
    requires Ascending(sorted) && Lists(sorted, m) && 0 < k < |sorted| && Filling(records, index, prev, sorted, k, m)
    ensures var zeros := Zeros(prev.day + 1, sorted[k].day);
            Filling(records[..index] + zeros + records[index..], index + |zeros| + 1, sorted[k], sorted, k + 1, m)
  {
    var head, tail, zeros := records[..index], records[index..], Zeros(prev.day + 1, sorted[k].day);
    ExtendDays(head, sorted[0].day, sorted, m, k);
    InsertedPrefix(head, zeros, tail);
    assert tail[1..] == sorted[k + 1..];
  }

  // The first pass of the loop meets the first record itself and inserts nothing.
  lemma FillFirst(sorted: seq<Record>)
    requires sorted != []
    ensures var zeros := Zeros(sorted[0].day + 1, sorted[0].day);
            zeros == [] && sorted[..0] + zeros + sorted[0..] == sorted
  {
  }

  lemma FillEnd(records: seq<Record>, index: nat, prev: Record, sorted: seq<Record>, k: nat, m: map<int, int>)
    requires sorted != [] && Filling(records, index, prev, sorted, k, m)
    ensures |records| - index == |sorted| - k && (index < |records| ==> records[index] == sorted[k])
    ensures index == |records| ==>
      |records| == sorted[|sorted| - 1].day - sorted[0].day + 1 && Consecutive(records, sorted[0].day, m)
  {
    assert |records[index..]| == |sorted[k..]|;
    assert index < |records| ==> records[index] == records[index..][0] && sorted[k] == sorted[k..][0];
    assert records[..|records|] == records;
  }

  // The gap in front of one record, and the state in which the loop goes on behind it.
  method FillBefore(records: seq<Record>, index: nat, prev: Record, record: Record, ghost sorted: seq<Record>,
                    ghost k: nat, ghost m: map<int, int>)
    returns (filled: seq<Record>, index': nat)
    requires Ascending(sorted) && Lists(sorted, m) && k < |sorted| && record == sorted[k]
    requires Filling(records, index, prev, sorted, k, m) && (k == 0 ==> records == sorted)
    ensures Filling(filled, index' + 1, record, sorted, k + 1, m)
  {
    if k == 0 {
      FillFirst(sorted);
      FirstDay(sorted, m);
    } else {
      FillStep(records, index, prev, sorted, k, m);
    }
    filled, index' := InsertGap(records, index, prev.day, record.day);
  }

  /** The insertion loop, which moves its own index and bound, ends with exactly the consecutive days
      from the earliest to the latest, the original values kept and zero on every inserted day. */
  method FillGaps(sorted: seq<Record>, ghost m: map<int, int>) returns (records: seq<Record>)
    requires Ascending(sorted) && Lists(sorted, m)
    ensures |sorted| <= 1 ==> records == sorted
    ensures |sorted| > 1 ==>
      var first, last := sorted[0].day, sorted[|sorted| - 1].day;
      |records| == last - first + 1 && Consecutive(records, first, m)
  {
    records := sorted;
    if |records| <= 1 {
      return;
    }
    var prev := records[0];
    var index: nat := 0;
    ghost var k: nat := 0;
    while index < |records|
      invariant Filling(records, index, prev, sorted, k, m) && (k == 0 ==> records == sorted)
      decreases |sorted| - k
    {
      FillEnd(records, index, prev, sorted, k, m);
      var record := records[index];
      records, index := FillBefore(records, index, prev, record, sorted, k, m);
      prev := record;
      index := index + 1;
      k := k + 1;
    }
    FillEnd(records, index, prev, sorted, k, m);
  }

  /** For every map of days: the days from the earliest to the latest, each once and in order. */
  method MapToRecords(m: map<int, int>) returns (records: seq<Record>)
    ensures m == map[] ==> records == []
    ensures m != map[] ==>
      && records != [] && records[0].day in m && records[|records| - 1].day in m
      && Consecutive(records, records[0].day, m)
      && forall d :: d in m ==> records[0].day <= d <= records[|records| - 1].day
  {
    var sorted := SortedRecords(m);
    if m != map[] {
      SomeElement(m.Keys);
      var d :| d in m.Keys;
      assert Record(d, m[d]) in sorted;
    }
    records := FillGaps(sorted, m);
    if m != map[] {
      assert forall i :: 0 <= i < |sorted| ==> sorted[0].day <= sorted[i].day <= sorted[|sorted| - 1].day;
    }
  }
}
