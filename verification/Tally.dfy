/** Day-indexed counters, as the history code keeps them in Go maps. */
module Tally {
  type Day = string

  datatype Entry = Entry(day: Day, amount: int)

  // A missing key reads as zero.
  function Get(m: map<Day, int>, d: Day): int {
    if d in m then m[d] else 0
  }

  function Add(m: map<Day, int>, e: Entry): map<Day, int> {
    m[e.day := Get(m, e.day) + e.amount]
  }

  function Total(es: seq<Entry>): map<Day, int> {
    if es == [] then map[] else Add(Total(es[..|es| - 1]), es[|es| - 1])
  }

  // The amounts of one day, and of all days.
  function OnDay(es: seq<Entry>, d: Day): int {
    if es == [] then 0
    else OnDay(es[..|es| - 1], d) + if es[|es| - 1].day == d then es[|es| - 1].amount else 0
  }

  function Amounts(es: seq<Entry>): int {
    if es == [] then 0 else Amounts(es[..|es| - 1]) + es[|es| - 1].amount
  }

  ghost function Sum(m: map<Day, int>): int
    decreases |m|
  {
    if m == map[] then 0
    else
      var d :| d in m;
      m[d] + Sum(m - {d})
  }

  lemma {:induction false} SumRemove(m: map<Day, int>, d: Day)
    requires d in m
    ensures Sum(m) == m[d] + Sum(m - {d})
    decreases |m|
  {
    var c :| c in m && Sum(m) == m[c] + Sum(m - {c});
    if c != d {
      var a, b := m - {c}, m - {d};
      SumRemove(a, d);
      SumRemove(b, c);
      assert a - {d} == b - {c};
    }
  }

  lemma SumAdd(m: map<Day, int>, e: Entry)
    ensures Sum(Add(m, e)) == Sum(m) + e.amount
  {
    var m' := Add(m, e);
    SumRemove(m', e.day);
    if e.day in m {
      SumRemove(m, e.day);
      assert m' - {e.day} == m - {e.day};
    } else {
      assert m' - {e.day} == m;
    }
  }

  /** The counters of all days together hold every amount added, no more and no less. */
  lemma {:induction false} SumTotal(es: seq<Entry>)
    ensures Sum(Total(es)) == Amounts(es)
  {
    if es != [] {
      SumTotal(es[..|es| - 1]);
      SumAdd(Total(es[..|es| - 1]), es[|es| - 1]);
    }
  }

  /** Each counter holds the amounts of its own day. */
  lemma {:induction false} TotalOnDay(es: seq<Entry>, d: Day)
    ensures Get(Total(es), d) == OnDay(es, d)
  {
    if es != [] {
      TotalOnDay(es[..|es| - 1], d);
    }
  }

  lemma TotalSnoc(es: seq<Entry>, e: Entry)
    ensures Total(es + [e]) == Add(Total(es), e)
  {
    assert (es + [e])[..|es|] == es;
  }

  lemma TotalPrefix(es: seq<Entry>, n: nat)
    requires n < |es|
    ensures Total(es[..n + 1]) == Add(Total(es[..n]), es[n])
  {
    assert es[..n + 1][..n] == es[..n];
  }
}
