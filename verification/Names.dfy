/** Sorting names, as sort.Strings does: by the first rune in which they differ. */
module Names {
  predicate Before(a: string, b: string) {
    b != "" && (a == "" || a[0] < b[0] || (a[0] == b[0] && Before(a[1..], b[1..])))
  }

  predicate Ascending(names: seq<string>) {
    forall i, j :: 0 <= i < j < |names| ==> Before(names[i], names[j])
  }

  lemma {:induction false} OneIsBefore(a: string, b: string)
    ensures a != b ==> Before(a, b) || Before(b, a)
  {
    if a != "" && b != "" && a[0] == b[0] {
      OneIsBefore(a[1..], b[1..]);
      assert a == [a[0]] + a[1..] && b == [b[0]] + b[1..];
    }
  }

  lemma {:induction false} BeforeTrans(a: string, b: string, c: string)
    requires Before(a, b) && Before(b, c)
    ensures Before(a, c)
  {
    if a != "" && a[0] == b[0] == c[0] {
      BeforeTrans(a[1..], b[1..], c[1..]);
    }
  }

  ghost predicate First(s: set<string>, x: string) {
    x in s && forall y :: y in s && y != x ==> Before(x, y)
  }

  lemma SomeName(s: set<string>) returns (x: string)
    requires s != {}
    ensures x in s
  {
    x :| x in s;
  }

  lemma {:induction false} FirstExists(s: set<string>) returns (x: string)
    requires s != {}
    ensures First(s, x)
    decreases s
  {
    x := SomeName(s);
    if s != {x} {
      var y := FirstExists(s - {x});
      OneIsBefore(x, y);
      if Before(x, y) {
        forall z | z in s && z != x && z != y ensures Before(x, z) {
          assert z in s - {x};
          BeforeTrans(x, y, z);
        }
      } else {
        forall z | z in s && z != y && z != x ensures Before(y, z) {
          assert z in s - {x};
        }
        x := y;
      }
    }
  }

  method Sorted(s: set<string>) returns (names: seq<string>)
    ensures Ascending(names) && |names| == |s| && forall x :: x in names <==> x in s
  {
    names := [];
    var todo := s;
    while todo != {}
      invariant todo <= s && Ascending(names) && |names| + |todo| == |s|
      invariant forall x :: x in names <==> x in s - todo
      invariant forall i, y :: 0 <= i < |names| && y in todo ==> Before(names[i], y)
      decreases todo
    {
      ghost var least := FirstExists(todo);
      var x :| x in todo && forall y :: y in todo && y != x ==> Before(x, y);
      names := names + [x];
      todo := todo - {x};
    }
  }
}
