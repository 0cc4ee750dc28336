/**
  Parsing a structural-search template into literals and holes
  (internal/comby/translate.go, parseTemplate).  Text is a sequence of runes.
 */
module Template {
  import opened Options

  datatype Term = Literal(text: string) | Hole(text: string)

  /** ---- What the terms of a template are ---- */

  function Flatten(ts: seq<Term>): string {
    if ts == [] then "" else ts[0].text + Flatten(ts[1..])
  }

  // Walks over unescaped brackets from depth d; None if one closes too much or an escape dangles.
  function Walk(s: string, d: nat): Option<nat> {
    if s == "" then Some(d)
    else if s[0] == '\\' then (if |s| == 1 then None else Walk(s[2..], d))
    else if s[0] == '[' then Walk(s[1..], d + 1)
    else if s[0] == ']' then (if d == 0 then None else Walk(s[1..], d - 1))
    else Walk(s[1..], d)
  }

  predicate Balanced(body: string) {
    Walk(body, 0) == Some(0)
  }

  predicate StartsHole(s: string) {
    |s| >= 2 && s[0] == ':' && s[1] == '['
  }

  // ":[" a balanced body "]".
  predicate IsHole(s: string) {
    StartsHole(s) && |s| >= 3 && s[|s| - 1] == ']' && Balanced(s[2..|s| - 1])
  }

  // Starts a hole that no bracket closes.
  predicate Unterminated(s: string) {
    StartsHole(s) && forall k :: 2 <= k < |s| && s[k] == ']' ==> !Balanced(s[2..k])
  }

  predicate Plain(s: string) {
    forall i :: 0 <= i < |s| ==> !StartsHole(s[i..])
  }

  // Literals without hole starts and holes in turn, beginning with a literal; the last literal is
  // not empty, or is followed by one unterminated hole kept as a literal.
  predicate Canonical(ts: seq<Term>) {
    || ts == []
    || (|ts| == 1 && ts[0].Literal? && ts[0].text != "" && Plain(ts[0].text))
    || (|ts| == 2 && ts[0].Literal? && Plain(ts[0].text) && ts[1].Literal? && Unterminated(ts[1].text))
    || (|ts| >= 2 && ts[0].Literal? && Plain(ts[0].text) && ts[1].Hole? && IsHole(ts[1].text) && Canonical(ts[2..]))
  }

  /** ---- The parse ---- */

  // Number of runes up to and including the bracket that closes a hole body.
  function Close(s: string, d: nat): (n: Option<nat>)
    ensures n.Some? ==> 0 < n.value <= |s|
  {
    if s == "" then None
    else if s[0] == '\\' then (if |s| == 1 then None else Shift(2, Close(s[2..], d)))
    else if s[0] == '[' then Shift(1, Close(s[1..], d + 1))
    else if s[0] == ']' then (if d == 0 then Some(1) else Shift(1, Close(s[1..], d - 1)))
    else Shift(1, Close(s[1..], d))
  }

  function Shift(k: nat, n: Option<nat>): Option<nat> {
    match n case None => None case Some(m) => Some(k + m)
  }

  function FindHole(s: string): (i: Option<nat>)
    ensures i.Some? ==> i.value < |s| && StartsHole(s[i.value..])
  {
    if s == "" then None
    else if StartsHole(s) then Some(0)
    else Shift(1, FindHole(s[1..]))
  }

  function Parse(s: string): seq<Term>
    decreases |s|, 1
  {
    match FindHole(s)
    case None => if s == "" then [] else [Literal(s)]
    case Some(i) => [Literal(s[..i])] + ParseHole(s[i..])
  }

  function ParseHole(s: string): seq<Term>
    requires StartsHole(s)
    decreases |s|, 0
  {
    match Close(s[2..], 0)
    case None => [Literal(s)]
    case Some(n) => [Hole(s[..2 + n])] + Parse(s[2 + n..])
  }

  /** ---- Lemmas on scanning ---- */

  lemma {:induction false} WalkThenWalk(a: string, b: string, d: nat)
    requires Walk(a, d).Some?
    ensures Walk(a + b, d) == Walk(b, Walk(a, d).value)
    decreases |a|
  {
    if a == "" {
      assert a + b == b;
    } else {
      var k := if a[0] == '\\' then 2 else 1;
      assert (a + b)[k..] == a[k..] + b;
      var e := if a[0] == '[' then d + 1 else if a[0] == ']' then d - 1 else d;
      WalkThenWalk(a[k..], b, e);
    }
  }

  lemma {:induction false} WalkThenClose(a: string, b: string, d: nat)
    requires Walk(a, d).Some?
    ensures Close(a + b, d) == Shift(|a|, Close(b, Walk(a, d).value))
    decreases |a|
  {
    if a == "" {
      assert a + b == b;
    } else {
      var k := if a[0] == '\\' then 2 else 1;
      assert (a + b)[k..] == a[k..] + b;
      var e := if a[0] == '[' then d + 1 else if a[0] == ']' then d - 1 else d;
      WalkThenClose(a[k..], b, e);
    }
  }

  // What Close finds is a balanced body and its bracket.
  lemma {:induction false} CloseIsBalanced(s: string, d: nat)
    requires Close(s, d).Some?
    ensures var n := Close(s, d).value; s[n - 1] == ']' && Walk(s[..n - 1], d) == Some(0)
    decreases |s|
  {
    var n := Close(s, d).value;
    if !(s[0] == ']' && d == 0) {
      var k := if s[0] == '\\' then 2 else 1;
      var e := if s[0] == '[' then d + 1 else if s[0] == ']' then d - 1 else d;
      CloseIsBalanced(s[k..], e);
      assert s[..n - 1][k..] == s[k..][..n - k - 1];
    }
  }

  // Conversely the first bracket after a balanced body closes it.
  lemma BalancedCloses(body: string, rest: string)
    requires Balanced(body)
    ensures Close(body + "]" + rest, 0) == Some(|body| + 1)
  {
    assert body + "]" + rest == body + ("]" + rest);
    WalkThenClose(body, "]" + rest, 0);
  }

  lemma CloseNoneIffUnterminated(s: string)
    requires StartsHole(s)
    ensures Close(s[2..], 0).None? <==> Unterminated(s)
  {
    if Close(s[2..], 0).Some? {
      CloseIsBalanced(s[2..], 0);
      var n := Close(s[2..], 0).value;
      assert s[2..][..n - 1] == s[2..n + 1] && s[n + 1] == ']';
    } else {
      forall k | 2 <= k < |s| && s[k] == ']' ensures !Balanced(s[2..k]) {
        assert s[2..] == s[2..k] + "]" + s[k + 1..];
        if Balanced(s[2..k]) {
          BalancedCloses(s[2..k], s[k + 1..]);
        }
      }
    }
  }

  lemma {:induction false} FindHoleIsFirst(s: string)
    ensures FindHole(s).None? ==> Plain(s)
    ensures FindHole(s).Some? ==> forall j :: 0 <= j < FindHole(s).value ==> !StartsHole(s[j..])
  {
    if s != "" && !StartsHole(s) {
      FindHoleIsFirst(s[1..]);
      forall j | 0 < j < |s| ensures s[j..] == s[1..][j - 1..] {}
      assert s[0..] == s;
    }
  }

  lemma PlainTail(a: string)
    requires Plain(a) && a != ""
    ensures Plain(a[1..])
  {
    forall i | 0 <= i < |a[1..]| ensures !StartsHole(a[1..][i..]) {
      assert a[1..][i..] == a[i + 1..];
    }
  }

  // A plain text before a hole start does not hide it.
  lemma {:induction false} FindHoleSkipsPlain(a: string, b: string)
    requires Plain(a) && (a == "" || b == "" || !(a[|a| - 1] == ':' && b[0] == '['))
    ensures FindHole(a + b) == Shift(|a|, FindHole(b))
  {
    if a == "" {
      assert a + b == b;
    } else {
      assert (a + b)[1..] == a[1..] + b;
      assert !StartsHole(a[0..]) && a[0..] == a;
      PlainTail(a);
      FindHoleSkipsPlain(a[1..], b);
    }
  }

  lemma PlainPrefix(s: string)
    requires FindHole(s).Some?
    ensures Plain(s[..FindHole(s).value])
  {
    FindHoleIsFirst(s);
    var i := FindHole(s).value;
    forall j | 0 <= j < i ensures !StartsHole(s[..i][j..]) {
      assert !StartsHole(s[j..]);
      if |s[..i][j..]| >= 2 {
        assert s[..i][j..][0] == s[j..][0] && s[..i][j..][1] == s[j..][1];
      }
    }
  }

  /** ---- Every text has exactly one canonical decomposition, its parse ---- */

  // The first step of a parse, by what follows the first hole start.
  lemma ParseFirstOpen(s: string, i: nat)
    requires FindHole(s) == Some(i) && Close(s[i..][2..], 0).None?
    ensures Parse(s) == [Literal(s[..i]), Literal(s[i..])]
  {
    assert ParseHole(s[i..]) == [Literal(s[i..])];
  }

  lemma ParseFirstHole(s: string, i: nat, n: nat)
    requires FindHole(s) == Some(i) && Close(s[i..][2..], 0) == Some(n)
    ensures Parse(s) == [Literal(s[..i]), Hole(s[i..][..2 + n])] + Parse(s[i..][2 + n..])
  {
    var h := s[i..];
    TwoInFront(Literal(s[..i]), Hole(h[..2 + n]), Parse(h[2 + n..]));
  }

  lemma TwoInFront(a: Term, b: Term, rest: seq<Term>)
    ensures [a] + ([b] + rest) == [a, b] + rest
  {
  }

  lemma FlattenTwo(a: Term, b: Term, rest: seq<Term>)
    ensures Flatten([a, b] + rest) == a.text + (b.text + Flatten(rest))
  {
    var ts := [a, b] + rest;
    assert ts[1..] == [b] + rest && ts[1..][1..] == rest;
  }

  lemma FlattenOne(a: Term)
    ensures Flatten([a]) == a.text
  {
    assert [a][1..] == [];
  }

  lemma SplitTwice(s: string, i: nat, n: nat)
    requires i + n <= |s|
    ensures s[..i] + (s[i..][..n] + s[i..][n..]) == s
  {
  }

  /** Parsing loses nothing. */
  lemma {:induction false} ParseLosesNothing(s: string)
    ensures Flatten(Parse(s)) == s
    decreases |s|
  {
    match FindHole(s)
    case None =>
      if s != "" {
        FlattenOne(Literal(s));
      }
    case Some(i) =>
      var h := s[i..];
      match Close(h[2..], 0)
      case None =>
        ParseFirstOpen(s, i);
        FlattenTwo(Literal(s[..i]), Literal(h), []);
        assert [Literal(s[..i]), Literal(h)] + [] == [Literal(s[..i]), Literal(h)];
        SplitTwice(s, i, |h|);
      case Some(n) =>
        ParseFirstHole(s, i, n);
        FlattenTwo(Literal(s[..i]), Hole(h[..2 + n]), Parse(h[2 + n..]));
        ParseLosesNothing(h[2 + n..]);
        SplitTwice(s, i, 2 + n);
  }

  lemma CanonicalCons(l: string, h: string, rest: seq<Term>)
    requires Plain(l) && IsHole(h) && Canonical(rest)
    ensures Canonical([Literal(l), Hole(h)] + rest)
  {
    var ts := [Literal(l), Hole(h)] + rest;
    assert ts[2..] == rest;
  }

  lemma ClosedIsHole(h: string)
    requires StartsHole(h) && Close(h[2..], 0).Some?
    ensures IsHole(h[..2 + Close(h[2..], 0).value])
  {
    var n := Close(h[2..], 0).value;
    CloseIsBalanced(h[2..], 0);
    assert h[..2 + n][2..1 + n] == h[2..][..n - 1] && h[1 + n] == h[2..][n - 1];
  }

  /** The parse is canonical. */
  lemma {:induction false} ParseIsCanonical(s: string)
    ensures Canonical(Parse(s))
    decreases |s|
  {
    match FindHole(s)
    case None => FindHoleIsFirst(s);
    case Some(i) =>
      PlainPrefix(s);
      var h := s[i..];
      match Close(h[2..], 0)
      case None =>
        ParseFirstOpen(s, i);
        CloseNoneIffUnterminated(h);
      case Some(n) =>
        ParseFirstHole(s, i, n);
        ClosedIsHole(h);
        ParseIsCanonical(h[2 + n..]);
        CanonicalCons(s[..i], h[..2 + n], Parse(h[2 + n..]));
  }

  lemma HoleThenRest(h: string, rest: string)
    requires IsHole(h)
    ensures StartsHole(h + rest) && ParseHole(h + rest) == [Hole(h)] + Parse(rest)
  {
    var body := h[2..|h| - 1];
    BalancedCloses(body, rest);
    assert (h + rest)[2..] == body + "]" + rest;
    assert (h + rest)[..2 + |body| + 1] == h && (h + rest)[2 + |body| + 1..] == rest;
  }

  /** Any canonical list of terms is the parse of its text: the decomposition is unique. */
  lemma {:induction false} CanonicalIsParse(ts: seq<Term>)
    requires Canonical(ts)
    ensures Parse(Flatten(ts)) == ts
    decreases |ts|
  {
    if ts != [] {
      var l := ts[0].text;
      if |ts| == 1 {
        assert ts[1..] == [] && Flatten(ts) == l + "" == l;
        FindHoleSkipsPlain(l, "");
        assert l + "" == l;
      } else {
        var u := ts[1].text;
        var rest := Flatten(ts[2..]);
        assert ts[1..][1..] == ts[2..];
        assert Flatten(ts) == l + (u + rest);
        FindHoleSkipsPlain(l, u + rest);
        assert FindHole(u + rest) == Some(0);
        assert (l + (u + rest))[..|l|] == l && (l + (u + rest))[|l|..] == u + rest;
        if ts[1].Hole? {
          CanonicalIsParse(ts[2..]);
          HoleThenRest(u, rest);
          assert ts == [ts[0], ts[1]] + ts[2..];
        } else {
          assert ts[2..] == [] && u + rest == u;
          CloseNoneIffUnterminated(u);
          assert ts == [Literal(l), Literal(u)];
        }
      }
    }
  }

  // The text ends inside a hole.
  predicate EndsInside(s: string)
    decreases |s|
  {
    match FindHole(s)
    case None => false
    case Some(i) =>
      match Close(s[i..][2..], 0)
      case None => true
      case Some(n) => EndsInside(s[i..][2 + n..])
  }

  predicate Alternates(ts: seq<Term>) {
    forall i :: 0 <= i < |ts| ==> (ts[i].Hole? <==> i % 2 == 1)
  }

  lemma AlternatesCons(l: string, h: string, rest: seq<Term>)
    ensures Alternates([Literal(l), Hole(h)] + rest) <==> Alternates(rest)
  {
    var ts := [Literal(l), Hole(h)] + rest;
    assert forall k :: 0 <= k < |rest| ==> rest[k] == ts[k + 2];
    assert forall k :: 2 <= k < |ts| ==> ts[k] == rest[k - 2];
  }

  /** Literals and holes alternate exactly when the text does not end inside a hole. */
  lemma {:induction false} AlternatesIff(s: string)
    ensures Alternates(Parse(s)) <==> !EndsInside(s)
    decreases |s|
  {
    match FindHole(s)
    case None =>
    case Some(i) =>
      var h := s[i..];
      match Close(h[2..], 0)
      case None =>
        ParseFirstOpen(s, i);
        assert Parse(s)[1].Literal?;
      case Some(n) =>
        ParseFirstHole(s, i, n);
        AlternatesIff(h[2 + n..]);
        AlternatesCons(s[..i], h[..2 + n], Parse(h[2 + n..]));
  }

  /** For instance the text ":[" is two literals in a row. */
  lemma OpenHoleDoesNotAlternate(s: string)
    requires s == ":["
    ensures Parse(s) == [Literal(""), Literal(s)] && !Alternates(Parse(s))
  {
    assert s[0..] == s && s[..0] == "" && s[2..] == "";
    ParseFirstOpen(s, 0);
    assert Parse(s)[1].Literal?;
  }

  /** ---- The scanning loop ---- */

  // No hole start lies across the boundary of the token and the text still to read.
  predicate NoStraddle(token: string, buf: string) {
    token == "" || buf == "" || !(token[|token| - 1] == ':' && buf[0] == '[')
  }

  lemma PlainAppend(token: string, r: char)
    requires Plain(token) && NoStraddle(token, [r])
    ensures Plain(token + [r])
  {
    var t := token + [r];
    forall i | 0 <= i < |t| ensures !StartsHole(t[i..]) {
      if i < |token| {
        assert !StartsHole(token[i..]);
        assert t[i..] == token[i..] + [r];
      }
    }
  }

  lemma StartHole(token: string, buf: string)
    requires Plain(token) && StartsHole(buf)
    ensures Parse(token + buf) == [Literal(token)] + ParseHole(buf)
  {
    var s := token + buf;
    FindHoleSkipsPlain(token, buf);
    assert s[..|token|] == token && s[|token|..] == buf;
  }

  lemma CloseHole(token: string, close: char, rest: string)
    requires StartsHole(token) && Balanced(token[2..])
    requires close == ']'
    ensures ParseHole(token + [close] + rest) == [Hole(token + [close])] + Parse(rest)
  {
    var h := token + [close];
    assert h[2..|h| - 1] == token[2..];
    HoleThenRest(h, rest);
  }

  lemma WalkAppend(token: string, added: string, d: nat)
    requires |token| >= 2 && Walk(token[2..], 0) == Some(d)
    ensures Walk((token + added)[2..], 0) == Walk(added, d)
  {
    WalkThenWalk(token[2..], added, 0);
    assert (token + added)[2..] == token[2..] + added;
  }

  lemma EndOfText(token: string)
    ensures Plain(token) ==> Parse(token) == if token == "" then [] else [Literal(token)]
    ensures StartsHole(token) && (Walk(token[2..], 0).Some? || Close(token[2..], 0).None?) ==>
              ParseHole(token) == [Literal(token)]
  {
    if Plain(token) {
      FindHoleSkipsPlain(token, "");
      assert token + "" == token;
    }
    if StartsHole(token) && Walk(token[2..], 0).Some? {
      WalkThenClose(token[2..], "", 0);
      assert token[2..] + "" == token[2..];
    }
  }

  // The loop's variables: what is left to produce is the parse of the token and the unread text.
  ghost predicate Scanning(input: string, result: seq<Term>, token: string, buf: string, open: int, inside: int) {
    && 0 <= open <= 1 && 0 <= inside && (open == 0 ==> inside == 0)
    && (open == 0 ==> Plain(token) && NoStraddle(token, buf) && Parse(input) == result + Parse(token + buf))
    && (open == 1 ==>
          && StartsHole(token) && Parse(input) == result + ParseHole(token + buf)
          && (Walk(token[2..], 0) == Some(inside) || (buf == "" && Close(token[2..], 0).None?)))
  }

  lemma ScanEscape(input: string, result: seq<Term>, token: string, buf: string, inside: int)
    requires Scanning(input, result, token, buf, 1, inside) && buf != "" && buf[0] == '\\'
    ensures |buf| > 1 ==> Scanning(input, result, token + [buf[0]] + [buf[1]], buf[1..][1..], 1, inside)
    ensures |buf| == 1 ==> Scanning(input, result, token + [buf[0]], buf[1..], 1, inside)
  {
    if |buf| > 1 {
      var pair := [buf[0]] + [buf[1]];
      WalkAppend(token, pair, inside);
      assert token + [buf[0]] + [buf[1]] == token + pair;
      assert token + pair + buf[1..][1..] == token + buf;
    } else {
      WalkThenClose(token[2..], buf, 0);
      assert buf == [buf[0]] && (token + buf)[2..] == token[2..] + buf;
      assert token + [buf[0]] + buf[1..] == token + buf;
    }
  }

  lemma ScanInside(input: string, result: seq<Term>, token: string, buf: string, inside: int)
    requires Scanning(input, result, token, buf, 1, inside) && buf != "" && buf[0] != '\\'
    requires buf[0] == ']' ==> inside > 0
    ensures var d := if buf[0] == '[' then inside + 1 else if buf[0] == ']' then inside - 1 else inside;
            Scanning(input, result, token + [buf[0]], buf[1..], 1, d)
  {
    WalkAppend(token, [buf[0]], inside);
    assert token + [buf[0]] + buf[1..] == token + buf;
  }

  lemma ScanClose(input: string, result: seq<Term>, token: string, buf: string)
    requires Scanning(input, result, token, buf, 1, 0) && buf != "" && buf[0] == ']'
    ensures Scanning(input, result + [Hole(token + [buf[0]])], "", buf[1..], 0, 0)
  {
    var h, rest := token + [buf[0]], buf[1..];
    assert token + buf == h + rest && "" + rest == rest;
    CloseHole(token, buf[0], rest);
    MoveOver(result, Hole(h), Parse(rest));
  }

  lemma MoveOver(result: seq<Term>, t: Term, rest: seq<Term>)
    ensures result + ([t] + rest) == result + [t] + rest
  {
  }

  lemma ScanOpen(input: string, result: seq<Term>, token: string, buf: string, start: string)
    requires Scanning(input, result, token, buf, 0, 0) && StartsHole(buf) && start == ":["
    ensures Scanning(input, result + [Literal(token)], start, buf[1..][1..], 1, 0)
  {
    assert buf == start + buf[1..][1..] && start[2..] == "";
    StartHole(token, buf);
    MoveOver(result, Literal(token), ParseHole(buf));
  }

  lemma ScanPlain(input: string, result: seq<Term>, token: string, buf: string)
    requires Scanning(input, result, token, buf, 0, 0) && buf != "" && !StartsHole(buf)
    ensures Scanning(input, result, token + [buf[0]], buf[1..], 0, 0)
  {
    PlainAppend(token, buf[0]);
    assert token + [buf[0]] + buf[1..] == token + buf;
  }

  lemma ScanStart(input: string)
    ensures Scanning(input, [], "", input, 0, 0)
  {
    assert "" + input == input && [] + Parse(input) == Parse(input);
  }

  lemma ScanEnd(input: string, result: seq<Term>, token: string, open: int, inside: int)
    requires Scanning(input, result, token, "", open, inside)
    ensures Parse(input) == result + if token == "" then [] else [Literal(token)]
  {
    EndOfText(token);
    assert token + "" == token;
  }

  /** The loop computes the parse; `open` is 0 or 1, and `inside` is 0 outside holes. */
  method ParseTemplate(input: string) returns (result: seq<Term>)
    ensures result == Parse(input)
  {
    var buf, token := input, "";
    var open, inside := 0, 0;
    result := [];
    ScanStart(input);
    while |buf| > 0
      invariant Scanning(input, result, token, buf, open, inside)
      decreases |buf|
    {
      ghost var before := buf;
      var r := buf[0];
      buf := buf[1..];
      if r == ':' && open == 0 && |buf| > 0 && buf[0] == '[' {
        // The start of a hole: persist the literal and consume the bracket.
        ScanOpen(input, result, token, before, ":[");
        buf := buf[1..];
        open := open + 1;
        result := result + [Literal(token)];
        token := ":[";
      } else if r == '\\' && open > 0 {
        // An escape inside a hole takes the next rune with it.
        ScanEscape(input, result, token, before, inside);
        token := token + [r];
        if |buf| > 0 {
          token := token + [buf[0]];
          buf := buf[1..];
        }
      } else if r == ']' && open > 0 && inside == 0 {
        ScanClose(input, result, token, before);
        open := open - 1;
        token := token + [r];
        result := result + [Hole(token)];
        token := "";
      } else if open > 0 {
        ScanInside(input, result, token, before, inside);
        if r == '[' {
          inside := inside + 1;
        } else if r == ']' {
          inside := inside - 1;
        }
        token := token + [r];
      } else {
        ScanPlain(input, result, token, before);
        token := token + [r];
      }
    }
    ScanEnd(input, result, token, open, inside);
    if |token| > 0 {
      result := result + [Literal(token)];
    }
  }
}
