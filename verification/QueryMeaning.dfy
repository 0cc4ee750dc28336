/**
  What the emitted query matches, told by the terms of the template alone: a part of the text for
  each literal and each extracted regexp, in order (internal/comby/translate.go,
  StructuralPatToRegexpQuery).
 */
module QueryMeaning {
  import opened Template
  import opened Holes
  import opened Regexp
  import opened Translate

  // A term the query asks for: a literal with text, or a hole the extraction finds a regexp in.
  predicate AsksFor(t: Term) {
    t.text != "" && (t.Hole? ==> HasMatch(t.text))
  }

  // A text that meets the term.
  ghost predicate Meets(t: Term, part: string, lang: Language) {
    match t
    case Literal(s) => FillsLiteral(s, part)
    case Hole(h) => lang(ReplaceAll(h), part)
  }

  // Between two parts lies any text, or any text on one line.
  predicate GapAllowed(gap: string, shortcircuit: bool) {
    shortcircuit ==> OneLine(gap)
  }

  // From the start of the text: a gap, a part for the first term asked for, and so on.
  ghost predicate InOrder(ts: seq<Term>, text: string, lang: Language, shortcircuit: bool)
    decreases |ts|
  {
    if ts == [] then true
    else if !AsksFor(ts[0]) then InOrder(ts[1..], text, lang, shortcircuit)
    else exists i, j :: PartAt(ts, text, i, j, lang, shortcircuit)
  }

  ghost predicate PartAt(ts: seq<Term>, text: string, i: int, j: int, lang: Language, shortcircuit: bool)
    requires ts != []
    decreases |ts|, 0
  {
    && 0 <= i <= j <= |text| && GapAllowed(text[..i], shortcircuit) && Meets(ts[0], text[i..j], lang)
    && InOrder(ts[1..], text[j..], lang, shortcircuit)
  }

  // The first part may lie anywhere.
  ghost predicate Holds(ts: seq<Term>, text: string, lang: Language, shortcircuit: bool) {
    exists k :: 0 <= k <= |text| && InOrder(ts, text[k..], lang, shortcircuit)
  }

  /** ---- Pieces in order ---- */

  function GapOf(shortcircuit: bool): Rx {
    if shortcircuit then LINE_GAP else ANY_GAP
  }

  lemma {:induction false} LineGapMatchesIff(s: string, lang: Language)
    ensures Matches(LINE_GAP, s, lang) <==> OneLine(s)
  {
    if s != "" {
      forall k | 0 < k <= |s| ensures Matches(LINE_GAP, s[k..], lang) <==> OneLine(s[k..]) {
        LineGapMatchesIff(s[k..], lang);
      }
      assert s[..1] == [s[0]];
      assert s == s[..1] + s[1..];
      if OneLine(s) {
        assert s[0] in s && OneLine(s[1..]);
        assert Matches(Dot, s[..1], lang) && Matches(LINE_GAP, s[1..], lang);
      }
      if Matches(LINE_GAP, s, lang) {
        var k :| 0 < k <= |s| && Matches(Dot, s[..k], lang) && Matches(LINE_GAP, s[k..], lang);
        assert k == 1;
      }
    }
  }

  lemma GapMatchesIff(s: string, lang: Language, shortcircuit: bool)
    ensures Matches(GapOf(shortcircuit), s, lang) <==> GapAllowed(s, shortcircuit)
  {
    LineGapMatchesIff(s, lang);
    AnyGapMatchesAll(s, lang);
  }

  lemma PieceMeets(t: Term, part: string, lang: Language)
    ensures Piece(t).Some? <==> AsksFor(t)
    ensures AsksFor(t) ==> (Matches(Piece(t).value, part, lang) <==> Meets(t, part, lang))
  {
    if t.Literal? {
      LiteralMatchesItsFillings(t.text, part, lang);
    }
  }

  // The joined pieces match some beginning of the text.
  ghost predicate Begins(ps: seq<Rx>, gap: Rx, text: string, lang: Language)
    requires ps != []
  {
    exists e :: 0 <= e <= |text| && Matches(Join(ps, gap), text[..e], lang)
  }

  // The first piece matches up to a, and the others begin at b.
  ghost predicate Split(ps: seq<Rx>, gap: Rx, text: string, a: int, b: int, lang: Language)
    requires |ps| > 1
  {
    && 0 <= a <= b <= |text| && Matches(ps[0], text[..a], lang) && Matches(gap, text[a..b], lang)
    && Begins(ps[1..], gap, text[b..], lang)
  }

  lemma BeginsOne(p: Rx, gap: Rx, text: string, lang: Language)
    ensures Begins([p], gap, text, lang) <==> exists e :: 0 <= e <= |text| && Matches(p, text[..e], lang)
  {
    forall e | 0 <= e <= |text|
      ensures Matches(Join([p], gap), text[..e], lang) <==> Matches(p, text[..e], lang)
    {
    }
  }

  lemma TakeParts(text: string, a: int, b: int, e: int)
    requires 0 <= a <= b <= e <= |text|
    ensures text[..e][..a] == text[..a] && text[..e][a..b] == text[a..b] && text[..e][b..] == text[b..e]
  {
  }

  lemma BeginsSplits(ps: seq<Rx>, gap: Rx, text: string, lang: Language)
    requires |ps| > 1 && Begins(ps, gap, text, lang)
    ensures exists a, b :: Split(ps, gap, text, a, b, lang)
  {
    var e :| 0 <= e <= |text| && Matches(Join(ps, gap), text[..e], lang);
    var s := text[..e];
    var a, b := JoinParts(ps, gap, s, lang);
    TakeParts(text, a, b, e);
    assert text[b..][..e - b] == text[b..e];
    assert Split(ps, gap, text, a, b, lang);
  }

  lemma SplitBegins(ps: seq<Rx>, gap: Rx, text: string, a: int, b: int, lang: Language)
    requires |ps| > 1 && Split(ps, gap, text, a, b, lang)
    ensures Begins(ps, gap, text, lang)
  {
    var rest := text[b..];
    var e :| 0 <= e <= |rest| && Matches(Join(ps[1..], gap), rest[..e], lang);
    var s := text[..b + e];
    TakeParts(text, a, b, b + e);
    assert rest[..e] == text[b..b + e];
    JoinCat(ps, gap, s, a, b, lang);
  }

  // After a gap the pieces begin; nothing is asked of no pieces.
  ghost predicate Later(ps: seq<Rx>, text: string, lang: Language, shortcircuit: bool) {
    ps == [] ||
    exists i ::
      0 <= i <= |text| && GapAllowed(text[..i], shortcircuit) && Begins(ps, GapOf(shortcircuit), text[i..], lang)
  }

  // A first piece up to j, and the others later.
  lemma BeginsIff(ps: seq<Rx>, text: string, lang: Language, shortcircuit: bool)
    requires ps != []
    ensures Begins(ps, GapOf(shortcircuit), text, lang) <==>
            exists j ::
              0 <= j <= |text| && Matches(ps[0], text[..j], lang) && Later(ps[1..], text[j..], lang, shortcircuit)
  {
    var gap := GapOf(shortcircuit);
    if |ps| == 1 {
      assert ps == [ps[0]];
      BeginsOne(ps[0], gap, text, lang);
    } else {
      if Begins(ps, gap, text, lang) {
        BeginsSplits(ps, gap, text, lang);
        var a, b :| Split(ps, gap, text, a, b, lang);
        SplitIsLater(ps, text, a, b, lang, shortcircuit);
      }
      if j :| 0 <= j <= |text| && Matches(ps[0], text[..j], lang) && Later(ps[1..], text[j..], lang, shortcircuit) {
        LaterIsSplit(ps, text, j, lang, shortcircuit);
      }
    }
  }

  lemma SplitIsLater(ps: seq<Rx>, text: string, a: int, b: int, lang: Language, shortcircuit: bool)
    requires |ps| > 1 && Split(ps, GapOf(shortcircuit), text, a, b, lang)
    ensures Later(ps[1..], text[a..], lang, shortcircuit)
  {
    DropTake(text, a, b - a);
    GapMatchesIff(text[a..b], lang, shortcircuit);
    assert text[a..][..b - a] == text[a..b] && text[a..][b - a..] == text[b..];
  }

  lemma LaterIsSplit(ps: seq<Rx>, text: string, j: int, lang: Language, shortcircuit: bool)
    requires |ps| > 1 && 0 <= j <= |text| && Matches(ps[0], text[..j], lang)
    requires Later(ps[1..], text[j..], lang, shortcircuit)
    ensures Begins(ps, GapOf(shortcircuit), text, lang)
  {
    var gap, rest := GapOf(shortcircuit), text[j..];
    var i :| 0 <= i <= |rest| && GapAllowed(rest[..i], shortcircuit) && Begins(ps[1..], gap, rest[i..], lang);
    DropTake(text, j, i);
    GapMatchesIff(text[j..j + i], lang, shortcircuit);
    assert Split(ps, gap, text, j, j + i, lang);
    SplitBegins(ps, gap, text, j, j + i, lang);
  }

  /** ---- Terms in order ---- */

  lemma {:induction false} InOrderIsLater(ts: seq<Term>, text: string, lang: Language, shortcircuit: bool)
    ensures InOrder(ts, text, lang, shortcircuit) <==> Later(Pieces(ts), text, lang, shortcircuit)
    decreases |ts|
  {
    if ts != [] {
      PieceMeets(ts[0], "", lang);
      if !AsksFor(ts[0]) {
        assert Pieces(ts) == Pieces(ts[1..]);
        InOrderIsLater(ts[1..], text, lang, shortcircuit);
      } else {
        if i, j :| PartAt(ts, text, i, j, lang, shortcircuit) {
          InOrderIsLater(ts[1..], text[j..], lang, shortcircuit);
          PartIsLater(ts, text, i, j, lang, shortcircuit);
        }
        if Later(Pieces(ts), text, lang, shortcircuit) {
          var i, j := LaterHasPart(ts, text, lang, shortcircuit);
          InOrderIsLater(ts[1..], text[j..], lang, shortcircuit);
          assert PartAt(ts, text, i, j, lang, shortcircuit);
        }
      }
    }
  }

  lemma FirstPiece(ts: seq<Term>)
    requires ts != [] && AsksFor(ts[0])
    ensures Piece(ts[0]).Some? && Pieces(ts) != [] && Pieces(ts)[0] == Piece(ts[0]).value
    ensures Pieces(ts)[1..] == Pieces(ts[1..])
  {
    PieceMeets(ts[0], "", (r, s) => true);
  }

  lemma PartIsLater(ts: seq<Term>, text: string, i: int, j: int, lang: Language, shortcircuit: bool)
    requires ts != [] && AsksFor(ts[0]) && PartAt(ts, text, i, j, lang, shortcircuit)
    requires Later(Pieces(ts[1..]), text[j..], lang, shortcircuit)
    ensures Later(Pieces(ts), text, lang, shortcircuit)
  {
    FirstPiece(ts);
    PieceMeets(ts[0], text[i..j], lang);
    DropTake(text, i, j - i);
    assert text[i..][..j - i] == text[i..j] && text[i..][j - i..] == text[j..];
    BeginsIff(Pieces(ts), text[i..], lang, shortcircuit);
  }

  lemma LaterHasPart(ts: seq<Term>, text: string, lang: Language, shortcircuit: bool) returns (i: int, j: int)
    requires ts != [] && AsksFor(ts[0]) && Later(Pieces(ts), text, lang, shortcircuit)
    ensures 0 <= i <= j <= |text| && GapAllowed(text[..i], shortcircuit) && Meets(ts[0], text[i..j], lang)
    ensures Later(Pieces(ts[1..]), text[j..], lang, shortcircuit)
  {
    FirstPiece(ts);
    var ps := Pieces(ts);
    i :| 0 <= i <= |text| && GapAllowed(text[..i], shortcircuit) && Begins(ps, GapOf(shortcircuit), text[i..], lang);
    BeginsIff(ps, text[i..], lang, shortcircuit);
    var rest := text[i..];
    var e :| 0 <= e <= |rest| && Matches(ps[0], rest[..e], lang) && Later(ps[1..], rest[e..], lang, shortcircuit);
    j := i + e;
    DropTake(text, i, e);
    PieceMeets(ts[0], text[i..j], lang);
  }

  lemma ContainsIffBegins(ps: seq<Rx>, gap: Rx, text: string, lang: Language)
    requires ps != []
    ensures Contains(Join(ps, gap), text, lang) <==> exists k :: 0 <= k <= |text| && Begins(ps, gap, text[k..], lang)
  {
    if i, j :| 0 <= i <= j <= |text| && Matches(Join(ps, gap), text[i..j], lang) {
      DropTake(text, i, j - i);
      assert text[i..][..j - i] == text[i..j];
    }
    if k :| 0 <= k <= |text| && Begins(ps, gap, text[k..], lang) {
      var e :| 0 <= e <= |text[k..]| && Matches(Join(ps, gap), text[k..][..e], lang);
      DropTake(text, k, e);
    }
  }

  lemma LaterAnywhere(ps: seq<Rx>, text: string, k: int, lang: Language, shortcircuit: bool) returns (m: int)
    requires ps != [] && 0 <= k <= |text| && Later(ps, text[k..], lang, shortcircuit)
    ensures 0 <= m <= |text| && Begins(ps, GapOf(shortcircuit), text[m..], lang)
  {
    var gap, rest := GapOf(shortcircuit), text[k..];
    var i :| 0 <= i <= |rest| && GapAllowed(rest[..i], shortcircuit) && Begins(ps, gap, rest[i..], lang);
    m := k + i;
    DropTake(text, k, i);
  }

  lemma BeginsIsLater(ps: seq<Rx>, text: string, lang: Language, shortcircuit: bool)
    requires ps != [] && Begins(ps, GapOf(shortcircuit), text, lang)
    ensures Later(ps, text, lang, shortcircuit)
  {
    assert text[0..] == text && text[..0] == "" && GapAllowed(text[..0], shortcircuit);
  }

  /** A text contains a match of the query exactly when it holds, in order and without overlap, a part
      that agrees with each non-empty literal up to whitespace runs, and a match of the regexp
      extracted from each hole that has one; with shortcircuit no newline lies between the parts. */
  lemma ContainsIffHolds(pattern: string, shortcircuit: bool, text: string, lang: Language)
    ensures Contains(Query(pattern, shortcircuit), text, lang) <==> Holds(Parse(pattern), text, lang, shortcircuit)
  {
    var ts := Parse(pattern);
    var ps, gap := Pieces(ts), GapOf(shortcircuit);
    if ps == [] {
      AnyGapMatchesAll(text[0..0], lang);
      InOrderIsLater(ts, text[0..], lang, shortcircuit);
    } else {
      ContainsIffBegins(ps, gap, text, lang);
      if k :| 0 <= k <= |text| && Begins(ps, gap, text[k..], lang) {
        BeginsIsLater(ps, text[k..], lang, shortcircuit);
        InOrderIsLater(ts, text[k..], lang, shortcircuit);
      }
      if k :| 0 <= k <= |text| && InOrder(ts, text[k..], lang, shortcircuit) {
        InOrderIsLater(ts, text[k..], lang, shortcircuit);
        var m := LaterAnywhere(ps, text, k, lang, shortcircuit);
      }
    }
  }
}
