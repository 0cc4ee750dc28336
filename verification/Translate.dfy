/**
  Translating a structural-search template to a regexp query (internal/comby/translate.go,
  StructuralPatToRegexpQuery).  The query is a tree of Regexp; QueryText builds its text the way
  the source does.
 */
module Translate {
  import opened Options
  import opened Template
  import opened Holes
  import opened Regexp

  /** ---- Literals ---- */

  // Length of the longest whitespace prefix.
  function SpaceRun(s: string): (n: nat)
    ensures n <= |s| && (forall i :: 0 <= i < n ==> IsSpace(s[i])) && (n < |s| ==> !IsSpace(s[n]))
  {
    if s == "" || !IsSpace(s[0]) then 0 else 1 + SpaceRun(s[1..])
  }

  function LiteralRx(s: string): Rx
    decreases |s|
  {
    if s == "" then Nothing
    else if IsSpace(s[0]) then Cat(SPACES, LiteralRx(s[SpaceRun(s)..]))
    else Cat(Char(s[0]), LiteralRx(s[1..]))
  }

  // A text that agrees with the literal, with any non-empty whitespace for each whitespace run.
  ghost predicate FillsLiteral(s: string, text: string)
    decreases |s|
  {
    if s == "" then text == ""
    else if IsSpace(s[0]) then
      exists k :: 0 < k <= |text| && AllSpace(text[..k]) && FillsLiteral(s[SpaceRun(s)..], text[k..])
    else text != "" && text[0] == s[0] && FillsLiteral(s[1..], text[1..])
  }

  /** A literal's piece matches exactly the texts that fill the literal. */
  lemma {:induction false} LiteralMatchesItsFillings(s: string, text: string, lang: Language)
    ensures Matches(LiteralRx(s), text, lang) <==> FillsLiteral(s, text)
    decreases |s|
  {
    if s == "" {
    } else if IsSpace(s[0]) {
      var rest := s[SpaceRun(s)..];
      forall k | 0 <= k <= |text|
        ensures Matches(SPACES, text[..k], lang) <==> k > 0 && AllSpace(text[..k])
        ensures Matches(LiteralRx(rest), text[k..], lang) <==> FillsLiteral(rest, text[k..])
      {
        SpacesMatch(text[..k], lang);
        LiteralMatchesItsFillings(rest, text[k..], lang);
      }
    } else {
      forall k | 0 <= k <= |text|
        ensures Matches(Char(s[0]), text[..k], lang) <==> k == 1 && text[0] == s[0]
      {
        assert k == 1 ==> text[..k] == [text[0]];
      }
      if text != "" {
        LiteralMatchesItsFillings(s[1..], text[1..], lang);
        assert 0 <= 1 <= |text|;
      }
    }
  }

  /** ---- The query ---- */

  function Piece(t: Term): Option<Rx> {
    if t.text == "" then None
    else match t
      case Literal(s) => Some(LiteralRx(s))
      case Hole(h) =>
        match Extract(h)
        case None => None
        case Some(re) => Some(User(re))
  }

  function Pieces(ts: seq<Term>): seq<Rx> {
    if ts == [] then []
    else (match Piece(ts[0]) case None => [] case Some(p) => [p]) + Pieces(ts[1..])
  }

  function Join(ps: seq<Rx>, gap: Rx): Rx
    requires ps != []
  {
    if |ps| == 1 then Group(ps[0]) else Cat(Group(ps[0]), Cat(gap, Join(ps[1..], gap)))
  }

  function Query(pattern: string, shortcircuit: bool): Rx {
    var ps := Pieces(Parse(pattern));
    if ps == [] then ANY_GAP else Join(ps, if shortcircuit then LINE_GAP else ANY_GAP)
  }

  /** ---- Texts a template describes ---- */

  ghost predicate FillsTerm(t: Term, text: string, lang: Language) {
    match t
    case Literal(s) => FillsLiteral(s, text)
    case Hole(h) => IsHole(h) && (MeaningOf(h).Matching? ==> lang(MeaningOf(h).re, text))
  }

  ghost predicate Fills(ts: seq<Term>, text: string, lang: Language) {
    if ts == [] then text == ""
    else exists k :: 0 <= k <= |text| && FillsTerm(ts[0], text[..k], lang) && Fills(ts[1..], text[k..], lang)
  }

  predicate SoundHoles(ts: seq<Term>) {
    forall i :: 0 <= i < |ts| && ts[i].Hole? ==> IsHole(ts[i].text) && Sound(ts[i].text)
  }

  // A hole the extraction pattern skips, or a regexp hole written on one line.
  predicate CleanHole(h: string)
    requires IsHole(h)
  {
    !HasMatch(h) || (MeaningOf(h).Matching? && OneLine(MeaningOf(h).re))
  }

  predicate CleanHoles(ts: seq<Term>) {
    forall i :: 0 <= i < |ts| && ts[i].Hole? && IsHole(ts[i].text) ==> CleanHole(ts[i].text)
  }

  lemma {:induction false} CanonicalHoles(ts: seq<Term>, i: nat)
    requires Canonical(ts) && i < |ts| && ts[i].Hole?
    ensures IsHole(ts[i].text)
    decreases |ts|
  {
    if i >= 2 {
      CanonicalHoles(ts[2..], i - 2);
    }
  }

  lemma CleanIsSound(pattern: string)
    ensures CleanHoles(Parse(pattern)) <==> SoundHoles(Parse(pattern))
  {
    var ts := Parse(pattern);
    ParseIsCanonical(pattern);
    forall i | 0 <= i < |ts| && ts[i].Hole?
      ensures IsHole(ts[i].text) && (CleanHole(ts[i].text) <==> Sound(ts[i].text))
    {
      CanonicalHoles(ts, i);
      SoundIff(ts[i].text);
    }
  }

  // The pieces match one after another somewhere in the text.
  ghost predicate Spread(ps: seq<Rx>, text: string, lang: Language)
    decreases |ps|
  {
    ps == [] ||
    exists i, j :: 0 <= i <= j <= |text| && Matches(ps[0], text[i..j], lang) && Spread(ps[1..], text[j..], lang)
  }

  lemma FilledTermMatchesPiece(t: Term, text: string, lang: Language)
    requires FillsTerm(t, text, lang) && (t.Hole? ==> Sound(t.text))
    ensures Piece(t).Some? ==> Matches(Piece(t).value, text, lang)
  {
    match t
    case Literal(s) => LiteralMatchesItsFillings(s, text, lang);
    case Hole(h) =>
  }

  lemma {:induction false} SpreadLater(ps: seq<Rx>, text: string, k: nat, lang: Language)
    requires k <= |text| && Spread(ps, text[k..], lang)
    ensures Spread(ps, text, lang)
  {
    if ps != [] {
      var rest := text[k..];
      var i, j :| 0 <= i <= j <= |rest| && Matches(ps[0], rest[i..j], lang) && Spread(ps[1..], rest[j..], lang);
      assert text[k + i..k + j] == rest[i..j] && text[k + j..] == rest[j..];
    }
  }

  lemma {:induction false} FilledSpreads(ts: seq<Term>, text: string, lang: Language)
    requires Fills(ts, text, lang) && SoundHoles(ts)
    ensures Spread(Pieces(ts), text, lang)
    decreases |ts|
  {
    if ts != [] {
      var k :| 0 <= k <= |text| && FillsTerm(ts[0], text[..k], lang) && Fills(ts[1..], text[k..], lang);
      FilledTermMatchesPiece(ts[0], text[..k], lang);
      FilledSpreads(ts[1..], text[k..], lang);
      match Piece(ts[0])
      case None =>
        assert Pieces(ts) == Pieces(ts[1..]);
        SpreadLater(Pieces(ts[1..]), text, k, lang);
      case Some(p) =>
        assert Pieces(ts)[0] == p && Pieces(ts)[1..] == Pieces(ts[1..]);
        assert text[0..k] == text[..k];
    }
  }

  lemma JoinCat(ps: seq<Rx>, gap: Rx, s: string, a: nat, b: nat, lang: Language)
    requires |ps| > 1 && a <= b <= |s|
    requires Matches(ps[0], s[..a], lang) && Matches(gap, s[a..b], lang) && Matches(Join(ps[1..], gap), s[b..], lang)
    ensures Matches(Join(ps, gap), s, lang)
  {
    var rest := s[a..];
    assert rest[..b - a] == s[a..b] && rest[b - a..] == s[b..];
    assert Matches(Cat(gap, Join(ps[1..], gap)), rest, lang);
    assert Matches(Group(ps[0]), s[..a], lang);
  }

  // A match of the first piece in front of a text that contains the others.
  lemma JoinInFront(ps: seq<Rx>, text: string, i: nat, j: nat, lang: Language)
    requires |ps| > 1 && i <= j <= |text| && Matches(ps[0], text[i..j], lang)
    requires Contains(Join(ps[1..], ANY_GAP), text[j..], lang)
    ensures Contains(Join(ps, ANY_GAP), text, lang)
  {
    var rest := text[j..];
    var c, d :| 0 <= c <= d <= |rest| && Matches(Join(ps[1..], ANY_GAP), rest[c..d], lang);
    var s := text[i..j + d];
    var a, b := j - i, j - i + c;
    assert s[..a] == text[i..j] && s[b..] == rest[c..d];
    AnyGapMatchesAll(s[a..b], lang);
    JoinCat(ps, ANY_GAP, s, a, b, lang);
  }

  lemma {:induction false} SpreadIsContained(ps: seq<Rx>, text: string, lang: Language)
    requires ps != [] && Spread(ps, text, lang)
    ensures Contains(Join(ps, ANY_GAP), text, lang)
    decreases |ps|
  {
    var i, j :| 0 <= i <= j <= |text| && Matches(ps[0], text[i..j], lang) && Spread(ps[1..], text[j..], lang);
    if |ps| == 1 {
      assert Matches(Group(ps[0]), text[i..j], lang);
    } else {
      SpreadIsContained(ps[1..], text[j..], lang);
      JoinInFront(ps, text, i, j, lang);
    }
  }

  /** The translation is a sound over-approximation: every text that fills the template, with any
      text for a plain hole, a match for a regexp hole and any whitespace for whitespace, contains
      a match of the query. */
  lemma TranslationOverApproximates(pattern: string, text: string, lang: Language)
    requires CleanHoles(Parse(pattern)) && Fills(Parse(pattern), text, lang)
    ensures Contains(Query(pattern, false), text, lang)
  {
    CleanIsSound(pattern);
    var ps := Pieces(Parse(pattern));
    if ps == [] {
      AnyGapMatchesAll(text[0..0], lang);
    } else {
      FilledSpreads(Parse(pattern), text, lang);
      SpreadIsContained(ps, text, lang);
    }
  }

  lemma CatParts(l: Rx, r: Rx, s: string, lang: Language) returns (k: nat)
    requires Matches(Cat(l, r), s, lang)
    ensures k <= |s| && Matches(l, s[..k], lang) && Matches(r, s[k..], lang)
  {
    k :| 0 <= k <= |s| && Matches(l, s[..k], lang) && Matches(r, s[k..], lang);
  }

  lemma DropTake(s: string, a: nat, c: nat)
    requires a + c <= |s|
    ensures s[a..][..c] == s[a..a + c] && s[a..][c..] == s[a + c..]
  {
  }

  lemma JoinParts(ps: seq<Rx>, gap: Rx, s: string, lang: Language) returns (a: nat, b: nat)
    requires |ps| > 1 && Matches(Join(ps, gap), s, lang)
    ensures a <= b <= |s|
    ensures Matches(ps[0], s[..a], lang) && Matches(gap, s[a..b], lang) && Matches(Join(ps[1..], gap), s[b..], lang)
  {
    var rest := Join(ps[1..], gap);
    assert Join(ps, gap) == Cat(Group(ps[0]), Cat(gap, rest));
    a := CatParts(Group(ps[0]), Cat(gap, rest), s, lang);
    var c := CatParts(gap, rest, s[a..], lang);
    b := a + c;
    DropTake(s, a, c);
  }

  lemma {:induction false} LineJoinIsAnyJoin(ps: seq<Rx>, s: string, lang: Language)
    requires ps != [] && Matches(Join(ps, LINE_GAP), s, lang)
    ensures Matches(Join(ps, ANY_GAP), s, lang)
    decreases |ps|
  {
    if |ps| > 1 {
      var a, b := JoinParts(ps, LINE_GAP, s, lang);
      LineJoinIsAnyJoin(ps[1..], s[b..], lang);
      AnyGapMatchesAll(s[a..b], lang);
      JoinCat(ps, ANY_GAP, s, a, b, lang);
    }
  }

  /** Every match of the shortcircuit query is a match of the full query. */
  lemma ShortcircuitIsStricter(pattern: string, s: string, lang: Language)
    requires Matches(Query(pattern, true), s, lang)
    ensures Matches(Query(pattern, false), s, lang)
  {
    var ps := Pieces(Parse(pattern));
    if ps != [] {
      LineJoinIsAnyJoin(ps, s, lang);
    }
  }
}
