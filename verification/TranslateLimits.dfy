/**
  Exactly when the translation over-approximates: the holes that are not clean, and what the
  query then misses (internal/comby/translate.go, StructuralPatToRegexpQuery).
 */
module TranslateLimits {
  import opened Options
  import opened Template
  import opened Holes
  import opened Regexp
  import opened Translate

  // Whatever the users' regexps match, every text that fills the template contains a match.
  ghost predicate OverApproximates(pattern: string) {
    forall text, lang :: Fills(Parse(pattern), text, lang) ==> Contains(Query(pattern, false), text, lang)
  }

  predicate UncleanAt(ts: seq<Term>, i: int) {
    0 <= i < |ts| && ts[i].Hole? && IsHole(ts[i].text) && !CleanHole(ts[i].text)
  }

  predicate StandsFor(ts: seq<Term>, j: int, re: string) {
    0 <= j < |ts| && ts[j].Hole? && IsHole(ts[j].text) && MeaningOf(ts[j].text) == Matching(re)
  }

  // What is cut out of a hole that is not clean is not what some hole of the template stands for.
  predicate Unshadowed(ts: seq<Term>) {
    forall i, j :: 0 <= i < |ts| && 0 <= j < |ts| && UncleanAt(ts, i) ==> !StandsFor(ts, j, ReplaceAll(ts[i].text))
  }

  /** ---- A text that fills any template ---- */

  lemma {:induction false} LiteralFillsItself(s: string)
    ensures FillsLiteral(s, s)
    decreases |s|
  {
    if s != "" {
      if IsSpace(s[0]) {
        var k := SpaceRun(s);
        assert AllSpace(s[..k]);
        LiteralFillsItself(s[k..]);
      } else {
        LiteralFillsItself(s[1..]);
      }
    }
  }

  // The literals of a template, with nothing in its holes.
  function Literals(ts: seq<Term>): string {
    if ts == [] then "" else (if ts[0].Literal? then ts[0].text else "") + Literals(ts[1..])
  }

  // Every regexp matches everything, but for one that matches nothing.
  function AllBut(re: string): Language {
    (r, s) => r != re
  }

  lemma {:induction false} LiteralsFill(ts: seq<Term>, re: string)
    requires forall j :: 0 <= j < |ts| && ts[j].Hole? ==> IsHole(ts[j].text) && !StandsFor(ts, j, re)
    ensures Fills(ts, Literals(ts), AllBut(re))
  {
    if ts != [] {
      var first := if ts[0].Literal? then ts[0].text else "";
      var text := Literals(ts);
      assert text[..|first|] == first && text[|first|..] == Literals(ts[1..]);
      assert !StandsFor(ts, 0, re);
      if ts[0].Literal? {
        LiteralFillsItself(first);
      }
      assert FillsTerm(ts[0], first, AllBut(re));
      forall j | 0 <= j < |ts[1..]| && ts[1..][j].Hole? ensures IsHole(ts[1..][j].text) && !StandsFor(ts[1..], j, re) {
        assert ts[1..][j] == ts[j + 1] && !StandsFor(ts, j + 1, re);
      }
      LiteralsFill(ts[1..], re);
    }
  }

  /** ---- A piece that matches nothing ---- */

  lemma {:induction false} PieceOfHole(ts: seq<Term>, i: nat)
    requires i < |ts| && ts[i].Hole? && ts[i].text != "" && HasMatch(ts[i].text)
    ensures User(ReplaceAll(ts[i].text)) in Pieces(ts)
  {
    if i > 0 {
      assert ts[1..][i - 1] == ts[i];
      PieceOfHole(ts[1..], i - 1);
    }
  }

  lemma {:induction false} JoinNeedsAll(ps: seq<Rx>, gap: Rx, s: string, re: string)
    requires ps != [] && User(re) in ps
    ensures !Matches(Join(ps, gap), s, AllBut(re))
    decreases |ps|
  {
    var lang := AllBut(re);
    if Matches(Join(ps, gap), s, lang) {
      if |ps| == 1 {
        assert ps[0] == User(re);
      } else {
        var a, b := JoinParts(ps, gap, s, lang);
        if ps[0] != User(re) {
          JoinNeedsAll(ps[1..], gap, s[b..], re);
        }
      }
    }
  }

  /** ---- The exact condition ---- */

  lemma UncleanMisses(pattern: string, i: nat)
    requires Unshadowed(Parse(pattern)) && UncleanAt(Parse(pattern), i)
    ensures !OverApproximates(pattern)
  {
    var ts := Parse(pattern);
    var re := ReplaceAll(ts[i].text);
    ParseIsCanonical(pattern);
    forall j | 0 <= j < |ts| && ts[j].Hole? ensures IsHole(ts[j].text) && !StandsFor(ts, j, re) {
      CanonicalHoles(ts, j);
    }
    LiteralsFill(ts, re);
    PieceOfHole(ts, i);
    var text, lang, q := Literals(ts), AllBut(re), Query(pattern, false);
    forall a, b | 0 <= a <= b <= |text| ensures !Matches(q, text[a..b], lang) {
      JoinNeedsAll(Pieces(ts), ANY_GAP, text[a..b], re);
    }
    assert Fills(ts, text, lang) && !Contains(q, text, lang);
  }

  /** For every pattern none of whose cut-out regexps is another hole's own: the translation is a
      sound over-approximation for all texts and languages exactly when every hole is clean. */
  lemma OverApproximatesIff(pattern: string)
    requires Unshadowed(Parse(pattern))
    ensures OverApproximates(pattern) <==> CleanHoles(Parse(pattern))
  {
    if CleanHoles(Parse(pattern)) {
      forall text, lang | Fills(Parse(pattern), text, lang) ensures Contains(Query(pattern, false), text, lang) {
        TranslationOverApproximates(pattern, text, lang);
      }
    } else {
      var ts := Parse(pattern);
      var i :| 0 <= i < |ts| && ts[i].Hole? && IsHole(ts[i].text) && !CleanHole(ts[i].text);
      UncleanMisses(pattern, i);
    }
  }

  lemma HoleAlone(h: string)
    requires IsHole(h)
    ensures Parse(h) == [Literal(""), Hole(h)]
  {
    var none := "";
    HoleThenRest(h, none);
    assert h + none == h;
    StartsInHole(h);
    assert [Hole(h)] + Parse(none) == [Hole(h)];
  }

  /** A hole on its own is translated soundly exactly when it is clean. */
  lemma SingleHoleIff(h: string)
    requires IsHole(h)
    ensures OverApproximates(h) <==> CleanHole(h)
  {
    HoleAlone(h);
    SoundIff(h);
    var ts := [Literal(""), Hole(h)];
    assert ts[1] == Hole(h);
    OverApproximatesIff(h);
  }

  /** ---- A hole that is made good by another ---- */

  lemma HolePair(g: string, h: string)
    requires IsHole(g) && IsHole(h)
    ensures Parse(g + h) == [Literal(""), Hole(g), Literal(""), Hole(h)]
  {
    var none := "";
    HoleAlone(h);
    HoleThenRest(g, h);
    StartsInHole(g + h);
    FourTerms(Literal(none), Hole(g), Literal(none), Hole(h));
  }

  lemma StartsInHole(s: string)
    requires StartsHole(s)
    ensures Parse(s) == [Literal("")] + ParseHole(s)
  {
    StartHole("", s);
    assert "" + s == s;
  }

  lemma FourTerms(a: Term, b: Term, c: Term, d: Term)
    ensures [a] + ([b] + [c, d]) == [a, b, c, d]
  {
  }

  // The first hole's part of a text that fills the pair.
  lemma PairParts(g: string, h: string, text: string, lang: Language) returns (k: nat)
    requires Fills([Literal(""), Hole(g), Literal(""), Hole(h)], text, lang)
    ensures k <= |text| && FillsTerm(Hole(g), text[..k], lang)
  {
    var ts := [Literal(""), Hole(g), Literal(""), Hole(h)];
    var a :| 0 <= a <= |text| && FillsTerm(ts[0], text[..a], lang) && Fills(ts[1..], text[a..], lang);
    assert a == 0 && text[a..] == text && ts[1..][0] == Hole(g);
    k :| 0 <= k <= |text| && FillsTerm(Hole(g), text[..k], lang) && Fills(ts[1..][1..], text[k..], lang);
  }

  lemma PairQuery(g: string, h: string)
    requires IsHole(g) && IsHole(h) && !HasMatch(g) && HasMatch(h)
    ensures Query(g + h, false) == Group(User(ReplaceAll(h)))
  {
    HolePair(g, h);
    var ts := [Literal(""), Hole(g), Literal(""), Hole(h)];
    var last := [Hole(h)];
    assert last[1..] == [] && Pieces([]) == [] && Pieces(last) == [User(ReplaceAll(h))];
    assert ts[1..] == [Hole(g), Literal(""), Hole(h)] && ts[1..][1..] == [Literal(""), Hole(h)];
    assert ts[1..][1..][1..] == last;
    assert Pieces([Literal(""), Hole(h)]) == Pieces(last);
    assert Pieces(ts[1..]) == Pieces(last) && Pieces(ts) == Pieces(last);
  }

  /** Clean holes are not necessary where the condition above fails: if a hole in front stands for
      exactly what is cut out of this one, every filling does contain a match. */
  lemma ShadowedPairIsSound(g: string, h: string)
    requires IsHole(g) && IsHole(h) && !HasMatch(g) && HasMatch(h) && MeaningOf(g) == Matching(ReplaceAll(h))
    ensures OverApproximates(g + h)
  {
    HolePair(g, h);
    PairQuery(g, h);
    forall text, lang | Fills(Parse(g + h), text, lang) ensures Contains(Query(g + h, false), text, lang) {
      var k := PairParts(g, h, text, lang);
      assert text[0..k] == text[..k];
      assert Matches(Group(User(ReplaceAll(h))), text[0..k], lang);
    }
  }

  /** ---- Holes with a newline in their regexp ---- */

  // No brackets, escapes or hole starts.
  predicate Simple(s: string) {
    forall i :: 0 <= i < |s| ==> s[i] != ':' && s[i] != '[' && s[i] != ']' && s[i] != '\\'
  }

  function RegexpHole(re: string): string {
    ":[~" + re + "]"
  }

  // [a] NEWLINE b, and what is cut out of a hole with that regexp: its bracket has moved to the end.
  function SplitClass(a: string, b: string): string {
    "[" + a + "]" + ("\n" + b)
  }

  function JoinedClass(a: string, b: string): string {
    "[" + a + ("\n" + b + "]")
  }

  lemma {:induction false} WalkSimple(s: string, d: nat)
    requires Simple(s)
    ensures Walk(s, d) == Some(d)
  {
    if s != "" {
      WalkSimple(s[1..], d);
    }
  }

  lemma ClassIsBalanced(a: string, b: string)
    requires Simple(a) && Simple(b)
    ensures Balanced("[" + a + "]" + b)
  {
    var open, close := "[" + a, "]" + b;
    assert open[1..] == a && close[1..] == b;
    WalkSimple(a, 1);
    WalkSimple(b, 0);
    WalkThenWalk(open, close, 0);
    assert open + close == "[" + a + "]" + b;
  }

  lemma RegexpHoleMeans(re: string)
    requires Balanced(re)
    ensures var h := RegexpHole(re);
            IsHole(h) && MeaningOf(h) == Matching(re) && RegexpForm(h, 2) && h[3..] == re + "]"
  {
    var h, body := RegexpHole(re), "~" + re;
    assert h[2..|h| - 1] == body && body[1..] == re;
    assert WordRun(body) == 0;
  }

  // A greedy search to the last bracket stays on the first line.
  lemma {:induction false} LastCloseOnLine(line: string, rest: string)
    requires line != "" && line[|line| - 1] == ']' && OneLine(line) && rest != "" && rest[0] == '\n'
    ensures LastClose(line + rest) == Some(|line| - 1)
  {
    assert line[0] in line && (line + rest)[1..] == line[1..] + rest;
    if |line| == 1 {
      assert line[1..] + rest == rest;
    } else {
      LastCloseOnLine(line[1..], rest);
    }
  }

  lemma {:induction false} NoCloseOnLine(line: string, rest: string)
    requires ']' !in line && OneLine(line) && rest != "" && rest[0] == '\n'
    ensures LastClose(line + rest) == None
  {
    if line == "" {
      assert line + rest == rest;
    } else {
      assert line[0] in line && (line + rest)[1..] == line[1..] + rest;
      NoCloseOnLine(line[1..], rest);
    }
  }

  lemma {:induction false} NoColonNoMatch(s: string)
    requires forall i :: 0 <= i < |s| ==> s[i] != ':'
    ensures !HasMatch(s)
  {
    if s != "" {
      NoColonNoMatch(s[1..]);
    }
  }

  // The text taken out of a regexp hole that is cut at its m-th rune.
  lemma CutHole(h: string, t: nat, m: nat)
    requires RegexpForm(h, t) && LastClose(h[t + 1..]) == Some(m) && !HasMatch(h[t + 2 + m..])
    ensures HasMatch(h) && ReplaceAll(h) == h[t + 1..t + 1 + m] + h[t + 2 + m..]
  {
    MatchIsAtStart(h, t, m);
    ReplaceStep(h, t + 1, t + 1 + m, t + 2 + m);
    ReplaceShortens(h[t + 2 + m..]);
  }

  lemma SplitClassIsCut(a: string, b: string)
    requires Simple(a) && Simple(b) && OneLine(a)
    ensures var h := RegexpHole(SplitClass(a, b));
            && IsHole(h) && MeaningOf(h) == Matching(SplitClass(a, b))
            && HasMatch(h) && ReplaceAll(h) == JoinedClass(a, b)
  {
    var re := SplitClass(a, b);
    var h, line, rest := RegexpHole(re), "[" + a + "]", "\n" + b + "]";
    ClassIsBalanced(a, "\n" + b);
    RegexpHoleMeans(re);
    assert h[3..] == line + rest;
    LastCloseOnLine(line, rest);
    var m := |line| - 1;
    assert h[4 + m..] == h[3..][m + 1..] == rest && h[3..3 + m] == h[3..][..m] == "[" + a;
    NoColonNoMatch(rest);
    CutHole(h, 2, m);
  }

  lemma JoinedClassIsKept(a: string, b: string)
    requires Simple(a) && Simple(b) && OneLine(a)
    ensures var g := RegexpHole(JoinedClass(a, b));
            IsHole(g) && MeaningOf(g) == Matching(JoinedClass(a, b)) && !HasMatch(g)
  {
    var re := JoinedClass(a, b);
    var g, line, rest := RegexpHole(re), "[" + a, "\n" + b + "]" + "]";
    ClassIsBalanced(a + "\n" + b, "");
    assert "[" + (a + "\n" + b) + "]" + "" == re;
    RegexpHoleMeans(re);
    assert g[3..] == line + rest;
    NoCloseOnLine(line, rest);
    MatchAtStart(g, 2);
    NoColonNoMatch(g[1..]);
  }

  /** No such hole is translated soundly: for some languages the query misses a text it stands for. */
  lemma SplitClassMisses(a: string, b: string)
    requires Simple(a) && Simple(b) && OneLine(a)
    ensures !OverApproximates(RegexpHole(SplitClass(a, b)))
  {
    var re := SplitClass(a, b);
    SplitClassIsCut(a, b);
    assert re[|a| + 2] == '\n';
    SingleHoleIff(RegexpHole(re));
  }

  /** Behind a hole for what was cut out of it, it does no harm although it is not clean. */
  lemma ShadowedSplitClass(a: string, b: string)
    requires Simple(a) && Simple(b) && OneLine(a)
    ensures var pattern := RegexpHole(JoinedClass(a, b)) + RegexpHole(SplitClass(a, b));
            OverApproximates(pattern) && !CleanHoles(Parse(pattern))
  {
    var g, h := RegexpHole(JoinedClass(a, b)), RegexpHole(SplitClass(a, b));
    SplitClassIsCut(a, b);
    JoinedClassIsKept(a, b);
    ShadowedPairIsSound(g, h);
    HolePair(g, h);
    assert SplitClass(a, b)[|a| + 2] == '\n';
    assert Parse(g + h)[3] == Hole(h);
  }

  lemma CutMatchesNowhere(h: string, text: string, lang: Language)
    requires IsHole(h) && HasMatch(h) && FillsTerm(Hole(h), text, lang)
    requires forall i, j :: 0 <= i <= j <= |text| ==> !lang(ReplaceAll(h), text[i..j])
    ensures Fills(Parse(h), text, lang) && !Contains(Query(h, false), text, lang)
  {
    HoleAlone(h);
    HoleAloneFills(h, text, lang);
    HoleAloneQuery(h);
    forall i, j | 0 <= i <= j <= |text| ensures !Matches(Query(h, false), text[i..j], lang) {
      UserMatches(ReplaceAll(h), text[i..j], lang);
    }
  }

  lemma UserMatches(re: string, s: string, lang: Language)
    ensures Matches(Group(User(re)), s, lang) <==> lang(re, s)
  {
  }

  lemma NoPartMatches(text: string, cut: string, lang: Language)
    requires text == "b\nb"
    requires forall s :: lang(cut, s) ==> |s| == 1 && s[0] != '\n' && s[0] != 'b'
    ensures forall i, j :: 0 <= i <= j <= |text| ==> !lang(cut, text[i..j])
  {
    forall i, j | 0 <= i <= j <= |text| ensures !lang(cut, text[i..j]) {
      if j == i + 1 {
        assert text[i..j][0] == text[i];
      }
    }
  }

  /** For instance the hole :[~[^a]NEWLINEb], read the usual way: bNEWLINEb fills it, and no part of
      that text matches the query. */
  lemma NewlineHoleMissesText(a: string, b: string, text: string, lang: Language)
    requires a == "^a" && b == "b" && text == "b\nb" && lang(SplitClass(a, b), text)
    requires forall s :: lang(JoinedClass(a, b), s) ==> |s| == 1 && s[0] != 'a' && s[0] != '\n' && s[0] != 'b'
    ensures var h := RegexpHole(SplitClass(a, b));
            Fills(Parse(h), text, lang) && !Contains(Query(h, false), text, lang)
  {
    SplitClassIsCut(a, b);
    NoPartMatches(text, JoinedClass(a, b), lang);
    CutMatchesNowhere(RegexpHole(SplitClass(a, b)), text, lang);
  }

  lemma HoleAloneFills(h: string, text: string, lang: Language)
    requires FillsTerm(Hole(h), text, lang)
    ensures Fills([Literal(""), Hole(h)], text, lang)
  {
    var ts := [Literal(""), Hole(h)];
    assert ts[1..] == [Hole(h)] && [Hole(h)][1..] == [];
    assert text[..|text|] == text && Fills([], text[|text|..], lang);
    assert Fills([Hole(h)], text, lang);
    assert text[..0] == "" && text[0..] == text;
    assert FillsTerm(ts[0], text[..0], lang) && Fills(ts[1..], text[0..], lang);
  }

  lemma HoleAloneQuery(h: string)
    requires IsHole(h) && HasMatch(h)
    ensures Query(h, false) == Group(User(ReplaceAll(h)))
  {
    HoleAlone(h);
    var ts := [Literal(""), Hole(h)];
    assert ts[1..] == [Hole(h)] && [Hole(h)][1..] == [] && Pieces([]) == [];
    assert Pieces([Hole(h)]) == [User(ReplaceAll(h))];
    assert Pieces(ts) == [User(ReplaceAll(h))];
  }
}
