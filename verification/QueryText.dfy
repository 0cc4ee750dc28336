/**
  The text of the query, built the way the source builds it: quoting each literal,
  replacing its whitespace runs, joining the pieces
  (internal/comby/translate.go, StructuralPatToRegexpQuery).
 */
module QueryText {
  import opened Options
  import opened Template
  import opened Holes
  import opened Regexp
  import opened Translate
  import opened QueryMeaning

  function QuoteRune(c: char): string {
    if IsMeta(c) then ['\\', c] else [c]
  }

  function QuoteMeta(s: string): string {
    if s == "" then "" else QuoteRune(s[0]) + QuoteMeta(s[1..])
  }

  // ReplaceAllLiteralString of [\s]+ by its own text.
  function CollapseSpaces(s: string): string
    decreases |s|
  {
    if s == "" then ""
    else if IsSpace(s[0]) then "[\\s]+" + CollapseSpaces(s[SpaceRun(s)..])
    else [s[0]] + CollapseSpaces(s[1..])
  }

  lemma QuoteSpace(s: string)
    requires s != "" && IsSpace(s[0])
    ensures QuoteMeta(s) == [s[0]] + QuoteMeta(s[1..])
  {
  }

  lemma QuoteNoSpace(s: string)
    requires s == "" || !IsSpace(s[0])
    ensures SpaceRun(QuoteMeta(s)) == 0 && SpaceRun(s) == 0
  {
    if s != "" {
      assert QuoteMeta(s)[0] == QuoteRune(s[0])[0];
    }
  }

  lemma SpaceRunCons(c: char, rest: string)
    requires IsSpace(c)
    ensures SpaceRun([c] + rest) == 1 + SpaceRun(rest)
    ensures ([c] + rest)[1 + SpaceRun(rest)..] == rest[SpaceRun(rest)..]
  {
    assert ([c] + rest)[1..] == rest;
  }

  // Quoting keeps whitespace as it is.
  lemma {:induction false} QuoteKeepsSpaces(s: string)
    ensures SpaceRun(QuoteMeta(s)) == SpaceRun(s)
    ensures QuoteMeta(s)[SpaceRun(s)..] == QuoteMeta(s[SpaceRun(s)..])
  {
    if s != "" && IsSpace(s[0]) {
      QuoteKeepsSpaces(s[1..]);
      QuoteSpace(s);
      SpaceRunCons(s[0], s[1..]);
      SpaceRunCons(s[0], QuoteMeta(s[1..]));
      assert s == [s[0]] + s[1..];
    } else {
      QuoteNoSpace(s);
      assert s[0..] == s && QuoteMeta(s)[0..] == QuoteMeta(s);
    }
  }

  lemma CollapsePlain(c: char, rest: string)
    requires !IsSpace(c)
    ensures CollapseSpaces([c] + rest) == [c] + CollapseSpaces(rest)
  {
    assert ([c] + rest)[1..] == rest;
  }

  lemma CollapseRun(s: string)
    requires s != "" && IsSpace(s[0])
    ensures CollapseSpaces(s) == "[\\s]+" + CollapseSpaces(s[SpaceRun(s)..])
  {
  }

  lemma SpacesRx(s: string)
    requires s != "" && IsSpace(s[0])
    ensures Render(LiteralRx(s)) == "[\\s]+" + Render(LiteralRx(s[SpaceRun(s)..]))
  {
    assert Render(SPACES) == "[\\s]+";
  }

  lemma QuoteStarts(s: string)
    requires s != "" && IsSpace(s[0])
    ensures QuoteMeta(s) != "" && QuoteMeta(s)[0] == s[0]
  {
  }

  lemma SpacesText(s: string)
    requires s != "" && IsSpace(s[0])
    requires CollapseSpaces(QuoteMeta(s[SpaceRun(s)..])) == Render(LiteralRx(s[SpaceRun(s)..]))
    ensures CollapseSpaces(QuoteMeta(s)) == Render(LiteralRx(s))
  {
    QuoteKeepsSpaces(s);
    QuoteStarts(s);
    CollapseRun(QuoteMeta(s));
    SpacesRx(s);
  }

  lemma CollapseRune(c: char, rest: string)
    requires !IsSpace(c)
    ensures CollapseSpaces(QuoteRune(c) + rest) == QuoteRune(c) + CollapseSpaces(rest)
  {
    CollapsePlain(c, rest);
    if IsMeta(c) {
      CollapsePlain('\\', [c] + rest);
      assert ['\\'] + ([c] + rest) == ['\\', c] + rest;
      assert ['\\'] + ([c] + CollapseSpaces(rest)) == ['\\', c] + CollapseSpaces(rest);
    }
  }

  lemma RuneRx(s: string)
    requires s != "" && !IsSpace(s[0])
    ensures Render(LiteralRx(s)) == QuoteRune(s[0]) + Render(LiteralRx(s[1..]))
  {
  }

  lemma RuneText(s: string)
    requires s != "" && !IsSpace(s[0]) && CollapseSpaces(QuoteMeta(s[1..])) == Render(LiteralRx(s[1..]))
    ensures CollapseSpaces(QuoteMeta(s)) == Render(LiteralRx(s))
  {
    CollapseRune(s[0], QuoteMeta(s[1..]));
    RuneRx(s);
  }

  /** Quoting and collapsing a literal gives the text of its piece. */
  lemma {:induction false} PieceText(s: string)
    ensures CollapseSpaces(QuoteMeta(s)) == Render(LiteralRx(s))
    decreases |s|
  {
    if s == "" {
    } else if IsSpace(s[0]) {
      PieceText(s[SpaceRun(s)..]);
      SpacesText(s);
    } else {
      PieceText(s[1..]);
      RuneText(s);
    }
  }

  // strings.Join
  function JoinText(pieces: seq<string>, sep: string): string {
    if pieces == [] then ""
    else if |pieces| == 1 then pieces[0]
    else pieces[0] + sep + JoinText(pieces[1..], sep)
  }

  function Texts(ps: seq<Rx>): (ts: seq<string>)
    ensures |ts| == |ps| && forall i :: 0 <= i < |ps| ==> ts[i] == Render(ps[i])
  {
    if ps == [] then [] else [Render(ps[0])] + Texts(ps[1..])
  }

  lemma {:induction false} JoinedText(ps: seq<Rx>, gap: Rx)
    requires ps != []
    ensures "(?:" + JoinText(Texts(ps), ")" + Render(gap) + "(?:") + ")" == Render(Join(ps, gap))
  {
    var sep := ")" + Render(gap) + "(?:";
    var ts := Texts(ps);
    if |ps| > 1 {
      JoinedText(ps[1..], gap);
      assert ts[1..] == Texts(ps[1..]);
      Regroup(ts[0], Render(gap), JoinText(ts[1..], sep));
    }
  }

  lemma Regroup(first: string, gap: string, rest: string)
    ensures "(?:" + (first + (")" + gap + "(?:") + rest) + ")" == "(?:" + first + ")" + (gap + ("(?:" + rest + ")"))
  {
  }

  lemma {:induction false} PiecesOfSnoc(ts: seq<Term>, t: Term)
    ensures Pieces(ts + [t]) == Pieces(ts) + match Piece(t) case None => [] case Some(p) => [p]
  {
    if ts == [] {
      assert ts + [t] == [t] && [t][1..] == [];
    } else {
      assert (ts + [t])[1..] == ts[1..] + [t];
      PiecesOfSnoc(ts[1..], t);
    }
  }

  lemma GapTexts()
    ensures Render(ANY_GAP) == "(?:.|\\s)*?" && Render(LINE_GAP) == ".*?"
  {
    assert Render(Group(Alt(Dot, Space))) == "(?:" + ("." + "|" + "\\s") + ")";
  }

  lemma NextPiece(terms: seq<Term>, i: nat)
    requires i < |terms|
    ensures var before := Texts(Pieces(terms[..i])); var after := Texts(Pieces(terms[..i + 1]));
            if Piece(terms[i]).None? then after == before else after == before + [Render(Piece(terms[i]).value)]
  {
    PiecesOfSnoc(terms[..i], terms[i]);
    assert terms[..i + 1] == terms[..i] + [terms[i]];
  }

  // The loop over the terms.
  method CollectPieces(terms: seq<Term>) returns (pieces: seq<string>)
    ensures pieces == Texts(Pieces(terms))
  {
    pieces := [];
    for i := 0 to |terms|
      invariant pieces == Texts(Pieces(terms[..i]))
    {
      var term := terms[i];
      NextPiece(terms, i);
      if term.text == "" {
        continue;
      }
      match term
      case Literal(text) =>
        var piece := QuoteMeta(text);
        piece := CollapseSpaces(piece);
        PieceText(text);
        pieces := pieces + [piece];
      case Hole(text) =>
        if HasMatch(text) {
          pieces := pieces + [ReplaceAll(text)];
        }
    }
    assert terms[..|terms|] == terms;
  }

  // The separator of the joined text, and the text without any piece.
  lemma SeparatorTexts()
    ensures ")" + Render(LINE_GAP) + "(?:" == ").*?(?:"
    ensures ")" + Render(ANY_GAP) + "(?:" == ")(?:.|\\s)*?(?:"
    ensures Render(ANY_GAP) == "(?:.|\\s)*?"
  {
    GapTexts();
  }

  // The regexp finds exactly the texts that hold the template's literals and regexps in order.
  ghost predicate Finds(rx: Rx, pattern: string, shortcircuit: bool) {
    forall text, lang :: Contains(rx, text, lang) <==> Holds(Parse(pattern), text, lang, shortcircuit)
  }

  lemma QueryFinds(pattern: string, shortcircuit: bool)
    ensures Finds(Query(pattern, shortcircuit), pattern, shortcircuit)
  {
    forall text, lang
      ensures Contains(Query(pattern, shortcircuit), text, lang) <==> Holds(Parse(pattern), text, lang, shortcircuit)
    {
      ContainsIffHolds(pattern, shortcircuit, text, lang);
    }
  }

  /** The method's text is that of the query, a regexp that finds exactly the texts in which the
      template's literals and extracted regexps occur in order. */
  method StructuralPatToRegexpQuery(pattern: string, shortcircuit: bool) returns (query: string)
    ensures query == Render(Query(pattern, shortcircuit)) && Finds(Query(pattern, shortcircuit), pattern, shortcircuit)
  {
    QueryFinds(pattern, shortcircuit);
    var terms := ParseTemplate(pattern);
    var pieces := CollectPieces(terms);
    SeparatorTexts();
    if |pieces| == 0 {
      return "(?:.|\\s)*?";
    }
    ghost var ps := Pieces(terms);
    if shortcircuit {
      JoinedText(ps, LINE_GAP);
      return "(?:" + JoinText(pieces, ").*?(?:") + ")";
    }
    JoinedText(ps, ANY_GAP);
    return "(?:" + JoinText(pieces, ")(?:.|\\s)*?(?:") + ")";
  }

  /** ---- The text of an example ---- */

  lemma ExampleTerms(pattern: string, l: string, h: string)
    requires l == "a. " && h == ":[~c]" && pattern == l + h
    ensures Parse(pattern) == [Literal(l), Hole(h)]
    ensures Extract(h) == Some("c")
  {
    var none := "";
    assert h[2..|h| - 1] == "~c" && "~c"[1..] == "c" && "c"[1..] == "";
    assert Walk("~c", 0) == Walk("c", 0) == Walk("", 0);
    HoleThenRest(h, none);
    assert h + none == h && [Hole(h)] + Parse(none) == [Hole(h)];
    assert Plain(l) by {
      forall i | 0 <= i < |l| ensures !StartsHole(l[i..]) {
        assert l[i..][0] == l[i];
      }
    }
    StartHole(l, h);
    OneLineExtracts(h, 2);
    assert h[3..|h| - 1] == "c";
  }

  lemma ExampleLiteral(l: string)
    requires l == "a. "
    ensures Render(LiteralRx(l)) == "a\\.[\\s]+"
  {
    assert l[1..] == ". " && ". "[1..] == " ";
    RuneRx(l);
    RuneRx(". ");
    SpacesRx(" ");
    assert SpaceRun(" ") == 1 && " "[1..] == "" && Render(LiteralRx("")) == "";
  }

  lemma TwoPieces(l: string, h: string, re: string)
    requires l != "" && Piece(Hole(h)) == Some(User(re))
    ensures Pieces([Literal(l), Hole(h)]) == [LiteralRx(l), User(re)]
  {
    var ts, none: seq<Term> := [Literal(l), Hole(h)], [];
    assert ts[1..] == [Hole(h)] && [Hole(h)][1..] == none && Pieces(none) == [];
    assert Pieces([Hole(h)]) == [User(re)] + Pieces(none);
    assert Pieces(ts) == [LiteralRx(l)] + Pieces([Hole(h)]);
  }

  lemma TwoJoined(a: Rx, b: Rx, gap: Rx)
    ensures Render(Join([a, b], gap)) == "(?:" + Render(a) + ")" + (Render(gap) + ("(?:" + Render(b) + ")"))
  {
    assert [a, b][1..] == [b];
    var last := Join([b], gap);
    assert last == Group(b) && Join([a, b], gap) == Cat(Group(a), Cat(gap, last));
    assert Render(Cat(gap, last)) == Render(gap) + Render(last);
  }

  lemma TwoTexts(first: string, gap: string, last: string)
    requires first == "a\\.[\\s]+" && last == "c"
    ensures gap == "(?:.|\\s)*?" ==>
              "(?:" + first + ")" + (gap + ("(?:" + last + ")")) == "(?:a\\.[\\s]+)(?:.|\\s)*?(?:c)"
    ensures gap == ".*?" ==> "(?:" + first + ")" + (gap + ("(?:" + last + ")")) == "(?:a\\.[\\s]+).*?(?:c)"
  {
  }

  /** For instance: letter, dot, space and a regexp hole. */
  lemma ExampleText(pattern: string, l: string, h: string)
    requires l == "a. " && h == ":[~c]" && pattern == l + h
    ensures Render(Query(pattern, false)) == "(?:a\\.[\\s]+)(?:.|\\s)*?(?:c)"
    ensures Render(Query(pattern, true)) == "(?:a\\.[\\s]+).*?(?:c)"
  {
    ExampleTerms(pattern, l, h);
    TwoPieces(l, h, "c");
    ExampleJoined(LiteralRx(l), l);
  }

  lemma ExampleJoined(first: Rx, l: string)
    requires l == "a. " && first == LiteralRx(l)
    ensures Render(Join([first, User("c")], ANY_GAP)) == "(?:a\\.[\\s]+)(?:.|\\s)*?(?:c)"
    ensures Render(Join([first, User("c")], LINE_GAP)) == "(?:a\\.[\\s]+).*?(?:c)"
  {
    ExampleLiteral(l);
    GapTexts();
    TwoJoined(first, User("c"), ANY_GAP);
    TwoJoined(first, User("c"), LINE_GAP);
    TwoTexts(Render(first), Render(ANY_GAP), "c");
    TwoTexts(Render(first), Render(LINE_GAP), "c");
  }
}
