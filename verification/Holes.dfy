/**
  Taking the regular expression out of a hole (internal/comby/translate.go): the pattern
  :\[(\w+)?~(.*)\] is searched in the hole and every match replaced by its second group.
 */
module Holes {
  import opened Options
  import opened Template

  predicate IsWord(c: char) {
    '0' <= c <= '9' || 'A' <= c <= 'Z' || 'a' <= c <= 'z' || c == '_'
  }

  // Length of the longest prefix of word runes.
  function WordRun(s: string): (n: nat)
    ensures n <= |s| && (forall i :: 0 <= i < n ==> IsWord(s[i])) && (n < |s| ==> !IsWord(s[n]))
  {
    if s == "" || !IsWord(s[0]) then 0 else 1 + WordRun(s[1..])
  }

  predicate OneLine(s: string) {
    '\n' !in s
  }

  // Where a greedy .*\] ends on the first line: the place of its last bracket.
  function LastClose(s: string): (k: Option<nat>)
    ensures k.Some? ==> k.value < |s| && s[k.value] == ']'
  {
    if s == "" || s[0] == '\n' then None
    else match LastClose(s[1..])
      case Some(k) => Some(k + 1)
      case None => if s[0] == ']' then Some(0) else None
  }

  lemma {:induction false} NoNewlineBefore(s: string, j: nat)
    requires LastClose(s).Some? && j <= LastClose(s).value
    ensures s[j] != '\n'
  {
    if j > 0 {
      NoNewlineBefore(s[1..], j - 1);
    }
  }

  lemma {:induction false} NoBracketOnLine(s: string, j: nat)
    requires LastClose(s).None? && j < |s| && forall i :: 0 <= i < j ==> s[i] != '\n'
    ensures s[j] != ']'
  {
    if j > 0 {
      NoBracketOnLine(s[1..], j - 1);
    }
  }

  // A match at the start of the text: where it ends and what its second group is.
  datatype Found = Found(from: nat, to: nat, end: nat)

  function MatchHere(s: string): (f: Option<Found>)
    ensures f.Some? ==> 3 <= f.value.from <= f.value.to < f.value.end <= |s| && s[f.value.to] == ']'
  {
    if !StartsHole(s) then None
    else
      var tilde := 2 + WordRun(s[2..]);
      if tilde >= |s| || s[tilde] != '~' then None
      else match LastClose(s[tilde + 1..])
        case None => None
        case Some(k) => Some(Found(tilde + 1, tilde + 1 + k, tilde + 2 + k))
  }

  // MatchString
  predicate HasMatch(s: string) {
    s != "" && (MatchHere(s).Some? || HasMatch(s[1..]))
  }

  // ReplaceAllString with the second group
  function ReplaceAll(s: string): string
    decreases |s|
  {
    if s == "" then ""
    else match MatchHere(s)
      case Some(f) => s[f.from..f.to] + ReplaceAll(s[f.end..])
      case None => [s[0]] + ReplaceAll(s[1..])
  }

  // The regular expression the translation uses for a hole, if any.
  function Extract(hole: string): Option<string> {
    if HasMatch(hole) then Some(ReplaceAll(hole)) else None
  }

  /** ---- What a hole stands for ---- */

  datatype Meaning = Anything | Matching(re: string)

  // :[name~re] stands for a match of re, any other hole for any text.
  function MeaningOf(hole: string): Meaning
    requires IsHole(hole)
  {
    var body := hole[2..|hole| - 1];
    var n := WordRun(body);
    if n < |body| && body[n] == '~' then Matching(body[n + 1..]) else Anything
  }

  // What is taken out of the hole demands no more than the hole stands for.
  predicate Sound(hole: string)
    requires IsHole(hole)
  {
    Extract(hole).None? || (MeaningOf(hole).Matching? && Extract(hole) == Some(MeaningOf(hole).re))
  }

  /** ---- What the search finds ---- */

  // :[ word ~ text ] at the start of s: the tilde at t, the bracket at k, the last one on its line.
  predicate FormAt(s: string, t: nat, k: nat) {
    && StartsHole(s) && 2 <= t < k < |s| && s[t] == '~' && s[k] == ']'
    && (forall i :: 2 <= i < t ==> IsWord(s[i]))
    && (forall i :: t < i < k ==> s[i] != '\n')
    && (forall j :: k < j < |s| && s[j] == ']' ==> exists i :: k < i < j && s[i] == '\n')
  }

  lemma {:induction false} LastCloseIsLast(s: string, k: nat)
    requires LastClose(s) == Some(k)
    ensures forall j :: k < j < |s| && s[j] == ']' ==> exists i :: k < i < j && s[i] == '\n'
  {
    if k > 0 {
      LastCloseIsLast(s[1..], k - 1);
      forall j | k < j < |s| && s[j] == ']' ensures exists i :: k < i < j && s[i] == '\n' {
        assert s[1..][j - 1] == ']';
        var i :| k - 1 < i < j - 1 && s[1..][i] == '\n';
        assert s[i + 1] == '\n';
      }
    } else {
      forall j | k < j < |s| && s[j] == ']' ensures exists i :: k < i < j && s[i] == '\n' {
        if forall i :: 0 < i < j ==> s[i] != '\n' {
          NoBracketOnLine(s[1..], j - 1);
        }
      }
    }
  }

  /** A match at the start of a text is a colon, a bracket, a possibly empty word, a tilde, and a text up
      to the last closing bracket of the line. */
  lemma MatchHereForm(s: string)
    requires MatchHere(s).Some?
    ensures var f := MatchHere(s).value; FormAt(s, f.from - 1, f.to) && f.end == f.to + 1
  {
    var f := MatchHere(s).value;
    var t, k := f.from - 1, f.to;
    var tail := s[t + 1..];
    forall i | 2 <= i < t ensures IsWord(s[i]) {
      assert s[i] == s[2..][i - 2];
    }
    forall i | t < i < k ensures s[i] != '\n' {
      NoNewlineBefore(tail, i - t - 1);
      assert s[i] == tail[i - t - 1];
    }
    LastCloseIsLast(tail, k - t - 1);
    forall j | k < j < |s| && s[j] == ']' ensures exists i :: k < i < j && s[i] == '\n' {
      assert tail[j - t - 1] == ']';
      var i :| k - t - 1 < i < j - t - 1 && tail[i] == '\n';
      assert s[i + t + 1] == '\n';
    }
  }

  lemma {:induction false} CloseOnLine(s: string, j: nat)
    requires j < |s| && s[j] == ']' && forall i :: 0 <= i < j ==> s[i] != '\n'
    ensures LastClose(s).Some?
  {
    if LastClose(s).None? {
      NoBracketOnLine(s, j);
    }
  }

  lemma FormMatches(s: string, t: nat, k: nat)
    requires FormAt(s, t, k)
    ensures MatchHere(s).Some?
  {
    var tail := s[t + 1..];
    assert s[2..][t - 2] == '~' && forall i :: 0 <= i < t - 2 ==> IsWord(s[2..][i]);
    assert WordRun(s[2..]) == t - 2;
    CloseOnLine(tail, k - t - 1);
  }

  ghost predicate HasForm(s: string) {
    exists t: nat, k: nat :: FormAt(s, t, k)
  }

  lemma MatchIffForm(s: string)
    ensures MatchHere(s).Some? <==> HasForm(s)
  {
    if MatchHere(s).Some? {
      MatchHereForm(s);
    }
    if t: nat, k: nat :| FormAt(s, t, k) {
      FormMatches(s, t, k);
    }
  }

  ghost predicate FormSomewhere(s: string) {
    exists i :: 0 <= i <= |s| && HasForm(s[i..])
  }

  lemma FormHereOrLater(s: string)
    requires s != []
    ensures FormSomewhere(s) <==> HasForm(s) || FormSomewhere(s[1..])
  {
    assert s[0..] == s;
    if FormSomewhere(s[1..]) {
      var i :| 0 <= i <= |s[1..]| && HasForm(s[1..][i..]);
      assert s[1..][i..] == s[i + 1..];
    }
    if i :| 0 <= i <= |s| && HasForm(s[i..]) {
      assert i > 0 ==> s[1..][i - 1..] == s[i..];
    }
  }

  /** The search succeeds exactly when the text has that form somewhere. */
  lemma {:induction false} HasMatchIff(s: string)
    ensures HasMatch(s) <==> FormSomewhere(s)
  {
    MatchIffForm(s);
    if s == [] {
      assert s[0..] == s;
    } else {
      FormHereOrLater(s);
      HasMatchIff(s[1..]);
    }
  }

  /** ---- When that holds ---- */

  lemma {:induction false} ReplaceShortens(s: string)
    ensures |ReplaceAll(s)| <= |s|
    ensures HasMatch(s) ==> |ReplaceAll(s)| < |s|
    ensures !HasMatch(s) ==> ReplaceAll(s) == s
    decreases |s|
  {
    if s != "" {
      match MatchHere(s)
      case Some(f) => ReplaceShortens(s[f.end..]);
      case None =>
        ReplaceShortens(s[1..]);
        assert s == [s[0]] + s[1..];
    }
  }

  lemma ReplaceKeepsRune(s: string)
    requires s != "" && MatchHere(s).None?
    ensures ReplaceAll(s) == [s[0]] + ReplaceAll(s[1..])
  {
  }

  lemma {:induction false} ReplaceSkips(s: string, n: nat)
    requires n <= |s| && forall i :: 0 <= i < n ==> MatchHere(s[i..]).None?
    ensures ReplaceAll(s) == s[..n] + ReplaceAll(s[n..])
  {
    if n == 0 {
      assert s[..0] == "" && s[0..] == s;
    } else {
      ReplaceSkips(s, n - 1);
      ReplaceSkipsOne(s, n - 1);
    }
  }

  lemma ReplaceSkipsOne(s: string, n: nat)
    requires n < |s| && MatchHere(s[n..]).None?
    ensures s[..n] + ReplaceAll(s[n..]) == s[..n + 1] + ReplaceAll(s[n + 1..])
  {
    ReplaceKeepsRune(s[n..]);
    assert s[n..][0] == s[n] && s[n..][1..] == s[n + 1..];
    OneRuneOver(s, n, ReplaceAll(s[n + 1..]));
  }

  lemma OneRuneOver(s: string, n: nat, rest: string)
    requires n < |s|
    ensures s[..n] + ([s[n]] + rest) == s[..n + 1] + rest
  {
  }

  // A regexp hole: a tilde at t after a possibly empty word.
  predicate RegexpForm(s: string, t: nat) {
    && StartsHole(s) && 2 <= t < |s| - 1 && s[t] == '~' && s[|s| - 1] == ']'
    && forall i :: 2 <= i < t ==> IsWord(s[i])
  }

  lemma {:induction false} RegexpHoleForm(hole: string) returns (t: nat)
    requires IsHole(hole) && MeaningOf(hole).Matching?
    ensures RegexpForm(hole, t) && MeaningOf(hole).re == hole[t + 1..|hole| - 1]
  {
    var body := hole[2..|hole| - 1];
    t := 2 + WordRun(body);
    assert hole[t] == body[t - 2];
    forall i | 2 <= i < t ensures IsWord(hole[i]) {
      assert hole[i] == body[i - 2];
    }
  }

  // The pattern tried at the start of a regexp hole.
  lemma {:induction false} MatchAtStart(s: string, t: nat)
    requires RegexpForm(s, t)
    ensures MatchHere(s) == match LastClose(s[t + 1..])
                            case None => None
                            case Some(k) => Some(Found(t + 1, t + 1 + k, t + 2 + k))
  {
    var n := WordRun(s[2..]);
    assert s[2..][t - 2] == '~' && forall i :: 0 <= i < t - 2 ==> IsWord(s[2..][i]);
    assert n == t - 2;
  }

  lemma {:induction false} LastCloseOneLine(tail: string)
    requires tail != "" && tail[|tail| - 1] == ']' && OneLine(tail)
    ensures LastClose(tail) == Some(|tail| - 1)
  {
    if |tail| > 1 {
      assert OneLine(tail[1..]) && tail[0] in tail;
      LastCloseOneLine(tail[1..]);
    }
  }

  lemma {:induction false} ReplaceStep(s: string, from: nat, to: nat, end: nat)
    requires MatchHere(s) == Some(Found(from, to, end))
    ensures HasMatch(s)
    ensures ReplaceAll(s) == s[from..to] + ReplaceAll(s[end..])
  {
  }

  lemma {:induction false} OneLineExtracts(s: string, t: nat)
    requires RegexpForm(s, t) && OneLine(s[t + 1..|s| - 1])
    ensures Extract(s) == Some(s[t + 1..|s| - 1])
  {
    var tail := s[t + 1..];
    assert tail == s[t + 1..|s| - 1] + "]";
    LastCloseOneLine(tail);
    MatchAtStart(s, t);
    ReplaceStep(s, t + 1, |s| - 1, |s|);
    assert s[|s|..] == "";
    assert s[t + 1..|s| - 1] + "" == s[t + 1..|s| - 1];
  }

  lemma {:induction false} AllBrackets(x: string, i: nat)
    requires i < |x| && x[0] == ']' && x[1..] + "]" == x
    ensures x[i] == ']'
  {
    if i > 0 {
      AllBrackets(x, i - 1);
      assert x[i - 1] == (x[1..] + "]")[i - 1];
    }
  }

  // Moving a bracket over a newline changes the text.
  lemma {:induction false} MovedBracketDiffers(re: string, m: nat, nl: nat)
    requires m < nl < |re| && re[m] == ']' && re[nl] == '\n'
    ensures re[..m] + (re[m + 1..] + "]") != re
  {
    var x := re[m..];
    assert re[m + 1..] == x[1..];
    if x[1..] + "]" == x {
      AllBrackets(x, nl - m);
    }
    assert re == re[..m] + x;
  }

  lemma {:induction false} FirstNewline(s: string) returns (nl: nat)
    requires !OneLine(s)
    ensures nl < |s| && s[nl] == '\n' && forall j :: 0 <= j < nl ==> s[j] != '\n'
  {
    if s[0] == '\n' {
      nl := 0;
    } else {
      nl := FirstNewline(s[1..]);
      nl := nl + 1;
    }
  }

  // A match holds no newline.
  lemma {:induction false} MatchIsOneLine(s: string, j: nat)
    requires MatchHere(s).Some? && j <= MatchHere(s).value.to
    ensures s[j] != '\n'
  {
    var f := MatchHere(s).value;
    var word := WordRun(s[2..]);
    if 2 <= j < 2 + word {
      assert IsWord(s[2..][j - 2]);
    } else if j >= f.from {
      NoNewlineBefore(s[f.from..], j - f.from);
    }
  }

  lemma {:induction false} NewlineAfterMatch(s: string, t: nat, m: nat, nl: nat)
    requires RegexpForm(s, t) && LastClose(s[t + 1..]) == Some(m) && t + 1 + nl < |s| && s[t + 1 + nl] == '\n'
    ensures m < nl
  {
    if nl <= m {
      NoNewlineBefore(s[t + 1..], nl);
    }
  }

  lemma MatchIsAtStart(s: string, t: nat, m: nat)
    requires RegexpForm(s, t) && LastClose(s[t + 1..]) == Some(m)
    ensures MatchHere(s) == Some(Found(t + 1, t + 1 + m, t + 2 + m))
  {
    MatchAtStart(s, t);
  }

  lemma CutBeforeNewline(s: string, t: nat, m: nat, re: string)
    requires RegexpForm(s, t) && re == s[t + 1..|s| - 1] && !OneLine(re) && LastClose(s[t + 1..]) == Some(m)
    ensures m < |re| && s[t + 1..t + 1 + m] == re[..m]
    ensures |s[t + 2 + m..]| == |re| - m && re[..m] + s[t + 2 + m..] != re
  {
    var nl := FirstNewline(re);
    NewlineAfterMatch(s, t, m, nl);
    assert re[m] == s[t + 1..][m];
    Rejoined(s, t, m, re);
    MovedBracketDiffers(re, m, nl);
  }

  // First case: the pattern matches at the start, and stops at a bracket before the newline.
  lemma {:induction false} BrokenAtStart(s: string, t: nat, m: nat, re: string)
    requires RegexpForm(s, t) && re == s[t + 1..|s| - 1] && !OneLine(re) && LastClose(s[t + 1..]) == Some(m)
    ensures ReplaceAll(s) != re
  {
    var f := Found(t + 1, t + 1 + m, t + 2 + m);
    assert MatchHere(s) == Some(f) by {
      MatchIsAtStart(s, t, m);
    }
    CutBeforeNewline(s, t, m, re);
    CutIsOther(s, f, re, m);
  }

  lemma CutIsOther(s: string, f: Found, re: string, m: nat)
    requires MatchHere(s) == Some(f) && m < |re| && s[f.from..f.to] == re[..m]
    requires |s[f.end..]| == |re| - m && re[..m] + s[f.end..] != re
    ensures ReplaceAll(s) != re
  {
    ReplaceStep(s, f.from, f.to, f.end);
    OtherRest(re, m, s[f.end..]);
  }

  // Whatever the replacement does to the rest, the text in front keeps the whole from being re.
  lemma OtherRest(re: string, m: nat, rest: string)
    requires m < |re| && |rest| == |re| - m && re[..m] + rest != re
    ensures re[..m] + ReplaceAll(rest) != re
  {
    ReplaceShortens(rest);
  }

  lemma {:induction false} Rejoined(s: string, t: nat, m: nat, re: string)
    requires t + 2 <= |s| && re == s[t + 1..|s| - 1] && s[|s| - 1] == ']' && m < |re|
    ensures s[t + 1..t + 1 + m] == re[..m] && s[t + 2 + m..] == re[m + 1..] + "]"
  {
  }

  // No bracket on the first line after the tilde, so no match starts on that line.
  lemma {:induction false} NoMatchOnFirstLine(s: string, t: nat, nl: nat, i: nat)
    requires RegexpForm(s, t) && LastClose(s[t + 1..]).None?
    requires t < nl < |s| && s[nl] == '\n' && (forall j :: t < j < nl ==> s[j] != '\n') && i < nl
    ensures MatchHere(s[i..]).None?
  {
    if MatchHere(s[i..]).Some? {
      var to := MatchHere(s[i..]).value.to;
      assert s[i..][to] == ']' && s[i..][nl - i] == '\n';
      if nl - i <= to {
        MatchIsOneLine(s[i..], nl - i);
      } else if i + to > t {
        NoBracketOnLine(s[t + 1..], i + to - t - 1);
      } else {
        assert s[i + to] == ']';
      }
    }
  }

  // Second case: no match on the first line, so that line stays in front.
  lemma {:induction false} BrokenLater(s: string, t: nat)
    requires RegexpForm(s, t) && !OneLine(s[t + 1..|s| - 1]) && LastClose(s[t + 1..]).None?
    ensures ReplaceAll(s) != s[t + 1..|s| - 1]
  {
    var re := s[t + 1..|s| - 1];
    var k := FirstNewline(re);
    var nl := t + 1 + k;
    assert s[nl] == '\n';
    forall j | t < j < nl ensures s[j] != '\n' {
      assert s[j] == re[j - t - 1];
    }
    forall i | 0 <= i < nl ensures MatchHere(s[i..]).None? {
      NoMatchOnFirstLine(s, t, nl, i);
    }
    ReplaceSkips(s, nl);
    assert ReplaceAll(s)[k] == s[k];
    assert s[k] != '\n';
  }

  lemma {:induction false} NewlineBreaks(s: string, t: nat)
    requires RegexpForm(s, t) && !OneLine(s[t + 1..|s| - 1])
    ensures ReplaceAll(s) != s[t + 1..|s| - 1]
  {
    match LastClose(s[t + 1..])
    case Some(m) => BrokenAtStart(s, t, m, s[t + 1..|s| - 1]);
    case None => BrokenLater(s, t);
  }

  /** What is taken out of a hole is what the hole stands for exactly when the search finds nothing,
      or the hole is a regexp hole whose expression has no newline. */
  lemma {:induction false} SoundIff(hole: string)
    requires IsHole(hole)
    ensures Sound(hole) <==> !HasMatch(hole) || (MeaningOf(hole).Matching? && OneLine(MeaningOf(hole).re))
  {
    if MeaningOf(hole).Matching? {
      var t := RegexpHoleForm(hole);
      if OneLine(MeaningOf(hole).re) {
        OneLineExtracts(hole, t);
      } else {
        NewlineBreaks(hole, t);
      }
    }
  }
}
