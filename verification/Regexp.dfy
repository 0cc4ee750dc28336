/**
  The part of the regexp syntax the translation emits, as a tree: its text and the strings it
  matches.  A regular expression written by the user inside a hole is a leaf whose language is
  a parameter.  Greediness does not change which strings match and is not modelled.
 */
module Regexp {
  datatype Rx =
    | Nothing
    | Char(c: char)
    | Dot                      // .      any rune but a newline
    | Space                    // \s
    | Set(of: Rx)              // [...]
    | Alt(left: Rx, right: Rx)
    | Star(of: Rx)             // *?
    | Plus(of: Rx)             // +
    | Group(of: Rx)            // (?:...)
    | Cat(left: Rx, right: Rx)
    | User(re: string)

  // The strings a user's regexp matches.
  type Language = (string, string) -> bool

  predicate IsSpace(c: char) {
    c == ' ' || c == '\t' || c == '\n' || c == '\r' || c == 0x0C as char
  }

  predicate IsMeta(c: char) {
    c in "\\.+*?()|[]{}^$"
  }

  function Render(r: Rx): string {
    match r
    case Nothing => ""
    case Char(c) => if IsMeta(c) then ['\\', c] else [c]
    case Dot => "."
    case Space => "\\s"
    case Set(a) => "[" + Render(a) + "]"
    case Alt(a, b) => Render(a) + "|" + Render(b)
    case Star(a) => Render(a) + "*?"
    case Plus(a) => Render(a) + "+"
    case Group(a) => "(?:" + Render(a) + ")"
    case Cat(a, b) => Render(a) + Render(b)
    case User(re) => re
  }

  ghost predicate Matches(r: Rx, s: string, lang: Language)
    decreases r, |s|
  {
    match r
    case Nothing => s == ""
    case Char(c) => s == [c]
    case Dot => |s| == 1 && s[0] != '\n'
    case Space => |s| == 1 && IsSpace(s[0])
    case Set(a) => Matches(a, s, lang)
    case Alt(a, b) => Matches(a, s, lang) || Matches(b, s, lang)
    case Star(a) => s == "" || exists k :: 0 < k <= |s| && Matches(a, s[..k], lang) && Matches(r, s[k..], lang)
    case Plus(a) =>
      Matches(a, s, lang) || exists k :: 0 < k < |s| && Matches(a, s[..k], lang) && Matches(r, s[k..], lang)
    case Group(a) => Matches(a, s, lang)
    case Cat(a, b) => exists k :: 0 <= k <= |s| && Matches(a, s[..k], lang) && Matches(b, s[k..], lang)
    case User(re) => lang(re, s)
  }

  // Some part of the text matches.
  ghost predicate Contains(r: Rx, text: string, lang: Language) {
    exists i, j :: 0 <= i <= j <= |text| && Matches(r, text[i..j], lang)
  }

  const ANY_GAP := Star(Group(Alt(Dot, Space)))   // (?:.|\s)*?
  const LINE_GAP := Star(Dot)                     // .*?
  const SPACES := Plus(Set(Space))                // [\s]+

  /** The gap between pieces crosses anything, newlines included. */
  lemma {:induction false} AnyGapMatchesAll(s: string, lang: Language)
    ensures Matches(ANY_GAP, s, lang)
  {
    if s != "" {
      assert Matches(Group(Alt(Dot, Space)), s[..1], lang);
      AnyGapMatchesAll(s[1..], lang);
    }
  }

  predicate AllSpace(s: string) {
    forall i :: 0 <= i < |s| ==> IsSpace(s[i])
  }

  lemma OneSpace(s: string, lang: Language)
    ensures Matches(Set(Space), s, lang) <==> |s| == 1 && IsSpace(s[0])
  {
    assert Matches(Set(Space), s, lang) == Matches(Space, s, lang);
  }

  /** A whitespace piece matches exactly the non-empty whitespace runs. */
  lemma {:induction false} SpacesMatch(s: string, lang: Language)
    ensures Matches(SPACES, s, lang) <==> s != "" && AllSpace(s)
    decreases |s|
  {
    OneSpace(s, lang);
    if |s| > 1 {
      OneSpace(s[..1], lang);
      SpacesMatch(s[1..], lang);
      assert s == s[..1] + s[1..];
      if k :| 0 < k < |s| && Matches(Set(Space), s[..k], lang) && Matches(SPACES, s[k..], lang) {
        OneSpace(s[..k], lang);
        assert s[k..] == s[1..];
        assert forall i :: 0 < i < |s| ==> s[i] == s[1..][i - 1];
      }
      if AllSpace(s) {
        assert AllSpace(s[1..]);
        assert Matches(Set(Space), s[..1], lang) && Matches(SPACES, s[1..], lang);
      }
    }
  }
}
