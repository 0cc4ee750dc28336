/**
  Every outcome of the Authorization header parser told by the text (internal/authz/header.go): when
  it succeeds and with what, when it refuses and why, and when it slices out of range.
 */
module HeaderOutcomes {
  import opened Options
  import opened Header
  import opened HeaderTheorems

  /** ---- Items by their text ---- */

  // A name, "=" and one quote, which both opens and closes the value.
  predicate LoneQuoteText(s: string) {
    |s| >= 2 && s[|s| - 2] == '=' && s[|s| - 1] == '"' && '=' !in s[..|s| - 2]
  }

  predicate NoValueText(s: string) {
    '=' !in s || s[|s| - 1] == '='
  }

  // An item the parser takes for a key and a value.
  predicate PairText(s: string) {
    !NoValueText(s) && !LoneQuoteText(s)
  }

  function KeyText(s: string, lower: Lower): string
    requires '=' in s
  {
    ToLower(s[..IndexOf(s, '=')], lower)
  }

  // The text behind the first "=", without the quotes when it has both.
  predicate IsValueText(s: string, v: string)
    requires '=' in s
  {
    var rest := s[IndexOf(s, '=') + 1..];
    rest == "\"" + v + "\"" || (rest == v && !(|v| >= 2 && v[0] == '"' && v[|v| - 1] == '"'))
  }

  lemma ItemByText(s: string, lower: Lower)
    ensures ParseItem(s, lower) == LoneQuote <==> LoneQuoteText(s)
    ensures ParseItem(s, lower) == NoValue <==> NoValueText(s)
    ensures ParseItem(s, lower).Pair? <==> PairText(s)
    ensures PairText(s) ==> ParseItem(s, lower).key == KeyText(s, lower)
  {
    var i := IndexOf(s, '=');
    if i >= 0 && i == |s| - 2 {
      assert s[i + 1..] == [s[|s| - 1]];
      assert '=' !in s[..i];
    }
    if LoneQuoteText(s) {
      assert s[|s| - 2] in s;
      assert forall k :: 0 <= k < |s| - 2 ==> s[k] == s[..|s| - 2][k];
    }
  }

  lemma ValueByText(s: string, lower: Lower)
    requires PairText(s)
    ensures ParseItem(s, lower).Pair? && IsValueText(s, ParseItem(s, lower).value)
  {
    ItemByText(s, lower);
    var v := s[IndexOf(s, '=') + 1..];
    if v[0] == '"' && v[|v| - 1] == '"' {
      assert v == "\"" + v[1..|v| - 1] + "\"";
    }
  }

  /** ---- The first bad item decides ---- */

  // The items before j are pairs with different keys.
  ghost predicate PairsBefore(list: seq<string>, j: nat, lower: Lower) {
    && j <= |list| && (forall i :: 0 <= i < j ==> PairText(list[i]))
    && (forall i, k :: 0 <= i < k < j ==> KeyText(list[i], lower) != KeyText(list[k], lower))
  }

  ghost predicate FirstBadIsLoneQuote(list: seq<string>, j: nat, lower: Lower) {
    PairsBefore(list, j, lower) && j < |list| && LoneQuoteText(list[j])
  }

  ghost predicate FirstBadHasNoValue(list: seq<string>, j: nat, lower: Lower) {
    PairsBefore(list, j, lower) && j < |list| && NoValueText(list[j])
  }

  ghost predicate FirstBadIsRepeated(list: seq<string>, j: nat, lower: Lower) {
    && PairsBefore(list, j, lower) && j < |list| && PairText(list[j])
    && KeyBefore(list, j, KeyText(list[j], lower), lower)
  }

  // Some item before j has the key.
  ghost predicate KeyBefore(list: seq<string>, j: nat, key: string, lower: Lower) {
    exists i :: 0 <= i < j && i < |list| && '=' in list[i] && KeyText(list[i], lower) == key
  }

  ghost predicate HoldsItem(m: map<string, string>, s: string, lower: Lower) {
    '=' in s && KeyText(s, lower) in m && IsValueText(s, m[KeyText(s, lower)])
  }

  // The map has exactly the keys of the items before j, each with the item's value.
  ghost predicate IsMapOf(m: map<string, string>, list: seq<string>, j: nat, lower: Lower)
    requires j <= |list|
  {
    && (forall k :: k in m <==> KeyBefore(list, j, k, lower))
    && (forall i :: 0 <= i < j ==> HoldsItem(m, list[i], lower))
  }

  lemma PairsNext(list: seq<string>, j: nat, lower: Lower)
    requires PairsBefore(list, j, lower) && j < |list| && PairText(list[j])
    requires !KeyBefore(list, j, KeyText(list[j], lower), lower)
    ensures PairsBefore(list, j + 1, lower)
  {
  }

  lemma PairsEarlier(list: seq<string>, i: nat, j: nat, lower: Lower)
    requires i <= j && PairsBefore(list, j, lower)
    ensures PairsBefore(list, i, lower)
  {
  }

  lemma {:induction false} AddUpTo(list: seq<string>, j: nat, lower: Lower) returns (m: map<string, string>)
    requires PairsBefore(list, j, lower)
    ensures IsMapOf(m, list, j, lower) && AddItems(map[], list, lower) == AddItems(m, list[j..], lower)
  {
    if j == 0 {
      m := map[];
      assert list[0..] == list;
    } else {
      var n: nat := j - 1;
      PairsEarlier(list, n, j, lower);
      var before := AddUpTo(list, n, lower);
      m := AddPair(list, n, j, before, lower);
    }
  }

  lemma AddPair(list: seq<string>, n: nat, j: nat, before: map<string, string>, lower: Lower)
    returns (m: map<string, string>)
    requires j == n + 1 && PairsBefore(list, j, lower) && IsMapOf(before, list, n, lower)
    ensures IsMapOf(m, list, j, lower) && AddItems(before, list[n..], lower) == AddItems(m, list[j..], lower)
  {
    var s := list[n];
    ItemByText(s, lower);
    ValueByText(s, lower);
    NewKey(list, n, j, lower);
    var key, value := KeyText(s, lower), ParseItem(s, lower).value;
    m := before[key := value];
    AddNext(before, list, n, lower);
    MapNext(list, n, j, before, value, lower);
  }

  lemma NewKey(list: seq<string>, n: nat, j: nat, lower: Lower)
    requires j == n + 1 && PairsBefore(list, j, lower)
    ensures !KeyBefore(list, n, KeyText(list[n], lower), lower)
  {
  }

  lemma MapNext(list: seq<string>, n: nat, j: nat, before: map<string, string>, value: string, lower: Lower)
    requires j == n + 1 && PairsBefore(list, j, lower) && IsMapOf(before, list, n, lower)
    requires IsValueText(list[n], value)
    ensures IsMapOf(before[KeyText(list[n], lower) := value], list, j, lower)
  {
    var key := KeyText(list[n], lower);
    var m := before[key := value];
    NewKey(list, n, j, lower);
    forall k ensures k in m <==> KeyBefore(list, j, k, lower) {
      KeyBeforeNext(list, n, j, k, lower);
    }
    forall i | 0 <= i < j ensures HoldsItem(m, list[i], lower) {
      if i < n {
        assert HoldsItem(before, list[i], lower) && KeyText(list[i], lower) != key;
      }
    }
  }

  lemma KeyBeforeNext(list: seq<string>, n: nat, j: nat, k: string, lower: Lower)
    requires j == n + 1 && PairsBefore(list, j, lower)
    ensures KeyBefore(list, j, k, lower) <==> KeyBefore(list, n, k, lower) || k == KeyText(list[n], lower)
  {
  }

  // What item j does when those before it are good.
  lemma OutcomeAt(list: seq<string>, j: nat, lower: Lower)
    requires PairsBefore(list, j, lower)
    ensures var r := AddItems(map[], list, lower);
            && (FirstBadIsLoneQuote(list, j, lower) ==> r == OutOfRange)
            && (FirstBadHasNoValue(list, j, lower) ==> r == NoEquals)
            && (FirstBadIsRepeated(list, j, lower) ==> r == DuplicateKey)
            && (j == |list| ==> r.Params? && IsMapOf(r.map_, list, j, lower))
  {
    var m := AddUpTo(list, j, lower);
    if j < |list| {
      AddNext(m, list, j, lower);
      ItemByText(list[j], lower);
    } else {
      assert list[j..] == [];
    }
  }

  lemma {:induction false} FirstBad(list: seq<string>, from: nat, lower: Lower) returns (j: nat)
    requires PairsBefore(list, from, lower)
    ensures PairsBefore(list, j, lower)
    ensures j == |list| || FirstBadIsLoneQuote(list, j, lower) || FirstBadHasNoValue(list, j, lower) ||
            FirstBadIsRepeated(list, j, lower)
    decreases |list| - from
  {
    j := from;
    if from < |list| && PairText(list[from]) && !FirstBadIsRepeated(list, from, lower) {
      PairsNext(list, from, lower);
      j := FirstBad(list, from + 1, lower);
    }
  }

  /** Exactly when the parameters parse, and when each error arises: the first item that is no pair with
      a new key decides, and without one the map has the key and value of every item. */
  lemma ParamsOutcome(value: string, lower: Lower)
    ensures var list := HeaderList(TrimSpace(value)); var r := ParseAuthParams(value, lower);
            && (r == OutOfRange <==> exists j: nat :: FirstBadIsLoneQuote(list, j, lower))
            && (r == NoEquals <==> exists j: nat :: FirstBadHasNoValue(list, j, lower))
            && (r == DuplicateKey <==> exists j: nat :: FirstBadIsRepeated(list, j, lower))
            && (r.Params? <==> PairsBefore(list, |list|, lower))
            && (r.Params? ==> IsMapOf(r.map_, list, |list|, lower))
  {
    var list := HeaderList(TrimSpace(value));
    forall j: nat | PairsBefore(list, j, lower)
      ensures var r := AddItems(map[], list, lower);
              && (FirstBadIsLoneQuote(list, j, lower) ==> r == OutOfRange)
              && (FirstBadHasNoValue(list, j, lower) ==> r == NoEquals)
              && (FirstBadIsRepeated(list, j, lower) ==> r == DuplicateKey)
              && (j == |list| ==> r.Params? && IsMapOf(r.map_, list, j, lower))
    {
      OutcomeAt(list, j, lower);
    }
    var j := FirstBad(list, 0, lower);
    OutcomeAt(list, j, lower);
  }

  /** Parsing slices out of range exactly when some item of the list is a name, "=" and one quote,
      and every item before it is a key and a value, with different keys. */
  lemma PanicsIff(value: string, lower: Lower)
    ensures var list := HeaderList(TrimSpace(value));
            ParseAuthParams(value, lower) == OutOfRange <==>
            exists j: nat :: FirstBadIsLoneQuote(list, j, lower)
  {
    ParamsOutcome(value, lower);
  }

  lemma LoneQuoteIsListed(key: string, s: string)
    requires IsToken(key) && s == key + "=" + "\""
    ensures HeaderList(TrimSpace(s)) == [s]
  {
    KeyIsPlain(key);
    assert s[0] == key[0] && s[|s| - 1] == '"';
    TrimTight("", s);
    assert "" + s == s;
    ScanPlain(EMPTY, key + "=");
    ScanOpenQuote(key + "=");
  }

  lemma ScanOpenQuote(head: string)
    requires Steps(EMPTY, head) == EMPTY.(buf := "" + head)
    ensures Steps(EMPTY, head + "\"") == Scan([], head + "\"", true, false)
  {
    var sc := EMPTY.(buf := "" + head);
    StepsConcat(EMPTY, head, "\"");
    ScanOne(sc, '"', "");
    assert ['"'] + "" == "\"" && "" + head == head;
  }

  /** A key, "=" and one opening quote is such a value. */
  lemma LoneQuotePanics(key: string, lower: Lower)
    requires IsToken(key)
    ensures ParseAuthParams(key + "=\"", lower) == OutOfRange
  {
    var s := key + "=" + "\"";
    assert key + "=\"" == s;
    LoneQuoteIsListed(key, s);
    KeyIsPlain(key);
    assert s[..|s| - 2] == key;
    assert FirstBadIsLoneQuote([s], 0, lower);
    PanicsIff(s, lower);
  }

  /** ---- Whole headers ---- */

  // The text before the first space, or all of it, and the text behind that space.
  predicate Splits(h: string, scheme: string, rest: Option<string>) {
    ' ' !in scheme && h == match rest case None => scheme case Some(r) => scheme + " " + r
  }

  predicate IsTokenScheme(scheme: string) {
    scheme == "token" || scheme == "token-sudo"
  }

  // The parameters of a header: none when nothing follows the scheme.
  function ParamsOf(rest: Option<string>, lower: Lower): AuthParams {
    match rest case None => Params(map[]) case Some(r) => ParseAuthParams(r, lower)
  }

  lemma SplitExists(h: string) returns (scheme: string, rest: Option<string>)
    ensures Splits(h, scheme, rest)
  {
    var i := IndexOf(h, ' ');
    if i < 0 {
      scheme, rest := h, None;
    } else {
      scheme, rest := h[..i], Some(h[i + 1..]);
      assert h == h[..i] + " " + h[i + 1..];
    }
  }

  lemma CredentialsOf(h: string, scheme: string, rest: Option<string>, lower: Lower)
    requires Splits(h, scheme, rest)
    ensures ParseCredentials(h, lower) ==
            if ParamsOf(rest, lower) == OutOfRange then Err(Panic)
            else if ParamsOf(rest, lower) == DuplicateKey then Err(Duplicate)
            else if ParamsOf(rest, lower) == NoEquals then Ok(Credentials(scheme, rest.value, map[]))
            else Ok(Credentials(scheme, "", ParamsOf(rest, lower).map_))
  {
    if rest.Some? {
      SplitAtSpace(scheme, rest.value);
    } else {
      assert IndexOf(h, ' ') < 0;
    }
  }

  lemma NoEqualsIsNotEmpty(rest: string, lower: Lower)
    requires ParseAuthParams(rest, lower) == NoEquals
    ensures rest != ""
  {
  }

  predicate HasToken(m: map<string, string>) {
    "token" in m && m["token"] != ""
  }

  /** For every header text, the exact condition of each outcome.  `rest` is what follows the first
      space; it is a token68 when it is no list of parameters. */
  lemma HeaderOutcome(h: string, scheme: string, rest: Option<string>, dotcom: bool, lower: Lower)
    requires Splits(h, scheme, rest)
    ensures var r := ParseAuthorizationHeader(h, dotcom, lower); var p := ParamsOf(rest, lower);
            && (r == Err(Panic) <==> p == OutOfRange)
            && (r == Err(Duplicate) <==> p == DuplicateKey)
            && (r == Err(UnrecognizedScheme) <==> (p == NoEquals || p.Params?) && !IsTokenScheme(scheme))
            && (r == Err(SudoForm) <==> p == NoEquals && scheme == "token-sudo")
            && (r == Err(SudoDisabled) <==> p.Params? && IsTokenScheme(scheme) && dotcom)
            && (r == Err(NoToken) <==> p.Params? && IsTokenScheme(scheme) && !dotcom && !HasToken(p.map_))
            && (r.Ok? <==>
                  || (p == NoEquals && scheme == "token")
                  || (p.Params? && IsTokenScheme(scheme) && !dotcom && HasToken(p.map_)))
            && (r.Ok? && p == NoEquals ==> rest.Some? && rest.value != "" && r.value == (rest.value, ""))
            && (r.Ok? && p.Params? ==>
                  && r.value.0 == p.map_["token"]
                  && r.value.1 == if "user" in p.map_ then p.map_["user"] else "")
  {
    CredentialsOf(h, scheme, rest, lower);
    if ParamsOf(rest, lower) == NoEquals {
      NoEqualsIsNotEmpty(rest.value, lower);
    }
  }

  /** For instance a Basic header is refused, whatever token68 it carries. */
  lemma BasicIsRefused(t: string, dotcom: bool, lower: Lower)
    requires IsToken68(t)
    ensures ParseAuthorizationHeader("Basic" + " " + t, dotcom, lower) == Err(UnrecognizedScheme)
  {
    var n :| 0 < n <= |t| && PaddedFrom(t, n);
    Token68IsNoParam(t, n, lower);
    HeaderOutcome("Basic" + " " + t, "Basic", Some(t), dotcom, lower);
  }
}
