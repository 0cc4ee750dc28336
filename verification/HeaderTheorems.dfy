/**
  Round trips of the Authorization header parser (internal/authz/header.go): auth-params, bare or
  quoted, and token68 values written by the grammar of RFC 7235 parse back to themselves.
 */
module HeaderTheorems {
  import opened Options
  import opened Header

  /** ---- Writing credentials ---- */

  predicate IsAlnum(c: char) {
    '0' <= c <= '9' || 'A' <= c <= 'Z' || 'a' <= c <= 'z'
  }

  // token of RFC 7230, section 3.2.6
  predicate IsTokenChar(c: char) {
    IsAlnum(c) || c in "!#$%&'*+-.^_`|~"
  }

  predicate IsToken(s: string) {
    s != "" && forall i :: 0 <= i < |s| ==> IsTokenChar(s[i])
  }

  // token68 of RFC 7235, section 2.1: at least one of these, then any number of "=".
  predicate IsToken68(s: string) {
    exists n :: 0 < n <= |s| && PaddedFrom(s, n)
  }

  predicate PaddedFrom(s: string, n: nat) {
    && (forall i :: 0 <= i < n && i < |s| ==> IsAlnum(s[i]) || s[i] in "-._~+/")
    && (forall i :: n <= i < |s| ==> s[i] == '=')
  }

  function Escape(v: string): string {
    if v == "" then ""
    else (if v[0] == '"' || v[0] == '\\' then ['\\', v[0]] else [v[0]]) + Escape(v[1..])
  }

  // A parameter, to be written with its value as a quoted-string or as it is.
  datatype Param = Param(key: string, value: string, quoted: bool)

  // key="escaped value" or key=value
  function Print(p: Param): string {
    p.key + "=" + if p.quoted then "\"" + (Escape(p.value) + "\"") else p.value
  }

  // Optional whitespace before and after each comma.
  datatype Spacing = Spacing(before: string, after: string)

  function PrintAll(ps: seq<Param>, sp: Spacing): string {
    if ps == [] then ""
    else if |ps| == 1 then Print(ps[0])
    else Print(ps[0]) + (sp.before + ("," + sp.after) + PrintAll(ps[1..], sp))
  }

  predicate IsSpacing(sp: Spacing) {
    AllSpace(sp.before) && AllSpace(sp.after)
  }

  // A token for a key; any value when it is quoted, else a token.
  predicate IsParam(p: Param) {
    IsToken(p.key) && (p.quoted || IsToken(p.value))
  }

  predicate Writable(ps: seq<Param>, lower: Lower) {
    && (forall i :: 0 <= i < |ps| ==> IsParam(ps[i]) && ToLower(ps[i].key, lower) == ps[i].key)
    && (forall i, j :: 0 <= i < j < |ps| ==> ps[i].key != ps[j].key)
  }

  predicate AllSpace(s: string) {
    forall i :: 0 <= i < |s| ==> IsSpace(s[i])
  }

  function AsMap(ps: seq<Param>): map<string, string> {
    if ps == [] then map[] else AsMap(ps[..|ps| - 1])[ps[|ps| - 1].key := ps[|ps| - 1].value]
  }

  /** ---- Trimming ---- */

  predicate Tight(s: string) {
    s == "" || (!IsSpace(s[0]) && !IsSpace(s[|s| - 1]))
  }

  lemma {:induction false} TrimLeftSpaces(ws: string, s: string)
    requires AllSpace(ws)
    ensures TrimLeft(ws + s) == TrimLeft(s)
  {
    if ws == "" {
      assert ws + s == s;
    } else {
      assert (ws + s)[1..] == ws[1..] + s;
      TrimLeftSpaces(ws[1..], s);
    }
  }

  lemma {:induction false} TrimRightSpaces(s: string, ws: string)
    requires AllSpace(ws)
    ensures TrimRight(s + ws) == TrimRight(s)
  {
    if ws == "" {
      assert s + ws == s;
    } else {
      var n := |ws| - 1;
      assert (s + ws)[..|s| + n] == s + ws[..n] && (s + ws)[|s| + n] == ws[n];
      TrimRightSpaces(s, ws[..n]);
    }
  }

  lemma TrimTight(ws: string, s: string)
    requires AllSpace(ws) && Tight(s)
    ensures TrimSpace(ws + s) == s
  {
    TrimLeftSpaces(ws, s);
  }

  // Whitespace around a text that has none at its ends.
  lemma TrimAround(before: string, s: string, after: string)
    requires AllSpace(before) && AllSpace(after) && Tight(s) && s != ""
    ensures TrimSpace(before + s + after) == s
  {
    assert before + s + after == before + (s + after);
    TrimLeftSpaces(before, s + after);
    TrimRightSpaces(s, after);
  }

  lemma {:induction false} TrimLeftExact(s: string) returns (ws: string)
    ensures AllSpace(ws) && s == ws + TrimLeft(s) && (TrimLeft(s) != "" ==> !IsSpace(TrimLeft(s)[0]))
  {
    ws := "";
    if s != "" && IsSpace(s[0]) {
      var rest := TrimLeftExact(s[1..]);
      ws := [s[0]] + rest;
      OneInFront(s, rest, TrimLeft(s[1..]));
    }
  }

  lemma OneInFront(s: string, ws: string, t: string)
    requires s != "" && s[1..] == ws + t
    ensures s == [s[0]] + ws + t
  {
    assert s == [s[0]] + s[1..];
  }

  lemma {:induction false} TrimRightExact(s: string) returns (ws: string)
    ensures AllSpace(ws) && s == TrimRight(s) + ws
    ensures TrimRight(s) != "" ==> TrimRight(s)[0] == s[0] && !IsSpace(TrimRight(s)[|TrimRight(s)| - 1])
  {
    ws := "";
    if s != "" && IsSpace(s[|s| - 1]) {
      ws := TrimRightExact(s[..|s| - 1]);
      ws := ws + [s[|s| - 1]];
      assert s == s[..|s| - 1] + [s[|s| - 1]];
    }
  }

  /** Trimming takes whitespace off both ends, all of it and nothing else. */
  lemma TrimSpaceExact(s: string) returns (before: string, after: string)
    ensures AllSpace(before) && AllSpace(after) && s == before + TrimSpace(s) + after && Tight(TrimSpace(s))
  {
    before := TrimLeftExact(s);
    after := TrimRightExact(TrimLeft(s));
  }

  /** ---- Scanning ---- */

  lemma {:induction false} StepsConcat(sc: Scan, a: string, b: string)
    ensures Steps(sc, a + b) == Steps(Steps(sc, a), b)
    decreases |a|
  {
    if a == "" {
      assert a + b == b;
    } else {
      assert (a + b)[1..] == a[1..] + b;
      StepsConcat(Step(sc, a[0]), a[1..], b);
    }
  }

  // Outside quotes, runes other than comma and quote are copied.
  lemma {:induction false} ScanPlain(sc: Scan, s: string)
    requires !sc.quote && !sc.escape && ',' !in s && '"' !in s
    ensures Steps(sc, s) == sc.(buf := sc.buf + s)
    decreases |s|
  {
    if s == "" {
      assert sc.buf + s == sc.buf;
    } else {
      assert s[0] in s && forall c :: c in s[1..] ==> c in s;
      ScanPlain(Step(sc, s[0]), s[1..]);
      assert sc.buf + [s[0]] + s[1..] == sc.buf + s;
    }
  }

  lemma ScanEscapedRune(sc: Scan, c: char, rest: string)
    requires sc.quote && !sc.escape
    ensures Steps(sc, (if c == '"' || c == '\\' then ['\\', c] else [c]) + rest) ==
            Steps(sc.(buf := sc.buf + [c]), rest)
  {
    ScanOne(sc, c, rest);
    if c == '"' || c == '\\' {
      assert ['\\', c] + rest == ['\\'] + ([c] + rest);
      ScanOne(sc, '\\', [c] + rest);
      ScanOne(Step(sc, '\\'), c, rest);
    }
  }

  // Inside quotes an escaped text is copied unescaped.
  lemma {:induction false} ScanEscaped(sc: Scan, v: string)
    requires sc.quote && !sc.escape
    ensures Steps(sc, Escape(v)) == sc.(buf := sc.buf + v)
    decreases |v|
  {
    if v == "" {
      assert sc.buf + v == sc.buf;
    } else {
      ScanEscapedRune(sc, v[0], Escape(v[1..]));
      ScanEscaped(sc.(buf := sc.buf + [v[0]]), v[1..]);
      assert sc.buf + [v[0]] + v[1..] == sc.buf + v;
    }
  }

  // What is left of a printed parameter after scanning: its quotes, but not its escapes.
  function Unescaped(p: Param): string {
    p.key + "=" + if p.quoted then "\"" + (p.value + "\"") else p.value
  }

  lemma ScanOne(sc: Scan, c: char, rest: string)
    ensures Steps(sc, [c] + rest) == Steps(Step(sc, c), rest)
  {
    assert ([c] + rest)[1..] == rest;
  }

  lemma ScanQuoted(sc: Scan, v: string)
    requires !sc.quote && !sc.escape
    ensures Steps(sc, "\"" + (Escape(v) + "\"")) == sc.(buf := sc.buf + ("\"" + (v + "\"")))
  {
    var open := Step(sc, '"');
    var inner := open.(buf := open.buf + v);
    ScanOne(sc, '"', Escape(v) + "\"");
    StepsConcat(open, Escape(v), "\"");
    ScanEscaped(open, v);
    ScanOne(inner, '"', "");
    assert ['"'] + "" == "\"" && Steps(Step(inner, '"'), "") == Step(inner, '"');
    Regroup(sc.buf, "\"", v, "\"");
  }

  lemma Regroup(a: string, b: string, c: string, d: string)
    ensures a + b + c + d == a + (b + (c + d))
  {
  }

  lemma KeyIsPlain(key: string)
    requires IsToken(key)
    ensures ',' !in key && '"' !in key && '=' !in key && forall i :: 0 <= i < |key| ==> !IsSpace(key[i])
  {
  }

  lemma ScanParam(sc: Scan, p: Param)
    requires !sc.quote && !sc.escape && IsParam(p)
    ensures Steps(sc, Print(p)) == sc.(buf := sc.buf + Unescaped(p))
  {
    KeyIsPlain(p.key);
    var head := p.key + "=";
    if p.quoted {
      ScanPlain(sc, head);
      StepsConcat(sc, head, "\"" + (Escape(p.value) + "\""));
      ScanQuoted(sc.(buf := sc.buf + head), p.value);
      assert sc.buf + head + ("\"" + (p.value + "\"")) == sc.buf + Unescaped(p);
    } else {
      KeyIsPlain(p.value);
      ScanPlain(sc, head + p.value);
    }
  }

  lemma ScanSpaces(sc: Scan, ws: string)
    requires !sc.quote && !sc.escape && AllSpace(ws)
    ensures Steps(sc, ws) == sc.(buf := sc.buf + ws)
  {
    ScanPlain(sc, ws);
  }

  lemma ScanSeparator(sc: Scan, sp: Spacing)
    requires !sc.quote && !sc.escape && IsSpacing(sp)
    ensures Steps(sc, sp.before + ("," + sp.after)) ==
            Scan(sc.list + [TrimSpace(sc.buf + sp.before)], sp.after, false, false)
  {
    var full := sc.(buf := sc.buf + sp.before);
    var next := Scan(sc.list + [TrimSpace(full.buf)], "", false, false);
    ScanSpaces(sc, sp.before);
    StepsConcat(sc, sp.before, "," + sp.after);
    ScanOne(full, ',', sp.after);
    assert [','] + sp.after == "," + sp.after && Step(full, ',') == next;
    ScanSpaces(next, sp.after);
    assert "" + sp.after == sp.after;
  }

  function Items(ps: seq<Param>): (r: seq<string>)
    ensures |r| == |ps| && forall i :: 0 <= i < |ps| ==> r[i] == Unescaped(ps[i])
  {
    if ps == [] then [] else [Unescaped(ps[0])] + Items(ps[1..])
  }

  lemma UnescapedIsTight(p: Param)
    requires IsParam(p)
    ensures Tight(Unescaped(p)) && Unescaped(p) != ""
  {
    KeyIsPlain(p.key);
    var s := Unescaped(p);
    assert s[0] == p.key[0];
    if p.quoted {
      assert s[|s| - 1] == '"';
    } else {
      KeyIsPlain(p.value);
      assert s[|s| - 1] == p.value[|p.value| - 1];
    }
  }

  // One parameter and the separator after it.
  lemma ScanOneParam(list: seq<string>, ws: string, p: Param, sp: Spacing, rest: string)
    requires AllSpace(ws) && IsSpacing(sp) && IsParam(p)
    ensures Steps(Scan(list, ws, false, false), Print(p) + (sp.before + ("," + sp.after) + rest)) ==
            Steps(Scan(list + [Unescaped(p)], sp.after, false, false), rest)
  {
    var sc := Scan(list, ws, false, false);
    var after := sc.(buf := ws + Unescaped(p));
    var sep := sp.before + ("," + sp.after);
    ScanParam(sc, p);
    UnescapedIsTight(p);
    TrimAround(ws, Unescaped(p), sp.before);
    StepsConcat(sc, Print(p), sep + rest);
    StepsConcat(after, sep, rest);
    ScanSeparator(after, sp);
  }

  lemma ScanLastParam(list: seq<string>, ws: string, p: Param)
    requires AllSpace(ws) && IsParam(p)
    ensures Finish(Steps(Scan(list, ws, false, false), Print(p))) == list + [Unescaped(p)]
  {
    ScanParam(Scan(list, ws, false, false), p);
    UnescapedIsTight(p);
    TrimTight(ws, Unescaped(p));
  }

  lemma ItemsCons(list: seq<string>, ps: seq<Param>)
    requires ps != []
    ensures list + [Unescaped(ps[0])] + Items(ps[1..]) == list + Items(ps)
  {
  }

  lemma {:induction false} ListRoundTrip(list: seq<string>, ws: string, ps: seq<Param>, sp: Spacing)
    requires AllSpace(ws) && IsSpacing(sp) && ps != [] && forall i :: 0 <= i < |ps| ==> IsParam(ps[i])
    ensures Finish(Steps(Scan(list, ws, false, false), PrintAll(ps, sp))) == list + Items(ps)
    decreases |ps|
  {
    var p := ps[0];
    if |ps| == 1 {
      ScanLastParam(list, ws, p);
      assert Items(ps) == [Unescaped(p)];
    } else {
      var rest := ps[1..];
      ScanOneParam(list, ws, p, sp, PrintAll(rest, sp));
      ListRoundTrip(list + [Unescaped(p)], sp.after, rest, sp);
      ItemsCons(list, ps);
    }
  }

  /** ---- Auth-params ---- */

  lemma KeyEnds(p: Param)
    requires IsParam(p)
    ensures IndexOf(Unescaped(p), '=') == |p.key| && Unescaped(p)[..|p.key|] == p.key
  {
    KeyIsPlain(p.key);
    var s, n := Unescaped(p), |p.key|;
    assert s[n] == '=' && forall j :: 0 <= j < n ==> s[j] == p.key[j];
  }

  lemma ParseUnescaped(p: Param, lower: Lower)
    requires IsParam(p) && ToLower(p.key, lower) == p.key
    ensures ParseItem(Unescaped(p), lower) == Pair(p.key, p.value)
  {
    var s, n := Unescaped(p), |p.key|;
    KeyEnds(p);
    if p.quoted {
      assert s[n + 1] == '"' && s[|s| - 1] == '"' && s[n + 2..|s| - 1] == p.value;
      QuotedItem(s, n, lower);
    } else {
      KeyIsPlain(p.value);
      assert s[n + 1..] == p.value && s[|s| - 1] == p.value[|p.value| - 1] && p.value[0] in p.value;
    }
  }

  lemma QuotedItem(s: string, n: nat, lower: Lower)
    requires n + 3 <= |s| && IndexOf(s, '=') == n && s[n + 1] == '"' && s[|s| - 1] == '"'
    ensures ParseItem(s, lower) == Pair(ToLower(s[..n], lower), s[n + 2..|s| - 1])
  {
    var v := s[n + 1..];
    assert v[1..|v| - 1] == s[n + 2..|s| - 1];
  }

  lemma {:induction false} AddRoundTrip(done: seq<Param>, ps: seq<Param>, lower: Lower)
    requires Writable(done + ps, lower)
    ensures AddItems(AsMap(done), Items(ps), lower) == Params(AsMap(done + ps))
    decreases |ps|
  {
    if ps == [] {
      assert done + ps == done;
    } else {
      var p := ps[0];
      assert (done + ps)[|done|] == p;
      ParseUnescaped(p, lower);
      KeysOf(done);
      forall i | 0 <= i < |done| ensures done[i].key != p.key {
        assert (done + ps)[i].key != (done + ps)[|done|].key;
      }
      assert Items(ps)[1..] == Items(ps[1..]);
      assert (done + [p])[..|done|] == done;
      assert AsMap(done + [p]) == AsMap(done)[p.key := p.value];
      MoveOne(done, ps);
      AddRoundTrip(done + [p], ps[1..], lower);
    }
  }

  lemma MoveOne(done: seq<Param>, ps: seq<Param>)
    requires ps != []
    ensures done + [ps[0]] + ps[1..] == done + ps
  {
  }

  lemma {:induction false} KeysOf(ps: seq<Param>)
    ensures forall k :: k in AsMap(ps) <==> exists i :: 0 <= i < |ps| && ps[i].key == k
  {
    if ps != [] {
      KeysOf(ps[..|ps| - 1]);
    }
  }

  lemma PrintIsTight(p: Param)
    requires IsParam(p)
    ensures Tight(Print(p)) && Print(p) != ""
  {
    KeyIsPlain(p.key);
    var s := Print(p);
    assert s[0] == p.key[0];
    if p.quoted {
      assert s[|s| - 1] == '"';
    } else {
      KeyIsPlain(p.value);
      assert s[|s| - 1] == p.value[|p.value| - 1];
    }
  }

  lemma {:induction false} PrintAllIsTight(ps: seq<Param>, sp: Spacing, lower: Lower)
    requires Writable(ps, lower) && IsSpacing(sp)
    ensures Tight(PrintAll(ps, sp)) && (ps != [] ==> PrintAll(ps, sp) != "")
    decreases |ps|
  {
    if ps != [] {
      PrintIsTight(ps[0]);
      if |ps| > 1 {
        PrintAllIsTight(ps[1..], sp, lower);
      }
    }
  }

  lemma PrintedIsListed(ps: seq<Param>, sp: Spacing, before: string, after: string, lower: Lower)
    requires Writable(ps, lower) && IsSpacing(sp) && AllSpace(before) && AllSpace(after)
    ensures HeaderList(TrimSpace(before + PrintAll(ps, sp) + after)) == Items(ps)
  {
    if ps == [] {
      TrimTight(before + after, "");
      assert before + "" + after == before + after + "";
    } else {
      PrintAllIsTight(ps, sp, lower);
      TrimAround(before, PrintAll(ps, sp), after);
      ListRoundTrip([], "", ps, sp);
      assert [] + Items(ps) == Items(ps);
    }
  }

  /** Auth-params with distinct lower-case token keys, written with any values at all as escaped
      quoted-strings or with token values as they are, joined by commas with optional whitespace on
      either side and around the whole, parse back to the same map. */
  lemma AuthParamsRoundTrip(ps: seq<Param>, sp: Spacing, before: string, after: string, lower: Lower)
    requires Writable(ps, lower) && IsSpacing(sp) && AllSpace(before) && AllSpace(after)
    ensures ParseAuthParams(before + PrintAll(ps, sp) + after, lower) == Params(AsMap(ps))
  {
    PrintedIsListed(ps, sp, before, after, lower);
    AddRoundTrip([], ps, lower);
    assert [] + ps == ps;
  }

  /** ---- Whole headers ---- */

  lemma SplitAtSpace(scheme: string, rest: string)
    requires ' ' !in scheme
    ensures var h := scheme + " " + rest; var i := IndexOf(h, ' ');
            i == |scheme| && h[..i] == scheme && h[i + 1..] == rest
  {
    var h := scheme + " " + rest;
    assert h[|scheme|] == ' ' && forall j :: 0 <= j < |scheme| ==> h[j] == scheme[j] && scheme[j] in scheme;
  }

  lemma {:induction false} ParamsAt(ps: seq<Param>, i: nat, lower: Lower)
    requires Writable(ps, lower) && i < |ps|
    ensures Lookup(AsMap(ps), ps[i].key) == ps[i].value
  {
    var n := |ps| - 1;
    if i < n {
      assert Writable(ps[..n], lower);
      ParamsAt(ps[..n], i, lower);
      KeysOf(ps[..n]);
    }
  }

  /** A token-sudo header (or a token header with parameters) gives back any non-empty token and any
      user name, whatever other parameters it carries, unless sudo tokens are disabled. */
  lemma SudoHeaderRoundTrip(scheme: string, ps: seq<Param>, t: nat, u: nat, sp: Spacing, ws: string, lower: Lower)
    requires scheme == "token" || scheme == "token-sudo"
    requires Writable(ps, lower) && IsSpacing(sp) && AllSpace(ws) && t < |ps| && u < |ps|
    requires ps[t].key == "token" && ps[t].value != "" && ps[u].key == "user"
    ensures var h := scheme + " " + (ws + PrintAll(ps, sp) + ws);
            && ParseAuthorizationHeader(h, false, lower) == Ok((ps[t].value, ps[u].value))
            && ParseAuthorizationHeader(h, true, lower) == Err(SudoDisabled)
  {
    SplitAtSpace(scheme, ws + PrintAll(ps, sp) + ws);
    AuthParamsRoundTrip(ps, sp, ws, ws, lower);
    ParamsAt(ps, t, lower);
    ParamsAt(ps, u, lower);
  }

  lemma Token68Listed(t: string, n: nat)
    requires 0 < n <= |t| && PaddedFrom(t, n)
    ensures TrimSpace(t) == t && HeaderList(t) == [t]
  {
    forall i | 0 <= i < |t| ensures !IsSpace(t[i]) && t[i] != ',' && t[i] != '"' {
    }
    TrimTight("", t);
    assert "" + t == t;
    ScanPlain(EMPTY, t);
  }

  lemma Token68HasNoValue(t: string, n: nat, lower: Lower)
    requires 0 < n <= |t| && PaddedFrom(t, n)
    ensures ParseItem(t, lower) == NoValue
  {
    var i := IndexOf(t, '=');
    if i >= 0 {
      assert t[|t| - 1] == '=';
    }
  }

  lemma OneItem(t: string, lower: Lower)
    requires ParseItem(t, lower) == NoValue
    ensures AddItems(map[], [t], lower) == NoEquals
  {
  }

  lemma Token68IsNoParam(t: string, n: nat, lower: Lower)
    requires 0 < n <= |t| && PaddedFrom(t, n)
    ensures ParseAuthParams(t, lower) == NoEquals
  {
    Token68Listed(t, n);
    Token68HasNoValue(t, n, lower);
    OneItem(t, lower);
  }

  /** "token " followed by any token68, padded or not, parses to that token68. */
  lemma Token68RoundTrip(t: string, dotcom: bool, lower: Lower)
    requires IsToken68(t)
    ensures ParseAuthorizationHeader("token" + " " + t, dotcom, lower) == Ok((t, ""))
  {
    var n :| 0 < n <= |t| && PaddedFrom(t, n);
    Token68IsNoParam(t, n, lower);
    Token68Credentials("token", t, lower);
  }

  lemma Token68Credentials(scheme: string, t: string, lower: Lower)
    requires ' ' !in scheme && ParseAuthParams(t, lower) == NoEquals
    ensures ParseCredentials(scheme + " " + t, lower) == Ok(Credentials(scheme, t, map[]))
  {
    SplitAtSpace(scheme, t);
  }
}
