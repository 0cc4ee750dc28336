/**
  Parsing the HTTP Authorization request header (internal/authz/header.go): credentials and
  auth-params of RFC 7235, section 2.1 and Appendix C, over the list rule of RFC 2068,
  section 2.1.  Lower-casing of a rune is a parameter.
 */
module Header {
  import opened Options

  /** ---- Text helpers ---- */

  // unicode.IsSpace
  predicate IsSpace(c: char) {
    c in "\t\n\r " || c as int in {0x0B, 0x0C, 0x85, 0xA0, 0x1680, 0x2028, 0x2029, 0x202F, 0x205F, 0x3000} ||
    0x2000 <= c as int <= 0x200A
  }

  function TrimLeft(s: string): string {
    if s != "" && IsSpace(s[0]) then TrimLeft(s[1..]) else s
  }

  function TrimRight(s: string): string {
    if s != "" && IsSpace(s[|s| - 1]) then TrimRight(s[..|s| - 1]) else s
  }

  function TrimSpace(s: string): string {
    TrimRight(TrimLeft(s))
  }

  // Index of the first c, or -1.
  function IndexOf(s: string, c: char): (i: int)
    ensures -1 <= i < |s| && (i >= 0 ==> s[i] == c) && (i < 0 ==> c !in s)
    ensures forall j :: 0 <= j < i ==> s[j] != c
  {
    if s == "" then -1
    else if s[0] == c then 0
    else
      var i := IndexOf(s[1..], c);
      if i < 0 then -1 else i + 1
  }

  type Lower = char -> char

  function ToLower(s: string, lower: Lower): (r: string)
    ensures |r| == |s| && forall i :: 0 <= i < |s| ==> r[i] == lower(s[i])
  {
    seq(|s|, i requires 0 <= i < |s| => lower(s[i]))
  }

  /** ---- The list rule ---- */

  // The scanner's variables.
  datatype Scan = Scan(list: seq<string>, buf: string, quote: bool, escape: bool)

  const EMPTY := Scan([], "", false, false)

  function Step(sc: Scan, r: char): Scan {
    if sc.escape then sc.(buf := sc.buf + [r], escape := false)
    else if sc.quote then
      if r == '\\' then sc.(escape := true)
      else sc.(buf := sc.buf + [r], quote := r != '"')
    else if r == ',' then sc.(list := sc.list + [TrimSpace(sc.buf)], buf := "")
    else if r == '"' then sc.(buf := sc.buf + [r], quote := true)
    else sc.(buf := sc.buf + [r])
  }

  function Steps(sc: Scan, s: string): Scan
    decreases |s|
  {
    if s == "" then sc else Steps(Step(sc, s[0]), s[1..])
  }

  // Append the last part.
  function Finish(sc: Scan): seq<string> {
    if sc.buf != "" then sc.list + [TrimSpace(sc.buf)] else sc.list
  }

  function HeaderList(value: string): seq<string> {
    Finish(Steps(EMPTY, value))
  }

  method ParseHTTPHeaderList(value: string) returns (list: seq<string>)
    ensures list == HeaderList(value)
  {
    list := [];
    var escape, quote, b := false, false, "";
    for i := 0 to |value|
      invariant Steps(EMPTY, value) == Steps(Scan(list, b, quote, escape), value[i..])
    {
      assert value[i..][0] == value[i] && value[i..][1..] == value[i + 1..];
      var r := value[i];
      if escape {
        b := b + [r];
        escape := false;
      } else if quote {
        if r == '\\' {
          escape := true;
        } else {
          if r == '"' {
            quote := false;
          }
          b := b + [r];
        }
      } else if r == ',' {
        list := list + [TrimSpace(b)];
        b := "";
      } else if r == '"' {
        quote := true;
        b := b + [r];
      } else {
        b := b + [r];
      }
    }
    if b != "" {
      list := list + [TrimSpace(b)];
    }
  }

  /** ---- Auth-params ---- */

  // OutOfRange is the runtime panic of slicing a value that is one quote character.
  datatype AuthParams = Params(map_: map<string, string>) | NoEquals | DuplicateKey | OutOfRange

  // One key=value item, or why it is not one.
  datatype Item = Pair(key: string, value: string) | NoValue | LoneQuote

  function ParseItem(pair: string, lower: Lower): Item {
    var i := IndexOf(pair, '=');
    if i < 0 || pair[|pair| - 1] == '=' then NoValue
    else
      var v := pair[i + 1..];
      var key := ToLower(pair[..i], lower);
      if v[0] == '"' && v[|v| - 1] == '"' then
        if |v| < 2 then LoneQuote else Pair(key, v[1..|v| - 1])
      else Pair(key, v)
  }

  function AddItems(params: map<string, string>, list: seq<string>, lower: Lower): AuthParams
    decreases |list|
  {
    if list == [] then Params(params)
    else match ParseItem(list[0], lower)
      case NoValue => NoEquals
      case LoneQuote => OutOfRange
      case Pair(key, value) =>
        if key in params then DuplicateKey else AddItems(params[key := value], list[1..], lower)
  }

  function ParseAuthParams(value: string, lower: Lower): AuthParams {
    AddItems(map[], HeaderList(TrimSpace(value)), lower)
  }

  lemma AddNext(params: map<string, string>, list: seq<string>, k: nat, lower: Lower)
    requires k < |list|
    ensures var item := ParseItem(list[k], lower); var r := AddItems(params, list[k..], lower);
            && (item.NoValue? ==> r == NoEquals)
            && (item.LoneQuote? ==> r == OutOfRange)
            && (item.Pair? ==>
                  r == if item.key in params then DuplicateKey
                       else AddItems(params[item.key := item.value], list[k + 1..], lower))
  {
    assert list[k..][0] == list[k] && list[k..][1..] == list[k + 1..];
  }

  method ParseHTTPAuthParams(value: string, lower: Lower) returns (r: AuthParams)
    ensures r == ParseAuthParams(value, lower)
  {
    var params: map<string, string> := map[];
    var list := ParseHTTPHeaderList(TrimSpace(value));
    ghost var all := AddItems(map[], list, lower);
    for k := 0 to |list|
      invariant all == AddItems(params, list[k..], lower)
    {
      AddNext(params, list, k, lower);
      var pair := list[k];
      var i := IndexOf(pair, '=');
      if i < 0 || pair[|pair| - 1] == '=' {
        return NoEquals;
      }
      var v := pair[i + 1..];
      if v[0] == '"' && v[|v| - 1] == '"' {
        if |v| < 2 {
          return OutOfRange;
        }
        v := v[1..|v| - 1];
      }
      var key := ToLower(pair[..i], lower);
      if key in params {
        return DuplicateKey;
      }
      params := params[key := v];
    }
    return Params(params);
  }

  /** ---- Credentials ---- */

  datatype HeaderError = UnrecognizedScheme | Duplicate | SudoForm | SudoDisabled | NoToken | Panic

  datatype Credentials = Credentials(scheme: string, token68: string, params: map<string, string>)

  function ParseCredentials(credentials: string, lower: Lower): Result<Credentials, HeaderError> {
    var i := IndexOf(credentials, ' ');
    if i < 0 then Ok(Credentials(credentials, "", map[]))
    else
      var scheme, rest := credentials[..i], credentials[i + 1..];
      match ParseAuthParams(rest, lower)
      case NoEquals => Ok(Credentials(scheme, rest, map[]))
      case DuplicateKey => Err(Duplicate)
      case OutOfRange => Err(Panic)
      case Params(params) => Ok(Credentials(scheme, "", params))
  }

  function Lookup(params: map<string, string>, key: string): string {
    if key in params then params[key] else ""
  }

  // The token and the sudo user.
  function ParseAuthorizationHeader(headerValue: string, dotcom: bool, lower: Lower)
    : Result<(string, string), HeaderError>
  {
    match ParseCredentials(headerValue, lower)
    case Err(e) => Err(e)
    case Ok(c) =>
      if c.scheme != "token" && c.scheme != "token-sudo" then Err(UnrecognizedScheme)
      else if c.token68 != "" then (if c.scheme == "token" then Ok((c.token68, "")) else Err(SudoForm))
      else if dotcom then Err(SudoDisabled)
      else if Lookup(c.params, "token") == "" then Err(NoToken)
      else Ok((Lookup(c.params, "token"), Lookup(c.params, "user")))
  }
}
