/**
  The access-token table (internal/database/access_tokens.go).  The secret's hash is a
  parameter; the random bytes and the current time are arguments.  Each call is one statement
  on the table, and so atomic.
 */
module AccessTokens {
  import opened Options
  import opened Octets
  import opened Hex

  const PREFIX := "sgp_"

  type Hash = Bytes -> Bytes

  datatype Row = Row(id: int, subject: int, scopes: seq<string>, digest: Bytes, note: string, creator: int,
                     internal: bool, lastUsed: Option<int>, deleted: bool)

  // `serial` is the last id handed out; `users` are the users that are not deleted.
  datatype Db = Db(rows: seq<Row>, serial: int, users: set<int>)

  datatype TokenError = NoScopes | UserMissing | NoScope | InvalidToken | NotFound

  function StripPrefix(token: string): string {
    if PREFIX <= token then token[|PREFIX|..] else token
  }

  // The bytes behind a token, with or without the prefix.
  function SecretOf(token: string): Option<Bytes> {
    Decode(StripPrefix(token))
  }

  function TokenFor(secret: Bytes): string {
    PREFIX + Encode(secret)
  }

  lemma SecretOfToken(secret: Bytes)
    ensures SecretOf(TokenFor(secret)) == Some(secret)
  {
    DecodeEncode(secret);
    assert TokenFor(secret)[|PREFIX|..] == Encode(secret);
  }

  /** Exactly the texts of hex bytes, with the prefix once or not at all, are tokens. */
  lemma SecretOfIff(token: string)
    ensures SecretOf(token).Some? <==> IsHexText(token) || (PREFIX <= token && IsHexText(token[|PREFIX|..]))
    ensures SecretOf(token).Some? ==>
      Encode(SecretOf(token).value) == Lowered(if PREFIX <= token then token[|PREFIX|..] else token)
  {
    EncodeDecode(StripPrefix(token));
    if PREFIX <= token {
      assert token[0] == 's' && !IsHexDigit(token[0]);
    }
  }

  /** ---- One statement each ---- */

  predicate CanCreate(db: Db, subject: int, scopes: seq<string>, creator: int) {
    scopes != [] && subject in db.users && creator in db.users
  }

  function Create(db: Db, secret: Bytes, subject: int, scopes: seq<string>, note: string, creator: int,
                  internal: bool, hash: Hash): Db
  {
    if !CanCreate(db, subject, scopes, creator) then db
    else
      var row := Row(db.serial + 1, subject, scopes, hash(secret), note, creator, internal, None, false);
      db.(rows := db.rows + [row], serial := db.serial + 1)
  }

  predicate Live(r: Row) {
    !r.deleted
  }

  // The rows a lookup accepts: live, in scope, of users that still exist.
  predicate Usable(db: Db, r: Row, digest: Bytes, scope: string) {
    r.digest == digest && !r.deleted && scope in r.scopes && r.subject in db.users && r.creator in db.users
  }

  function FirstUsable(db: Db, rows: seq<Row>, digest: Bytes, scope: string): (r: Option<Row>)
    ensures r.Some? ==> r.value in rows && Usable(db, r.value, digest, scope)
    ensures r.None? ==> forall x :: x in rows ==> !Usable(db, x, digest, scope)
  {
    if rows == [] then None
    else if Usable(db, rows[0], digest, scope) then Some(rows[0])
    else FirstUsable(db, rows[1..], digest, scope)
  }

  function LookupResult(db: Db, token: string, scope: string, hash: Hash): Result<int, TokenError> {
    if scope == "" then Err(NoScope)
    else match SecretOf(token)
      case None => Err(InvalidToken)
      case Some(secret) =>
        match FirstUsable(db, db.rows, hash(secret), scope)
        case None => Err(NotFound)
        case Some(r) => Ok(r.subject)
  }

  // A row as a statement leaves it.
  function Touched(db: Db, r: Row, digest: Bytes, scope: string, now: int): Row {
    if Usable(db, r, digest, scope) then r.(lastUsed := Some(now)) else r
  }

  function Lookup(db: Db, token: string, scope: string, now: int, hash: Hash): Db {
    if scope == "" || SecretOf(token).None? then db
    else
      var digest := hash(SecretOf(token).value);
      db.(rows := seq(|db.rows|, i requires 0 <= i < |db.rows| => Touched(db, db.rows[i], digest, scope, now)))
  }

  function SoftDeleteByID(db: Db, id: int): Db {
    db.(rows := seq(|db.rows|, i requires 0 <= i < |db.rows| =>
                 if db.rows[i].id == id then db.rows[i].(deleted := true) else db.rows[i]))
  }

  function SoftDeleteByDigest(db: Db, digest: Bytes): Db {
    db.(rows := seq(|db.rows|, i requires 0 <= i < |db.rows| =>
                 if db.rows[i].digest == digest then db.rows[i].(deleted := true) else db.rows[i]))
  }

  function WithoutID(rows: seq<Row>, id: int): seq<Row> {
    if rows == [] then [] else (if rows[0].id == id then [] else [rows[0]]) + WithoutID(rows[1..], id)
  }

  lemma {:induction false} WithoutHolds(rows: seq<Row>, id: int)
    ensures forall x :: x in WithoutID(rows, id) <==> x in rows && x.id != id
  {
    if rows != [] {
      WithoutHolds(rows[1..], id);
      assert rows == [rows[0]] + rows[1..];
    }
  }

  lemma WithoutNext(rows: seq<Row>, i: nat, id: int)
    requires i < |rows|
    ensures WithoutID(rows[i..], id) == (if rows[i].id == id then [] else [rows[i]]) + WithoutID(rows[i + 1..], id)
  {
    assert rows[i..][0] == rows[i] && rows[i..][1..] == rows[i + 1..];
  }

  lemma {:induction false} WithoutSame(rows: seq<Row>, id: int)
    ensures |WithoutID(rows, id)| <= |rows|
    ensures |WithoutID(rows, id)| == |rows| <==> WithoutID(rows, id) == rows
  {
    if rows != [] {
      WithoutSame(rows[1..], id);
      assert rows == [rows[0]] + rows[1..];
    }
  }

  // The rows a hard delete leaves.
  method KeptRows(all: seq<Row>, id: int) returns (rows: seq<Row>)
    ensures rows == WithoutID(all, id)
  {
    rows := [];
    ghost var result := WithoutID(all, id);
    for i := 0 to |all|
      invariant result == rows + WithoutID(all[i..], id)
    {
      WithoutNext(all, i, id);
      if all[i].id != id {
        rows := rows + [all[i]];
      }
    }
  }

  class AccessTokenStore {
    const hash: Hash
    var db: Db

    constructor (hash: Hash, users: set<int>)
      ensures this.hash == hash && db == Db([], 0, users)
    {
      this.hash := hash;
      db := Db([], 0, users);
    }

    // The secret token is returned and not stored; only its hash is.
    method CreateToken(secret: Bytes, subject: int, scopes: seq<string>, note: string, creator: int, internal: bool)
      returns (r: Result<(int, string), TokenError>)
      modifies this
      ensures db == Create(old(db), secret, subject, scopes, note, creator, internal, hash)
      ensures r.Ok? <==> CanCreate(old(db), subject, scopes, creator)
      ensures r == Err(NoScopes) <==> scopes == []
      ensures r == Err(UserMissing) <==> scopes != [] && (subject !in old(db.users) || creator !in old(db.users))
      ensures r.Err? ==> db == old(db)
      ensures r.Ok? ==>
        && db.serial == old(db.serial) + 1 && db.users == old(db.users)
        && db.rows == old(db.rows) +
                      [Row(db.serial, subject, scopes, hash(secret), note, creator, internal, None, false)]
        && r.value == (db.serial, "sgp_" + Encode(secret)) && SecretOf(r.value.1) == Some(secret)
    {
      var token := TokenFor(secret);
      SecretOfToken(secret);
      if |scopes| == 0 {
        return Err(NoScopes);
      }
      if subject !in db.users || creator !in db.users {
        return Err(UserMissing);
      }
      var id := db.serial + 1;
      var row := Row(id, subject, scopes, hash(secret), note, creator, internal, None, false);
      db := db.(rows := db.rows + [row], serial := id);
      return Ok((id, token));
    }

    method LookupToken(token: string, requiredScope: string, now: int) returns (r: Result<int, TokenError>)
      modifies this
      ensures r == LookupResult(old(db), token, requiredScope, hash)
      ensures db == Lookup(old(db), token, requiredScope, now, hash)
      ensures r == Err(NoScope) <==> requiredScope == ""
      ensures r == Err(InvalidToken) <==> requiredScope != "" && SecretOf(token).None?
      ensures r in {Err(NoScope), Err(InvalidToken)} ==> db == old(db)
      ensures requiredScope != "" && SecretOf(token).Some? ==>
        var digest := hash(SecretOf(token).value);
        && db.serial == old(db.serial) && db.users == old(db.users) && |db.rows| == |old(db.rows)|
        && (forall k :: 0 <= k < |db.rows| ==>
              var row := old(db.rows)[k];
              db.rows[k] == if Usable(old(db), row, digest, requiredScope) then row.(lastUsed := Some(now)) else row)
        && (r == Err(NotFound) <==> forall x :: x in old(db.rows) ==> !Usable(old(db), x, digest, requiredScope))
        && (r.Ok? <==> r != Err(NotFound))
        && (r.Ok? ==>
              exists x :: x in old(db.rows) && Usable(old(db), x, digest, requiredScope) && x.subject == r.value)
    {
      if requiredScope == "" {
        return Err(NoScope);
      }
      var secret := SecretOf(token);
      if secret.None? {
        return Err(InvalidToken);
      }
      var digest := hash(secret.value);
      var found := FirstUsable(db, db.rows, digest, requiredScope);
      var rows := [];
      for i := 0 to |db.rows|
        invariant db == old(db) && |rows| == i
        invariant forall k :: 0 <= k < i ==> rows[k] == Touched(db, db.rows[k], digest, requiredScope, now)
      {
        var row := db.rows[i];
        if Usable(db, row, digest, requiredScope) {
          row := row.(lastUsed := Some(now));
        }
        rows := rows + [row];
      }
      db := db.(rows := rows);
      match found
      case None => return Err(NotFound);
      case Some(row) => return Ok(row.subject);
    }

    // Rows are marked, never moved or otherwise changed; the error tells that none was live.
    method DeleteByID(id: int) returns (r: Option<TokenError>)
      modifies this
      ensures db.serial == old(db.serial) && db.users == old(db.users) && |db.rows| == |old(db.rows)|
      ensures forall k :: 0 <= k < |db.rows| ==>
        var row := old(db.rows)[k]; db.rows[k] == if row.id == id then row.(deleted := true) else row
      ensures r in {None, Some(NotFound)}
      ensures r.None? <==> exists k :: 0 <= k < |old(db.rows)| && Live(old(db.rows)[k]) && old(db.rows)[k].id == id
      ensures db == SoftDeleteByID(old(db), id)
    {
      var rows, nrows := [], 0;
      for i := 0 to |db.rows|
        invariant db == old(db) && |rows| == i && nrows >= 0
        invariant forall k :: 0 <= k < i ==>
          rows[k] == if db.rows[k].id == id then db.rows[k].(deleted := true) else db.rows[k]
        invariant nrows > 0 <==> exists k :: 0 <= k < i && Live(db.rows[k]) && db.rows[k].id == id
      {
        var row := db.rows[i];
        if row.id == id && !row.deleted {
          row := row.(deleted := true);
          nrows := nrows + 1;
        }
        rows := rows + [row];
      }
      db := db.(rows := rows);
      return if nrows == 0 then Some(NotFound) else None;
    }

    method DeleteByToken(token: string) returns (r: Option<TokenError>)
      modifies this
      ensures SecretOf(token).None? ==> db == old(db) && r == Some(InvalidToken)
      ensures SecretOf(token).Some? ==>
        var digest := hash(SecretOf(token).value);
        && db.serial == old(db.serial) && db.users == old(db.users) && |db.rows| == |old(db.rows)|
        && (forall k :: 0 <= k < |db.rows| ==>
              var row := old(db.rows)[k]; db.rows[k] == if row.digest == digest then row.(deleted := true) else row)
        && r in {None, Some(NotFound)}
        && (r.None? <==>
              exists k :: 0 <= k < |old(db.rows)| && Live(old(db.rows)[k]) && old(db.rows)[k].digest == digest)
        && db == SoftDeleteByDigest(old(db), digest)
    {
      var secret := SecretOf(token);
      if secret.None? {
        return Some(InvalidToken);
      }
      var digest := hash(secret.value);
      var rows, nrows := [], 0;
      for i := 0 to |db.rows|
        invariant db == old(db) && |rows| == i && nrows >= 0
        invariant forall k :: 0 <= k < i ==>
          rows[k] == if db.rows[k].digest == digest then db.rows[k].(deleted := true) else db.rows[k]
        invariant nrows > 0 <==> exists k :: 0 <= k < i && Live(db.rows[k]) && db.rows[k].digest == digest
      {
        var row := db.rows[i];
        if row.digest == digest && !row.deleted {
          row := row.(deleted := true);
          nrows := nrows + 1;
        }
        rows := rows + [row];
      }
      db := db.(rows := rows);
      return if nrows == 0 then Some(NotFound) else None;
    }

    // The rows with the id are gone, live or not; all others stay as they were, in their order.
    method HardDeleteByID(id: int) returns (r: Option<TokenError>)
      modifies this
      ensures db.serial == old(db.serial) && db.users == old(db.users)
      ensures forall x :: x in db.rows <==> x in old(db.rows) && x.id != id
      ensures r in {None, Some(NotFound)}
      ensures r.Some? <==> db == old(db)
      ensures db == old(db).(rows := WithoutID(old(db).rows, id))
    {
      var rows := KeptRows(db.rows, id);
      WithoutHolds(db.rows, id);
      WithoutSame(db.rows, id);
      var nrows := |db.rows| - |rows|;
      db := db.(rows := rows);
      return if nrows == 0 then Some(NotFound) else None;
    }
  }

  /** ---- Whole runs ---- */

  datatype Event =
    | Created(secret: Bytes, subject: int, scopes: seq<string>, note: string, creator: int, internal: bool)
    | LookedUp(token: string, scope: string, now: int)
    | DeletedID(id: int)
    | DeletedToken(token: string)
    | HardDeletedID(id: int)
    | UsersChanged(users: set<int>)

  function Do(db: Db, e: Event, hash: Hash): Db {
    match e
    case Created(secret, subject, scopes, note, creator, internal) =>
      Create(db, secret, subject, scopes, note, creator, internal, hash)
    case LookedUp(token, scope, now) => Lookup(db, token, scope, now, hash)
    case DeletedID(id) => SoftDeleteByID(db, id)
    case DeletedToken(token) =>
      (match SecretOf(token) case None => db case Some(secret) => SoftDeleteByDigest(db, hash(secret)))
    case HardDeletedID(id) => db.(rows := WithoutID(db.rows, id))
    case UsersChanged(users) => db.(users := users)
  }

  function Run(users: set<int>, es: seq<Event>, hash: Hash): Db {
    if es == [] then Db([], 0, users) else Do(Run(users, es[..|es| - 1], hash), es[|es| - 1], hash)
  }

  ghost predicate Injective(hash: Hash) {
    forall a, b :: hash(a) == hash(b) ==> a == b
  }

  // No two creations draw the same random bytes.
  predicate DistinctSecrets(es: seq<Event>) {
    forall i, j :: 0 <= i < j < |es| && es[i].Created? && es[j].Created? ==> es[i].secret != es[j].secret
  }

  // Event i issued a token, and which id it has.
  predicate Issues(users: set<int>, es: seq<Event>, i: nat, hash: Hash)
    requires i < |es|
  {
    es[i].Created? && CanCreate(Run(users, es[..i], hash), es[i].subject, es[i].scopes, es[i].creator)
  }

  function IssuedID(users: set<int>, es: seq<Event>, i: nat, hash: Hash): int
    requires i < |es|
  {
    Run(users, es[..i], hash).serial + 1
  }

  // The event ends the life of the token with this id and secret.
  predicate Revokes(e: Event, id: int, secret: Bytes) {
    match e
    case DeletedID(x) => x == id
    case HardDeletedID(x) => x == id
    case DeletedToken(token) => SecretOf(token) == Some(secret)
    case _ => false
  }

  // The token of event i is issued and not revoked before event n.
  ghost predicate Alive(users: set<int>, es: seq<Event>, i: nat, n: nat, hash: Hash) {
    && i < n <= |es| && Issues(users, es, i, hash)
    && forall j :: i < j < n ==> !Revokes(es[j], IssuedID(users, es, i, hash), es[i].secret)
  }

  // The row is the one event i inserted.
  predicate RowOf(r: Row, users: set<int>, es: seq<Event>, i: nat, hash: Hash)
    requires i < |es| && es[i].Created?
  {
    r.id == IssuedID(users, es, i, hash) && r.subject == es[i].subject && r.creator == es[i].creator &&
    r.scopes == es[i].scopes && r.digest == hash(es[i].secret)
  }
}
