/** The lifetime of a token, over every run of the table. */
module AccessTokenTheorems {
  import opened Options
  import opened AccessTokens

  // Every live row is the row of a token that is alive before event n.
  ghost predicate RowsAreAlive(rows: seq<Row>, users: set<int>, es: seq<Event>, n: nat, hash: Hash) {
    forall k :: 0 <= k < |rows| && !rows[k].deleted ==> HasOrigin(rows[k], users, es, n, hash)
  }

  ghost predicate HasOrigin(r: Row, users: set<int>, es: seq<Event>, n: nat, hash: Hash) {
    exists i: nat :: Alive(users, es, i, n, hash) && RowOf(r, users, es, i, hash)
  }

  // Every token that is alive before event n has a live row.
  ghost predicate AliveHaveRows(rows: seq<Row>, users: set<int>, es: seq<Event>, n: nat, hash: Hash) {
    forall i: nat :: Alive(users, es, i, n, hash) ==> HasRow(rows, users, es, i, hash)
  }

  ghost predicate HasRow(rows: seq<Row>, users: set<int>, es: seq<Event>, i: nat, hash: Hash)
    requires i < |es| && es[i].Created?
  {
    exists k :: 0 <= k < |rows| && !rows[k].deleted && RowOf(rows[k], users, es, i, hash)
  }

  ghost predicate Tracks(rows: seq<Row>, users: set<int>, es: seq<Event>, n: nat, hash: Hash) {
    RowsAreAlive(rows, users, es, n, hash) && AliveHaveRows(rows, users, es, n, hash)
  }

  lemma AliveStep(users: set<int>, es: seq<Event>, i: nat, n: nat, hash: Hash)
    requires n < |es|
    ensures Alive(users, es, i, n + 1, hash) <==>
            || (i == n && Issues(users, es, n, hash))
            || (Alive(users, es, i, n, hash) && !Revokes(es[n], IssuedID(users, es, i, hash), es[i].secret))
  {
  }

  // A row keeps everything but its last use and its deletion mark.
  predicate SameToken(r: Row, s: Row) {
    r.id == s.id && r.subject == s.subject && r.scopes == s.scopes && r.digest == s.digest && r.creator == s.creator
  }

  // What an event that issues nothing does to each row: it survives exactly when not revoked.
  ghost predicate Filters(rows: seq<Row>, rows': seq<Row>, gone: Row -> bool) {
    && (forall k :: 0 <= k < |rows'| && !rows'[k].deleted ==> Kept(rows'[k], rows, gone))
    && (forall k :: 0 <= k < |rows| && !rows[k].deleted && !gone(rows[k]) ==> Survives(rows[k], rows'))
  }

  ghost predicate Kept(r: Row, rows: seq<Row>, gone: Row -> bool) {
    exists k :: 0 <= k < |rows| && !rows[k].deleted && SameToken(r, rows[k]) && !gone(rows[k])
  }

  ghost predicate Survives(r: Row, rows': seq<Row>) {
    exists k :: 0 <= k < |rows'| && !rows'[k].deleted && SameToken(r, rows'[k])
  }

  // Which rows an event marks deleted or removes.
  function Hits(e: Event, hash: Hash): Row -> bool {
    (r: Row) =>
      match e
      case DeletedID(id) => r.id == id
      case HardDeletedID(id) => r.id == id
      case DeletedToken(token) => SecretOf(token).Some? && r.digest == hash(SecretOf(token).value)
      case _ => false
  }

  lemma PointwiseFilters(rows: seq<Row>, rows': seq<Row>, gone: Row -> bool)
    requires |rows| == |rows'|
    requires forall k :: 0 <= k < |rows| ==> SameToken(rows'[k], rows[k])
    requires forall k :: 0 <= k < |rows| ==> (rows'[k].deleted <==> rows[k].deleted || gone(rows[k]))
    ensures Filters(rows, rows', gone)
  {
    forall k | 0 <= k < |rows'| && !rows'[k].deleted
      ensures Kept(rows'[k], rows, gone)
    {
      assert SameToken(rows'[k], rows[k]);
    }
    forall k | 0 <= k < |rows| && !rows[k].deleted && !gone(rows[k])
      ensures Survives(rows[k], rows')
    {
      assert SameToken(rows[k], rows'[k]);
    }
  }

  lemma WithoutFilters(rows: seq<Row>, id: int, gone: Row -> bool)
    requires forall r: Row :: gone(r) <==> r.id == id
    ensures Filters(rows, WithoutID(rows, id), gone)
  {
    var rows' := WithoutID(rows, id);
    WithoutHolds(rows, id);
    forall k | 0 <= k < |rows'| && !rows'[k].deleted
      ensures Kept(rows'[k], rows, gone)
    {
      assert rows'[k] in rows';
      var j :| 0 <= j < |rows| && rows[j] == rows'[k];
      assert SameToken(rows'[k], rows[j]);
    }
    forall k | 0 <= k < |rows| && !rows[k].deleted && !gone(rows[k])
      ensures Survives(rows[k], rows')
    {
      assert rows[k] in rows';
      var j :| 0 <= j < |rows'| && rows'[j] == rows[k];
      assert SameToken(rows[k], rows'[j]);
    }
  }

  lemma EventFilters(db: Db, e: Event, hash: Hash)
    requires !e.Created?
    ensures Filters(db.rows, Do(db, e, hash).rows, Hits(e, hash))
  {
    if e.HardDeletedID? {
      WithoutFilters(db.rows, e.id, Hits(e, hash));
    } else {
      PointwiseFilters(db.rows, Do(db, e, hash).rows, Hits(e, hash));
    }
  }

  // An event hits the row of a token exactly when it revokes the token.
  lemma HitsIffRevokes(e: Event, r: Row, users: set<int>, es: seq<Event>, i: nat, hash: Hash)
    requires i < |es| && es[i].Created? && RowOf(r, users, es, i, hash)
    requires Injective(hash)
    ensures Hits(e, hash)(r) <==> Revokes(e, IssuedID(users, es, i, hash), es[i].secret)
  {
  }

  lemma RowOfSame(r: Row, s: Row, users: set<int>, es: seq<Event>, i: nat, hash: Hash)
    requires i < |es| && es[i].Created? && RowOf(r, users, es, i, hash) && SameToken(r, s)
    ensures RowOf(s, users, es, i, hash)
  {
  }

  lemma FilterKeepsAlive(rows: seq<Row>, rows': seq<Row>, users: set<int>, es: seq<Event>, n: nat, hash: Hash)
    requires n < |es| && !es[n].Created? && Injective(hash)
    requires RowsAreAlive(rows, users, es, n, hash) && Filters(rows, rows', Hits(es[n], hash))
    ensures RowsAreAlive(rows', users, es, n + 1, hash)
  {
    var gone := Hits(es[n], hash);
    forall k | 0 <= k < |rows'| && !rows'[k].deleted
      ensures HasOrigin(rows'[k], users, es, n + 1, hash)
    {
      assert Kept(rows'[k], rows, gone);
      var j :| 0 <= j < |rows| && !rows[j].deleted && SameToken(rows'[k], rows[j]) && !gone(rows[j]);
      assert HasOrigin(rows[j], users, es, n, hash);
      var i: nat :| Alive(users, es, i, n, hash) && RowOf(rows[j], users, es, i, hash);
      HitsIffRevokes(es[n], rows[j], users, es, i, hash);
      AliveStep(users, es, i, n, hash);
      RowOfSame(rows[j], rows'[k], users, es, i, hash);
    }
  }

  lemma FilterKeepsRows(rows: seq<Row>, rows': seq<Row>, users: set<int>, es: seq<Event>, n: nat, hash: Hash)
    requires n < |es| && !es[n].Created? && Injective(hash)
    requires AliveHaveRows(rows, users, es, n, hash) && Filters(rows, rows', Hits(es[n], hash))
    ensures AliveHaveRows(rows', users, es, n + 1, hash)
  {
    var gone := Hits(es[n], hash);
    forall i: nat | Alive(users, es, i, n + 1, hash)
      ensures HasRow(rows', users, es, i, hash)
    {
      AliveStep(users, es, i, n, hash);
      assert HasRow(rows, users, es, i, hash);
      var k :| 0 <= k < |rows| && !rows[k].deleted && RowOf(rows[k], users, es, i, hash);
      HitsIffRevokes(es[n], rows[k], users, es, i, hash);
      assert Survives(rows[k], rows');
      var j :| 0 <= j < |rows'| && !rows'[j].deleted && SameToken(rows[k], rows'[j]);
      RowOfSame(rows[k], rows'[j], users, es, i, hash);
    }
  }

  // A creation: the tokens alive before it stay alive, and it adds at most its own.
  lemma CreateTracks(db: Db, users: set<int>, es: seq<Event>, n: nat, hash: Hash)
    requires n < |es| && es[n].Created? && db == Run(users, es[..n], hash)
    requires Tracks(db.rows, users, es, n, hash)
    ensures Tracks(Do(db, es[n], hash).rows, users, es, n + 1, hash)
  {
    var rows' := Do(db, es[n], hash).rows;
    forall k | 0 <= k < |rows'| && !rows'[k].deleted
      ensures HasOrigin(rows'[k], users, es, n + 1, hash)
    {
      if k < |db.rows| {
        assert HasOrigin(db.rows[k], users, es, n, hash);
        var i: nat :| Alive(users, es, i, n, hash) && RowOf(db.rows[k], users, es, i, hash);
        AliveStep(users, es, i, n, hash);
      } else {
        AliveStep(users, es, n, n, hash);
        assert RowOf(rows'[k], users, es, n, hash);
      }
    }
    forall i: nat | Alive(users, es, i, n + 1, hash)
      ensures HasRow(rows', users, es, i, hash)
    {
      AliveStep(users, es, i, n, hash);
      if i == n {
        assert RowOf(rows'[|db.rows|], users, es, n, hash);
      } else {
        assert HasRow(db.rows, users, es, i, hash);
        var k :| 0 <= k < |db.rows| && !db.rows[k].deleted && RowOf(db.rows[k], users, es, i, hash);
        assert rows'[k] == db.rows[k];
      }
    }
  }

  lemma {:induction false} RunTracks(users: set<int>, es: seq<Event>, n: nat, hash: Hash)
    requires n <= |es| && Injective(hash)
    ensures Tracks(Run(users, es[..n], hash).rows, users, es, n, hash)
  {
    if n > 0 {
      RunTracks(users, es, n - 1, hash);
      var db := Run(users, es[..n - 1], hash);
      assert es[..n][..n - 1] == es[..n - 1];
      assert Run(users, es[..n], hash) == Do(db, es[n - 1], hash);
      if es[n - 1].Created? {
        CreateTracks(db, users, es, n - 1, hash);
      } else {
        EventFilters(db, es[n - 1], hash);
        FilterKeepsAlive(db.rows, Do(db, es[n - 1], hash).rows, users, es, n - 1, hash);
        FilterKeepsRows(db.rows, Do(db, es[n - 1], hash).rows, users, es, n - 1, hash);
      }
    }
  }

  /** ---- Main results ---- */

  // The token text was issued for u with this scope, not revoked since, and its users still exist.
  ghost predicate Valid(users: set<int>, es: seq<Event>, token: string, scope: string, u: int, hash: Hash) {
    exists i: nat :: Alive(users, es, i, |es|, hash) && Grants(es[i], Run(users, es, hash).users, token, scope, u)
  }

  predicate Grants(e: Event, now: set<int>, token: string, scope: string, u: int) {
    && e.Created? && SecretOf(token) == Some(e.secret)
    && e.subject == u && scope in e.scopes && e.subject in now && e.creator in now
  }

  /** A lookup answers u exactly when the token is u's, in scope, alive, and its users exist. */
  lemma LookupIffValid(users: set<int>, es: seq<Event>, token: string, scope: string, u: int, hash: Hash)
    requires Injective(hash) && DistinctSecrets(es)
    ensures LookupResult(Run(users, es, hash), token, scope, hash) == Ok(u) <==>
            scope != "" && Valid(users, es, token, scope, u, hash)
  {
    var db := Run(users, es, hash);
    assert es[..|es|] == es;
    RunTracks(users, es, |es|, hash);
    if LookupResult(db, token, scope, hash) == Ok(u) {
      FoundIsValid(db, users, es, token, scope, u, hash);
    }
    if scope != "" && Valid(users, es, token, scope, u, hash) {
      ValidIsFound(db, users, es, token, scope, u, hash);
    }
  }

  lemma FoundIsValid(db: Db, users: set<int>, es: seq<Event>, token: string, scope: string, u: int, hash: Hash)
    requires Injective(hash) && db == Run(users, es, hash)
    requires RowsAreAlive(db.rows, users, es, |es|, hash)
    requires LookupResult(db, token, scope, hash) == Ok(u)
    ensures Valid(users, es, token, scope, u, hash)
  {
    var r := FirstUsable(db, db.rows, hash(SecretOf(token).value), scope).value;
    var k :| 0 <= k < |db.rows| && db.rows[k] == r;
    assert HasOrigin(db.rows[k], users, es, |es|, hash);
    var i: nat :| Alive(users, es, i, |es|, hash) && RowOf(r, users, es, i, hash);
    assert Grants(es[i], db.users, token, scope, u);
  }

  lemma UsableRow(db: Db, users: set<int>, es: seq<Event>, i: nat, token: string, scope: string, u: int, hash: Hash)
    returns (r: Row)
    requires AliveHaveRows(db.rows, users, es, |es|, hash)
    requires Alive(users, es, i, |es|, hash) && Grants(es[i], db.users, token, scope, u)
    ensures r in db.rows && Usable(db, r, hash(es[i].secret), scope)
  {
    assert HasRow(db.rows, users, es, i, hash);
    var k :| 0 <= k < |db.rows| && !db.rows[k].deleted && RowOf(db.rows[k], users, es, i, hash);
    r := db.rows[k];
  }

  lemma ValidIsFound(db: Db, users: set<int>, es: seq<Event>, token: string, scope: string, u: int, hash: Hash)
    requires Injective(hash) && DistinctSecrets(es) && db == Run(users, es, hash) && scope != ""
    requires Tracks(db.rows, users, es, |es|, hash) && Valid(users, es, token, scope, u, hash)
    ensures LookupResult(db, token, scope, hash) == Ok(u)
  {
    var i: nat :| Alive(users, es, i, |es|, hash) && Grants(es[i], db.users, token, scope, u);
    var digest := hash(SecretOf(token).value);
    var r := UsableRow(db, users, es, i, token, scope, u, hash);
    assert r in db.rows && Usable(db, r, digest, scope);
    RowIsUnique(db, users, es, i, FirstUsable(db, db.rows, digest, scope).value, hash);
  }

  // A live row with the hash of a token's secret is that token's row.
  lemma RowIsUnique(db: Db, users: set<int>, es: seq<Event>, i: nat, r: Row, hash: Hash)
    requires Injective(hash) && DistinctSecrets(es) && RowsAreAlive(db.rows, users, es, |es|, hash)
    requires i < |es| && es[i].Created? && r in db.rows && !r.deleted && r.digest == hash(es[i].secret)
    ensures RowOf(r, users, es, i, hash)
  {
    var k :| 0 <= k < |db.rows| && db.rows[k] == r;
    assert HasOrigin(db.rows[k], users, es, |es|, hash);
    var j: nat :| Alive(users, es, j, |es|, hash) && RowOf(r, users, es, j, hash);
    assert es[j].secret == es[i].secret;
  }

  /** The prefix makes no difference, as long as the text behind it does not carry it again. */
  lemma PrefixIsOptional(db: Db, hex: string, scope: string, hash: Hash)
    requires !(PREFIX <= hex)
    ensures LookupResult(db, PREFIX + hex, scope, hash) == LookupResult(db, hex, scope, hash)
  {
    assert (PREFIX + hex)[|PREFIX|..] == hex;
  }

  lemma {:induction false} SerialGrows(users: set<int>, es: seq<Event>, i: nat, j: nat, hash: Hash)
    requires i <= j <= |es|
    ensures Run(users, es[..i], hash).serial <= Run(users, es[..j], hash).serial
    decreases j
  {
    if i < j {
      SerialGrows(users, es, i, j - 1, hash);
      assert es[..j][..j - 1] == es[..j - 1];
    }
  }

  /** No id is handed out twice, even after hard deletes, so an id names one token for ever. */
  lemma IdsNeverReused(users: set<int>, es: seq<Event>, i: nat, j: nat, hash: Hash)
    requires i < j < |es| && Issues(users, es, i, hash) && Issues(users, es, j, hash)
    ensures IssuedID(users, es, i, hash) < IssuedID(users, es, j, hash)
  {
    SerialGrows(users, es, i + 1, j, hash);
    assert es[..i + 1][..i] == es[..i];
  }

  lemma AliveEarlier(users: set<int>, es: seq<Event>, more: seq<Event>, i: nat, hash: Hash)
    requires i < |es|
    ensures Alive(users, es + more, i, |es + more|, hash) ==> Alive(users, es, i, |es|, hash)
  {
    assert (es + more)[..i] == es[..i];
    assert forall k :: 0 <= k < |es| ==> (es + more)[k] == es[k];
  }

  /**
    Revocation is final: a token whose secret was issued by event i and is not alive at the end
    of a run is refused after every continuation, for every scope, whatever users come back.
   */
  lemma RevokedForever(users: set<int>, es: seq<Event>, more: seq<Event>, i: nat, token: string, scope: string, u: int,
                       hash: Hash)
    requires Injective(hash) && DistinctSecrets(es + more)
    requires i < |es| && es[i].Created? && SecretOf(token) == Some(es[i].secret)
    requires !Alive(users, es, i, |es|, hash)
    ensures LookupResult(Run(users, es + more, hash), token, scope, hash) != Ok(u)
  {
    var all := es + more;
    LookupIffValid(users, all, token, scope, u, hash);
    assert forall k :: 0 <= k < |all| && k != i && all[k].Created? ==> all[k].secret != all[i].secret;
    AliveEarlier(users, es, more, i, hash);
  }

  /** A token just issued is accepted for each of its scopes. */
  lemma CreatedThenLookedUp(users: set<int>, es: seq<Event>, e: Event, scope: string, hash: Hash)
    requires Injective(hash) && DistinctSecrets(es + [e])
    requires e.Created? && CanCreate(Run(users, es, hash), e.subject, e.scopes, e.creator)
    requires scope in e.scopes && scope != ""
    ensures LookupResult(Run(users, es + [e], hash), TokenFor(e.secret), scope, hash) == Ok(e.subject)
  {
    var all := es + [e];
    SecretOfToken(e.secret);
    assert all[..|es|] == es;
    assert Issues(users, all, |es|, hash);
    assert Alive(users, all, |es|, |all|, hash);
    assert Grants(all[|es|], Run(users, all, hash).users, TokenFor(e.secret), scope, e.subject);
    LookupIffValid(users, all, TokenFor(e.secret), scope, e.subject, hash);
  }
}
