/**
  The escape-hatch worker (internal/conf/conf.go): one loop that mirrors a file on disk and
  the site-config table into each other, remembering three values.  The configuration source
  it reads and writes is the frontend's, on top of ConfigLog
  (cmd/frontend/internal/cli/config.go).
 */
module EscapeHatch {
  import opened Options
  import opened ConfigLog

  datatype World = World(file: string, table: Table, lastFile: string, lastDB: string, lastID: int)

  datatype SourceError = Modified | Store(reason: CreateError)

  // ConfigurationSource.Write: read the newest row, compare its id, then append.
  function SourceWrite(t: Table, contents: string, lastID: int, env: Env): (Table, Result<Row, SourceError>) {
    match SiteGet(t, 0, env)
    case (t1, Err(e)) => (t1, Err(SourceError.Store(e)))
    case (t1, Ok(site)) =>
      if site.id != lastID then (t1, Err(Modified))
      else match SiteCreate(t1, Some(site.id), 0, contents, false, env)
        case (t2, Ok(row)) => (t2, Ok(row))
        case (t2, Err(e)) => (t2, Err(SourceError.Store(e)))
  }

  // One pass of the worker's second loop when no disk or database call breaks down.
  function Pass(w: World, env: Env): World {
    if w.file != w.lastFile then
      match SiteGet(w.table, 0, env)
      case (t1, Err(_)) => w.(table := t1)
      case (t1, Ok(_)) =>
        match SourceWrite(t1, w.file, w.lastID, env)
        case (t2, Err(_)) => w.(table := t2)
        case (t2, Ok(_)) => w.(table := t2, lastFile := w.file)
    else
      match SiteGet(w.table, 0, env)
      case (t1, Err(_)) => w.(table := t1)
      case (t1, Ok(row)) =>
        if row.contents != w.lastDB then World(row.contents, t1, row.contents, row.contents, row.id)
        else w.(table := t1)
  }

  class Worker {
    const db: ConfStore
    var file: string
    var lastKnownFileContents: string
    var lastKnownDBContents: string
    var lastKnownConfigID: int

    function Value(): World
      reads this, db
    {
      World(file, db.Value(), lastKnownFileContents, lastKnownDBContents, lastKnownConfigID)
    }

    constructor (db: ConfStore, file: string)
      ensures this.db == db && this.file == file
    {
      this.db, this.file := db, file;
      lastKnownFileContents, lastKnownDBContents, lastKnownConfigID := "", "", 0;
    }

    method Write(contents: string, lastID: int) returns (r: Result<Row, SourceError>)
      requires Valid(db.Value())
      modifies db
      ensures Valid(db.Value())
      ensures (db.Value(), r) == SourceWrite(old(db.Value()), contents, lastID, db.env)
    {
      var site := db.SiteGetLatest(0);
      if site.Err? {
        return Err(SourceError.Store(site.error));
      }
      if site.value.id != lastID {
        return Err(Modified);
      }
      var created := db.SiteCreateIfUpToDate(Some(site.value.id), 0, contents, false);
      match created
      case Ok(row) => return Ok(row);
      case Err(e) => return Err(SourceError.Store(e));
    }

    // The first loop: fill the file from the table.
    method Populate() returns (ok: bool)
      requires Valid(db.Value())
      modifies this, db
      ensures Valid(db.Value())
      ensures ok <==> old(db.rows) != [] || db.env.validate(db.env.fallback, true)
      ensures ok ==> Settled(Value()) && (old(db.rows) != [] ==> db.Value() == old(db.Value()))
      ensures !ok ==> Value() == old(Value())
    {
      var config := db.SiteGetLatest(0);
      if config.Err? {
        return false;
      }
      file := config.value.contents;
      lastKnownDBContents := config.value.contents;
      lastKnownFileContents := config.value.contents;
      lastKnownConfigID := config.value.id;
      return true;
    }

    method RunPass()
      requires Valid(db.Value())
      modifies this, db
      ensures Valid(db.Value())
      ensures Value() == Pass(old(Value()), db.env)
    {
      if file != lastKnownFileContents {
        var config := db.SiteGetLatest(0);
        if config.Err? {
          return;
        }
        var written := Write(file, lastKnownConfigID);
        if written.Err? {
          return;
        }
        lastKnownFileContents := file;
        return;
      }
      var newDBConfig := db.SiteGetLatest(0);
      if newDBConfig.Err? {
        return;
      }
      if newDBConfig.value.contents != lastKnownDBContents {
        file := newDBConfig.value.contents;
        lastKnownDBContents := newDBConfig.value.contents;
        lastKnownFileContents := newDBConfig.value.contents;
        lastKnownConfigID := newDBConfig.value.id;
      }
    }
  }

  /** ---- Where the loop goes when left alone ---- */

  predicate Live(w: World) {
    Valid(w.table) && w.table.rows != []
  }

  function Newest(w: World): Row
    requires w.table.rows != []
  {
    w.table.rows[|w.table.rows| - 1]
  }

  // File, table and both remembered texts hold one text.
  predicate Agree(w: World) {
    w.table.rows != [] && w.file == w.lastFile == w.lastDB == Newest(w).contents
  }

  predicate Settled(w: World) {
    Agree(w) && w.lastID == Newest(w).id
  }

  function Passes(w: World, n: nat, env: Env): World {
    if n == 0 then w else Pass(Passes(w, n - 1, env), env)
  }

  predicate AgreesAfter(w: World, n: nat, env: Env) {
    Agree(Passes(w, n, env))
  }

  // Decided before the first pass: a file edit is up to date and valid, and the table's text did
  // not come back to the remembered one while the file went elsewhere.
  predicate CanConverge(w: World, env: Env)
    requires w.table.rows != []
  {
    if w.file == w.lastFile then Newest(w).contents != w.lastDB || w.file == w.lastDB
    else w.lastID == Newest(w).id && env.validate(w.file, false)
  }

  lemma TablePass(w: World, env: Env)
    requires Live(w) && w.file == w.lastFile
    ensures Newest(w).contents == w.lastDB ==> Pass(w, env) == w
    ensures Newest(w).contents != w.lastDB ==>
              Pass(w, env) == World(Newest(w).contents, w.table, Newest(w).contents, Newest(w).contents, Newest(w).id)
  {
  }

  // A write on a table with rows: refused, or one row more.
  lemma WriteOnRows(t: Table, contents: string, lastID: int, env: Env)
    requires Valid(t) && t.rows != []
    ensures var (t', r) := SourceWrite(t, contents, lastID, env);
            && Valid(t') && (r.Ok? <==> lastID == t.rows[|t.rows| - 1].id && env.validate(contents, false))
            && (r == Err(Modified) <==> lastID != t.rows[|t.rows| - 1].id)
            && (r.Err? ==> t' == t && r.error in {Modified, Store(Invalid)})
            && (r.Ok? ==> IsNewRow(r.value, t.serial + 1, 0, contents, env) && t'.rows == t.rows + [r.value])
  {
  }

  lemma FilePass(w: World, env: Env)
    requires Live(w) && w.file != w.lastFile
    ensures var (t, r) := SourceWrite(w.table, w.file, w.lastID, env);
            Pass(w, env) == if r.Ok? then w.(table := t, lastFile := w.file) else w.(table := t)
  {
  }

  lemma PassOutcome(w: World, env: Env)
    requires Live(w)
    ensures Live(Pass(w, env))
    ensures w.file == w.lastFile && Newest(w).contents == w.lastDB ==> Pass(w, env) == w
    ensures w.file == w.lastFile && Newest(w).contents != w.lastDB ==>
              Settled(Pass(w, env)) && Pass(w, env).table == w.table && Pass(w, env).file == Newest(w).contents
    ensures w.file != w.lastFile && !CanConverge(w, env) ==> Pass(w, env) == w
    ensures w.file != w.lastFile && CanConverge(w, env) ==>
      var w' := Pass(w, env);
      && w'.file == w'.lastFile == w.file == Newest(w').contents
      && w'.lastDB == w.lastDB && w'.lastID == w.lastID
      && w'.table.rows == w.table.rows + [Newest(w')] && IsNewRow(Newest(w'), w.table.serial + 1, 0, w.file, env)
  {
    if w.file == w.lastFile {
      TablePass(w, env);
    } else {
      FilePass(w, env);
      WriteOnRows(w.table, w.file, w.lastID, env);
    }
  }

  lemma PassFromAgreement(w: World, env: Env)
    requires Live(w) && Agree(w)
    ensures Pass(w, env) == w
  {
  }

  lemma TwoPasses(w: World, env: Env)
    requires Live(w) && CanConverge(w, env)
    ensures var w2 := Pass(Pass(w, env), env);
            Live(w2) && Agree(w2) && w.table.rows <= w2.table.rows && |w2.table.rows| <= |w.table.rows| + 1
  {
    PassOutcome(w, env);
    PassOutcome(Pass(w, env), env);
  }

  lemma {:induction false} FirstPass(w: World, n: nat, env: Env)
    ensures Passes(w, n + 1, env) == Passes(Pass(w, env), n, env)
  {
    if n == 0 {
      assert Passes(w, 0, env) == w;
    } else {
      FirstPass(w, n - 1, env);
    }
  }

  lemma {:induction false} StaysPut(w: World, n: nat, env: Env)
    requires Pass(w, env) == w
    ensures Passes(w, n, env) == w
  {
    if n > 0 {
      StaysPut(w, n - 1, env);
    }
  }

  lemma PassesFromTwo(w: World, n: nat, env: Env)
    requires Live(w) && CanConverge(w, env) && n >= 2
    ensures Passes(w, n, env) == Pass(Pass(w, env), env)
  {
    var w1 := Pass(w, env);
    var w2 := Pass(w1, env);
    assert Live(w2) && Agree(w2) by { TwoPasses(w, env); }
    FirstPass(w, n - 1, env);
    FirstPass(w1, n - 2, env);
    assert Pass(w2, env) == w2 by { PassFromAgreement(w2, env); }
    StaysPut(w2, n - 2, env);
  }

  lemma StuckForever(w: World, n: nat, env: Env)
    requires Live(w) && !CanConverge(w, env)
    ensures Passes(w, n, env) == w
  {
    assert Pass(w, env) == w by { PassOutcome(w, env); }
    StaysPut(w, n, env);
  }

  lemma AgreesFromTwo(w: World, n: nat, env: Env)
    requires Live(w) && CanConverge(w, env) && n >= 2
    ensures var w2 := Passes(w, n, env);
            && w2 == Pass(Pass(w, env), env) && Agree(w2)
            && w.table.rows <= w2.table.rows && |w2.table.rows| <= |w.table.rows| + 1
  {
    PassesFromTwo(w, n, env);
    TwoPasses(w, env);
  }

  lemma NeverAgrees(w: World, n: nat, env: Env)
    requires Live(w) && !CanConverge(w, env)
    ensures Passes(w, n, env) == w && !Agree(w)
  {
    StuckForever(w, n, env);
  }

  /** The loop reaches agreement exactly when CanConverge holds beforehand.  It then takes at most
      two passes, appends at most one row and never moves again; otherwise it never changes
      anything. */
  lemma ConvergesIff(w: World, env: Env)
    requires Live(w)
    ensures (exists n: nat :: AgreesAfter(w, n, env)) <==> CanConverge(w, env)
    ensures CanConverge(w, env) ==>
      forall n: nat :: n >= 2 ==>
        var w2 := Passes(w, n, env);
        && w2 == Pass(Pass(w, env), env) && Agree(w2)
        && w.table.rows <= w2.table.rows && |w2.table.rows| <= |w.table.rows| + 1
    ensures !CanConverge(w, env) ==> forall n: nat :: Passes(w, n, env) == w
  {
    if CanConverge(w, env) {
      forall n: nat | n >= 2
        ensures var w2 := Passes(w, n, env);
                && w2 == Pass(Pass(w, env), env) && Agree(w2)
                && w.table.rows <= w2.table.rows && |w2.table.rows| <= |w.table.rows| + 1
      {
        AgreesFromTwo(w, n, env);
      }
      var n: nat :| n >= 2;
      assert AgreesAfter(w, n, env);
    } else {
      forall n: nat ensures Passes(w, n, env) == w && !Agree(w) {
        NeverAgrees(w, n, env);
      }
    }
  }

  /** From a settled state one accepted file edit reaches the table as one row with that text, and
      the worker is settled again after two passes. */
  lemma FileEditIsSaved(w: World, text: string, env: Env)
    requires Live(w) && Settled(w) && text != w.file && env.validate(text, false)
    ensures var w2 := Passes(w.(file := text), 2, env);
            && Settled(w2) && w2.file == text && IsNewRow(Newest(w2), w.table.serial + 1, 0, text, env)
            && |w2.table.rows| == |w.table.rows| + 1 && w.table.rows <= w2.table.rows
            && forall n: nat :: n >= 2 ==> Passes(w.(file := text), n, env) == w2
  {
    var edited := w.(file := text);
    PassOutcome(edited, env);
    PassOutcome(Pass(edited, env), env);
    PassesFromTwo(edited, 2, env);
    ConvergesIff(edited, env);
  }

  lemma PassesFromOne(w: World, w1: World, n: nat, env: Env)
    requires Pass(w, env) == w1 && Pass(w1, env) == w1 && n >= 1
    ensures Passes(w, n, env) == w1
  {
    FirstPass(w, n - 1, env);
    StaysPut(w1, n - 1, env);
  }

  /** From a settled state one table edit that changes the text reaches the file in one pass, with
      no row written back. */
  lemma TableEditIsMirrored(w: World, row: Row, env: Env)
    requires Live(w) && Settled(w) && row.id > w.table.serial && row.contents != w.file
    ensures var edited := w.(table := Insert(w.table, row));
            && Settled(Pass(edited, env)) && Pass(edited, env).file == row.contents
            && Pass(edited, env).table == edited.table
            && forall n: nat :: n >= 1 ==> Passes(edited, n, env) == Pass(edited, env)
  {
    var edited := w.(table := Insert(w.table, row));
    PassOutcome(edited, env);
    var w1 := Pass(edited, env);
    PassFromAgreement(w1, env);
    forall n: nat | n >= 1 ensures Passes(edited, n, env) == w1 {
      PassesFromOne(edited, w1, n, env);
    }
  }

  /** A row with unchanged text is not noticed: the remembered id stays behind, and from then on
      no file edit is ever saved. */
  lemma SameTextEditBlocksLaterFileEdits(w: World, row: Row, text: string, n: nat, env: Env)
    requires Live(w) && Settled(w) && row.id > w.table.serial && row.contents == w.file && text != w.file
    ensures var edited := w.(table := Insert(w.table, row));
            && Passes(edited, n, env) == edited && edited.lastID != Newest(edited).id
            && Passes(edited.(file := text), n, env) == edited.(file := text)
  {
    var edited := w.(table := Insert(w.table, row));
    PassFromAgreement(edited, env);
    StuckForever(edited.(file := text), n, env);
    StaysPut(edited, n, env);
  }

  /** After an accepted file edit, a table edit back to the old text between the two passes leaves
      file and table different for good. */
  lemma RevertBetweenPassesDiverges(w: World, text: string, row: Row, n: nat, env: Env)
    requires Live(w) && Settled(w) && text != w.file && env.validate(text, false)
    requires var w1 := Pass(w.(file := text), env); row.id > w1.table.serial && row.contents == w.file
    ensures var w1 := Pass(w.(file := text), env);
            var reverted := w1.(table := Insert(w1.table, row));
            && Passes(reverted, n, env) == reverted
            && reverted.file == text && Newest(reverted).contents == w.file
  {
    var w1 := Pass(w.(file := text), env);
    PassOutcome(w.(file := text), env);
    StuckForever(w1.(table := Insert(w1.table, row)), n, env);
  }

  /** ---- A blocked worker stays blocked whatever others write to the table ---- */

  datatype Event = RunLoop | OthersWrite(row: Row)

  predicate Possible(w: World, events: seq<Event>, env: Env)
    decreases |events|
  {
    events == [] ||
    ((events[0].OthersWrite? ==> events[0].row.id > w.table.serial) &&
     Possible(After(w, events[0], env), events[1..], env))
  }

  function After(w: World, e: Event, env: Env): World {
    match e
    case RunLoop => Pass(w, env)
    case OthersWrite(row) => w.(table := Insert(w.table, row))
  }

  function AfterAll(w: World, events: seq<Event>, env: Env): World
    decreases |events|
  {
    if events == [] then w else AfterAll(After(w, events[0], env), events[1..], env)
  }

  lemma {:induction false} BlockedWhateverOthersDo(w: World, events: seq<Event>, env: Env)
    requires Live(w) && w.file != w.lastFile && w.lastID < Newest(w).id && Possible(w, events, env)
    ensures var w' := AfterAll(w, events, env);
            && w'.file == w.file && w'.lastFile == w.lastFile && w'.lastDB == w.lastDB && w'.lastID == w.lastID
            && forall i :: |w.table.rows| <= i < |w'.table.rows| ==> OthersWrite(w'.table.rows[i]) in events
    decreases |events|
  {
    if events != [] {
      PassOutcome(w, env);
      var w1 := After(w, events[0], env);
      BlockedWhateverOthersDo(w1, events[1..], env);
      var w' := AfterAll(w, events, env);
      OthersAppend(w1, events[1..], env);
      forall i | |w.table.rows| <= i < |w'.table.rows| ensures OthersWrite(w'.table.rows[i]) in events {
        if i < |w1.table.rows| {
          assert w'.table.rows[i] == w1.table.rows[i] == events[0].row;
        }
      }
    }
  }

  lemma {:induction false} OthersAppend(w: World, events: seq<Event>, env: Env)
    requires Live(w) && w.file != w.lastFile && w.lastID < Newest(w).id && Possible(w, events, env)
    ensures w.table.rows <= AfterAll(w, events, env).table.rows
    decreases |events|
  {
    if events != [] {
      PassOutcome(w, env);
      OthersAppend(After(w, events[0], env), events[1..], env);
    }
  }
}
