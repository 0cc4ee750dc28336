/**
  The site-config table (internal/database/conf.go): an append-only log written by
  compare-and-append.  Each public call is one transaction; a failed one is rolled back,
  except that the id sequence never steps back.  Validation and redaction are parameters.
 */
module ConfigLog {
  import opened Options

  // `author` is None for user id 0; `redacted` is "" when redaction failed.
  datatype Row = Row(id: int, author: Option<int>, contents: string, redacted: string)

  // `serial` is the last id handed out.
  datatype Table = Table(rows: seq<Row>, serial: int)

  datatype CreateError = Invalid | NewerEdit

  // The default contents, validation of (contents, isOverride), and redaction.
  datatype Env = Env(fallback: string, validate: (string, bool) -> bool, redact: string -> string)

  const EMPTY := Table([], 0)

  predicate Growing(rows: seq<Row>) {
    forall i, j :: 0 <= i < j < |rows| ==> rows[i].id < rows[j].id
  }

  predicate Valid(t: Table) {
    Growing(t.rows) && forall i :: 0 <= i < |t.rows| ==> t.rows[i].id <= t.serial
  }

  function Latest(rows: seq<Row>): Option<Row> {
    if rows == [] then None else Some(rows[|rows| - 1])
  }

  function NewRow(t: Table, author: int, contents: string, env: Env): Row {
    Row(t.serial + 1, if author == 0 then None else Some(author), contents, env.redact(contents))
  }

  function Insert(t: Table, row: Row): Table {
    Table(t.rows + [row], row.id)
  }

  function CreateIfUpToDate(t: Table, lastID: Option<int>, author: int, contents: string, isOverride: bool, env: Env)
    : (r: (Table, Result<Row, CreateError>))
    ensures Valid(t) ==> Valid(r.0)
  {
    if !env.validate(contents, isOverride) then (t, Err(Invalid))
    else if t.rows != [] && lastID.Some? && t.rows[|t.rows| - 1].id != lastID.value then (t, Err(NewerEdit))
    else
      var row := NewRow(t, author, contents, env);
      (Insert(t, row), Ok(row))
  }

  // The id of the default row when this call had to add it.
  function AddDefault(t: Table, author: int, env: Env): (r: (Table, Result<Option<int>, CreateError>))
    ensures Valid(t) ==> Valid(r.0)
  {
    if t.rows != [] then (t, Ok(None))
    else match CreateIfUpToDate(t, None, author, env.fallback, true, env)
      case (t', Ok(row)) => (t', Ok(Some(row.id)))
      case (t', Err(e)) => (t', Err(e))
  }

  // Undo the rows of a failed transaction, keeping the id sequence where it is.
  function RollBack(before: Table, after: Table): Table {
    Table(before.rows, after.serial)
  }

  function SiteCreate(t: Table, lastID: Option<int>, author: int, contents: string, isOverride: bool, env: Env)
    : (r: (Table, Result<Row, CreateError>))
  {
    match AddDefault(t, author, env)
    case (t1, Err(e)) => (RollBack(t, t1), Err(e))
    case (t1, Ok(newLastID)) =>
      match CreateIfUpToDate(t1, if newLastID.Some? then newLastID else lastID, author, contents, isOverride, env)
      case (t2, Ok(row)) => (t2, Ok(row))
      case (t2, Err(e)) => (RollBack(t, t2), Err(e))
  }

  function SiteGet(t: Table, author: int, env: Env): (r: (Table, Result<Row, CreateError>)) {
    match AddDefault(t, author, env)
    case (t1, Ok(_)) => if t1.rows == [] then (t1, Err(Invalid)) else (t1, Ok(t1.rows[|t1.rows| - 1]))
    case (t1, Err(e)) => (RollBack(t, t1), Err(e))
  }

  class ConfStore {
    const env: Env
    var rows: seq<Row>
    var serial: int

    function Value(): Table
      reads this
    {
      Table(rows, serial)
    }

    constructor (env: Env)
      ensures this.env == env && Value() == EMPTY
    {
      this.env := env;
      rows, serial := [], 0;
    }

    // SELECT ... ORDER BY id DESC LIMIT 1
    method GetLatest() returns (latest: Option<Row>)
      ensures latest.None? <==> rows == []
      ensures latest.Some? ==> latest.value in rows && forall x :: x in rows ==> x.id <= latest.value.id
      ensures Growing(rows) ==> latest == Latest(rows)
    {
      latest := None;
      for i := 0 to |rows|
        invariant latest.None? <==> i == 0
        invariant latest.Some? ==> latest.value in rows[..i]
        invariant latest.Some? ==> forall k :: 0 <= k < i ==> rows[k].id <= latest.value.id
        invariant Growing(rows) && i > 0 ==> latest == Some(rows[i - 1])
      {
        if latest.None? || latest.value.id < rows[i].id {
          latest := Some(rows[i]);
        }
      }
    }

    method CreateRow(lastID: Option<int>, author: int, contents: string, isOverride: bool)
      returns (r: Result<Row, CreateError>)
      requires Valid(Value())
      modifies this
      ensures (Value(), r) == CreateIfUpToDate(old(Value()), lastID, author, contents, isOverride, env)
    {
      if !env.validate(contents, isOverride) {
        return Err(Invalid);
      }
      var latest := GetLatest();
      if latest.Some? && lastID.Some? && latest.value.id != lastID.value {
        return Err(NewerEdit);
      }
      var row := NewRow(Value(), author, contents, env);
      serial := row.id;
      rows := rows + [row];
      return Ok(row);
    }

    method AddDefaultRow(author: int) returns (r: Result<Option<int>, CreateError>)
      requires Valid(Value())
      modifies this
      ensures (Value(), r) == AddDefault(old(Value()), author, env)
    {
      var latest := GetLatest();
      if latest.Some? {
        return Ok(None);
      }
      var created := CreateRow(None, author, env.fallback, true);
      match created
      case Ok(row) => return Ok(Some(row.id));
      case Err(e) => return Err(e);
    }

    method SiteCreateIfUpToDate(lastID: Option<int>, author: int, contents: string, isOverride: bool)
      returns (r: Result<Row, CreateError>)
      requires Valid(Value())
      modifies this
      ensures (Value(), r) == SiteCreate(old(Value()), lastID, author, contents, isOverride, env)
      ensures Valid(Value())
    {
      var before := rows;
      var added := AddDefaultRow(author);
      if added.Err? {
        rows := before;
        return Err(added.error);
      }
      var expected := lastID;
      if added.value.Some? {
        expected := added.value;
      }
      r := CreateRow(expected, author, contents, isOverride);
      if r.Err? {
        rows := before;
      }
    }

    method SiteGetLatest(author: int) returns (r: Result<Row, CreateError>)
      requires Valid(Value())
      modifies this
      ensures (Value(), r) == SiteGet(old(Value()), author, env)
      ensures Valid(Value())
    {
      var before := rows;
      var added := AddDefaultRow(author);
      if added.Err? {
        rows := before;
        return Err(added.error);
      }
      var latest := GetLatest();
      match latest
      case Some(row) => return Ok(row);
      case None => return Err(Invalid);
    }
  }

  /** ---- Whole runs ---- */

  datatype Op =
    | Write(lastID: Option<int>, author: int, contents: string, isOverride: bool, env: Env)
    | Read(author: int, env: Env)

  function Do(t: Table, op: Op): (Table, Result<Row, CreateError>) {
    match op
    case Write(lastID, author, contents, isOverride, env) => SiteCreate(t, lastID, author, contents, isOverride, env)
    case Read(author, env) => SiteGet(t, author, env)
  }

  function Run(ops: seq<Op>): Table {
    if ops == [] then EMPTY else Do(Run(ops[..|ops| - 1]), ops[|ops| - 1]).0
  }

  predicate SameDefault(ops: seq<Op>, fallback: string) {
    forall i :: 0 <= i < |ops| ==> ops[i].env.fallback == fallback
  }

  // What a run keeps: ids grow, and the first row is the default.
  predicate Shaped(t: Table, fallback: string) {
    Valid(t) && (t.rows != [] ==> t.rows[0].contents == fallback)
  }

  lemma DoOnEmpty(t: Table, op: Op)
    requires Shaped(t, op.env.fallback) && t.rows == []
    ensures Shaped(Do(t, op).0, op.env.fallback)
    ensures op.Write? && Do(t, op).1.Ok? ==>
      var row, after := Do(t, op).1.value, Do(t, op).0.rows;
      row.contents == op.contents && |after| == 2 && after[1] == row && after[0].contents == op.env.fallback
  {
  }

  lemma DoOnRows(t: Table, op: Op)
    requires Shaped(t, op.env.fallback) && t.rows != []
    ensures Shaped(Do(t, op).0, op.env.fallback)
    ensures op.Write? && Do(t, op).1.Ok? ==>
      var row := Do(t, op).1.value;
      && row.contents == op.contents && Do(t, op).0.rows == t.rows + [row]
      && (op.lastID.Some? ==> t.rows[|t.rows| - 1].id == op.lastID.value)
    ensures !(op.Write? && Do(t, op).1.Ok?) ==> Do(t, op).0 == t
  {
  }

  /** One transaction only appends, and an accepted write sits right after the row it named;
      on an empty table it sits after the new default row instead. */
  lemma DoAppends(t: Table, op: Op)
    requires Shaped(t, op.env.fallback)
    ensures Shaped(Do(t, op).0, op.env.fallback)
    ensures t.rows <= Do(t, op).0.rows
    ensures op.Write? && Do(t, op).1.Ok? ==>
      var row, after := Do(t, op).1.value, Do(t, op).0.rows;
      && row.contents == op.contents
      && (t.rows != [] ==> after == t.rows + [row] && (op.lastID.Some? ==> t.rows[|t.rows| - 1].id == op.lastID.value))
      && (t.rows == [] ==> |after| == 2 && after[1] == row && after[0].contents == op.env.fallback)
    ensures !(op.Write? && Do(t, op).1.Ok?) && t.rows != [] ==> Do(t, op).0 == t
  {
    if t.rows == [] {
      DoOnEmpty(t, op);
    } else {
      DoOnRows(t, op);
    }
  }

  // The row a transaction adds: the next id, no author for user 0, and the redacted contents beside.
  predicate IsNewRow(row: Row, id: int, author: int, contents: string, env: Env) {
    && row.id == id && row.contents == contents && row.redacted == env.redact(contents)
    && (row.author.None? <==> author == 0) && (row.author.Some? ==> row.author.value == author)
  }

  /** Exactly what a write does.  On a table with rows it is refused as invalid, or as older than the
      newest row, or appended.  On an empty one the default comes first, so that the id it names does
      not matter, and a refusal leaves no row but may use up an id. */
  lemma WriteOutcome(t: Table, op: Op)
    requires Valid(t) && op.Write?
    ensures t.rows != [] ==>
      var (t', r) := Do(t, op); var valid := op.env.validate(op.contents, op.isOverride);
      && (r == Err(Invalid) <==> !valid)
      && (r == Err(NewerEdit) <==> valid && op.lastID.Some? && op.lastID.value != t.rows[|t.rows| - 1].id)
      && (r.Err? ==> t' == t)
      && (r.Ok? ==> IsNewRow(r.value, t.serial + 1, op.author, op.contents, op.env) &&
                    t' == Table(t.rows + [r.value], t.serial + 1))
    ensures t.rows == [] ==>
      var (t', r) := Do(t, op); var valid := op.env.validate(op.contents, op.isOverride);
      var seeded := op.env.validate(op.env.fallback, true);
      && (r.Ok? <==> seeded && valid) && (r.Err? ==> r.error == Invalid)
      && (r.Err? ==> t' == Table([], if seeded then t.serial + 1 else t.serial))
      && (r.Ok? ==>
            && t'.serial == t.serial + 2 && |t'.rows| == 2 && t'.rows[1] == r.value
            && IsNewRow(t'.rows[0], t.serial + 1, op.author, op.env.fallback, op.env)
            && IsNewRow(r.value, t.serial + 2, op.author, op.contents, op.env))
  {
  }

  /** Exactly what a read does: the newest row of a table that has one, else the default, which is
      added unless it is invalid. */
  lemma ReadOutcome(t: Table, op: Op)
    requires Valid(t) && op.Read?
    ensures t.rows != [] ==> Do(t, op) == (t, Ok(t.rows[|t.rows| - 1]))
    ensures t.rows == [] && !op.env.validate(op.env.fallback, true) ==> Do(t, op) == (t, Err(Invalid))
    ensures t.rows == [] && op.env.validate(op.env.fallback, true) ==>
      var (t', r) := Do(t, op);
      && r.Ok? && IsNewRow(r.value, t.serial + 1, op.author, op.env.fallback, op.env)
      && t' == Table([r.value], t.serial + 1)
  {
  }

  /** On a non-empty table a valid write is accepted exactly when it names the newest row or none. */
  lemma AcceptedIff(t: Table, op: Op)
    requires Shaped(t, op.env.fallback) && t.rows != [] && op.Write?
    ensures Do(t, op).1.Ok? <==>
              op.env.validate(op.contents, op.isOverride) &&
              (op.lastID.Some? ==> op.lastID.value == t.rows[|t.rows| - 1].id)
  {
  }

  lemma {:induction false} RunShape(ops: seq<Op>, fallback: string)
    requires SameDefault(ops, fallback)
    ensures Shaped(Run(ops), fallback)
  {
    if ops != [] {
      RunShape(ops[..|ops| - 1], fallback);
      DoAppends(Run(ops[..|ops| - 1]), ops[|ops| - 1]);
    }
  }

  /** The table after any prefix of a run is a prefix of the table after the run. */
  lemma {:induction false} AppendOnly(ops: seq<Op>, n: nat, fallback: string)
    requires SameDefault(ops, fallback) && n <= |ops|
    ensures Run(ops[..n]).rows <= Run(ops).rows
  {
    if n == |ops| {
      assert ops[..n] == ops;
    } else {
      var earlier := ops[..|ops| - 1];
      AppendOnly(earlier, n, fallback);
      assert earlier[..n] == ops[..n];
      RunShape(earlier, fallback);
      DoAppends(Run(earlier), ops[|ops| - 1]);
    }
  }

  predicate Accepted(ops: seq<Op>, i: nat)
    requires i < |ops|
  {
    ops[i].Write? && Do(Run(ops[..i]), ops[i]).1.Ok?
  }

  // After an accepted write on a non-empty table the named row is no longer the newest.
  lemma AcceptedMovesOn(ops: seq<Op>, i: nat, fallback: string)
    requires SameDefault(ops, fallback) && i < |ops| && Accepted(ops, i)
    ensures |Run(ops[..i]).rows| < |Run(ops[..i + 1]).rows|
  {
    assert ops[..i + 1][..i] == ops[..i];
    RunShape(ops[..i], fallback);
    DoAppends(Run(ops[..i]), ops[i]);
  }

  /** Of two writers holding the same id on a non-empty table at most one is ever accepted. */
  lemma AtMostOneWinner(ops: seq<Op>, i: nat, j: nat, fallback: string)
    requires SameDefault(ops, fallback) && i < j < |ops|
    requires Run(ops[..i]).rows != [] && Accepted(ops, i)
    requires ops[j].Write? && ops[j].lastID == ops[i].lastID && ops[i].lastID.Some?
    ensures !Accepted(ops, j)
  {
    RunShape(ops[..i], fallback);
    DoAppends(Run(ops[..i]), ops[i]);
    AcceptedMovesOn(ops, i, fallback);
    var before, after, now := Run(ops[..i]).rows, Run(ops[..i + 1]).rows, Run(ops[..j]).rows;
    assert ops[..j][..i] == ops[..i] && ops[..j][..i + 1] == ops[..i + 1];
    AppendOnly(ops[..j], i, fallback);
    AppendOnly(ops[..j], i + 1, fallback);
    RunShape(ops[..j], fallback);
    assert now[|before| - 1] == before[|before| - 1];
    assert now[|before| - 1].id < now[|now| - 1].id;
    DoAppends(Run(ops[..j]), ops[j]);
  }

  // The rows the accepted writes of a run got back, in order.
  function AcceptedWrites(ops: seq<Op>): seq<Row> {
    if ops == [] then []
    else
      var earlier, op := ops[..|ops| - 1], ops[|ops| - 1];
      var result := Do(Run(earlier), op).1;
      AcceptedWrites(earlier) + if op.Write? && result.Ok? then [result.value] else []
  }

  /** Nothing is lost, doubled or reordered: the rows are the one default row and then the accepted
      writes, in the order in which they were accepted. */
  lemma {:induction false} RowsAreAcceptedWrites(ops: seq<Op>, fallback: string)
    requires SameDefault(ops, fallback)
    ensures Run(ops).rows == [] ==> AcceptedWrites(ops) == []
    ensures Run(ops).rows != [] ==>
      Run(ops).rows[0].contents == fallback && Run(ops).rows[1..] == AcceptedWrites(ops)
  {
    if ops != [] {
      var earlier := ops[..|ops| - 1];
      RowsAreAcceptedWrites(earlier, fallback);
      RunShape(earlier, fallback);
      DoAppends(Run(earlier), ops[|ops| - 1]);
    }
  }
}
