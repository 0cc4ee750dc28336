/**
  JSON trees with the two operations of internal/jsonc the redaction code uses:
  reading and editing one property path.  Text layout and comments are not modelled.
 */
module Json {
  import opened Options

  datatype Value =
    | Null
    | Bool(b: bool)
    | Num(text: string)
    | Str(s: string)
    | Arr(items: seq<Value>)
    | Obj(fields: map<string, Value>)

  type Path = seq<string>

  // The value at a path, or None when there is no such property.
  function ReadProperty(v: Value, path: Path): Option<Value> {
    if path == [] then Some(v)
    else if v.Obj? && path[0] in v.fields then ReadProperty(v.fields[path[0]], path[1..])
    else None
  }

  // The value wrapped in one object per path element.
  function Nest(path: Path, x: Value): Value {
    if path == [] then x else Obj(map[path[0] := Nest(path[1..], x)])
  }

  // Sets the property at a path; None when a value on the way is not an object.
  function Edit(v: Value, path: Path, x: Value): Option<Value>
    decreases |path|
  {
    if path == [] then Some(x)
    else if !v.Obj? then None
    else if path[0] !in v.fields then Some(Obj(v.fields[path[0] := Nest(path[1..], x)]))
    else match Edit(v.fields[path[0]], path[1..], x)
      case None => None
      case Some(child) => Some(Obj(v.fields[path[0] := child]))
  }

  // Neither path leads into the other.
  predicate Apart(p: Path, q: Path) {
    !(p <= q) && !(q <= p)
  }

  lemma ApartTail(p: Path, q: Path)
    requires Apart(p, q) && p[0] == q[0]
    ensures Apart(p[1..], q[1..])
  {
    assert p == [p[0]] + p[1..] && q == [q[0]] + q[1..];
  }

  lemma {:induction false} ReadNest(path: Path, x: Value)
    ensures ReadProperty(Nest(path, x), path) == Some(x)
  {
    if path != [] {
      ReadNest(path[1..], x);
    }
  }

  lemma {:induction false} ReadNestApart(p: Path, x: Value, q: Path)
    requires Apart(p, q)
    ensures ReadProperty(Nest(p, x), q) == None
  {
    if p[0] == q[0] {
      ApartTail(p, q);
      ReadNestApart(p[1..], x, q[1..]);
    }
  }

  /** An edited property reads back. */
  lemma {:induction false} ReadOwnEdit(v: Value, path: Path, x: Value)
    requires Edit(v, path, x).Some?
    ensures ReadProperty(Edit(v, path, x).value, path) == Some(x)
  {
    if path != [] {
      if path[0] in v.fields {
        ReadOwnEdit(v.fields[path[0]], path[1..], x);
      } else {
        ReadNest(path[1..], x);
      }
    }
  }

  /** An edit changes no property apart from its own path. */
  lemma {:induction false} ReadOtherEdit(v: Value, path: Path, x: Value, q: Path)
    requires Edit(v, path, x).Some? && Apart(path, q)
    ensures ReadProperty(Edit(v, path, x).value, q) == ReadProperty(v, q)
  {
    if path[0] == q[0] {
      ApartTail(path, q);
      if path[0] in v.fields {
        ReadOtherEdit(v.fields[path[0]], path[1..], x, q[1..]);
      } else {
        ReadNestApart(path[1..], x, q[1..]);
      }
    }
  }

  // A property that exists can be edited.
  lemma {:induction false} ExistingIsEditable(v: Value, path: Path, x: Value)
    requires ReadProperty(v, path).Some?
    ensures Edit(v, path, x).Some?
  {
    if path != [] {
      ExistingIsEditable(v.fields[path[0]], path[1..], x);
    }
  }

  /** Writing back the value that is there changes nothing. */
  lemma {:induction false} EditSame(v: Value, path: Path)
    requires ReadProperty(v, path).Some?
    ensures Edit(v, path, ReadProperty(v, path).value) == Some(v)
  {
    if path != [] {
      EditSame(v.fields[path[0]], path[1..]);
      assert v.fields[path[0] := v.fields[path[0]]] == v.fields;
    }
  }

  /** The last of two edits of an existing property wins. */
  lemma {:induction false} EditTwice(v: Value, path: Path, x: Value, y: Value)
    requires ReadProperty(v, path).Some?
    ensures Edit(v, path, x).Some? && Edit(Edit(v, path, x).value, path, y) == Edit(v, path, y)
  {
    ExistingIsEditable(v, path, x);
    if path != [] {
      var k := path[0];
      EditTwice(v.fields[k], path[1..], x, y);
      ExistingIsEditable(v.fields[k], path[1..], y);
      var c, d := Edit(v.fields[k], path[1..], x).value, Edit(v.fields[k], path[1..], y).value;
      assert v.fields[k := c][k := d] == v.fields[k := d];
    }
  }

  // Editing below a key whose value was just set.
  lemma EditInto(fields: map<string, Value>, path: Path, child: Value, x: Value, after: Value)
    requires path != [] && Edit(child, path[1..], x) == Some(after)
    ensures Edit(Obj(fields[path[0] := child]), path, x) == Some(Obj(fields[path[0] := after]))
  {
    assert fields[path[0] := child][path[0] := after] == fields[path[0] := after];
  }

  lemma EditsAtDifferentKeys(v: Value, p: Path, x: Value, q: Path, y: Value)
    requires p != [] && q != [] && p[0] != q[0] && v.Obj?
    requires Edit(v, p, x).Some? && Edit(v, q, y).Some?
    ensures Edit(Edit(v, p, x).value, q, y) == Edit(Edit(v, q, y).value, p, x)
    ensures Edit(Edit(v, p, x).value, q, y).Some?
  {
    var a, b := Edit(v, p, x).value.fields, Edit(v, q, y).value.fields;
    var c, d := a[p[0]], b[q[0]];
    assert v.fields[p[0] := c][q[0] := d] == v.fields[q[0] := d][p[0] := c];
  }

  lemma EditsAtOneKey(v: Value, p: Path, x: Value, q: Path, y: Value, c: Value, d: Value, e: Value)
    requires p != [] && q != [] && p[0] == q[0] && v.Obj? && p[0] in v.fields
    requires Edit(v.fields[p[0]], p[1..], x) == Some(c) && Edit(c, q[1..], y) == Some(e)
    requires Edit(v.fields[p[0]], q[1..], y) == Some(d) && Edit(d, p[1..], x) == Some(e)
    ensures Edit(v, p, x) == Some(Obj(v.fields[p[0] := c])) && Edit(v, q, y) == Some(Obj(v.fields[p[0] := d]))
    ensures Edit(Obj(v.fields[p[0] := c]), q, y) == Some(Obj(v.fields[p[0] := e]))
    ensures Edit(Obj(v.fields[p[0] := d]), p, x) == Some(Obj(v.fields[p[0] := e]))
  {
    EditInto(v.fields, q, c, y, e);
    EditInto(v.fields, p, d, x, e);
  }

  /** An edit commutes with an edit of an existing property apart from it. */
  lemma {:induction false} EditsCommute(v: Value, p: Path, x: Value, q: Path, y: Value)
    requires Apart(p, q) && Edit(v, p, x).Some? && ReadProperty(v, q).Some?
    ensures Edit(v, q, y).Some?
    ensures Edit(Edit(v, p, x).value, q, y) == Edit(Edit(v, q, y).value, p, x)
    ensures Edit(Edit(v, p, x).value, q, y).Some?
  {
    ExistingIsEditable(v, q, y);
    if p[0] != q[0] {
      EditsAtDifferentKeys(v, p, x, q, y);
    } else {
      var child := v.fields[p[0]];
      ApartTail(p, q);
      EditsCommute(child, p[1..], x, q[1..], y);
      var c, d := Edit(child, p[1..], x).value, Edit(child, q[1..], y).value;
      EditsAtOneKey(v, p, x, q, y, c, d, Edit(c, q[1..], y).value);
    }
  }
}
