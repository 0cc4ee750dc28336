/**
  The line-counting, line-prefixing writer (dev/src-expose/snapshot.go, lineCountWriter), on an
  underlying writer that succeeds.
 */
module LineCount {
  import opened Octets

  const NEWLINE: byte := 10

  // What was written, whether the last line is still open, and how many lines began.
  datatype State = State(out: Bytes, inline: bool, lines: int)

  const START := State([], false, 0)

  // Reference: the effect of one byte.
  function Put(st: State, prefix: Bytes, c: byte): State {
    State(st.out + (if st.inline then [] else prefix) + [c], c != NEWLINE, if st.inline then st.lines else st.lines + 1)
  }

  function Feed(st: State, prefix: Bytes, bs: Bytes): State {
    if bs == [] then st else Put(Feed(st, prefix, bs[..|bs| - 1]), prefix, bs[|bs| - 1])
  }

  function Closed(st: State): State {
    if st.inline then State(st.out + [NEWLINE], false, st.lines) else st
  }

  // Index of the first newline, or -1.
  function IndexOf(bs: Bytes): (i: int)
    ensures -1 <= i < |bs| && (i >= 0 ==> bs[i] == NEWLINE)
    ensures forall j :: 0 <= j < (if i < 0 then |bs| else i) ==> bs[j] != NEWLINE
  {
    if bs == [] then -1
    else if bs[0] == NEWLINE then 0
    else
      var i := IndexOf(bs[1..]);
      if i < 0 then -1 else i + 1
  }

  // Writing a part of one line at once.
  lemma {:induction false} FeedPart(st: State, prefix: Bytes, part: Bytes)
    requires part != [] && forall j :: 0 <= j < |part| - 1 ==> part[j] != NEWLINE
    ensures Feed(st, prefix, part) ==
            State(st.out + (if st.inline then [] else prefix) + part, part[|part| - 1] != NEWLINE,
                  if st.inline then st.lines else st.lines + 1)
  {
    var n := |part| - 1;
    if n == 0 {
      assert part == [part[0]] && part[..0] == [];
    } else {
      FeedPart(st, prefix, part[..n]);
      assert part == part[..n] + [part[n]];
    }
  }

  lemma {:induction false} FeedConcat(st: State, prefix: Bytes, a: Bytes, b: Bytes)
    ensures Feed(st, prefix, a + b) == Feed(Feed(st, prefix, a), prefix, b)
    decreases |b|
  {
    if b == [] {
      assert a + b == a;
    } else {
      var n := |b| - 1;
      assert (a + b)[..|a| + n] == a + b[..n] && (a + b)[|a| + n] == b[n];
      FeedConcat(st, prefix, a, b[..n]);
    }
  }

  class LineCountWriter {
    const prefix: Bytes
    var out: Bytes
    var inline: bool
    var lines: int

    function Value(): State
      reads this
    {
      State(out, inline, lines)
    }

    constructor (prefix: Bytes)
      ensures this.prefix == prefix && Value() == START
    {
      this.prefix := prefix;
      out, inline, lines := [], false, 0;
    }

    // One pass of the loop: at most one line of the data.
    method WritePart(b: Bytes) returns (off: nat)
      requires b != []
      modifies this
      ensures 0 < off <= |b| && Value() == Feed(old(Value()), prefix, b[..off])
    {
      if !inline {
        lines := lines + 1;
        out := out + prefix;
      }
      var i := IndexOf(b);
      if i < 0 {
        off := |b|;
        inline := true;
      } else {
        off := i + 1;
        inline := false;
      }
      FeedPart(old(Value()), prefix, b[..off]);
      out := out + b[..off];
    }

    method Write(data: Bytes) returns (n: nat)
      modifies this
      ensures Value() == Feed(old(Value()), prefix, data) && n == |data|
    {
      n := 0;
      var b := data;
      ghost var start, written := Value(), [];
      while |b| > 0
        invariant written + b == data && n == |written|
        invariant Value() == Feed(start, prefix, written)
        decreases |b|
      {
        var off := WritePart(b);
        FeedConcat(start, prefix, written, b[..off]);
        written := written + b[..off];
        b := b[off..];
        n := n + off;
      }
      assert written == data;
    }

    method Close()
      modifies this
      ensures Value() == Closed(old(Value()))
    {
      if inline {
        inline := false;
        out := out + [NEWLINE];
      }
    }
  }

  /** ---- Chunks do not matter ---- */

  function Joined(chunks: seq<Bytes>): Bytes {
    if chunks == [] then [] else chunks[0] + Joined(chunks[1..])
  }

  // One Write call per chunk.
  function FeedChunks(st: State, prefix: Bytes, chunks: seq<Bytes>): State
    decreases |chunks|
  {
    if chunks == [] then st else FeedChunks(Feed(st, prefix, chunks[0]), prefix, chunks[1..])
  }

  /** However a stream is cut into Write calls, output, line count and open line are those of one
      Write of the whole stream. */
  lemma {:induction false} ChunkingIndependence(st: State, prefix: Bytes, chunks: seq<Bytes>)
    ensures FeedChunks(st, prefix, chunks) == Feed(st, prefix, Joined(chunks))
    decreases |chunks|
  {
    if chunks != [] {
      ChunkingIndependence(Feed(st, prefix, chunks[0]), prefix, chunks[1..]);
      FeedConcat(st, prefix, chunks[0], Joined(chunks[1..]));
    }
  }

  /** ---- What the output is ---- */

  // The lines of a text; a last line without a newline is one too.
  function Lines(bs: Bytes): seq<Bytes>
    decreases |bs|
  {
    if bs == [] then []
    else
      var i := IndexOf(bs);
      if i < 0 then [bs] else [bs[..i]] + Lines(bs[i + 1..])
  }

  function Rendered(prefix: Bytes, lines: seq<Bytes>): Bytes {
    if lines == [] then [] else prefix + lines[0] + [NEWLINE] + Rendered(prefix, lines[1..])
  }

  lemma LastLine(st: State, prefix: Bytes, bs: Bytes)
    requires !st.inline && bs != [] && IndexOf(bs) < 0
    ensures Closed(Feed(st, prefix, bs)) ==
            State(st.out + Rendered(prefix, Lines(bs)), false, st.lines + |Lines(bs)|)
  {
    FeedPart(st, prefix, bs);
    var lines := Lines(bs);
    assert lines == [bs] && lines[1..] == [];
    assert Rendered(prefix, lines) == prefix + bs + [NEWLINE] + [];
    assert st.out + prefix + bs + [NEWLINE] == st.out + (prefix + bs + [NEWLINE] + []);
  }

  lemma FeedLine(st: State, prefix: Bytes, line: Bytes)
    requires !st.inline && NEWLINE !in line
    ensures Feed(st, prefix, line + [NEWLINE]) == State(st.out + (prefix + line + [NEWLINE]), false, st.lines + 1)
  {
    FeedPart(st, prefix, line + [NEWLINE]);
    assert st.out + prefix + (line + [NEWLINE]) == st.out + (prefix + line + [NEWLINE]);
  }

  lemma FirstLine(st: State, prefix: Bytes, bs: Bytes, i: nat)
    requires !st.inline && bs != [] && IndexOf(bs) == i
    ensures Feed(st, prefix, bs) ==
            Feed(State(st.out + (prefix + bs[..i] + [NEWLINE]), false, st.lines + 1), prefix, bs[i + 1..])
  {
    var line := bs[..i];
    FeedLine(st, prefix, line);
    FeedConcat(st, prefix, line + [NEWLINE], bs[i + 1..]);
    assert bs == line + [NEWLINE] + bs[i + 1..];
  }

  /** From a line start, feeding a text and closing adds prefix, line and newline for each of its
      lines, and counts them. */
  lemma {:induction false} ClosedOutput(st: State, prefix: Bytes, bs: Bytes)
    requires !st.inline
    ensures Closed(Feed(st, prefix, bs)) ==
            State(st.out + Rendered(prefix, Lines(bs)), false, st.lines + |Lines(bs)|)
    decreases |bs|
  {
    if bs == [] {
      assert st.out + [] == st.out;
    } else if IndexOf(bs) < 0 {
      LastLine(st, prefix, bs);
    } else {
      var i := IndexOf(bs);
      var rest := bs[i + 1..];
      var head := prefix + bs[..i] + [NEWLINE];
      FirstLine(st, prefix, bs, i);
      ClosedOutput(State(st.out + head, false, st.lines + 1), prefix, rest);
      var lines := Lines(bs);
      assert lines == [bs[..i]] + Lines(rest) && lines[1..] == Lines(rest);
      assert st.out + head + Rendered(prefix, Lines(rest)) == st.out + (head + Rendered(prefix, Lines(rest)));
    }
  }
}
