/** The protocol handler of the older `package main` snapshot (net.go). Its
    dispatch, its parser and its replies are those of net/net.go; it
    differs in how it reads: `fillBuffer` loops over the reader's `Read`
    for the job body, and command lines and the line after a body are
    read with io.go's reader. */
module LegacyNet {
  import opened Entity
  import opened Strings
  import opened LineReader
  import LegacyIO
  import Net
  import Server

  /** The bytes of the chunks, in order. */
  function Flatten(chunks: seq<seq<byte>>): seq<byte>
    decreases |chunks|
  {
    if |chunks| == 0 then [] else chunks[0] + Flatten(chunks[1..])
  }

  /** The connection's buffered reader as `fillBuffer` sees it: the bytes
      still to arrive, in the chunks one `Read` can return at most. */
  class ChunkReader {
    var chunks: seq<seq<byte>>

    constructor (arriving: seq<seq<byte>>)
      ensures chunks == arriving
    {
      chunks := arriving;
    }

    /** `Read(b[from:to])`: copies as much of the first chunk as fits into
        `b` from `from` on and consumes it; `io.EOF` once nothing is left.
        An empty chunk is a read of no bytes and no error. */
    method Read(b: array<byte>, from: nat, to: nat) returns (n: nat, err: Option<ReadError>)
      requires from < to <= b.Length
      modifies this, b
      ensures err.Some? <==> |old(chunks)| == 0
      ensures err.Some? ==> err == Some(EOF) && n == 0
      ensures from + n <= to && n <= |Flatten(old(chunks))|
      ensures b[..from] == old(b[..from]) && b[from + n..] == old(b[from + n..])
      ensures b[from..from + n] == Flatten(old(chunks))[..n]
      ensures Flatten(chunks) == Flatten(old(chunks))[n..]
      ensures err.None? && n == 0 ==> |chunks| < |old(chunks)|
    {
      if |chunks| == 0 {
        return 0, Some(EOF);
      }
      var c := chunks[0];
      var rest := chunks[1..];
      assert Flatten(chunks) == c + Flatten(rest);
      n := Min(to - from, |c|);
      forall k | from <= k < from + n {
        b[k] := c[k - from];
      }
      if n == |c| {
        chunks := rest;
      } else {
        chunks := [c[n..]] + rest;
        assert chunks[1..] == rest;
      }
      err := None;
    }
  }

  /** `fillBuffer`: reads until `b` is full, and returns the first read
      error at once. With no error `b` holds the next `b.Length` bytes;
      with `io.EOF` everything that was left is at the start of `b` and
      the rest of `b` is as it was. */
  method FillBuffer(b: array<byte>, source: ChunkReader) returns (err: Option<ReadError>)
    modifies b, source
    ensures var s := Flatten(old(source.chunks)); var m := Min(b.Length, |s|);
      && (err.None? <==> b.Length <= |s|)
      && (err.Some? ==> err == Some(EOF))
      && b[..m] == s[..m] && b[m..] == old(b[m..])
      && Flatten(source.chunks) == s[m..]
  {
    ghost var s := Flatten(source.chunks);
    var from := 0;
    var to := b.Length;
    while from < to
      invariant from <= to == b.Length && from <= |s|
      invariant b[..from] == s[..from] && b[from..] == old(b[from..])
      invariant Flatten(source.chunks) == s[from..]
      decreases |Flatten(source.chunks)|, |source.chunks|
    {
      ghost var before := b[..];
      var nread, e := source.Read(b, from, to);
      if e.Some? {
        assert b[..] == before;
        return e;
      }
      assert b[..from + nread] == b[..from] + b[from..from + nread];
      assert s[..from + nread] == s[..from] + s[from..][..nread];
      assert b[from + nread..] == before[from + nread..];
      from := from + nread;
    }
    err := None;
  }

  /** `putHandler`'s body: `fillBuffer` into a new zeroed buffer of `n`
      bytes, its error dropped. It leaves what `io.ReadFull` leaves. */
  method ReadBody(source: ChunkReader, n: nat) returns (data: seq<byte>)
    modifies source
    ensures var s := Flatten(old(source.chunks));
      && data == Filled(s, n)
      && Flatten(source.chunks) == s[Min(n, |s|)..]
  {
    var b := new byte[n](_ => 0);
    var _ := FillBuffer(b, source);
    data := b[..];
  }

  /** `putHandler`'s decisions in net.go once its arguments are parsed:
      the body as `ReadBody` leaves it, then io.go's reader for the line
      after it, which must be empty. */
  function LegacyPutPlan(a: Net.PutArgs, input: seq<byte>, id: JobID, now: Time): Net.PutStep {
    var after := input[Min(a.nbytes, |input|)..];
    var trailer := LegacyIO.LegacyLoop(after, Net.MaxLineLength, []);
    if trailer.err.Some? || |trailer.line| != 0 then Net.ExpectedCrlf(trailer.rest)
    else Net.Insert(Server.BuiltJob(id, a.pri, now + Seconds(a.delay), Seconds(a.ttr),
                                    Filled(input, a.nbytes)), trailer.rest)
  }

  /** The state after the body of a `put` with well-formed arguments. */
  function LegacyBodyEffect(before: Net.Snapshot, a: Net.PutArgs, now: Net.Readings): Net.Snapshot {
    match LegacyPutPlan(a, before.input, before.nextID, now.build)
    case ExpectedCrlf(rest) =>
      before.(input := rest, output := before.output + Net.Line("EXPECTED_CRLF"))
    case Insert(j, rest) =>
      Net.AddEffect(before.(input := rest, nextID := Server.NextID(before.nextID)), j, now.add)
  }

  /** The state after the handler of `cmd`: `quit`, `delete` and unknown
      commands as in net/net.go, `put` with the older reads. */
  function LegacyHandlerEffect(before: Net.Snapshot, cmd: Net.Command, now: Net.Readings): Net.Snapshot {
    match cmd
    case Put(args) =>
      (match Net.PutArgsOf(args)
       case None => before.(output := before.output + Net.Line("BAD_FORMAT"))
       case Some(a) => LegacyBodyEffect(before, a, now))
    case _ => Net.HandlerEffect(before, cmd, now)
  }

  /** The state after net.go's `handleSingleRequest`: a command line read
      with io.go's reader, the connection closed if that fails, and the
      handler the line selects. */
  function LegacyRequest(before: Net.Snapshot, now: Net.Readings): Net.Snapshot {
    var c := LegacyIO.LegacyLoop(before.input, Net.MaxLineLength, []);
    var next := before.(input := c.rest);
    if c.err.Some? then next.(closed := true)
    else LegacyHandlerEffect(next, Net.CommandOf(Text(c.line)), now)
  }

  /** The state after net.go's `Handle` from request `k` on: requests
      until one closes the connection, which always happens; request `k`
      reads the clock as `clock(k)`. */
  function LegacySession(s: Net.Snapshot, clock: nat -> Net.Readings, k: nat): (r: Net.Snapshot)
    ensures r.closed
    decreases |s.input|
  {
    var t := LegacyRequest(s, clock(k));
    LegacyRequestProgresses(s, clock(k));
    if t.closed then t else LegacySession(t, clock, k + 1)
  }

  /** io.go's reader never reads back, and without an error it has read
      at least one byte. */
  lemma LegacyConsumes(input: seq<byte>, max: int)
    ensures var r := LegacyIO.LegacyLoop(input, max, []);
      && IsSuffix(r.rest, input)
      && (r.err.None? ==> |r.rest| < |input|)
  {
    LegacyIO.AgreesWithCappedLoop(input, max, []);
    ConsumesInput(input, max, []);
  }

  /** Each request only appends to the output and reads the input
      forward, and one that leaves the connection open has read at least
      one byte. */
  lemma LegacyRequestProgresses(before: Net.Snapshot, now: Net.Readings)
    ensures var after := LegacyRequest(before, now);
      && |before.output| <= |after.output| && after.output[..|before.output|] == before.output
      && IsSuffix(after.input, before.input)
      && (after.closed || |after.input| < |before.input|)
  {
    var c := LegacyIO.LegacyLoop(before.input, Net.MaxLineLength, []);
    LegacyConsumes(before.input, Net.MaxLineLength);
    if c.err.None? {
      var next := before.(input := c.rest);
      LegacyHandlerProgresses(next, Net.CommandOf(Text(c.line)), now);
      SuffixOfSuffix(LegacyRequest(before, now).input, c.rest, before.input);
    }
  }

  /** A handler only appends to the output and reads the input forward. */
  lemma LegacyHandlerProgresses(before: Net.Snapshot, cmd: Net.Command, now: Net.Readings)
    ensures var after := LegacyHandlerEffect(before, cmd, now);
      && |before.output| <= |after.output| && after.output[..|before.output|] == before.output
      && IsSuffix(after.input, before.input)
  {
    match cmd
    case Put(args) =>
      match Net.PutArgsOf(args) {
        case None =>
          var out := before.output + Net.Line("BAD_FORMAT");
          assert out[..|before.output|] == before.output;
        case Some(a) => LegacyBodyProgresses(before, a, now);
      }
    case Quit => Net.HandlerProgresses(before, cmd, now);
    case Delete(_) => Net.HandlerProgresses(before, cmd, now);
    case Unknown => Net.HandlerProgresses(before, cmd, now);
  }

  lemma LegacyBodyProgresses(before: Net.Snapshot, a: Net.PutArgs, now: Net.Readings)
    ensures var after := LegacyBodyEffect(before, a, now);
      && |before.output| <= |after.output| && after.output[..|before.output|] == before.output
      && IsSuffix(after.input, before.input)
  {
    var input := before.input;
    var body := input[Min(a.nbytes, |input|)..];
    var trailer := LegacyIO.LegacyLoop(body, Net.MaxLineLength, []);
    LegacyConsumes(body, Net.MaxLineLength);
    SuffixOfSuffix(trailer.rest, body, input);
    match LegacyPutPlan(a, before.input, before.nextID, now.build)
    case ExpectedCrlf(rest) =>
      assert rest == trailer.rest;
      var out := before.output + Net.Line("EXPECTED_CRLF");
      assert out[..|before.output|] == before.output;
    case Insert(j, rest) =>
      assert rest == trailer.rest;
      var mid := before.(input := rest, nextID := Server.NextID(before.nextID));
      assert LegacyBodyEffect(before, a, now) == Net.AddEffect(mid, j, now.add);
      Net.AddAppends(mid, j, now.add);
  }

  /** No line anywhere in the input arrives as one fragment longer than
      the cap. */
  predicate NoLongLines(input: seq<byte>) {
    forall k :: 0 <= k <= |input| ==> !LegacyIO.ShortcutOverCap(input[k..], Net.MaxLineLength)
  }

  /** The property holds of what is left after reading forward. */
  lemma NoLongLinesInSuffix(t: seq<byte>, s: seq<byte>)
    requires IsSuffix(t, s) && NoLongLines(s)
    ensures NoLongLines(t)
  {
    var d := |s| - |t|;
    forall k | 0 <= k <= |t|
      ensures !LegacyIO.ShortcutOverCap(t[k..], Net.MaxLineLength)
    {
      assert t[k..] == s[d + k..];
    }
  }

  /** Where the line after a body is not a long single fragment, the
      older `put` decides as the newer one. */
  lemma LegacyPutPlanAgrees(a: Net.PutArgs, input: seq<byte>, id: JobID, now: Time)
    requires !LegacyIO.ShortcutOverCap(input[Min(a.nbytes, |input|)..], Net.MaxLineLength)
    ensures LegacyPutPlan(a, input, id, now) == Net.PutPlan(a, input, id, now)
  {
    LegacyIO.AgreesWithCappedLoop(input[Min(a.nbytes, |input|)..], Net.MaxLineLength, []);
  }

  /** On input without long single-fragment lines, a request of net.go
      has the effect of a request of net/net.go (with its reader's error
      returned). */
  lemma LegacyRequestAgrees(s: Net.Snapshot, now: Net.Readings)
    requires NoLongLines(s.input)
    ensures LegacyRequest(s, now) == Net.Request(s, now)
  {
    assert s.input[0..] == s.input;
    LegacyIO.AgreesWithCappedLoop(s.input, Net.MaxLineLength, []);
    var c := LegacyIO.LegacyLoop(s.input, Net.MaxLineLength, []);
    if c.err.None? {
      LegacyConsumes(s.input, Net.MaxLineLength);
      NoLongLinesInSuffix(c.rest, s.input);
      LegacyHandlerAgrees(s.(input := c.rest), Net.CommandOf(Text(c.line)), now);
    }
  }

  /** The handlers agree where the input has no long single-fragment
      lines. */
  lemma LegacyHandlerAgrees(before: Net.Snapshot, cmd: Net.Command, now: Net.Readings)
    requires NoLongLines(before.input)
    ensures LegacyHandlerEffect(before, cmd, now) == Net.HandlerEffect(before, cmd, now)
  {
    if cmd.Put? && Net.PutArgsOf(cmd.args).Some? {
      var a := Net.PutArgsOf(cmd.args).value;
      LegacyBodyAgrees(before, a, now);
    }
  }

  lemma LegacyBodyAgrees(before: Net.Snapshot, a: Net.PutArgs, now: Net.Readings)
    requires NoLongLines(before.input)
    ensures LegacyBodyEffect(before, a, now) == Net.BodyEffect(before, a, now)
  {
    var k := Min(a.nbytes, |before.input|);
    assert !LegacyIO.ShortcutOverCap(before.input[k..], Net.MaxLineLength);
    LegacyPutPlanAgrees(a, before.input, before.nextID, now.build);
  }

  /** On input without long single-fragment lines, the whole conversation
      of net.go is the one of net/net.go. */
  lemma {:induction false} LegacySessionAgrees(s: Net.Snapshot, clock: nat -> Net.Readings, k: nat)
    requires NoLongLines(s.input)
    ensures LegacySession(s, clock, k) == Net.Session(s, clock, k)
    decreases |s.input|
  {
    LegacyRequestAgrees(s, clock(k));
    var t := Net.Request(s, clock(k));
    if !t.closed {
      Net.RequestProgresses(s, clock(k));
      NoLongLinesInSuffix(t.input, s.input);
      LegacySessionAgrees(t, clock, k + 1);
    }
  }

  /** The reader difference seen by a client: a 2000-byte command line is
      answered by net.go and closes the connection in net/net.go. */
  lemma LongCommandLineIsAnswered(now: Net.Readings)
    ensures var s := Net.Fresh(seq(2000, _ => 97) + [CR, LF]);
      && LegacyRequest(s, now).output == Net.Line("UNKNOWN_COMMAND")
      && !LegacyRequest(s, now).closed
      && Net.Request(s, now).closed && Net.Request(s, now).output == ""
  {
    LegacyIO.LongSingleFragmentLine();
    var line: seq<byte> := seq(2000, _ => 97);
    UnknownWord(Text(line));
  }

  /** A long word without spaces selects no command. */
  lemma UnknownWord(t: string)
    requires ' ' !in t && |t| > 6
    ensures Net.CommandOf(t) == Net.Unknown
  {
    SplitWithoutSeparator(t, [], ' ');
    assert t + [] == t;
    assert t + "" == t;
  }
}
