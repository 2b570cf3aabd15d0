/** The text protocol (net/net.go): one connection handler reads command
    lines, dispatches `quit`, `put` and `delete`, and writes one reply
    line per request. A request's effect is stated on a `Snapshot` of
    everything the handler can observe, so the whole conversation is
    described by values. */
module Net {
  import opened Entity
  import opened Strings
  import LineReader
  import Server
  import Storage

  /** The cap on command lines and on the line after a job body. */
  const MaxLineLength: nat := 1024

  /** `PrintfLine`: the reply followed by "\r\n". */
  function Line(reply: string): string {
    reply + "\r\n"
  }

  /** The handler a command line selects, with its arguments. */
  datatype Command = Quit | Put(args: seq<string>) | Delete(args: seq<string>) | Unknown

  /** The first word of the line, split at single spaces, names the
      command; the other words are its arguments. */
  function CommandOf(line: string): Command {
    var words := Split(line, ' ');
    var name := words[0];
    if name == "quit" then Quit
    else if name == "put" then Put(words[1..])
    else if name == "delete" then Delete(words[1..])
    else Unknown
  }

  /** A command line built from a name and arguments without spaces
      selects the handler for that name and passes those arguments. */
  lemma CommandOfJoined(name: string, args: seq<string>)
    requires ' ' !in name && forall i :: 0 <= i < |args| ==> ' ' !in args[i]
    ensures var c := CommandOf(Join([name] + args, ' '));
      && (name == "quit" ==> c == Quit)
      && (name == "put" ==> c == Put(args))
      && (name == "delete" ==> c == Delete(args))
      && (name !in {"quit", "put", "delete"} ==> c == Unknown)
  {
    var parts := [name] + args;
    assert forall i :: 0 <= i < |parts| ==> ' ' !in parts[i] by {
      forall i | 0 <= i < |parts| ensures ' ' !in parts[i] {
        if i > 0 {
          assert parts[i] == args[i - 1];
        }
      }
    }
    SplitJoin(parts, ' ');
    assert parts[1..] == args;
  }

  /** The numbers of a `put`: priority, delay and time to run in seconds,
      and the size of the body. */
  datatype PutArgs = PutArgs(pri: uint64, delay: uint64, ttr: uint64, nbytes: uint64)

  /** The arguments of a well-formed `put`: exactly four, each a decimal
      `uint64`; anything else is answered with BAD_FORMAT. */
  function PutArgsOf(args: seq<string>): (r: Option<PutArgs>)
    ensures r.Some? <==> |args| == 4 && forall i :: 0 <= i < 4 ==> ParseUint(args[i]).err.None?
  {
    if |args| == 4 && ParseUint(args[0]).err.None? && ParseUint(args[1]).err.None?
       && ParseUint(args[2]).err.None? && ParseUint(args[3]).err.None?
    then Some(PutArgs(ParseUint(args[0]).value, ParseUint(args[1]).value,
                      ParseUint(args[2]).value, ParseUint(args[3]).value))
    else None
  }

  /** The numbers a client prints are the ones `put` reads. */
  lemma PutArgsRoundTrip(a: PutArgs)
    ensures PutArgsOf([FormatUint(a.pri), FormatUint(a.delay), FormatUint(a.ttr), FormatUint(a.nbytes)]) == Some(a)
  {
    ParseFormatUint(a.pri);
    ParseFormatUint(a.delay);
    ParseFormatUint(a.ttr);
    ParseFormatUint(a.nbytes);
  }

  /** The argument of a well-formed `delete`: exactly one, a decimal
      `uint64`. */
  function DeleteArgOf(args: seq<string>): (r: Option<JobID>)
    ensures r.Some? <==> |args| == 1 && ParseUint(args[0]).err.None?
  {
    if |args| == 1 && ParseUint(args[0]).err.None? then Some(ParseUint(args[0]).value) else None
  }

  /** The ID a client prints is the one `delete` reads. */
  lemma DeleteArgRoundTrip(id: JobID)
    ensures DeleteArgOf([FormatUint(id)]) == Some(id)
  {
    ParseFormatUint(id);
  }

  /** The INSERTED reply carries the new job's ID in a form `delete`
      accepts back. */
  lemma InsertedReplyNamesTheJob(id: JobID)
    ensures var words := Split("INSERTED " + FormatUint(id), ' ');
      words == ["INSERTED", FormatUint(id)] && DeleteArgOf(words[1..]) == Some(id)
  {
    FormattedHasNoSpace(id);
    assert Join(["INSERTED", FormatUint(id)], ' ') == "INSERTED " + FormatUint(id);
    SplitJoin(["INSERTED", FormatUint(id)], ' ');
    assert Split("INSERTED " + FormatUint(id), ' ')[1..] == [FormatUint(id)];
    ParseFormatUint(id);
  }

  /** `integerParser`: parses numbers one after another and keeps an
      error. */
  class IntegerParser {
    var err: Option<NumError>

    constructor ()
      ensures err == None
    {
      err := None;
    }

    /** `Parse` as written: the error is recorded only when one is already
        recorded, so a fresh parser never records any. */
    method ParseAsWritten(s: string) returns (v: uint64)
      modifies this
      ensures v == ParseUint(s).value
      ensures err == if old(err).Some? then ParseUint(s).err else old(err)
    {
      var r := ParseUint(s);
      if err.Some? {
        err := r.err;
      }
      v := r.value;
    }

    /** `Parse` keeping the first error, as its callers expect. */
    method Parse(s: string) returns (v: uint64)
      modifies this
      ensures v == ParseUint(s).value
      ensures err == if old(err).None? then ParseUint(s).err else old(err)
    {
      var r := ParseUint(s);
      if err.None? {
        err := r.err;
      }
      v := r.value;
    }
  }

  /** `putHandler`'s four parses with the parser as written: the check
      that follows them never sees an error, whatever the arguments. */
  method ParsePutArgsAsWritten(args: seq<string>) returns (a: PutArgs, err: Option<NumError>)
    requires |args| == 4
    ensures a == PutArgs(ParseUint(args[0]).value, ParseUint(args[1]).value, ParseUint(args[2]).value, ParseUint(args[3]).value)
    ensures err == None
  {
    var p := new IntegerParser();
    var pri := p.ParseAsWritten(args[0]);
    var delay := p.ParseAsWritten(args[1]);
    var ttr := p.ParseAsWritten(args[2]);
    var nbytes := p.ParseAsWritten(args[3]);
    a, err := PutArgs(pri, delay, ttr, nbytes), p.err;
  }

  /** The same four parses with the corrected parser: an error is left
      exactly when some argument is not a decimal `uint64`. */
  method ParsePutArgs(args: seq<string>) returns (a: PutArgs, err: Option<NumError>)
    requires |args| == 4
    ensures a == PutArgs(ParseUint(args[0]).value, ParseUint(args[1]).value, ParseUint(args[2]).value, ParseUint(args[3]).value)
    ensures err.None? <==> PutArgsOf(args).Some?
    ensures err.None? ==> PutArgsOf(args) == Some(a)
  {
    var p := new IntegerParser();
    var pri := p.Parse(args[0]);
    var delay := p.Parse(args[1]);
    var ttr := p.Parse(args[2]);
    var nbytes := p.Parse(args[3]);
    a, err := PutArgs(pri, delay, ttr, nbytes), p.err;
  }

  /** A `put` whose size is not a number gets past the parser as written,
      and is refused by the corrected one. */
  method NonNumberPassesAsWritten() returns (asWritten: Option<NumError>, corrected: Option<NumError>)
    ensures asWritten == None && corrected.Some?
  {
    var args := ["0", "0", "10", "five"];
    assert ParseUint(args[3]).err == Some(ErrSyntax);
    var _, e := ParsePutArgsAsWritten(args);
    var _, e' := ParsePutArgs(args);
    asWritten, corrected := e, e';
  }

  /** Everything a request can observe or change: the unread input, the
      output written so far, the next job ID, the registered jobs, the
      IDs in the ready and delay queues, whether the connection has been
      closed and whether the process has exited. */
  datatype Snapshot = Snapshot(
    input: seq<byte>,
    output: string,
    nextID: JobID,
    registry: map<JobID, Job>,
    readyIds: set<JobID>,
    delayIds: set<JobID>,
    closed: bool,
    exited: bool)

  /** What a `put` with well-formed arguments does after its command
      line. */
  datatype PutStep = ExpectedCrlf(rest: seq<byte>) | Insert(job: Job, rest: seq<byte>)

  /** The two readings of the clock a `put` takes: `build` when
      `putHandler` stamps the job to run `delay` seconds from now, and
      `add` when the store decides whether the job is already due. */
  datatype Readings = Readings(build: Time, add: Time)

  /** `putHandler`'s decisions once its arguments are parsed, on the input
      after the command line, the ID the generator yields next and the
      clock: read `nbytes` bytes of body; refuse unless an empty line
      follows; build the job to run `delay` seconds from now. */
  function PutPlan(a: PutArgs, input: seq<byte>, id: JobID, now: Time): PutStep {
    var after := input[LineReader.Min(a.nbytes, |input|)..];
    var trailer := LineReader.CappedLoop(after, MaxLineLength, []);
    if trailer.err.Some? || |trailer.line| != 0 then ExpectedCrlf(trailer.rest)
    else Insert(Server.BuiltJob(id, a.pri, now + Seconds(a.delay), Seconds(a.ttr),
                                LineReader.Filled(input, a.nbytes)), trailer.rest)
  }

  /** The state after `putHandler` from `before`. */
  function PutEffect(before: Snapshot, args: seq<string>, now: Readings): Snapshot {
    match PutArgsOf(args)
    case None => before.(output := before.output + Line("BAD_FORMAT"))
    case Some(a) => BodyEffect(before, a, now)
  }

  /** The state after the body of a `put` with well-formed arguments. */
  function BodyEffect(before: Snapshot, a: PutArgs, now: Readings): Snapshot {
    match PutPlan(a, before.input, before.nextID, now.build)
    case ExpectedCrlf(rest) =>
      before.(input := rest, output := before.output + Line("EXPECTED_CRLF"))
    case Insert(j, rest) =>
      AddEffect(before.(input := rest, nextID := Server.NextID(before.nextID)), j, now.add)
  }

  /** The state after adding the built job `j` and replying. A job whose ID
      is already registered makes `Add` fail, and the handler exits the
      process. */
  function AddEffect(before: Snapshot, j: Job, now: Time): Snapshot {
    if j.id in before.registry then
      before.(closed := true, exited := true)
    else
      before.(
        output := before.output + Line("INSERTED " + FormatUint(j.id)),
        registry := before.registry[j.id := j],
        readyIds := if Storage.IsReady(j, now) then before.readyIds + {j.id} else before.readyIds,
        delayIds := if Storage.IsReady(j, now) then before.delayIds else before.delayIds + {j.id})
  }

  /** The state after `deleteHandler` from `before`. */
  function DeleteEffect(before: Snapshot, args: seq<string>): Snapshot {
    match DeleteArgOf(args)
    case None => before.(output := before.output + Line("BAD_FORMAT"))
    case Some(id) => DeleteIdEffect(before, id)
  }

  /** The state after deleting the job `id` and replying. */
  function DeleteIdEffect(before: Snapshot, id: JobID): Snapshot {
    if id in before.registry then
      before.(
        output := before.output + Line("DELETED"),
        registry := before.registry - {id},
        readyIds := before.readyIds - {id},
        delayIds := before.delayIds - {id})
    else
      before.(output := before.output + Line("NOT_FOUND"))
  }

  /** The state after `handleSingleRequest` from `before`: read a capped
      command line, closing the connection if that fails; then run the
      handler the line selects on the input after it. */
  function Request(before: Snapshot, now: Readings): Snapshot {
    AfterLine(before, LineReader.CappedLoop(before.input, MaxLineLength, []), now)
  }

  /** The state after `handleSingleRequest` has read `c`. */
  function AfterLine(before: Snapshot, c: LineReader.Capped, now: Readings): Snapshot {
    var next := before.(input := c.rest);
    if c.err.Some? then next.(closed := true)
    else HandlerEffect(next, CommandOf(Text(c.line)), now)
  }

  /** The state after the handler of `cmd` from `before`. */
  function HandlerEffect(before: Snapshot, cmd: Command, now: Readings): Snapshot {
    match cmd
    case Quit => before.(closed := true)
    case Put(args) => PutEffect(before, args, now)
    case Delete(args) => DeleteEffect(before, args)
    case Unknown => before.(output := before.output + Line("UNKNOWN_COMMAND"))
  }

  /** The state after `Handle` from request `k` on: requests one after
      another until one of them closes the connection, which always
      happens. Request `k` of the connection reads the clock as
      `clock(k)`. */
  function Session(s: Snapshot, clock: nat -> Readings, k: nat): (r: Snapshot)
    ensures r.closed
    decreases |s.input|
  {
    var t := Request(s, clock(k));
    RequestProgresses(s, clock(k));
    if t.closed then t else Session(t, clock, k + 1)
  }

  /** Queued jobs are registered, and no job is both ready and delayed. */
  predicate Consistent(s: Snapshot) {
    s.readyIds <= s.registry.Keys && s.delayIds <= s.registry.Keys && s.readyIds !! s.delayIds
  }

  /** Every request keeps the store consistent. */
  lemma RequestKeepsConsistent(before: Snapshot, now: Readings)
    requires Consistent(before)
    ensures Consistent(Request(before, now))
  {
    var c := LineReader.CappedLoop(before.input, MaxLineLength, []);
    var next := before.(input := c.rest);
    if c.err.None? {
      match CommandOf(Text(c.line))
      case Put(args) => PutKeepsConsistent(next, args, now);
      case Delete(args) => DeleteKeepsConsistent(next, args);
      case Quit =>
      case Unknown =>
    }
  }

  lemma PutKeepsConsistent(before: Snapshot, args: seq<string>, now: Readings)
    requires Consistent(before)
    ensures Consistent(PutEffect(before, args, now))
  {
    match PutArgsOf(args)
    case None =>
    case Some(a) =>
      match PutPlan(a, before.input, before.nextID, now.build)
      case ExpectedCrlf(_) =>
      case Insert(j, rest) =>
        var mid := before.(input := rest, nextID := Server.NextID(before.nextID));
        assert PutEffect(before, args, now) == AddEffect(mid, j, now.add);
        AddKeepsConsistent(mid, j, now.add);
  }

  lemma AddKeepsConsistent(before: Snapshot, j: Job, now: Time)
    requires Consistent(before)
    ensures Consistent(AddEffect(before, j, now))
  {
  }

  lemma DeleteKeepsConsistent(before: Snapshot, args: seq<string>)
    requires Consistent(before)
    ensures Consistent(DeleteEffect(before, args))
  {
  }

  /** A request only appends to the output, reads the input forward, and
      either closes the connection or consumes at least one byte. */
  lemma RequestProgresses(before: Snapshot, now: Readings)
    ensures var after := Request(before, now);
      && |before.output| <= |after.output| && after.output[..|before.output|] == before.output
      && LineReader.IsSuffix(after.input, before.input)
      && (after.closed || |after.input| < |before.input|)
  {
    var c := LineReader.CappedLoop(before.input, MaxLineLength, []);
    LineReader.ConsumesInput(before.input, MaxLineLength, []);
    if c.err.None? {
      var next := before.(input := c.rest);
      HandlerProgresses(next, CommandOf(Text(c.line)), now);
      LineReader.SuffixOfSuffix(Request(before, now).input, c.rest, before.input);
    }
  }

  /** A handler only appends to the output and reads the input forward. */
  lemma HandlerProgresses(before: Snapshot, cmd: Command, now: Readings)
    ensures var after := HandlerEffect(before, cmd, now);
      && |before.output| <= |after.output| && after.output[..|before.output|] == before.output
      && LineReader.IsSuffix(after.input, before.input)
  {
    match cmd
    case Put(args) => PutProgresses(before, args, now);
    case Delete(args) =>
    case Quit =>
    case Unknown =>
  }

  /** A `put` only appends to the output and reads the input forward. */
  lemma PutProgresses(before: Snapshot, args: seq<string>, now: Readings)
    ensures var after := PutEffect(before, args, now);
      && |before.output| <= |after.output| && after.output[..|before.output|] == before.output
      && LineReader.IsSuffix(after.input, before.input)
  {
    match PutArgsOf(args)
    case None =>
      var out := before.output + Line("BAD_FORMAT");
      assert out[..|before.output|] == before.output;
    case Some(a) =>
      BodyProgresses(before, a, now);
  }

  /** The body of a `put` only appends to the output and reads the
      input forward. */
  lemma BodyProgresses(before: Snapshot, a: PutArgs, now: Readings)
    ensures var after := BodyEffect(before, a, now);
      && |before.output| <= |after.output| && after.output[..|before.output|] == before.output
      && LineReader.IsSuffix(after.input, before.input)
  {
    var input := before.input;
    var body := input[LineReader.Min(a.nbytes, |input|)..];
    var trailer := LineReader.CappedLoop(body, MaxLineLength, []);
    LineReader.ConsumesInput(body, MaxLineLength, []);
    LineReader.SuffixOfSuffix(trailer.rest, body, input);
    match PutPlan(a, before.input, before.nextID, now.build)
    case ExpectedCrlf(rest) =>
      assert rest == trailer.rest;
      var out := before.output + Line("EXPECTED_CRLF");
      assert out[..|before.output|] == before.output;
    case Insert(j, rest) =>
      assert rest == trailer.rest;
      var mid := before.(input := rest, nextID := Server.NextID(before.nextID));
      assert BodyEffect(before, a, now) == AddEffect(mid, j, now.add);
      AddAppends(mid, j, now.add);
  }

  /** Adding a job only appends to the output and reads nothing. */
  lemma AddAppends(before: Snapshot, j: Job, now: Time)
    ensures var after := AddEffect(before, j, now);
      && |before.output| <= |after.output| && after.output[..|before.output|] == before.output
      && after.input == before.input
  {
    var out := before.output + Line("INSERTED " + FormatUint(j.id));
    assert out[..|before.output|] == before.output;
  }

  /** The IDs registered so far all come before the generator's next one. */
  predicate IdsBelowNext(s: Snapshot) {
    forall id :: id in s.registry ==> id < s.nextID
  }

  /** A request takes at most one ID from the generator. While the
      generator has not wrapped around and every registered ID came from
      it, a `put` never finds its ID taken, so the process never exits. */
  lemma FreshIdsNeverCollide(before: Snapshot, now: Readings)
    ensures var after := Request(before, now);
      && (after.nextID == before.nextID || after.nextID == Server.NextID(before.nextID))
      && (IdsBelowNext(before) && before.nextID < MaxUint64 ==>
            after.exited == before.exited && IdsBelowNext(after))
  {
    var c := LineReader.CappedLoop(before.input, MaxLineLength, []);
    var next := before.(input := c.rest);
    if c.err.None? {
      HandlerTakesFreshId(next, CommandOf(Text(c.line)), now);
    }
  }

  lemma HandlerTakesFreshId(before: Snapshot, cmd: Command, now: Readings)
    ensures var after := HandlerEffect(before, cmd, now);
      && (after.nextID == before.nextID || after.nextID == Server.NextID(before.nextID))
      && (IdsBelowNext(before) && before.nextID < MaxUint64 ==>
            after.exited == before.exited && IdsBelowNext(after))
  {
    match cmd
    case Put(args) => PutTakesFreshId(before, args, now);
    case Delete(args) =>
    case Quit =>
    case Unknown =>
  }

  lemma PutTakesFreshId(before: Snapshot, args: seq<string>, now: Readings)
    ensures var after := PutEffect(before, args, now);
      && (after.nextID == before.nextID || after.nextID == Server.NextID(before.nextID))
      && (IdsBelowNext(before) && before.nextID < MaxUint64 ==>
            after.exited == before.exited && IdsBelowNext(after))
  {
    match PutArgsOf(args)
    case None =>
    case Some(a) =>
      match PutPlan(a, before.input, before.nextID, now.build)
      case ExpectedCrlf(_) =>
      case Insert(j, rest) =>
        var mid := before.(input := rest, nextID := Server.NextID(before.nextID));
        assert PutEffect(before, args, now) == AddEffect(mid, j, now.add);
        assert j.id == before.nextID;
  }

  /** The characters the commands are written in: lower-case letters,
      digits and spaces. */
  predicate CommandChars(t: string) {
    forall i :: 0 <= i < |t| ==> ('a' <= t[i] <= 'z' || IsDigit(t[i]) || t[i] == ' ')
  }

  /** Words of command characters joined by spaces are a command line
      below one more than the widest word per word. */
  lemma {:induction false} JoinedCommand(parts: seq<string>, width: nat)
    requires |parts| >= 1
    requires forall i :: 0 <= i < |parts| ==> CommandChars(parts[i]) && |parts[i]| <= width
    ensures CommandChars(Join(parts, ' ')) && |Join(parts, ' ')| < |parts| * (width + 1)
    decreases |parts|
  {
    if |parts| > 1 {
      JoinedCommand(parts[1..], width);
      var rest := Join(parts[1..], ' ');
      var t := parts[0] + [' '] + rest;
      assert Join(parts, ' ') == t;
      assert CommandChars(parts[0]);
      forall i | 0 <= i < |t|
        ensures 'a' <= t[i] <= 'z' || IsDigit(t[i]) || t[i] == ' '
      {
        if i > |parts[0]| {
          assert t[i] == rest[i - |parts[0]| - 1];
        }
      }
    }
  }

  /** The command line of a `put` with these numbers. */
  function PutCommand(a: PutArgs): (t: string)
    ensures CommandChars(t) && |t| <= MaxLineLength
  {
    var parts := ["put", FormatUint(a.pri), FormatUint(a.delay), FormatUint(a.ttr), FormatUint(a.nbytes)];
    FormatUint64Width(a.pri);
    FormatUint64Width(a.delay);
    FormatUint64Width(a.ttr);
    FormatUint64Width(a.nbytes);
    JoinedCommand(parts, 20);
    Join(parts, ' ')
  }

  const CRLF: seq<byte> := [LineReader.CR, LineReader.LF]

  /** A request whose command line ends in "\r\n" runs the handler the
      line names on the input after it. */
  lemma RequestOfLine(s: Snapshot, t: string, more: seq<byte>, now: Readings)
    requires CommandChars(t) && |t| <= MaxLineLength
    requires s.input == Bytes(t) + CRLF + more
    ensures Request(s, now) == HandlerEffect(s.(input := more), CommandOf(t), now)
  {
    var line := Bytes(t);
    assert LineReader.LF !in line by {
      forall i | 0 <= i < |line| ensures line[i] != LineReader.LF {
        assert line[i] == t[i] as int;
      }
    }
    LineReader.TerminatedLine(line, more, MaxLineLength);
    assert s.input == line + [LineReader.CR, LineReader.LF] + more;
  }

  /** The command line of a `put` selects `putHandler` with arguments
      that parse back to the same numbers. */
  lemma PutCommandSelectsPut(a: PutArgs)
    ensures CommandOf(PutCommand(a)).Put? && PutArgsOf(CommandOf(PutCommand(a)).args) == Some(a)
  {
    var words := [FormatUint(a.pri), FormatUint(a.delay), FormatUint(a.ttr), FormatUint(a.nbytes)];
    FormattedHasNoSpace(a.pri);
    FormattedHasNoSpace(a.delay);
    FormattedHasNoSpace(a.ttr);
    FormattedHasNoSpace(a.nbytes);
    assert ["put"] + words == ["put", FormatUint(a.pri), FormatUint(a.delay), FormatUint(a.ttr), FormatUint(a.nbytes)];
    CommandOfJoined("put", words);
    PutArgsRoundTrip(a);
  }

  /** A body of exactly `nbytes` bytes followed by "\r\n" is inserted
      as the new job's body, and reading stops after the "\r\n". */
  lemma BodyIsInserted(a: PutArgs, body: seq<byte>, more: seq<byte>, id: JobID, now: Time)
    requires |body| == a.nbytes
    ensures PutPlan(a, body + CRLF + more, id, now)
         == Insert(Server.BuiltJob(id, a.pri, now + Seconds(a.delay), Seconds(a.ttr), body), more)
  {
    var input := body + CRLF + more;
    assert input[|body|..] == [] + [LineReader.CR, LineReader.LF] + more;
    LineReader.TerminatedLine([], more, MaxLineLength);
    assert LineReader.Filled(input, a.nbytes) == body;
  }

  /** A well-formed `put` followed by exactly `nbytes` bytes of body and
      "\r\n" inserts a job with that body under the next ID, to run
      `delay` seconds from now. */
  lemma PutRequestIsInserted(s: Snapshot, a: PutArgs, body: seq<byte>, more: seq<byte>, now: Readings)
    requires |body| == a.nbytes
    requires s.input == Bytes(PutCommand(a)) + CRLF + body + CRLF + more
    ensures var j := Server.BuiltJob(s.nextID, a.pri, now.build + Seconds(a.delay), Seconds(a.ttr), body);
      Request(s, now) == AddEffect(s.(input := more, nextID := Server.NextID(s.nextID)), j, now.add)
  {
    var afterLine := body + CRLF + more;
    assert s.input == Bytes(PutCommand(a)) + CRLF + afterLine;
    RequestOfLine(s, PutCommand(a), afterLine, now);
    PutCommandSelectsPut(a);
    var next := s.(input := afterLine);
    assert Request(s, now) == BodyEffect(next, a, now);
    BodyEffectInserts(next, a, body, more, now);
    assert next.(input := more, nextID := Server.NextID(next.nextID))
        == s.(input := more, nextID := Server.NextID(s.nextID));
  }

  /** A body of exactly `nbytes` bytes followed by "\r\n" is added as a
      job stamped with the first reading of the clock, under the store's
      reading. */
  lemma BodyEffectInserts(before: Snapshot, a: PutArgs, body: seq<byte>, more: seq<byte>, now: Readings)
    requires |body| == a.nbytes && before.input == body + CRLF + more
    ensures var j := Server.BuiltJob(before.nextID, a.pri, now.build + Seconds(a.delay), Seconds(a.ttr), body);
      BodyEffect(before, a, now) == AddEffect(before.(input := more, nextID := Server.NextID(before.nextID)), j, now.add)
  {
    BodyIsInserted(a, body, more, before.nextID, now.build);
  }

  /** The command line of a `delete` of `id`. */
  function DeleteCommand(id: JobID): (t: string)
    ensures CommandChars(t) && |t| <= MaxLineLength
  {
    FormatUint64Width(id);
    JoinedCommand(["delete", FormatUint(id)], 20);
    Join(["delete", FormatUint(id)], ' ')
  }

  /** A `delete` of the ID an INSERTED reply named deletes that job:
      DELETED when it is registered, NOT_FOUND otherwise. */
  lemma DeleteRequestDeletes(s: Snapshot, id: JobID, more: seq<byte>, now: Readings)
    requires s.input == Bytes(DeleteCommand(id)) + CRLF + more
    ensures var r := Request(s, now);
      if id in s.registry then
        r.output == s.output + Line("DELETED") && r.registry == s.registry - {id} && id !in r.readyIds + r.delayIds
      else
        r.output == s.output + Line("NOT_FOUND") && r.registry == s.registry
  {
    DeleteLineSelectsDelete(s, id, more, now);
  }

  /** The request runs `deleteHandler` on the ID and the input after the
      line. */
  lemma DeleteLineSelectsDelete(s: Snapshot, id: JobID, more: seq<byte>, now: Readings)
    requires s.input == Bytes(DeleteCommand(id)) + CRLF + more
    ensures Request(s, now) == DeleteIdEffect(s.(input := more), id)
  {
    RequestOfLine(s, DeleteCommand(id), more, now);
    DeleteCommandSelectsDelete(id);
  }

  /** The command line of a `delete` selects `deleteHandler` with an
      argument that parses back to the ID. */
  lemma DeleteCommandSelectsDelete(id: JobID)
    ensures CommandOf(DeleteCommand(id)).Delete? && DeleteArgOf(CommandOf(DeleteCommand(id)).args) == Some(id)
  {
    FormattedHasNoSpace(id);
    assert ["delete"] + [FormatUint(id)] == ["delete", FormatUint(id)];
    CommandOfJoined("delete", [FormatUint(id)]);
    DeleteArgRoundTrip(id);
  }

  /** A new connection to an empty server that has not yet given out an
      ID. */
  function Fresh(input: seq<byte>): Snapshot {
    Snapshot(input, "", 1, map[], {}, {}, false, false)
  }

  /** At the end of the input the connection closes. */
  lemma EndOfInputCloses(s: Snapshot, clock: nat -> Readings, k: nat)
    requires s.input == []
    ensures Request(s, clock(k)) == s.(closed := true)
    ensures Session(s, clock, k) == s.(closed := true)
  {
    assert LineReader.CappedLoop([], MaxLineLength, []) == LineReader.Capped([], Some(LineReader.EOF), []);
  }

  /** A session is its first request, followed by the rest of the session
      when that request leaves the connection open. */
  lemma SessionUnfolds(s: Snapshot, clock: nat -> Readings, k: nat)
    ensures Request(s, clock(k)).closed ==> Session(s, clock, k) == Request(s, clock(k))
    ensures !Request(s, clock(k)).closed ==> Session(s, clock, k) == Session(Request(s, clock(k)), clock, k + 1)
  {
  }

  /** A `put` of "hello" to run at once with a 10 second time to run. */
  const HelloPut: PutArgs := PutArgs(0, 0, 10, 5)
  const Hello: seq<byte> := [104, 101, 108, 108, 111]

  /** Its request: the command line, the body and the empty line. */
  function HelloRequest(): seq<byte> {
    Bytes(PutCommand(HelloPut)) + CRLF + Hello + CRLF
  }

  /** The command line the client writes, "put 0 0 10 5". */
  lemma HelloPutLine()
    ensures PutCommand(HelloPut) == "put 0 0 10 5"
  {
    assert FormatUint(0) == "0" && FormatUint(10) == "10" && FormatUint(5) == "5";
  }

  /** When the next ID is free, a well-formed `put` is inserted under it,
      the reply names it, and the connection stays open. */
  lemma PutIsInsertedUnderNextId(s: Snapshot, a: PutArgs, body: seq<byte>, more: seq<byte>, now: Readings)
    requires |body| == a.nbytes
    requires s.input == Bytes(PutCommand(a)) + CRLF + body + CRLF + more
    requires s.nextID !in s.registry && s.nextID < MaxUint64
    ensures var t := Request(s, now);
      && t.output == s.output + Line("INSERTED " + FormatUint(s.nextID))
      && t.input == more && t.nextID == s.nextID + 1 && t.closed == s.closed
      && t.registry.Keys == s.registry.Keys + {s.nextID}
  {
    PutRequestIsInserted(s, a, body, more, now);
    var j := Server.BuiltJob(s.nextID, a.pri, now.build + Seconds(a.delay), Seconds(a.ttr), body);
    AddEffectInserts(s.(input := more, nextID := Server.NextID(s.nextID)), j, now.add);
  }

  /** A well-formed `put` to run at once is queued as ready exactly when
      the store's reading of the clock is later than the reading the job
      was stamped with, and as delayed otherwise: two equal readings
      leave it delayed. */
  lemma PutAtOnceIsReadyWhenClockAdvanced(s: Snapshot, a: PutArgs, body: seq<byte>, more: seq<byte>, now: Readings)
    requires a.delay == 0 && |body| == a.nbytes
    requires s.input == Bytes(PutCommand(a)) + CRLF + body + CRLF + more
    requires s.nextID !in s.registry && Consistent(s)
    ensures var t := Request(s, now);
      && (s.nextID in t.readyIds <==> now.build < now.add)
      && (s.nextID in t.delayIds <==> now.add <= now.build)
  {
    PutRequestIsInserted(s, a, body, more, now);
  }

  /** `put 0 0 10 5` on a fresh connection queues its job as ready
      exactly when the store's reading of the clock is later than the
      one that stamped the job; otherwise the job waits in the delay
      queue. */
  lemma HelloIsReadyOnceClockMoves(now: Readings)
    ensures var t := Request(Fresh(HelloRequest()), now);
      && (now.build < now.add ==> t.readyIds == {1} && t.delayIds == {})
      && (now.add <= now.build ==> t.readyIds == {} && t.delayIds == {1})
  {
    var s0 := Fresh(HelloRequest());
    assert s0.input == Bytes(PutCommand(HelloPut)) + CRLF + Hello + CRLF + [];
    PutAtOnceIsReadyWhenClockAdvanced(s0, HelloPut, Hello, [], now);
    PutRequestIsInserted(s0, HelloPut, Hello, [], now);
  }

  /** Adding a job under a free ID registers it and names it in the
      reply. */
  lemma AddEffectInserts(before: Snapshot, j: Job, now: Time)
    requires j.id !in before.registry
    ensures var t := AddEffect(before, j, now);
      && t.output == before.output + Line("INSERTED " + FormatUint(j.id))
      && t.input == before.input && t.nextID == before.nextID && t.closed == before.closed
      && t.registry.Keys == before.registry.Keys + {j.id}
  {
  }

  /** The first `put` of "hello" on a new connection gets ID 1. */
  lemma FirstHelloGetsOne(more: seq<byte>, now: Readings)
    ensures var t := Request(Fresh(HelloRequest() + more), now);
      && t.output == Line("INSERTED 1") && t.input == more && t.nextID == 2
      && !t.closed && t.registry.Keys == {1}
  {
    var s0 := Fresh(HelloRequest() + more);
    assert s0.input == Bytes(PutCommand(HelloPut)) + CRLF + Hello + CRLF + more;
    assert 1 !in s0.registry;
    PutIsInsertedUnderNextId(s0, HelloPut, Hello, more, now);
    assert "" + Line("INSERTED " + FormatUint(1)) == Line("INSERTED 1") by {
      assert FormatUint(1) == "1";
    }
  }

  /** A second `put` of "hello" after it gets ID 2. */
  lemma SecondHelloGetsTwo(s: Snapshot, now: Readings)
    requires s.input == HelloRequest() && s.output == Line("INSERTED 1")
    requires s.nextID == 2 && !s.closed && s.registry.Keys == {1}
    ensures var t := Request(s, now);
      && t.output == Line("INSERTED 1") + Line("INSERTED 2") && t.input == [] && t.nextID == 3
      && !t.closed
  {
    assert s.input == HelloRequest() + [];
    assert 2 !in s.registry.Keys;
    PutIsInsertedUnderNextId(s, HelloPut, Hello, [], now);
    assert "INSERTED " + FormatUint(2) == "INSERTED 2" by {
      assert FormatUint(2) == "2";
    }
  }

  /** net_test's `TestJobIdIsIncreased`: two puts of "hello" on a new
      connection are answered INSERTED 1 and INSERTED 2, and the
      connection is then closed at the end of the input. */
  lemma TwoPutsGetIdsOneAndTwo(clock: nat -> Readings)
    ensures var r := Session(Fresh(HelloRequest() + HelloRequest()), clock, 0);
      r.output == Line("INSERTED 1") + Line("INSERTED 2") && r.closed && r.nextID == 3
  {
    var s0 := Fresh(HelloRequest() + HelloRequest());
    FirstHelloGetsOne(HelloRequest(), clock(0));
    var s1 := Request(s0, clock(0));
    SecondHelloGetsTwo(s1, clock(1));
    var s2 := Request(s1, clock(1));
    SessionUnfolds(s0, clock, 0);
    SessionUnfolds(s1, clock, 1);
    EndOfInputCloses(s2, clock, 2);
    var r := Session(s0, clock, 0);
    assert r.output == s2.output;
  }

  /** A session of one request that leaves the connection open and
      consumes all of the input ends with its state, closed. */
  lemma OneRequestSession(s: Snapshot, clock: nat -> Readings, k: nat)
    requires !Request(s, clock(k)).closed && Request(s, clock(k)).input == []
    ensures Session(s, clock, k) == Request(s, clock(k)).(closed := true)
  {
    SessionUnfolds(s, clock, k);
    EndOfInputCloses(Request(s, clock(k)), clock, k + 1);
  }

  /** Words of command characters, none longer than 20, joined by
      spaces: a command line within the cap that `CommandOfJoined` can
      take apart. */
  predicate ShortWords(words: seq<string>) {
    forall i :: 0 <= i < |words| ==> CommandChars(words[i]) && ' ' !in words[i] && |words[i]| <= 20
  }

  lemma ShortWordsLine(name: string, args: seq<string>)
    requires |args| < 40 && ShortWords([name] + args)
    ensures CommandChars(Join([name] + args, ' ')) && |Join([name] + args, ' ')| <= MaxLineLength
    ensures ' ' !in name && forall i :: 0 <= i < |args| ==> ' ' !in args[i]
  {
    var parts := [name] + args;
    JoinedCommand(parts, 20);
    assert parts[0] == name;
    forall i | 0 <= i < |args| ensures ' ' !in args[i] {
      assert parts[i + 1] == args[i];
    }
  }

  /** A new connection whose only input is one command line runs that
      line's handler on an empty input; a handler that leaves the
      connection open is followed by the close at the end of the input. */
  lemma SingleLineSession(t: string, clock: nat -> Readings)
    requires CommandChars(t) && |t| <= MaxLineLength
    requires !HandlerEffect(Fresh([]), CommandOf(t), clock(0)).closed
    requires HandlerEffect(Fresh([]), CommandOf(t), clock(0)).input == []
    ensures Session(Fresh(Bytes(t) + CRLF), clock, 0) == HandlerEffect(Fresh([]), CommandOf(t), clock(0)).(closed := true)
  {
    var s := Fresh(Bytes(t) + CRLF);
    assert s.input == Bytes(t) + CRLF + [];
    RequestOfLine(s, t, [], clock(0));
    assert s.(input := []) == Fresh([]);
    OneRequestSession(s, clock, 0);
  }

  /** net_test's `TestPutWithBadFormat`: a `put` line with fewer than
      four arguments ("put 0 0 10", "put 0 0", "put 0", "put") is
      answered BAD_FORMAT, and nothing is stored. */
  lemma PutWithTooFewArgs(args: seq<string>, clock: nat -> Readings)
    requires |args| < 4 && ShortWords(["put"] + args)
    ensures CommandChars(Join(["put"] + args, ' ')) && |Join(["put"] + args, ' ')| <= MaxLineLength
    ensures var r := Session(Fresh(Bytes(Join(["put"] + args, ' ')) + CRLF), clock, 0);
      r.output == Line("BAD_FORMAT") && r.closed && r.registry == map[]
  {
    ShortWordsLine("put", args);
    CommandOfJoined("put", args);
    SingleLineSession(Join(["put"] + args, ' '), clock);
  }

  /** A line of command characters whose first word names no command is
      answered UNKNOWN_COMMAND, and nothing is stored. */
  lemma UnknownCommandIsAnswered(name: string, args: seq<string>, clock: nat -> Readings)
    requires name !in {"quit", "put", "delete"}
    requires |args| < 40 && ShortWords([name] + args)
    ensures CommandChars(Join([name] + args, ' ')) && |Join([name] + args, ' ')| <= MaxLineLength
    ensures var r := Session(Fresh(Bytes(Join([name] + args, ' ')) + CRLF), clock, 0);
      r.output == Line("UNKNOWN_COMMAND") && r.closed && r.registry == map[]
  {
    ShortWordsLine(name, args);
    CommandOfJoined(name, args);
    SingleLineSession(Join([name] + args, ' '), clock);
  }

  /** net_test's `TestUnknownCommand`: "this is a test" is answered
      UNKNOWN_COMMAND. */
  lemma ThisIsATestIsUnknown(clock: nat -> Readings)
    ensures var r := Session(Fresh(Bytes(Join(["this", "is", "a", "test"], ' ')) + CRLF), clock, 0);
      r.output == Line("UNKNOWN_COMMAND") && r.closed
  {
    assert ["this"] + ["is", "a", "test"] == ["this", "is", "a", "test"];
    UnknownCommandIsAnswered("this", ["is", "a", "test"], clock);
  }

  /** net_test's `TestQuitCommand`: `quit` closes the connection without
      a reply, and whatever follows it is never read. */
  lemma QuitEndsSession(more: seq<byte>, clock: nat -> Readings)
    ensures var r := Session(Fresh(Bytes("quit") + CRLF + more), clock, 0);
      r.output == "" && r.closed && r.input == more
  {
    var s := Fresh(Bytes("quit") + CRLF + more);
    RequestOfLine(s, "quit", more, clock(0));
    QuitLineSelectsQuit();
    SessionUnfolds(s, clock, 0);
  }

  /** The line "quit" selects `quitHandler`. */
  lemma QuitLineSelectsQuit()
    ensures CommandOf("quit") == Quit
  {
    assert Join(["quit"] + [], ' ') == "quit";
    CommandOfJoined("quit", []);
  }

  /** net_test's `TestPut`: one `put` of "hello" is answered INSERTED 1. */
  lemma OnePutGetsIdOne(clock: nat -> Readings)
    ensures var r := Session(Fresh(HelloRequest()), clock, 0);
      r.output == Line("INSERTED 1") && r.closed && r.registry.Keys == {1}
  {
    assert HelloRequest() + [] == HelloRequest();
    FirstHelloGetsOne([], clock(0));
    OneRequestSession(Fresh(HelloRequest()), clock, 0);
  }

  /** `handleSingleRequest` with the command line read by net/io.go's
      `readCappedLine` as written, which drops the loop's error: the line
      read is handled even at the end of the input or past the cap. Only
      the command line is read this way; the put trailer and the
      arguments still go through the corrected reader and parser of
      `AfterLine`. */
  function RequestAsWritten(before: Snapshot, now: Readings): Snapshot {
    AfterLine(before, LineReader.CappedLoop(before.input, MaxLineLength, []).(err := None), now)
  }

  /** With the reader as written, a request at the end of the input reads
      an empty line, answers UNKNOWN_COMMAND and leaves the connection
      open with nothing consumed, so `Handle` never returns and writes
      UNKNOWN_COMMAND forever; `EndOfInputCloses` is the corrected
      behaviour. */
  lemma EndOfInputLoopsAsWritten(s: Snapshot, now: Readings)
    requires s.input == []
    ensures RequestAsWritten(s, now) == s.(output := s.output + Line("UNKNOWN_COMMAND"))
  {
    assert LineReader.CappedLoop([], MaxLineLength, []) == LineReader.Capped([], Some(LineReader.EOF), []);
    assert Text([]) == "";
    assert Split("", ' ') == [""];
  }

  /** `connectionHandler`: the server it serves, the connection's reader,
      the output written so far, and whether the connection has been
      closed. */
  class ConnectionHandler {
    const server: Server.Server
    const conn: LineReader.Reader
    var output: string
    /** Whether `CloseConnection` has been called. */
    var closed: bool
    /** Whether the handler has called `log.Fatalln`, ending the process. */
    var exited: bool

    ghost predicate Valid()
      reads this, server, server.storage, server.storage.jobs, server.storage.readyQueue, server.storage.delayQueue
    {
      server.Valid()
    }

    /** What this handler and its server look like, as a value. */
    ghost function Snap(): Snapshot
      reads this, conn, server, server.storage.jobs, server.storage.readyQueue, server.storage.delayQueue
    {
      Snapshot(conn.input, output, server.nextID, server.storage.jobs.jobs,
               server.storage.readyQueue.Ids(), server.storage.delayQueue.Ids(), closed, exited)
    }

    /** A handler for a new connection. */
    constructor (s: Server.Server, c: LineReader.Reader)
      requires s.Valid()
      ensures Valid() && server == s && conn == c
      ensures output == "" && !closed && !exited
    {
      server := s;
      conn := c;
      output := "";
      closed := false;
      exited := false;
    }

    /** `quitHandler`. */
    method QuitHandler()
      modifies this
      ensures output == old(output) && closed && exited == old(exited)
    {
      closed := true;
    }

    /** `unknownCommandHandler`. */
    method UnknownCommandHandler()
      modifies this
      ensures output == old(output) + Line("UNKNOWN_COMMAND")
      ensures closed == old(closed) && exited == old(exited)
    {
      output := output + Line("UNKNOWN_COMMAND");
    }

    /** `putHandler`. */
    method PutHandler(args: seq<string>, now: Readings)
      requires Valid()
      modifies this, conn, server, server.storage.jobs, server.storage.readyQueue, server.storage.delayQueue
      ensures Valid()
      ensures Snap() == PutEffect(old(Snap()), args, now)
    {
      if |args| != 4 {
        output := output + Line("BAD_FORMAT");
        return;
      }
      var a, err := ParsePutArgs(args);
      if err.Some? {
        output := output + Line("BAD_FORMAT");
        return;
      }
      ReadBodyAndAdd(a, now);
    }

    /** The part of `putHandler` after its arguments are parsed: read the
        body and the empty line after it, then build and add the job. */
    method ReadBodyAndAdd(a: PutArgs, now: Readings)
      requires Valid()
      modifies this, conn, server, server.storage.jobs, server.storage.readyQueue, server.storage.delayQueue
      ensures Valid()
      ensures Snap() == BodyEffect(old(Snap()), a, now)
    {
      ghost var before := Snap();
      ghost var plan := PutPlan(a, before.input, before.nextID, now.build);
      var data, ok := ReadBody(conn, a.nbytes);
      assert Snap() == before.(input := plan.rest);
      if !ok {
        output := output + Line("EXPECTED_CRLF");
        return;
      }
      var job := server.BuildJob(a.pri, now.build + Seconds(a.delay), Seconds(a.ttr), data);
      assert job == plan.job;
      assert Snap() == before.(input := plan.rest, nextID := Server.NextID(before.nextID));
      AddAndReply(job, now.add);
    }

    /** The reads of `putHandler`: `nbytes` bytes of body, then a capped
        line that must be empty. */
    static method ReadBody(conn: LineReader.Reader, nbytes: nat) returns (data: seq<byte>, ok: bool)
      modifies conn
      ensures data == LineReader.Filled(old(conn.input), nbytes)
      ensures var t := LineReader.CappedLoop(old(conn.input)[LineReader.Min(nbytes, |old(conn.input)|)..], MaxLineLength, []);
        conn.input == t.rest && (ok <==> t.err.None? && |t.line| == 0)
    {
      data := conn.ReadFull(nbytes);
      var additional, err := LineReader.ReadCappedLine(conn, MaxLineLength);
      ok := err.None? && |additional| == 0;
    }

    /** The end of `putHandler`: `Add`, then the reply. */
    method AddAndReply(job: Job, now: Time)
      requires Valid()
      modifies this, server.storage.jobs, server.storage.readyQueue, server.storage.delayQueue
      ensures Valid()
      ensures Snap() == AddEffect(old(Snap()), job, now)
    {
      var added := AddToStore(job, now);
      if !added {
        exited, closed := true, true;
        return;
      }
      output := output + Line("INSERTED " + FormatUint(job.id));
    }

    /** The server's `Add`, seen on the snapshot. */
    method AddToStore(job: Job, now: Time) returns (added: bool)
      requires Valid()
      modifies server.storage.jobs, server.storage.readyQueue, server.storage.delayQueue
      ensures Valid()
      ensures added <==> job.id !in old(Snap()).registry
      ensures added ==> Snap() == AddEffect(old(Snap()), job, now).(output := old(output))
      ensures !added ==> Snap() == old(Snap())
    {
      var r := server.Add(job, now);
      added := r == Ok;
    }

    /** `deleteHandler`. */
    method DeleteHandler(args: seq<string>)
      requires Valid()
      modifies this, server.storage.jobs, server.storage.readyQueue, server.storage.delayQueue
      ensures Valid()
      ensures Snap() == DeleteEffect(old(Snap()), args)
    {
      if |args| != 1 {
        output := output + Line("BAD_FORMAT");
        return;
      }
      var p := new IntegerParser();
      var id := p.Parse(args[0]);
      if p.err.Some? {
        output := output + Line("BAD_FORMAT");
        return;
      }
      DeleteAndReply(id);
      assert DeleteArgOf(args) == Some(id);
    }

    /** The end of `deleteHandler`: `Delete`, then the reply. */
    method DeleteAndReply(id: JobID)
      requires Valid()
      modifies this, server.storage.jobs, server.storage.readyQueue, server.storage.delayQueue
      ensures Valid()
      ensures Snap() == DeleteIdEffect(old(Snap()), id)
    {
      ghost var before := Snap();
      var r := server.DeleteByID(id);
      if r != Ok {
        assert Snap() == before;
        output := output + Line("NOT_FOUND");
        return;
      }
      assert Snap() == DeleteIdEffect(before, id).(output := before.output);
      output := output + Line("DELETED");
    }

    /** `handleSingleRequest`. */
    method HandleSingleRequest(now: Readings)
      requires Valid()
      modifies this, conn, server, server.storage.jobs, server.storage.readyQueue, server.storage.delayQueue
      ensures Valid()
      ensures Snap() == Request(old(Snap()), now)
    {
      ghost var before := Snap();
      var line, err := ReadCommandLine(conn);
      assert Request(before, now) == AfterLine(before, LineReader.Capped(line, err, conn.input), now);
      ghost var next := before.(input := conn.input);
      assert Snap() == next;
      if err.Some? {
        closed := true;
        return;
      }
      RunHandler(CommandOf(Text(line)), now);
    }

    /** The read of `handleSingleRequest`: a line of at most
        `MaxLineLength` bytes. */
    static method ReadCommandLine(conn: LineReader.Reader) returns (line: seq<byte>, err: Option<LineReader.ReadError>)
      modifies conn
      ensures LineReader.Capped(line, err, conn.input) == LineReader.CappedLoop(old(conn.input), MaxLineLength, [])
    {
      line, err := LineReader.ReadCappedLine(conn, MaxLineLength);
    }

    /** The handler `handleSingleRequest` picks for a command line. */
    method RunHandler(cmd: Command, now: Readings)
      requires Valid()
      modifies this, conn, server, server.storage.jobs, server.storage.readyQueue, server.storage.delayQueue
      ensures Valid()
      ensures Snap() == HandlerEffect(old(Snap()), cmd, now)
    {
      match cmd
      case Quit => QuitHandler();
      case Put(args) => PutHandler(args, now);
      case Delete(args) => DeleteHandler(args);
      case Unknown => UnknownCommandHandler();
    }

    /** `Handle`: serves requests until one closes the connection;
        request `k` reads the clock as `clock(k)`. */
    method Handle(clock: nat -> Readings)
      requires Valid() && !closed
      modifies this, conn, server, server.storage.jobs, server.storage.readyQueue, server.storage.delayQueue
      ensures Valid() && closed
      ensures Snap() == Session(old(Snap()), clock, 0)
    {
      var k := 0;
      while true
        invariant Valid() && !closed
        invariant Session(Snap(), clock, k) == Session(old(Snap()), clock, 0)
        decreases |conn.input|
      {
        ghost var before := Snap();
        HandleSingleRequest(clock(k));
        RequestProgresses(before, clock(k));
        if closed {
          return;
        }
        k := k + 1;
      }
    }
  }
}
