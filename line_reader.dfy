/** The connection's input (net/io.go): a buffered reader over the bytes
    still to arrive, its `ReadLine` and `io.ReadFull`, and
    `readCappedLine`, which joins `ReadLine` fragments into one line under
    a length cap. `ReadLine` follows the documented behaviour of Go's
    `bufio.Reader` with the default buffer of 4096 bytes. */
module LineReader {
  import opened Entity

  /** `bufio.NewReader`'s default buffer size, used by `textproto.NewConn`. */
  const BufferSize: nat := 4096

  const LF: byte := 10
  const CR: byte := 13

  /** `io.EOF`, and `errLineTooLong`. */
  datatype ReadError = EOF | LineTooLong

  /** One `ReadLine` result (fragment, isPrefix flag, error) and the bytes
      left after it. */
  datatype LineRead = LineRead(fragment: seq<byte>, more: bool, err: Option<ReadError>, rest: seq<byte>)

  /** What `readCappedLine`'s loop ends with: the bytes it joined, the
      error it stopped on, and the bytes left. */
  datatype Capped = Capped(line: seq<byte>, err: Option<ReadError>, rest: seq<byte>)

  function Min(a: nat, b: nat): nat {
    if a < b then a else b
  }

  /** `t` is what is left of `s` after reading some of it. */
  predicate IsSuffix(t: seq<byte>, s: seq<byte>) {
    |t| <= |s| && t == s[|s| - |t|..]
  }

  /** What is left of what is left is left of the whole. */
  lemma SuffixOfSuffix(u: seq<byte>, t: seq<byte>, s: seq<byte>)
    requires IsSuffix(u, t) && IsSuffix(t, s)
    ensures IsSuffix(u, s)
  {
    assert t[|t| - |u|..] == s[|s| - |u|..];
  }

  /** The first position of `b` in `s`, or `|s|` when there is none. */
  function IndexOf(s: seq<byte>, b: byte): (i: nat)
    ensures i <= |s|
    ensures i < |s| ==> s[i] == b
    ensures forall k :: 0 <= k < i ==> s[k] != b
  {
    if |s| == 0 then 0
    else if s[0] == b then 0
    else 1 + IndexOf(s[1..], b)
  }

  /** `bufio.Reader.ReadLine`: the next line without its "\n" or "\r\n";
      when no line end fits in the buffer, the first buffer-full of bytes
      with `more` set (keeping back a final "\r", which may start a
      "\r\n"); the unterminated remainder at the end of the input; and
      `io.EOF` when nothing is left. */
  function NextLine(input: seq<byte>): (r: LineRead)
    ensures r.err.Some? <==> |input| == 0
    ensures r.err.Some? ==> r.err == Some(EOF) && r.fragment == [] && !r.more && r.rest == input
    ensures r.err.None? ==> |r.rest| < |input| && |r.fragment| <= BufferSize
    ensures |r.fragment| <= |input| && r.fragment == input[..|r.fragment|]
    ensures LF !in r.fragment
    ensures r.more ==> 0 < |r.fragment| && input == r.fragment + r.rest
    ensures IsSuffix(r.rest, input)
  {
    if |input| == 0 then LineRead([], false, Some(EOF), input)
    else
      var window := input[..Min(BufferSize, |input|)];
      var i := IndexOf(window, LF);
      if i < |window| then
        var n := if 0 < i && input[i - 1] == CR then i - 1 else i;
        assert forall k :: 0 <= k < n ==> input[..n][k] == window[k] != LF;
        LineRead(input[..n], false, None, input[i + 1..])
      else if |input| >= BufferSize then
        var cut := if input[BufferSize - 1] == CR then BufferSize - 1 else BufferSize;
        assert forall k :: 0 <= k < cut ==> input[..cut][k] == window[k] != LF;
        assert input == input[..cut] + input[cut..];
        LineRead(input[..cut], true, None, input[cut..])
      else
        assert window == input;
        LineRead(input, false, None, [])
  }

  /** The loop of `readCappedLine` from the bytes `acc` joined so far: read
      a fragment; stop on a read error without it; append it; stop with
      `LineTooLong` once more than `max` bytes are joined; stop after the
      last fragment of the line. */
  function CappedLoop(input: seq<byte>, max: int, acc: seq<byte>): (r: Capped)
    decreases |input|
  {
    var l := NextLine(input);
    if l.err.Some? then Capped(acc, l.err, l.rest)
    else if |acc + l.fragment| > max then Capped(acc + l.fragment, Some(LineTooLong), l.rest)
    else if !l.more then Capped(acc + l.fragment, None, l.rest)
    else CappedLoop(l.rest, max, acc + l.fragment)
  }

  /** The loop goes on after the first fragment: no error, within the
      cap, and the line continues. */
  predicate Continues(input: seq<byte>, max: int, acc: seq<byte>) {
    var l := NextLine(input);
    l.err.None? && |acc + l.fragment| <= max && l.more
  }

  /** `line` is `acc` followed by a prefix of `input`. */
  predicate LinePrefix(line: seq<byte>, acc: seq<byte>, input: seq<byte>) {
    |acc| <= |line| <= |acc| + |input| && line == acc + input[..|line| - |acc|]
  }

  /** The loop joins the start of the input read from where it began:
      the line is `acc` followed by a prefix of the input. */
  lemma {:induction false} CappedLineIsLinePrefix(input: seq<byte>, max: int, acc: seq<byte>)
    ensures LinePrefix(CappedLoop(input, max, acc).line, acc, input)
    decreases |input|, 1
  {
    var l := NextLine(input);
    if Continues(input, max, acc) {
      ContinuedLineIsLinePrefix(input, max, acc);
    } else if l.err.Some? {
      assert CappedLoop(input, max, acc).line == acc;
      assert acc + input[..0] == acc;
    } else {
      assert CappedLoop(input, max, acc).line == acc + l.fragment;
      assert l.fragment == input[..|l.fragment|];
    }
  }

  lemma {:induction false} ContinuedLineIsLinePrefix(input: seq<byte>, max: int, acc: seq<byte>)
    requires Continues(input, max, acc)
    ensures LinePrefix(CappedLoop(input, max, acc).line, acc, input)
    decreases |input|, 0
  {
    var l := NextLine(input);
    LoopGoesOn(input, max, acc);
    CappedLineIsLinePrefix(l.rest, max, acc + l.fragment);
    PrefixAfterStep(acc, l.fragment, l.rest, input, CappedLoop(l.rest, max, acc + l.fragment).line);
  }

  /** The loop goes on with the rest of the input after the first
      fragment, which it has appended. */
  lemma LoopGoesOn(input: seq<byte>, max: int, acc: seq<byte>)
    requires Continues(input, max, acc)
    ensures var l := NextLine(input);
      CappedLoop(input, max, acc) == CappedLoop(l.rest, max, acc + l.fragment) && input == l.fragment + l.rest
  {
  }

  /** A line that is `acc` and `frag` followed by a prefix of `rest` is
      `acc` followed by a prefix of `frag + rest`. */
  lemma PrefixAfterStep(acc: seq<byte>, frag: seq<byte>, rest: seq<byte>, input: seq<byte>, line: seq<byte>)
    requires input == frag + rest
    requires LinePrefix(line, acc + frag, rest)
    ensures LinePrefix(line, acc, input)
  {
    JoinedTail(acc, frag, rest, |line| - |acc + frag|);
  }

  /** One step of a loop that goes on: the first fragment is appended,
      and it is the start of the input. */
  lemma ContinuedStep(input: seq<byte>, max: int, acc: seq<byte>)
    requires Continues(input, max, acc)
    ensures var l := NextLine(input);
      && CappedLoop(input, max, acc) == CappedLoop(l.rest, max, acc + l.fragment)
      && input == l.fragment + l.rest && LF !in l.fragment
  {
  }

  /** The loop never joins a line feed: the line is at most the input's
      first line. */
  lemma {:induction false} CappedLineHasNoLineFeed(input: seq<byte>, max: int, acc: seq<byte>)
    ensures var r := CappedLoop(input, max, acc);
      |acc| <= |r.line| && LF !in r.line[|acc|..]
    decreases |input|, 1
  {
    var l := NextLine(input);
    if Continues(input, max, acc) {
      ContinuedLineHasNoLineFeed(input, max, acc);
    } else if l.err.None? {
      assert CappedLoop(input, max, acc).line == acc + l.fragment;
      assert (acc + l.fragment)[|acc|..] == l.fragment;
    }
  }

  lemma {:induction false} ContinuedLineHasNoLineFeed(input: seq<byte>, max: int, acc: seq<byte>)
    requires Continues(input, max, acc)
    ensures var r := CappedLoop(input, max, acc);
      |acc| <= |r.line| && LF !in r.line[|acc|..]
    decreases |input|, 0
  {
    var l := NextLine(input);
    ContinuedStep(input, max, acc);
    var acc' := acc + l.fragment;
    var r := CappedLoop(l.rest, max, acc');
    CappedLineHasNoLineFeed(l.rest, max, acc');
    CappedLineIsLinePrefix(l.rest, max, acc');
    NoLineFeedAfter(acc, l.fragment, r.line);
  }

  /** A line that starts with `acc` and `frag` and has no line feed after
      them has none after `acc` when `frag` has none. */
  lemma NoLineFeedAfter(acc: seq<byte>, frag: seq<byte>, line: seq<byte>)
    requires |acc + frag| <= |line| && line[..|acc + frag|] == acc + frag
    requires LF !in frag && LF !in line[|acc + frag|..]
    ensures LF !in line[|acc|..]
  {
    assert line[|acc|..] == frag + line[|acc + frag|..];
  }

  /** Joining `acc`, then `frag`, then the first `m` bytes of `rest`. */
  lemma JoinedTail(acc: seq<byte>, frag: seq<byte>, rest: seq<byte>, m: nat)
    requires m <= |rest|
    ensures (acc + frag) + rest[..m] == acc + (frag + rest)[..|frag| + m]
    ensures ((acc + frag) + rest[..m])[|acc|..] == frag + rest[..m]
  {
    assert (frag + rest)[..|frag| + m] == frag + rest[..m];
  }

  /** The cap: with no error the line is at most `max` bytes; with
      `LineTooLong` it is longer, but by at most one buffer-full, so the
      loop never holds much more than `max` bytes. */
  lemma {:induction false} CappedLineBounded(input: seq<byte>, max: nat, acc: seq<byte>)
    requires |acc| <= max
    ensures var r := CappedLoop(input, max, acc);
      && (r.err == Some(LineTooLong) <==> |r.line| > max)
      && |r.line| <= max + BufferSize
    decreases |input|
  {
    var l := NextLine(input);
    if l.err.None? && |acc + l.fragment| <= max && l.more {
      CappedLineBounded(l.rest, max, acc + l.fragment);
    }
  }

  /** The loop stops at the first fragment that ends its line. */
  lemma StopsAtLineEnd(input: seq<byte>, max: int)
    requires var l := NextLine(input); l.err.None? && !l.more && |l.fragment| <= max
    ensures CappedLoop(input, max, []) == Capped(NextLine(input).fragment, None, NextLine(input).rest)
  {
  }

  /** A line ended by "\r\n" well inside the buffer is read whole, and
      the loop returns it when it is within the cap. */
  lemma TerminatedLine(line: seq<byte>, more: seq<byte>, max: int)
    requires LF !in line && |line| + 2 <= BufferSize && |line| <= max
    ensures NextLine(line + [CR, LF] + more) == LineRead(line, false, None, more)
    ensures CappedLoop(line + [CR, LF] + more, max, []) == Capped(line, None, more)
  {
    var input := line + [CR, LF] + more;
    var window := input[..Min(BufferSize, |input|)];
    var i := IndexOf(window, LF);
    assert window[|line| + 1] == LF;
    assert window[|line|] == CR;
    assert forall k :: 0 <= k < |line| ==> window[k] == line[k];
    assert i == |line| + 1;
    assert input[..|line|] == line;
    assert input[|line| + 2..] == more;
    assert [] + line == line;
  }

  /** A read error ends the loop at once, keeping what was joined. */
  lemma ErrorStopsWithoutAppending(input: seq<byte>, max: int, acc: seq<byte>)
    requires NextLine(input).err.Some?
    ensures CappedLoop(input, max, acc) == Capped(acc, Some(EOF), input)
  {
  }

  /** A zeroed buffer of `n` bytes after `io.ReadFull` from `input`: the
      first `n` bytes, or all of the input followed by zeros. */
  function Filled(input: seq<byte>, n: nat): (data: seq<byte>)
    ensures var m := Min(n, |input|);
      && |data| == n && data[..m] == input[..m]
      && forall k :: m <= k < n ==> data[k] == 0
  {
    var m := Min(n, |input|);
    input[..m] + seq(n - m, _ => 0)
  }

  /** A reader over the bytes still to arrive on the connection. */
  class Reader {
    var input: seq<byte>

    constructor (data: seq<byte>)
      ensures input == data
    {
      input := data;
    }

    /** `ReadLine`: returns the next fragment and consumes it. */
    method ReadLine() returns (fragment: seq<byte>, more: bool, err: Option<ReadError>)
      modifies this
      ensures LineRead(fragment, more, err, input) == NextLine(old(input))
    {
      var l := NextLine(input);
      fragment, more, err := l.fragment, l.more, l.err;
      input := l.rest;
    }

    /** `io.ReadFull` into a new zeroed buffer of `n` bytes, its error
        dropped: consumes up to `n` bytes. */
    method ReadFull(n: nat) returns (data: seq<byte>)
      modifies this
      ensures data == Filled(old(input), n)
      ensures input == old(input)[Min(n, |old(input)|)..]
    {
      data := Filled(input, n);
      input := input[Min(n, |input|)..];
    }
  }

  /** The loop of net/io.go's `readCappedLine`. */
  method ReadFragments(r: Reader, max: int) returns (line: seq<byte>, err: Option<ReadError>)
    modifies r
    ensures Capped(line, err, r.input) == CappedLoop(old(r.input), max, [])
  {
    line := [];
    while true
      invariant CappedLoop(old(r.input), max, []) == CappedLoop(r.input, max, line)
      decreases |r.input|
    {
      var fragment, more;
      fragment, more, err := r.ReadLine();
      if err.Some? {
        break;
      }
      line := line + fragment;
      if |line| > max {
        err := Some(LineTooLong);
        break;
      }
      if !more {
        break;
      }
    }
  }

  /** net/io.go's `readCappedLine` as written: the loop's error is dropped,
      so the result never carries an error, not even past the cap or at
      the end of the input. */
  method ReadCappedLineAsWritten(r: Reader, max: int) returns (line: seq<byte>, err: Option<ReadError>)
    modifies r
    ensures line == CappedLoop(old(r.input), max, []).line && r.input == CappedLoop(old(r.input), max, []).rest
    ensures err == None
  {
    line, err := ReadFragments(r, max);
    err := None;
  }

  /** `readCappedLine` returning the loop's error, as its callers and its
      tests expect: `EOF` when the input has ended, `LineTooLong` past the
      cap, and no error only for a complete line within the cap. */
  method ReadCappedLine(r: Reader, max: nat) returns (line: seq<byte>, err: Option<ReadError>)
    modifies r
    ensures Capped(line, err, r.input) == CappedLoop(old(r.input), max, [])
    ensures |r.input| <= |old(r.input)|
    ensures err.None? ==> |line| <= max && |r.input| < |old(r.input)|
    ensures err == Some(LineTooLong) ==> max < |line| <= max + BufferSize
    ensures |line| <= |old(r.input)| && line == old(r.input)[..|line|] && LF !in line
  {
    CappedLineBounded(r.input, max, []);
    CappedLineIsLinePrefix(r.input, max, []);
    CappedLineHasNoLineFeed(r.input, max, []);
    ConsumesInput(r.input, max, []);
    line, err := ReadFragments(r, max);
  }

  /** The loop never reads back, and one that ends without an error has
      read at least one byte. */
  lemma {:induction false} ConsumesInput(input: seq<byte>, max: int, acc: seq<byte>)
    ensures var r := CappedLoop(input, max, acc);
      && IsSuffix(r.rest, input)
      && (r.err.None? ==> |r.rest| < |input|)
    decreases |input|
  {
    var l := NextLine(input);
    if l.err.None? && |acc + l.fragment| <= max && l.more {
      ConsumesInput(l.rest, max, acc + l.fragment);
      SuffixOfSuffix(CappedLoop(l.rest, max, acc + l.fragment).rest, l.rest, input);
    }
  }

  /** io_test's long line: 10000 bytes of '*' and no line end. With a cap
      of 1024 the first 4096-byte fragment is already too long: the loop
      stops with `LineTooLong`, which only the corrected reader reports. */
  lemma LongLineIsTooLong()
    ensures var r := CappedLoop(seq(10000, _ => 42), 1024, []);
      r.err == Some(LineTooLong) && |r.line| == BufferSize
  {
    var input: seq<byte> := seq(10000, _ => 42);
    var window := input[..BufferSize];
    var i := IndexOf(window, LF);
  }

  /** io_test's short line "Hello!\n": read whole, with no error. */
  lemma ShortLineIsRead()
    ensures CappedLoop([72, 101, 108, 108, 111, 33, 10], 1024, []) == Capped([72, 101, 108, 108, 111, 33], None, [])
  {
    var input: seq<byte> := [72, 101, 108, 108, 111, 33, 10];
    assert input[..Min(BufferSize, |input|)] == input;
    assert IndexOf(input, LF) == 6;
    assert NextLine(input) == LineRead(input[..6], false, None, []);
  }
}
