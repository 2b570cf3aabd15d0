/** The line reader of the older `package main` snapshot (io.go). It reads
    the same fragments as net/io.go, but a read error returns an empty
    line, a line that arrives as one whole fragment is returned at once
    without the cap check, and the loop's error is returned to the
    caller. */
module LegacyIO {
  import opened Entity
  import opened LineReader

  /** The loop of io.go's `readCappedLine` from the bytes `acc` joined so
      far; an empty `acc` is the nil slice of the first turn, which only
      the first turn has, since a fragment with `more` set is never
      empty. */
  function LegacyLoop(input: seq<byte>, max: int, acc: seq<byte>): Capped
    decreases |input|
  {
    var l := NextLine(input);
    if l.err.Some? then Capped([], l.err, l.rest)
    else if |acc| == 0 && !l.more then Capped(l.fragment, None, l.rest)
    else if |acc + l.fragment| > max then Capped(acc + l.fragment, Some(LineTooLong), l.rest)
    else if !l.more then Capped(acc + l.fragment, None, l.rest)
    else LegacyLoop(l.rest, max, acc + l.fragment)
  }

  /** io.go's `readCappedLine` over the connection's reader. */
  method ReadCappedLine(r: Reader, max: int) returns (line: seq<byte>, err: Option<ReadError>)
    modifies r
    ensures Capped(line, err, r.input) == LegacyLoop(old(r.input), max, [])
  {
    line := [];
    while true
      invariant LegacyLoop(old(r.input), max, []) == LegacyLoop(r.input, max, line)
      decreases |r.input|
    {
      var fragment, more;
      fragment, more, err := r.ReadLine();
      if err.Some? {
        return [], err;
      }
      if |line| == 0 && !more {
        return fragment, None;
      }
      line := line + fragment;
      if |line| > max {
        return line, Some(LineTooLong);
      }
      if !more {
        break;
      }
    }
  }

  /** The line arrives as one whole fragment that is longer than the
      cap: the case the first turn's shortcut lets through. */
  predicate ShortcutOverCap(input: seq<byte>, max: int) {
    var l := NextLine(input);
    l.err.None? && !l.more && |l.fragment| > max
  }

  /** Once the line has taken more than one fragment, no error means the
      line is within the cap; past the cap the error is `LineTooLong`. */
  lemma {:induction false} JoinedLineWithinCap(input: seq<byte>, max: int, acc: seq<byte>)
    requires |acc| > 0 || NextLine(input).more
    ensures var r := LegacyLoop(input, max, acc);
      && (r.err.None? ==> |r.line| <= max)
      && (r.err == Some(LineTooLong) ==> |r.line| > max)
    decreases |input|
  {
    var l := NextLine(input);
    if l.err.None? && |acc + l.fragment| <= max && l.more {
      JoinedLineWithinCap(l.rest, max, acc + l.fragment);
    }
  }

  /** The older reader against the newer one (with its error returned):
      both leave the same input unread; without an error both return the
      same line; they report the same error, except for a single-fragment
      line past the cap, which only the newer one refuses. A read error
      empties the older reader's line. */
  lemma {:induction false} AgreesWithCappedLoop(input: seq<byte>, max: int, acc: seq<byte>)
    ensures var r := LegacyLoop(input, max, acc); var c := CappedLoop(input, max, acc);
      && r.rest == c.rest
      && (r.err.None? && c.err.None? ==> r.line == c.line)
      && (r.err == Some(EOF) ==> r.line == [])
      && (if |acc| == 0 && ShortcutOverCap(input, max)
          then r.err.None? && c.err == Some(LineTooLong) && r.line == c.line
          else r.err == c.err)
    decreases |input|
  {
    var l := NextLine(input);
    if l.err.None? && |acc + l.fragment| <= max && l.more {
      assert !ShortcutOverCap(input, max);
      AgreesWithCappedLoop(l.rest, max, acc + l.fragment);
    }
  }

  /** A line of more than `max` bytes ended by "\r\n" inside the first
      buffer-full: the older reader returns it with no error, the newer
      one refuses it as too long. */
  lemma ShortcutSkipsCap(line: seq<byte>, more: seq<byte>, max: int)
    requires LF !in line && max < |line| && |line| + 2 <= BufferSize
    ensures LegacyLoop(line + [CR, LF] + more, max, []) == Capped(line, None, more)
    ensures CappedLoop(line + [CR, LF] + more, max, []) == Capped(line, Some(LineTooLong), more)
  {
    TerminatedLine(line, more, |line|);
    assert [] + line == line;
  }

  /** A 2000-byte command line: over the 1024-byte cap, yet returned. */
  lemma LongSingleFragmentLine()
    ensures var input := seq(2000, _ => 97) + [CR, LF];
      && LegacyLoop(input, 1024, []) == Capped(seq(2000, _ => 97), None, [])
      && CappedLoop(input, 1024, []).err == Some(LineTooLong)
  {
    var line: seq<byte> := seq(2000, _ => 97);
    assert forall k :: 0 <= k < |line| ==> line[k] != LF;
    ShortcutSkipsCap(line, [], 1024);
    assert line + [CR, LF] + [] == line + [CR, LF];
  }

  /** io_test's long line: 10000 bytes of '*' and no line end, capped at
      1024, fail as too long. */
  lemma LongLineIsTooLong()
    ensures var r := LegacyLoop(seq(10000, _ => 42), 1024, []);
      r.err == Some(LineTooLong) && |r.line| == BufferSize
  {
    var input: seq<byte> := seq(10000, _ => 42);
    var window := input[..BufferSize];
    var i := IndexOf(window, LF);
  }

  /** io_test's short line "Hello!\n": read whole, with no error. */
  lemma ShortLineIsRead()
    ensures LegacyLoop([72, 101, 108, 108, 111, 33, 10], 1024, []) == Capped([72, 101, 108, 108, 111, 33], None, [])
  {
    var input: seq<byte> := [72, 101, 108, 108, 111, 33, 10];
    assert input[..Min(BufferSize, |input|)] == input;
    assert IndexOf(input, LF) == 6;
    assert NextLine(input) == LineRead(input[..6], false, None, []);
  }
}
