/** The standard-library text functions the protocol handler relies on:
    `strings.Split` on a one-character separator, `strconv.ParseUint` in
    base 10 with a 64-bit size, the decimal formatting of `%d`, and
    `string(b)` for a byte slice. Each is stated here as the library
    documents it and related to its inverse. */
module Strings {
  import opened Entity

  /** `strings.Split(s, sep)`: the pieces of `s` between the separators,
      in order, empty pieces included; at least one piece. */
  function Split(s: string, sep: char): (r: seq<string>)
    ensures |r| >= 1
    ensures forall i :: 0 <= i < |r| ==> sep !in r[i]
    decreases |s|
  {
    if |s| == 0 then [""]
    else
      var tail := Split(s[1..], sep);
      if s[0] == sep then [""] + tail
      else [[s[0]] + tail[0]] + tail[1..]
  }

  /** `strings.Join(parts, sep)`. */
  function Join(parts: seq<string>, sep: char): string
    requires |parts| >= 1
    decreases |parts|
  {
    if |parts| == 1 then parts[0] else parts[0] + [sep] + Join(parts[1..], sep)
  }

  /** Joining the pieces back gives the string that was split. */
  lemma {:induction false} JoinSplit(s: string, sep: char)
    ensures Join(Split(s, sep), sep) == s
    decreases |s|
  {
    if |s| != 0 {
      var tail := Split(s[1..], sep);
      JoinSplit(s[1..], sep);
      if s[0] == sep {
        assert Split(s, sep)[1..] == tail;
      } else {
        var r := Split(s, sep);
        assert r[0] == [s[0]] + tail[0];
        if |tail| == 1 {
          assert s == [s[0]] + s[1..];
        } else {
          assert r[1..] == tail[1..];
          assert s == [s[0]] + s[1..];
        }
      }
    }
  }

  /** Pieces without the separator are recovered by splitting their join:
      the other direction of the round trip. */
  lemma {:induction false} SplitJoin(parts: seq<string>, sep: char)
    requires |parts| >= 1
    requires forall i :: 0 <= i < |parts| ==> sep !in parts[i]
    ensures Split(Join(parts, sep), sep) == parts
    decreases |parts|
  {
    if |parts| == 1 {
      SplitWithoutSeparator(parts[0], [], sep);
      assert parts[0] + [] == parts[0];
    } else {
      SplitJoin(parts[1..], sep);
      var rest := Join(parts[1..], sep);
      SplitWithoutSeparator(parts[0], [sep] + rest, sep);
      assert parts[0] + [sep] + rest == parts[0] + ([sep] + rest);
      assert ([sep] + rest)[1..] == rest;
      var u := Split([sep] + rest, sep);
      assert u == [""] + parts[1..];
      assert parts[0] + u[0] == parts[0];
      assert parts == [parts[0]] + parts[1..];
    }
  }

  /** A prefix without the separator joins the first piece of what
      follows it. */
  lemma {:induction false} SplitWithoutSeparator(p: string, t: string, sep: char)
    requires sep !in p
    ensures var r := Split(p + t, sep); var u := Split(t, sep);
      r == [p + u[0]] + u[1..]
    decreases |p|
  {
    if |p| != 0 {
      assert (p + t)[1..] == p[1..] + t;
      SplitWithoutSeparator(p[1..], t, sep);
      var u := Split(t, sep);
      var tail := Split((p + t)[1..], sep);
      assert tail == [p[1..] + u[0]] + u[1..];
      assert (p + t)[0] == p[0] && p[0] != sep;
      assert [p[0]] + tail[0] == p + u[0];
      assert tail[1..] == u[1..];
    } else {
      assert p + t == t;
      var u := Split(t, sep);
      assert p + u[0] == u[0];
      assert u == [u[0]] + u[1..];
    }
  }

  /** Go's `string(b)` of a byte slice: one character per byte. */
  function Text(b: seq<byte>): (s: string)
    ensures |s| == |b| && forall i :: 0 <= i < |b| ==> s[i] == b[i] as char
  {
    if |b| == 0 then "" else [b[0] as char] + Text(b[1..])
  }

  /** The bytes of a string whose characters are all single bytes, as
      `[]byte(s)` gives them; `Text` reads them back. */
  function Bytes(t: string): (b: seq<byte>)
    requires forall i :: 0 <= i < |t| ==> t[i] as int < 256
    ensures |b| == |t| && forall i :: 0 <= i < |t| ==> b[i] == t[i] as int
    ensures Text(b) == t
  {
    seq(|t|, i requires 0 <= i < |t| => t[i] as int)
  }

  /** `strconv.ErrSyntax` and `strconv.ErrRange`. */
  datatype NumError = ErrSyntax | ErrRange

  /** The value and error of `strconv.ParseUint`. */
  datatype Parsed = Parsed(value: uint64, err: Option<NumError>)

  predicate IsDigit(c: char) {
    '0' <= c <= '9'
  }

  function DigitValue(c: char): (d: nat)
    requires IsDigit(c)
    ensures d < 10
  {
    c as int - '0' as int
  }

  /** The digit character of `d`. */
  function Digit(d: nat): (c: char)
    requires d < 10
    ensures IsDigit(c) && DigitValue(c) == d
  {
    ('0' as int + d) as char
  }

  /** `strconv.ParseUint(s, 10, 64)`: the empty string is `ErrSyntax`;
      otherwise the decimal digits are read from left to right. */
  function ParseUint(s: string): (r: Parsed)
    ensures r.err.None? ==> |s| > 0 && forall i :: 0 <= i < |s| ==> IsDigit(s[i])
    ensures r.err == Some(ErrSyntax) ==> r.value == 0
    ensures r.err == Some(ErrRange) ==> r.value == MaxUint64
  {
    if |s| == 0 then Parsed(0, Some(ErrSyntax)) else ParseDigits(s, 0)
  }

  /** Reading digits onto the value `acc` of the ones before them: a
      character that is not a digit gives 0 and `ErrSyntax`; a value
      past the largest `uint64` gives that largest value and `ErrRange`
      at once, whatever follows. */
  function ParseDigits(s: string, acc: uint64): (r: Parsed)
    ensures r.err.None? ==> forall i :: 0 <= i < |s| ==> IsDigit(s[i])
    ensures r.err.None? ==> acc <= r.value
    ensures r.err == Some(ErrSyntax) ==> r.value == 0
    ensures r.err == Some(ErrRange) ==> r.value == MaxUint64
    decreases |s|
  {
    if |s| == 0 then Parsed(acc, None)
    else if !IsDigit(s[0]) then Parsed(0, Some(ErrSyntax))
    else if acc * 10 + DigitValue(s[0]) > MaxUint64 then Parsed(MaxUint64, Some(ErrRange))
    else ParseDigits(s[1..], acc * 10 + DigitValue(s[0]))
  }

  /** Parsing goes piece by piece: after a part read without error, the
      rest is read onto its value. */
  lemma {:induction false} ParseDigitsAppend(s: string, t: string, acc: uint64)
    requires ParseDigits(s, acc).err.None?
    ensures ParseDigits(s + t, acc) == ParseDigits(t, ParseDigits(s, acc).value)
    decreases |s|
  {
    if |s| == 0 {
      assert s + t == t;
    } else {
      assert (s + t)[1..] == s[1..] + t;
      assert (s + t)[0] == s[0];
      ParseDigitsAppend(s[1..], t, acc * 10 + DigitValue(s[0]));
    }
  }

  /** The decimal digits of `n`, as `%d` prints an unsigned integer: no
      sign and no leading zero. */
  function FormatUint(n: nat): (s: string)
    ensures |s| >= 1 && forall i :: 0 <= i < |s| ==> IsDigit(s[i])
    ensures s[0] == '0' ==> n == 0
    decreases n
  {
    if n < 10 then [Digit(n)] else FormatUint(n / 10) + [Digit(n % 10)]
  }

  /** Every `uint64` printed by `%d` parses back to itself, without error. */
  lemma {:induction false} ParseFormatUint(n: uint64)
    ensures ParseUint(FormatUint(n)) == Parsed(n, None)
    decreases n
  {
    if n < 10 {
      var s := FormatUint(n);
      assert s == [Digit(n)];
      assert s[1..] == [];
      assert ParseDigits(s[1..], n) == Parsed(n, None);
    } else {
      ParseFormatUint(n / 10);
      var d := [Digit(n % 10)];
      ParseDigitsAppend(FormatUint(n / 10), d, 0);
      assert d[1..] == [];
    }
  }

  function Pow10(k: nat): (p: nat)
    ensures p >= 1
  {
    if k == 0 then 1 else 10 * Pow10(k - 1)
  }

  /** A number below 10^k prints in at most k digits. */
  lemma {:induction false} FormatUintWidth(n: nat, k: nat)
    requires 1 <= k && n < Pow10(k)
    ensures |FormatUint(n)| <= k
    decreases n
  {
    if n >= 10 {
      assert n / 10 < Pow10(k - 1);
      FormatUintWidth(n / 10, k - 1);
    }
  }

  /** A `uint64` prints in at most 20 digits. */
  lemma FormatUint64Width(n: uint64)
    ensures |FormatUint(n)| <= 20
  {
    assert Pow10(5) == 100_000;
    Pow10Add(5, 5);
    Pow10Add(10, 10);
    FormatUintWidth(n, 20);
  }

  lemma {:induction false} Pow10Add(a: nat, b: nat)
    ensures Pow10(a + b) == Pow10(a) * Pow10(b)
    decreases a
  {
    if a > 0 {
      Pow10Add(a - 1, b);
      assert Pow10(a + b) == 10 * Pow10(a - 1 + b);
    }
  }

  /** Printed numbers never contain a space, so they survive `Split`. */
  lemma FormattedHasNoSpace(n: nat)
    ensures ' ' !in FormatUint(n)
  {
  }
}
