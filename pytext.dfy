/**
  The parts of Python's `str` and `re` behaviour that the furigana engine
  relies on: `str.isspace`, the `\d` class, `str.strip()`, `str.split('\n')`,
  `'\n'.join`, `''.join`, and the maximal character runs that a greedy
  `[...]+` takes.
 */
module PyText {

  /** The characters for which Python's `str.isspace()` holds (bidirectional
      class WS, B or S, or general category Zs), as of Unicode 15.0. */
  predicate IsWhitespace(c: char) {
    var n := c as int;
    (0x09 <= n <= 0x0D) || (0x1C <= n <= 0x20) || n == 0x85 || n == 0xA0 || n == 0x1680
    || (0x2000 <= n <= 0x200A) || n == 0x2028 || n == 0x2029 || n == 0x202F
    || n == 0x205F || n == 0x3000
  }

  /** Code point `n` is one of the ten digits of the block whose zero is
      `zero`. */
  predicate InDigitBlock(n: int, zero: int) {
    zero <= n < zero + 10
  }

  /** What `\d` matches in a `str` pattern: any Unicode decimal digit
      (general category Nd), as of Unicode 15.0, listed block by block by
      the code point of each block's zero. */
  predicate IsDecimalDigit(c: char) {
    var n := c as int;
    InDigitBlock(n, 0x0030) || InDigitBlock(n, 0x0660) || InDigitBlock(n, 0x06F0)
    || InDigitBlock(n, 0x07C0) || InDigitBlock(n, 0x0966) || InDigitBlock(n, 0x09E6)
    || InDigitBlock(n, 0x0A66) || InDigitBlock(n, 0x0AE6) || InDigitBlock(n, 0x0B66)
    || InDigitBlock(n, 0x0BE6) || InDigitBlock(n, 0x0C66) || InDigitBlock(n, 0x0CE6)
    || InDigitBlock(n, 0x0D66) || InDigitBlock(n, 0x0DE6) || InDigitBlock(n, 0x0E50)
    || InDigitBlock(n, 0x0ED0) || InDigitBlock(n, 0x0F20) || InDigitBlock(n, 0x1040)
    || InDigitBlock(n, 0x1090) || InDigitBlock(n, 0x17E0) || InDigitBlock(n, 0x1810)
    || InDigitBlock(n, 0x1946) || InDigitBlock(n, 0x19D0) || InDigitBlock(n, 0x1A80)
    || InDigitBlock(n, 0x1A90) || InDigitBlock(n, 0x1B50) || InDigitBlock(n, 0x1BB0)
    || InDigitBlock(n, 0x1C40) || InDigitBlock(n, 0x1C50) || InDigitBlock(n, 0xA620)
    || InDigitBlock(n, 0xA8D0) || InDigitBlock(n, 0xA900) || InDigitBlock(n, 0xA9D0)
    || InDigitBlock(n, 0xA9F0) || InDigitBlock(n, 0xAA50) || InDigitBlock(n, 0xABF0)
    || InDigitBlock(n, 0xFF10) || InDigitBlock(n, 0x104A0) || InDigitBlock(n, 0x10D30)
    || InDigitBlock(n, 0x11066) || InDigitBlock(n, 0x110F0) || InDigitBlock(n, 0x11136)
    || InDigitBlock(n, 0x111D0) || InDigitBlock(n, 0x112F0) || InDigitBlock(n, 0x11450)
    || InDigitBlock(n, 0x114D0) || InDigitBlock(n, 0x11650) || InDigitBlock(n, 0x116C0)
    || InDigitBlock(n, 0x11730) || InDigitBlock(n, 0x118E0) || InDigitBlock(n, 0x11950)
    || InDigitBlock(n, 0x11C50) || InDigitBlock(n, 0x11D50) || InDigitBlock(n, 0x11DA0)
    || InDigitBlock(n, 0x11F50) || InDigitBlock(n, 0x16A60) || InDigitBlock(n, 0x16AC0)
    || InDigitBlock(n, 0x16B50) || InDigitBlock(n, 0x1D7CE) || InDigitBlock(n, 0x1D7D8)
    || InDigitBlock(n, 0x1D7E2) || InDigitBlock(n, 0x1D7EC) || InDigitBlock(n, 0x1D7F6)
    || InDigitBlock(n, 0x1E140) || InDigitBlock(n, 0x1E2F0) || InDigitBlock(n, 0x1E4F0)
    || InDigitBlock(n, 0x1E950) || InDigitBlock(n, 0x1FBF0)
  }

  predicate IsNotNewline(c: char) {
    c != '\n'
  }

  /** The end of the longest run of characters satisfying `P` that starts at
      `i`: what a greedy `[...]+` or `.*` consumes from there. */
  function RunEnd(s: string, i: nat, P: char -> bool): (j: nat)
    requires i <= |s|
    ensures i <= j <= |s|
    ensures forall k :: i <= k < j ==> P(s[k])
    ensures j == |s| || !P(s[j])
    decreases |s| - i
  {
    if i == |s| || !P(s[i]) then i else RunEnd(s, i + 1, P)
  }

  /** A run is determined by where it starts: any end that is preceded only
      by `P`-characters and is not followed by one is the run's end. */
  lemma RunEndUnique(s: string, i: nat, P: char -> bool, j: nat)
    requires i <= j <= |s|
    requires forall k :: i <= k < j ==> P(s[k])
    requires j == |s| || !P(s[j])
    ensures RunEnd(s, i, P) == j
  {
  }

  /** `re.search` for a one-character class: does some character satisfy `P`? */
  function AnyChar(s: string, P: char -> bool): bool {
    if s == [] then false
    else if P(s[0]) then true
    else AnyChar(s[1..], P)
  }

  /** The search succeeds exactly when some character satisfies `P`. */
  lemma {:induction false} AnyCharIff(s: string, P: char -> bool)
    ensures AnyChar(s, P) <==> exists i :: 0 <= i < |s| && P(s[i])
    decreases |s|
  {
    if s != [] && !P(s[0]) {
      AnyCharIff(s[1..], P);
      assert forall i :: 1 <= i < |s| ==> s[i] == s[1..][i - 1];
    }
  }

  /** Where `str.strip()` starts keeping characters. */
  function StripStart(s: string): (lo: nat)
    ensures lo <= |s|
    ensures forall k :: 0 <= k < lo ==> IsWhitespace(s[k])
    ensures lo == |s| || !IsWhitespace(s[lo])
  {
    RunEnd(s, 0, IsWhitespace)
  }

  /** Where `str.strip()` stops keeping characters, scanning back from `hi`
      but never past `lo`. */
  function TrimEnd(s: string, lo: nat, hi: nat): (r: nat)
    requires lo <= hi <= |s|
    ensures lo <= r <= hi
    ensures forall k :: r <= k < hi ==> IsWhitespace(s[k])
    ensures r == lo || !IsWhitespace(s[r - 1])
    decreases hi
  {
    if hi == lo || !IsWhitespace(s[hi - 1]) then hi else TrimEnd(s, lo, hi - 1)
  }

  /** Python's `s.strip()`. */
  function Strip(s: string): string {
    var lo := StripStart(s);
    s[lo..TrimEnd(s, lo, |s|)]
  }

  /** `s.strip()` is `s` without its leading and trailing whitespace: a slice
      of `s` with only whitespace around it, which neither begins nor ends
      with whitespace. */
  lemma StripShape(s: string)
    ensures StripStart(s) + |Strip(s)| <= |s|
    ensures Strip(s) == s[StripStart(s)..StripStart(s) + |Strip(s)|]
    ensures forall k :: 0 <= k < StripStart(s) ==> IsWhitespace(s[k])
    ensures forall k :: StripStart(s) + |Strip(s)| <= k < |s| ==> IsWhitespace(s[k])
    ensures Strip(s) == [] || (!IsWhitespace(Strip(s)[0]) && !IsWhitespace(Strip(s)[|Strip(s)| - 1]))
  {
  }

  /** A slice of a slice is a slice of the whole. */
  lemma SliceOfSlice(s: string, x: nat, y: nat, a: nat, b: nat)
    requires x <= y <= |s| && a <= b <= y - x
    ensures s[x..y][a..b] == s[x + a..x + b]
  {
    assert forall j :: 0 <= j < b - a ==> s[x..y][a..b][j] == s[x + a + j];
  }

  /** Stripping a slice of a text leaves a slice of the text. */
  lemma StripSlice(s: string, x: nat, y: nat) returns (lo: nat, hi: nat)
    requires x <= y <= |s|
    ensures x <= lo <= hi <= y
    ensures Strip(s[x..y]) == s[lo..hi]
  {
    var t := s[x..y];
    StripShape(t);
    var a := StripStart(t);
    var n := |Strip(t)|;
    SliceOfSlice(s, x, y, a, a + n);
    lo, hi := x + a, x + a + n;
  }

  /** Stripping twice strips no more than stripping once. */
  lemma StripIdempotent(s: string)
    ensures Strip(Strip(s)) == Strip(s)
  {
    var t := Strip(s);
    StripShape(s);
    if t != [] {
      RunEndUnique(t, 0, IsWhitespace, 0);
      assert StripStart(t) == 0;
    }
  }

  /** `''.join(parts)`. */
  function Concat(parts: seq<string>): string {
    if parts == [] then "" else parts[0] + Concat(parts[1..])
  }

  lemma {:induction false} ConcatAppend(a: seq<string>, b: seq<string>)
    ensures Concat(a + b) == Concat(a) + Concat(b)
    decreases |a|
  {
    if a == [] {
      assert a + b == b;
    } else {
      assert (a + b)[1..] == a[1..] + b;
      ConcatAppend(a[1..], b);
    }
  }

  /** A character occurs in a concatenation iff it occurs in one of the parts. */
  lemma {:induction false} ConcatContains(parts: seq<string>, c: char)
    ensures c in Concat(parts) <==> exists i :: 0 <= i < |parts| && c in parts[i]
    decreases |parts|
  {
    if parts != [] {
      ConcatContains(parts[1..], c);
      assert forall i :: 1 <= i < |parts| ==> parts[i] == parts[1..][i - 1];
      if c in Concat(parts[1..]) {
        var i :| 0 <= i < |parts[1..]| && c in parts[1..][i];
        assert c in parts[i + 1];
      }
    }
  }

  /** Python's `s.split('\n')`: the pieces between newlines, in order; there
      is always one more piece than there are newlines. */
  function SplitLines(s: string): (lines: seq<string>)
    ensures |lines| >= 1
    ensures forall i :: 0 <= i < |lines| ==> '\n' !in lines[i]
    decreases |s|
  {
    var i := RunEnd(s, 0, IsNotNewline);
    assert '\n' !in s[..i] by {
      forall k | 0 <= k < i ensures s[..i][k] != '\n' {
        assert IsNotNewline(s[k]);
      }
    }
    if i == |s| then [s] else [s[..i]] + SplitLines(s[i + 1..])
  }

  /** Python's `'\n'.join(lines)`. */
  function JoinLines(lines: seq<string>): string {
    if lines == [] then ""
    else if |lines| == 1 then lines[0]
    else lines[0] + "\n" + JoinLines(lines[1..])
  }

  /** Joining the pieces of a split gives back the text. */
  lemma {:induction false} JoinSplitLines(s: string)
    ensures JoinLines(SplitLines(s)) == s
    decreases |s|
  {
    var i := RunEnd(s, 0, IsNotNewline);
    if i < |s| {
      JoinSplitLines(s[i + 1..]);
      assert s == s[..i] + "\n" + s[i + 1..];
    }
  }

  /** Splitting a join of newline-free pieces gives back the pieces, so the
      number of lines is what was joined. */
  lemma {:induction false} SplitJoinLines(lines: seq<string>)
    requires |lines| >= 1
    requires forall i :: 0 <= i < |lines| ==> '\n' !in lines[i]
    ensures SplitLines(JoinLines(lines)) == lines
    decreases |lines|
  {
    var s := JoinLines(lines);
    var head := lines[0];
    var i := RunEnd(s, 0, IsNotNewline);
    if |lines| == 1 {
      RunEndUnique(s, 0, IsNotNewline, |s|);
    } else {
      assert s == head + "\n" + JoinLines(lines[1..]);
      assert s[|head|] == '\n';
      RunEndUnique(s, 0, IsNotNewline, |head|);
      assert s[..i] == head;
      assert s[i + 1..] == JoinLines(lines[1..]);
      SplitJoinLines(lines[1..]);
    }
  }
}
