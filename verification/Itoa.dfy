/** Number printing: itoa, strrev and the zero-padded hexadecimal form of printf (lib.c). */
module Itoa {
  import opened Basics

  const WORD: nat := 0x1_0000_0000
  const ZERO: byte := 48

  /** The lookup table of itoa. */
  function DigitChar(d: nat): (c: byte)
    requires d < 36
    ensures c != NUL && DigitOf(c) == d
  {
    if d < 10 then (48 + d) as byte else (55 + d) as byte
  }

  /** What a digit character stands for. */
  function DigitOf(c: byte): int {
    if c <= 57 then c as int - 48 else c as int - 55
  }

  /** The value a string of digits denotes, most significant digit first. */
  function Value(text: seq<byte>, radix: nat): int {
    if text == [] then 0 else Value(text[..|text| - 1], radix) * radix + DigitOf(Last(text))
  }

  /** A numeral: digits below the radix, at least one, and no leading zero but in "0" itself. */
  predicate Numeral(text: seq<byte>, radix: nat) {
    && text != []
    && (forall k :: 0 <= k < |text| ==> IsDigit(text[k], radix))
    && (text[0] == ZERO ==> |text| == 1)
  }

  predicate IsDigit(c: byte, radix: nat) {
    0 <= DigitOf(c) < radix && DigitOf(c) < 36 && c == DigitChar(DigitOf(c))
  }

  /** The digits as itoa's loop finds them, lowest place first. */
  function LowFirst(value: nat, radix: nat): (text: seq<byte>)
    requires 2 <= radix <= 36
    ensures NUL !in text
    decreases value
  {
    if value == 0 then []
    else
      Smaller(value, radix);
      [DigitChar(value % radix)] + LowFirst(value / radix, radix)
  }

  function Reversed(s: seq<byte>): (r: seq<byte>)
    ensures |r| == |s| && forall j :: 0 <= j < |s| ==> r[j] == s[|s| - 1 - j]
  {
    seq(|s|, j requires 0 <= j < |s| => s[|s| - 1 - j])
  }

  /** What itoa writes. */
  function Text(value: nat, radix: nat): (text: seq<byte>)
    requires 2 <= radix <= 36
    ensures NUL !in text
  {
    if value == 0 then [ZERO] else Reversed(LowFirst(value, radix))
  }

  lemma Smaller(value: nat, radix: nat)
    requires value > 0 && radix >= 2
    ensures 0 <= value / radix < value && 0 <= value % radix < radix && value == value / radix * radix + value % radix
  {
    var q, r := value / radix, value % radix;
    assert value == radix * q + r;
    assert (radix - 2) * q >= 0;
  }

  // ---------- the code ----------

  method StrLen(s: array<byte>, at: nat, ghost n: nat) returns (length: nat)
    requires at + n < s.Length && s[at + n] == NUL && NUL !in s[at..at + n]
    ensures length == n
  {
    assert forall k :: at <= k < at + n ==> s[k] == s[at..at + n][k - at];
    length := 0;
    while s[at + length] != NUL
      invariant 0 <= length <= n
      decreases n - length
    {
      length := length + 1;
    }
  }

  /** strrev of the string at an index: n is its length. */
  method StrRev(s: array<byte>, at: nat, ghost n: nat)
    requires at + n < s.Length && s[at + n] == NUL && NUL !in s[at..at + n]
    modifies s
    ensures s[at..at + n] == Reversed(old(s[at..at + n]))
    ensures forall p :: 0 <= p < s.Length && !(at <= p < at + n) ==> s[p] == old(s[p])
  {
    hide Flipped, Reversed;
    var length := StrLen(s, at, n);
    ghost var was := s[..];
    NothingFlipped(was, at, n);
    var beg: nat := 0;
    var end: int := length as int - 1;
    while beg < end
      invariant 0 <= beg <= n && end == n - 1 - beg && beg <= end + 2
      invariant Flipped(s[..], was, at, n, beg)
    {
      FlipStep(s[..], was, at, n, beg);
      ghost var m := s[..];
      s[at + beg], s[at + end] := s[at + end], s[at + beg];
      assert s[..] == m[at + beg := m[at + end]][at + end := m[at + beg]];
      beg, end := beg + 1, end - 1;
    }
    SliceReversed(s[..], was, at, n, beg);
  }

  /** The outer k characters on both sides of a string have changed places, and nothing else has. */
  ghost predicate Flipped(s: seq<byte>, was: seq<byte>, at: nat, n: nat, k: nat) {
    |s| == |was| && forall p :: 0 <= p < |s| ==>
      var q := if at <= p < at + k || at + n - k <= p < at + n then 2 * at + n - 1 - p else p;
      0 <= q < |was| && s[p] == was[q]
  }

  lemma NothingFlipped(s: seq<byte>, at: nat, n: nat)
    ensures Flipped(s, s, at, n, 0)
  {
  }

  lemma FlipStep(s: seq<byte>, was: seq<byte>, at: nat, n: nat, k: nat)
    requires Flipped(s, was, at, n, k) && at + n <= |s| && 2 * k + 1 < n
    ensures var i, j := at + k, at + n - 1 - k;
      Flipped(s[i := s[j]][j := s[i]], was, at, n, k + 1)
  {
  }

  lemma SliceReversed(s: seq<byte>, was: seq<byte>, at: nat, n: nat, k: nat)
    requires at + n <= |s| && Flipped(s, was, at, n, k) && n - 1 <= 2 * k <= n + 1
    ensures s[at..at + n] == Reversed(was[at..at + n])
    ensures forall p :: 0 <= p < |s| && !(at <= p < at + n) ==> s[p] == was[p]
  {
    var a, b := s[at..at + n], was[at..at + n];
    assert forall k :: 0 <= k < n ==> a[k] == s[at + k] && b[k] == was[at + k];
  }

  /** itoa into the buffer that starts at an index. */
  method Itoa(value: nat, buf: array<byte>, at: nat, radix: nat)
    requires 2 <= radix <= 36 && at + |Text(value, radix)| < buf.Length
    modifies buf
    ensures var n := |Text(value, radix)|;
      && buf[at..at + n] == Text(value, radix) && buf[at + n] == NUL
      && forall p :: 0 <= p < buf.Length && !(at <= p <= at + n) ==> buf[p] == old(buf[p])
  {
    if value == 0 {
      buf[at] := ZERO;
      buf[at + 1] := NUL;
      return;
    }
    hide LowFirst;
    ghost var low := LowFirst(value, radix);
    var n := PutDigits(value, buf, at, radix);
    buf[at + n] := NUL;
    assert buf[at..at + n] == low;
    StrRev(buf, at, n);
  }

  /** itoa's loop: the digits, lowest place first. */
  method PutDigits(value: nat, buf: array<byte>, at: nat, radix: nat) returns (n: nat)
    requires 2 <= radix <= 36 && at + |LowFirst(value, radix)| < buf.Length
    modifies buf
    ensures n == |LowFirst(value, radix)| && buf[at..at + n] == LowFirst(value, radix)
    ensures forall p :: 0 <= p < buf.Length && !(at <= p < at + n) ==> buf[p] == old(buf[p])
  {
    hide LowFirst;
    ghost var low := LowFirst(value, radix);
    var newval: nat := value;
    n := 0;
    while newval > 0
      invariant 0 <= n <= |low| && low[n..] == LowFirst(newval, radix)
      invariant forall p :: at <= p < at + n ==> buf[p] == low[p - at]
      invariant forall p :: 0 <= p < buf.Length && !(at <= p < at + n) ==> buf[p] == old(buf[p])
      decreases newval
    {
      Smaller(newval, radix);
      LowStep(newval, radix);
      buf[at + n] := DigitChar(newval % radix);
      assert low[n] == low[n..][0] && low[n + 1..] == low[n..][1..];
      newval := newval / radix;
      n := n + 1;
    }
    LowStep(0, radix);
  }

  lemma LowStep(value: nat, radix: nat)
    requires 2 <= radix <= 36
    ensures LowFirst(0, radix) == []
    ensures value > 0 ==>
      LowFirst(value, radix) != [] && LowFirst(value, radix)[0] == DigitChar(value % radix)
      && value / radix >= 0 && LowFirst(value, radix)[1..] == LowFirst(value / radix, radix)
  {
    if value > 0 {
      Smaller(value, radix);
    }
  }

  // ---------- what the digits mean ----------

  /** One more digit on the right. */
  lemma TextGrows(value: nat, radix: nat)
    requires 2 <= radix <= 36 && value >= radix
    ensures value / radix > 0 && Text(value, radix) == Text(value / radix, radix) + [DigitChar(value % radix)]
  {
    Smaller(value, radix);
    assert value / radix > 0;
    assert Reversed(LowFirst(value, radix))
        == Reversed(LowFirst(value / radix, radix)) + [DigitChar(value % radix)];
  }

  /** Evaluating what itoa wrote gives the number back, and it is a numeral. */
  lemma {:induction false} ItoaRoundTrip(value: nat, radix: nat)
    requires 2 <= radix <= 36
    ensures Numeral(Text(value, radix), radix) && Value(Text(value, radix), radix) == value
    decreases value
  {
    hide Text, LowFirst;
    if value < radix {
      SmallText(value, radix);
      OneDigit(value, radix);
    } else {
      TextGrows(value, radix);
      Smaller(value, radix);
      ItoaRoundTrip(value / radix, radix);
      OneMoreDigit(Text(value / radix, radix), value % radix, radix);
    }
  }

  lemma OneDigit(d: nat, radix: nat)
    requires d < radix <= 36
    ensures Numeral([DigitChar(d)], radix) && Value([DigitChar(d)], radix) == d
  {
    assert [DigitChar(d)][..0] == [];
    assert Value([], radix) == 0;
  }

  /** A digit behind a numeral: the value is scaled and the digit added; a numeral again unless it was "0". */
  lemma OneMoreDigit(front: seq<byte>, d: nat, radix: nat)
    requires Numeral(front, radix) && d < radix <= 36 && radix >= 2
    ensures var text := front + [DigitChar(d)];
      && Value(text, radix) == Value(front, radix) * radix + d
      && (Value(front, radix) != 0 ==> Numeral(text, radix))
  {
    var text := front + [DigitChar(d)];
    assert text[..|text| - 1] == front && Last(text) == DigitChar(d);
    if front[0] == ZERO {
      assert front == [ZERO] && front[..0] == [];
    }
  }

  lemma SmallText(value: nat, radix: nat)
    requires 2 <= radix <= 36 && value < radix
    ensures Text(value, radix) == [DigitChar(value)]
  {
    if value > 0 {
      DivideBack(0, value, radix);
      assert LowFirst(value, radix) == [DigitChar(value)] + LowFirst(0, radix);
    }
  }

  /** The only numeral for a number is the one itoa writes. */
  lemma {:induction false} NumeralIsText(text: seq<byte>, radix: nat)
    requires 2 <= radix <= 36 && Numeral(text, radix)
    ensures Value(text, radix) >= 0 && text == Text(Value(text, radix), radix)
    decreases |text|
  {
    hide Text;
    var front, d := text[..|text| - 1], DigitOf(Last(text));
    assert text == front + [Last(text)];
    if front == [] {
      SmallText(d, radix);
      OneDigit(d, radix);
    } else {
      FrontIsNumeral(text, radix);
      NumeralIsText(front, radix);
      var q := Value(front, radix);
      OneMoreDigit(front, d, radix);
      DivideBack(q, d, radix);
      TextGrows(q * radix + d, radix);
    }
  }

  lemma FrontIsNumeral(text: seq<byte>, radix: nat)
    requires 2 <= radix <= 36 && Numeral(text, radix) && |text| > 1
    ensures Numeral(text[..|text| - 1], radix) && text[0] != ZERO
    ensures IsDigit(Last(text), radix) && Value(text[..|text| - 1], radix) > 0
  {
    PositiveValue(text[..|text| - 1], radix);
  }

  lemma {:induction false} PositiveValue(text: seq<byte>, radix: nat)
    requires 2 <= radix <= 36 && Numeral(text, radix) && text[0] != ZERO
    ensures Value(text, radix) > 0
  {
    assert IsDigit(Last(text), radix);
    if |text| == 1 {
      assert Value(text[..0], radix) == 0;
    } else {
      PositiveValue(text[..|text| - 1], radix);
      Multiple(Value(text[..|text| - 1], radix), radix);
    }
  }

  lemma DivideBack(q: nat, d: nat, radix: nat)
    requires radix >= 2 && d < radix
    ensures (q * radix + d) / radix == q && (q * radix + d) % radix == d
    ensures q > 0 ==> q * radix + d >= radix
  {
    var v := q * radix + d;
    var p, e := v / radix, v % radix;
    assert v == p * radix + e && 0 <= e < radix;
    Multiple(p - q, radix);
    assert (p - q) * radix == p * radix - q * radix;
    Multiple(q, radix);
  }

  function Power(radix: nat, n: nat): nat {
    if n == 0 then 1 else radix * Power(radix, n - 1)
  }

  /** How long a numeral is: n digits are enough exactly for the numbers below the n-th power of the radix. */
  lemma {:induction false} LengthBound(value: nat, radix: nat, n: nat)
    requires 2 <= radix <= 36 && n > 0
    ensures |Text(value, radix)| <= n <==> value < Power(radix, n)
    decreases n
  {
    if value < radix {
      SmallText(value, radix);
      PowerGrows(radix, n);
    } else {
      TextGrows(value, radix);
      Smaller(value, radix);
      if n == 1 {
        assert Power(radix, 1) == radix * Power(radix, 0) == radix;
        ItoaRoundTrip(value / radix, radix);
      } else {
        LengthBound(value / radix, radix, n - 1);
        Scaled(value, radix, Power(radix, n - 1));
      }
    }
  }

  lemma PowerGrows(radix: nat, n: nat)
    requires radix >= 2 && n > 0
    ensures Power(radix, n) >= radix
    decreases n
  {
    if n > 1 {
      PowerGrows(radix, n - 1);
      assert radix * Power(radix, n - 1) >= radix * 1;
    }
  }

  lemma Scaled(value: nat, radix: nat, p: nat)
    requires radix >= 2
    ensures value / radix < p <==> value < radix * p
  {
    var q := value / radix;
    assert value == q * radix + value % radix;
    if q < p {
      assert (q + 1) * radix <= p * radix;
    } else {
      assert q * radix >= p * radix;
    }
  }

  lemma {:induction false} LeadingZeros(n: nat, text: seq<byte>, radix: nat)
    ensures Value(Repeat(ZERO, n) + text, radix) == Value(text, radix)
    decreases n + |text|
  {
    var all := Repeat(ZERO, n) + text;
    if text != [] {
      assert all[..|all| - 1] == Repeat(ZERO, n) + text[..|text| - 1];
      LeadingZeros(n, text[..|text| - 1], radix);
    } else if n > 0 {
      assert all[..|all| - 1] == Repeat(ZERO, n - 1) + [];
      LeadingZeros(n - 1, [], radix);
    }
  }

  /** printf's %#x: exactly eight digits that denote the word. */
  method PrintHex(value: nat, buf: array<byte>) returns (text: seq<byte>)
    requires value < WORD && buf.Length == 64
    modifies buf
    ensures |text| == 8 && Value(text, 16) == value
    ensures |Text(value, 16)| <= 8 && text == Repeat(ZERO, 8 - |Text(value, 16)|) + Text(value, 16)
  {
    hide Text, Value;
    HexLength(value);
    Itoa(value, buf, 8, 16);
    ghost var digits := Text(value, 16);
    var start := StrLen(buf, 8, |digits|);
    var i := start;
    while i < 8
      invariant start <= i <= 8
      invariant forall p :: start <= p < i ==> buf[p] == ZERO
      invariant buf[8..8 + start] == digits
    {
      buf[i] := ZERO;
      i := i + 1;
    }
    text := buf[start..8 + start];
    assert buf[start..8] == Repeat(ZERO, 8 - start) && text == buf[start..8] + buf[8..8 + start];
    LeadingZeros(8 - start, digits, 16);
    ItoaRoundTrip(value, 16);
  }

  lemma HexLength(value: nat)
    requires value < WORD
    ensures |Text(value, 16)| <= 8
  {
    assert Power(16, 4) == 0x10000;
    assert Power(16, 8) == 16 * (16 * (16 * (16 * Power(16, 4)))) == WORD;
    LengthBound(value, 16, 8);
  }
}
