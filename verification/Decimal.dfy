/** The backwards decimal printer of zend_operators.h and its users in zend_smart_str.h. */
module Decimals {
  import opened Text

  const LONG_MAX: int := 0x7FFF_FFFF_FFFF_FFFF
  const LONG_MIN: int := -0x8000_0000_0000_0000

  /** The unsigned word with the bits of num, and the word with every bit flipped. */
  function ToUlong(num: int): nat { num % TWO_64 }

  function Flip(word: nat): nat
    requires word < TWO_64
  {
    TWO_64 - 1 - word
  }

  /** ~((zend_ulong) num) + 1, wrapping at the word size. */
  function Negated(num: int): nat { (Flip(ToUlong(num)) + 1) % TWO_64 }

  /** Also at LONG_MIN, whose negation is no zend_long. */
  lemma NegatedIsMagnitude(num: int)
    requires LONG_MIN <= num < 0
    ensures Negated(num) == -num
  {
    assert ToUlong(num) == num + TWO_64;
  }

  /** A number below 10^k has at most k digits. */
  lemma {:induction false} DecLength(n: nat, k: nat)
    requires k > 0 && n < Pow10(k)
    ensures |Dec(n)| <= k
  {
    if n >= 10 {
      DecLength(n / 10, k - 1);
    }
  }

  lemma FiveMore(k: nat)
    ensures Pow10(k + 5) == 100000 * Pow10(k)
  {
    assert Pow10(k + 3) == 1000 * Pow10(k) by { assert Pow10(k + 2) == 100 * Pow10(k); }
    assert Pow10(k + 4) == 10 * Pow10(k + 3);
  }

  /** A 64-bit word has at most 20 digits. */
  lemma WordLength(n: nat)
    requires n < TWO_64
    ensures |Dec(n)| <= 20
  {
    hide Dec;
    FiveMore(0);
    FiveMore(5);
    FiveMore(10);
    FiveMore(15);
    DecLength(n, 20);
  }

  /** The number a printed zend_long denotes. */
  function SignedValue(s: string): int {
    if s != "" && s[0] == '-' then 0 - DigitsValue(s[1..], 0) else DigitsValue(s, 0)
  }

  lemma PrintedValue(n: int)
    ensures SignedValue(DecInt(n)) == n
  {
    hide Dec, DigitsValue;
    DecValue(if n < 0 then -n else n, "");
    var t := DecInt(n);
    if n < 0 {
      assert t[1..] == Dec(-n) == Dec(-n) + "";
    } else {
      assert t == Dec(n) + "";
      assert t[0] in t;
    }
  }

  /** Decimal notation is the only digit string without a leading zero for its value. */
  lemma {:induction false} DecOfValue(s: string)
    requires s != "" && (forall c :: c in s ==> IsDigit(c)) && (s[0] == '0' ==> s == "0")
    ensures Dec(DigitsValue(s, 0)) == s && (s != "0" ==> DigitsValue(s, 0) > 0)
    decreases |s|
  {
    var front, last := s[..|s| - 1], s[|s| - 1];
    assert s == front + [last] && last in s;
    assert [last][1..] == "";
    if front == "" {
      assert s == [last];
      assert s[1..] == "";
    } else {
      assert front[0] == s[0] && forall c :: c in front ==> c in s;
      DecOfValue(front);
      DigitsValueAppend(front, [last], 0);
      assert DigitsValue(s, 0) == 10 * DigitsValue(front, 0) + DigitOf(last);
    }
  }

  /** zend_print_ulong_to_buf: the digits end just before position end, which gets the terminator. */
  method PrintUlongToBuf(buf: array<char>, end: nat, num: nat) returns (start: nat)
    requires end < buf.Length && |Dec(num)| <= end
    modifies buf
    ensures start + |Dec(num)| == end && buf[start..end] == Dec(num) && buf[end] == '\0'
    ensures forall i :: 0 <= i < buf.Length && (i < start || i > end) ==> buf[i] == old(buf[i])
  {
    buf[end] := '\0';
    var n, more := num, true;
    start := end;
    assert Dec(num) == Dec(n) + buf[start..end];
    while more
      invariant start <= end && buf[end] == '\0'
      invariant more || n == 0
      invariant Dec(num) == (if more then Dec(n) else "") + buf[start..end]
      invariant forall i :: 0 <= i < buf.Length && (i < start || i > end) ==> buf[i] == old(buf[i])
      decreases more, n
    {
      ghost var tail := buf[start..end];
      start := start - 1;
      buf[start] := DigitChar(n % 10);
      assert buf[start..end] == [DigitChar(n % 10)] + tail;
      LastDigit(n, tail);
      n := n / 10;
      more := n > 0;
    }
  }

  lemma LastDigit(n: nat, tail: string)
    ensures Dec(n) + tail == (if n / 10 > 0 then Dec(n / 10) else "") + ([DigitChar(n % 10)] + tail)
  {
  }

  /** zend_print_long_to_buf. */
  method PrintLongToBuf(buf: array<char>, end: nat, num: int) returns (start: nat)
    requires LONG_MIN <= num <= LONG_MAX && end < buf.Length && |DecInt(num)| <= end
    modifies buf
    ensures start + |DecInt(num)| == end && buf[start..end] == DecInt(num) && buf[end] == '\0'
    ensures forall i :: 0 <= i < buf.Length && (i < start || i > end) ==> buf[i] == old(buf[i])
  {
    hide Dec;
    if num < 0 {
      NegatedIsMagnitude(num);
      start := PrintUlongToBuf(buf, end, Negated(num));
      ghost var digits := buf[start..end];
      start := start - 1;
      buf[start] := '-';
      assert buf[start..end] == "-" + digits;
    } else {
      start := PrintUlongToBuf(buf, end, num);
    }
  }

  /** The characters of a smart_str; growing its allocation is not modelled. */
  class SmartStr {
    var text: string

    constructor ()
      ensures text == ""
    {
      text := "";
    }

    /** smart_str_append_unsigned_ex. */
    method AppendUnsigned(num: nat)
      requires num < TWO_64
      modifies this
      ensures text == old(text) + Dec(num)
    {
      hide Dec, Pow10;
      WordLength(num);
      var buf := new char[32];
      var result := PrintUlongToBuf(buf, 31, num);
      text := text + buf[result..31];
    }

    /** smart_str_append_long_ex. */
    method AppendLong(num: int)
      requires LONG_MIN <= num <= LONG_MAX
      modifies this
      ensures text == old(text) + DecInt(num)
    {
      hide Dec, Pow10;
      WordLength(if num < 0 then -num else num);
      var buf := new char[32];
      var result := PrintLongToBuf(buf, 31, num);
      text := text + buf[result..31];
    }
  }
}
