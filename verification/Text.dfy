/**
 * Byte strings and the std::string operations the server's parsers are written in.
 *
 * A byte is a char whose code is the byte's value.  std::string::npos is -1, and a size_t
 * that wrapped below zero is kept as the negative number it stands for: every string is
 * shorter than 2^63, so a wrapped position is past the end of every string and a wrapped
 * count asks for everything that is left.
 */
module Text {
  datatype Option<+T> = None | Some(value: T)

  const CRLF := "\r\n"
  const BLANK_LINE := "\r\n\r\n"

  /** What trimWhitespace removes. */
  const BLANKS := {' ', '\t'}
  /** What isspace accepts in the C locale. */
  const SPACES := {' ', '\t', '\n', '\U{000B}', '\U{000C}', '\r'}

  /** A std::string never grows beyond max_size(). */
  const STRING_MAX: nat := 0x7FFF_FFFF_FFFF_FFFE
  const TWO_64: nat := 0x1_0000_0000_0000_0000

  // ---- searching ----

  predicate OccursAt(s: string, p: string, i: int) {
    0 <= i && i + |p| <= |s| && s[i..i + |p|] == p
  }

  /** std::string::find: the least position not before from where p occurs. */
  function Find(s: string, p: string, from: int): (r: int)
    ensures r == -1 || (0 <= from <= r <= r + |p| <= |s| && OccursAt(s, p, r))
    ensures forall i :: 0 <= from <= i && OccursAt(s, p, i) ==> 0 <= r <= i
    decreases |s| - from
  {
    if from < 0 || from + |p| > |s| then -1
    else if s[from..from + |p|] == p then from
    else Find(s, p, from + 1)
  }

  predicate Contains(s: string, p: string) {
    Find(s, p, 0) >= 0
  }

  /** std::string::substr(pos, count) for pos <= size(). */
  function Substr(s: string, pos: nat, count: int): (r: string)
    requires pos <= |s|
    ensures |r| <= |s| - pos && r == s[pos..pos + |r|]
  {
    if count < 0 || pos + count > |s| then s[pos..] else s[pos..pos + count]
  }

  lemma Mismatch(s: string, p: string, i: int, j: nat)
    requires j < |p| && 0 <= i && i + j < |s| && s[i + j] != p[j]
    ensures !OccursAt(s, p, i)
  {
    if i + |p| <= |s| { assert s[i..i + |p|][j] == s[i + j]; }
  }

  lemma NotInside(s: string, p: string, i: int)
    requires !(0 <= i && i + |p| <= |s|)
    ensures !OccursAt(s, p, i)
  {
  }

  lemma OccursInMiddle(a: string, p: string, b: string)
    ensures OccursAt(a + p + b, p, |a|)
  {
    assert (a + p + b)[|a|..|a| + |p|] == p;
  }

  /** Positions inside a piece of a longer string. */
  lemma OccursShift(a: string, s: string, b: string, p: string, i: int)
    requires 0 <= i && i + |p| <= |s|
    ensures OccursAt(a + s + b, p, |a| + i) <==> OccursAt(s, p, i)
  {
    assert (a + s + b)[|a| + i..|a| + i + |p|] == s[i..i + |p|];
  }

  lemma OccursInPrefix(s: string, p: string, k: nat, i: int)
    requires k <= |s| && 0 <= i && i + |p| <= k
    ensures OccursAt(s[..k], p, i) <==> OccursAt(s, p, i)
  {
    assert s == "" + s[..k] + s[k..];
    OccursShift("", s[..k], s[k..], p, i);
  }

  /** What a search finds in a prefix: the same first occurrence, once it fits. */
  lemma FindInPrefix(s: string, p: string, k: nat)
    requires k <= |s|
    ensures Find(s[..k], p, 0) ==
            if Find(s, p, 0) >= 0 && Find(s, p, 0) + |p| <= k then Find(s, p, 0) else -1
  {
    hide Find, OccursAt;
    var whole, part := Find(s, p, 0), Find(s[..k], p, 0);
    if part >= 0 { OccursInPrefix(s, p, k, part); }
    if 0 <= whole && whole + |p| <= k { OccursInPrefix(s, p, k, whole); }
  }

  /** The first occurrence is stable under appending. */
  lemma FindStable(s: string, t: string, p: string)
    requires Find(s, p, 0) >= 0
    ensures Find(s + t, p, 0) == Find(s, p, 0)
  {
    hide Find;
    FindInPrefix(s + t, p, |s|);
    assert (s + t)[..|s|] == s;
    var r := Find(s, p, 0);
    assert s + t == "" + s + t;
    OccursShift("", s, t, p, r);
  }

  /** Searching from a position is searching in the suffix. */
  lemma FindInSuffix(s: string, p: string, from: nat)
    requires from <= |s|
    ensures Find(s, p, from) ==
            if Find(s[from..], p, 0) >= 0 then from + Find(s[from..], p, 0) else -1
  {
    hide Find;
    forall i | 0 <= i && i + |p| <= |s| - from
      ensures OccursAt(s[from..], p, i) <==> OccursAt(s, p, from + i)
    {
      assert s == s[..from] + s[from..] + "";
      OccursShift(s[..from], s[from..], "", p, i);
    }
    var a, b := Find(s, p, from), Find(s[from..], p, 0);
    if a >= 0 { assert OccursAt(s[from..], p, a - from); }
    if b >= 0 { assert OccursAt(s, p, from + b); }
  }

  /** A separator without the character c is found only outside a run of c-free text. */
  lemma FindAfterFreeText(a: string, b: string, p: string)
    requires |p| > 0 && p[0] !in a
    ensures Find(a + b, p, 0) == if Find(b, p, 0) >= 0 then |a| + Find(b, p, 0) else -1
  {
    hide Find;
    assert (a + b)[|a|..] == b;
    FindInSuffix(a + b, p, |a|);
    forall i | OccursAt(a + b, p, i) ensures i >= |a| {
      assert (a + b)[i..i + |p|][0] == (a + b)[i];
    }
    var r := Find(a + b, p, 0);
    if r >= 0 { assert OccursAt(a + b, p, r); }
  }

  /** Searching for a single character. */
  lemma FindChar(s: string, c: char)
    ensures Find(s, [c], 0) < 0 ==> c !in s
    ensures Find(s, [c], 0) >= 0 ==> s[Find(s, [c], 0)] == c && c !in s[..Find(s, [c], 0)]
  {
    hide Find;
    forall i | 0 <= i < |s| ensures s[i] == c <==> OccursAt(s, [c], i) {
      assert s[i..i + 1] == [s[i]];
    }
  }

  lemma FirstBlankAt(line: string, n: nat)
    requires n < |line| && line[n] == ' ' && forall i :: 0 <= i < n ==> line[i] != ' '
    ensures Find(line, " ", 0) == n
  {
    hide Find;
    assert OccursAt(line, " ", n) by { assert line[n..n + 1] == " "; }
    forall i | 0 <= i < n ensures !OccursAt(line, " ", i) { Mismatch(line, " ", i, 0); }
  }

  // ---- trimming ----

  function TrimLeft(s: string, blanks: set<char>): (r: string)
    ensures |r| <= |s| && r == s[|s| - |r|..]
    ensures r != "" ==> r[0] !in blanks
  {
    if s != "" && s[0] in blanks then TrimLeft(s[1..], blanks) else s
  }

  function TrimRight(s: string, blanks: set<char>): (r: string)
    ensures |r| <= |s| && r == s[..|r|]
    ensures r != "" ==> r[|r| - 1] !in blanks
  {
    if s != "" && s[|s| - 1] in blanks then TrimRight(s[..|s| - 1], blanks) else s
  }

  /** The text between the first and the last character outside blanks. */
  function Trim(s: string, blanks: set<char>): (r: string)
    ensures Trimmed(r, blanks)
    ensures Trimmed(s, blanks) ==> r == s
    ensures |r| <= |s| && forall c :: c in r ==> c in s
  {
    TrimRight(TrimLeft(s, blanks), blanks)
  }

  predicate Trimmed(s: string, blanks: set<char>) {
    s != "" ==> s[0] !in blanks && s[|s| - 1] !in blanks
  }

  lemma {:induction false} TrimLeftPadded(a: string, s: string, blanks: set<char>)
    requires (forall c :: c in a ==> c in blanks) && (s != "" ==> s[0] !in blanks)
    ensures TrimLeft(a + s, blanks) == s
  {
    if a == "" {
      assert a + s == s;
    } else {
      assert (a + s)[1..] == a[1..] + s && (a + s)[0] == a[0];
      TrimLeftPadded(a[1..], s, blanks);
    }
  }

  lemma {:induction false} TrimRightPadded(s: string, b: string, blanks: set<char>)
    requires (forall c :: c in b ==> c in blanks) && (s != "" ==> s[|s| - 1] !in blanks)
    ensures TrimRight(s + b, blanks) == s
  {
    if b == "" {
      assert s + b == s;
    } else {
      assert (s + b)[..|s + b| - 1] == s + b[..|b| - 1] && (s + b)[|s + b| - 1] == b[|b| - 1];
      TrimRightPadded(s, b[..|b| - 1], blanks);
    }
  }

  /** Trimming takes off exactly the blanks around a text. */
  lemma TrimPadded(a: string, s: string, b: string, blanks: set<char>)
    requires (forall c :: c in a ==> c in blanks) && (forall c :: c in b ==> c in blanks) && Trimmed(s, blanks)
    ensures Trim(a + s + b, blanks) == s
  {
    hide TrimLeft, TrimRight;
    if s == "" {
      assert a + s + b == (a + b) + "";
      TrimLeftPadded(a + b, "", blanks);
      TrimRightPadded("", "", blanks);
    } else {
      assert a + s + b == a + (s + b) && (s + b)[0] == s[0];
      TrimLeftPadded(a, s + b, blanks);
      TrimRightPadded(s, b, blanks);
    }
  }

  predicate Free(s: string, cs: set<char>) {
    forall c :: c in s ==> c !in cs
  }

  // ---- numbers in text ----

  predicate IsDigit(c: char) { '0' <= c <= '9' }

  function DigitChar(d: nat): (c: char)
    requires d < 10
    ensures IsDigit(c) && c as int == '0' as int + d
  {
    ('0' as int + d) as char
  }

  function DigitOf(c: char): nat
    requires IsDigit(c)
  {
    c as int - '0' as int
  }

  /** Decimal notation, as operator<< prints it. */
  function Dec(n: nat): (r: string)
    ensures |r| > 0 && forall c :: c in r ==> IsDigit(c)
    ensures r[0] == '0' ==> n == 0
    ensures n == 0 <==> r == "0"
  {
    if n < 10 then [DigitChar(n)] else Dec(n / 10) + [DigitChar(n % 10)]
  }

  function DecInt(n: int): (r: string)
    ensures |r| > 0 && forall c :: c in r ==> IsDigit(c) || c == '-'
  {
    if n < 0 then "-" + Dec(-n) else Dec(n)
  }

  function Pow10(n: nat): (p: nat)
    ensures p > 0
  {
    if n == 0 then 1 else 10 * Pow10(n - 1)
  }

  /** The value of the leading digits of s, on top of acc. */
  function DigitsValue(s: string, acc: nat): nat {
    if s != "" && IsDigit(s[0]) then DigitsValue(s[1..], 10 * acc + DigitOf(s[0])) else acc
  }

  lemma {:induction false} DigitsValueAppend(a: string, b: string, acc: nat)
    requires forall c :: c in a ==> IsDigit(c)
    ensures DigitsValue(a + b, acc) == DigitsValue(b, DigitsValue(a, acc))
  {
    if a == "" {
      assert a + b == b;
    } else {
      assert (a + b)[1..] == a[1..] + b;
      DigitsValueAppend(a[1..], b, 10 * acc + DigitOf(a[0]));
    }
  }

  /** Decimal notation is read back, whatever non-digit follows it. */
  lemma {:induction false} DecValue(n: nat, rest: string)
    requires rest == "" || !IsDigit(rest[0])
    ensures DigitsValue(Dec(n) + rest, 0) == n
  {
    DigitsValueAppend(Dec(n), rest, 0);
    if n < 10 {
      assert Dec(n) == [DigitChar(n)] && Dec(n)[1..] == "";
    } else {
      DecValue(n / 10, "");
      assert Dec(n / 10) + "" == Dec(n / 10);
      DigitsValueAppend(Dec(n / 10), [DigitChar(n % 10)], 0);
      assert [DigitChar(n % 10)][1..] == "";
    }
  }

  function Clamp(v: int): int {
    if v > 0x7FFF_FFFF_FFFF_FFFF then 0x7FFF_FFFF_FFFF_FFFF
    else if v < -0x8000_0000_0000_0000 then -0x8000_0000_0000_0000
    else v
  }

  /** Conversion of a long to a 32-bit int. */
  function ToInt32(v: int): (r: int)
    ensures -0x8000_0000 <= r < 0x8000_0000
  {
    (v + 0x8000_0000) % 0x1_0000_0000 - 0x8000_0000
  }

  /** atoi: strtol in base ten, saturating at long, then cut to int. */
  function Atoi(s: string): (r: int)
    ensures -0x8000_0000 <= r < 0x8000_0000
  {
    var t := TrimLeft(s, SPACES);
    if t != "" && t[0] == '-' then ToInt32(Clamp(0 - DigitsValue(t[1..], 0)))
    else if t != "" && t[0] == '+' then ToInt32(Clamp(DigitsValue(t[1..], 0)))
    else ToInt32(Clamp(DigitsValue(t, 0)))
  }

  /** atoi undoes operator<< on every int. */
  lemma AtoiOfDec(n: int)
    requires -0x8000_0000 <= n < 0x8000_0000
    ensures Atoi(DecInt(n)) == n
  {
    hide Dec, DigitsValue;
    var t := DecInt(n);
    assert t[0] in t && t[0] !in SPACES;
    DecValue(if n < 0 then -n else n, "");
    if n < 0 {
      assert t[1..] == Dec(-n) == Dec(-n) + "";
    } else {
      assert t == Dec(n) + "";
    }
  }

  lemma AtoiPlain(s: string)
    requires s != "" && IsDigit(s[0])
    ensures Atoi(s) == ToInt32(Clamp(DigitsValue(s, 0)))
  {
    hide DigitsValue;
    assert s[0] !in SPACES;
  }

  /** Every printed number, read back as far as an int holds it. */
  lemma AtoiOfNat(n: nat)
    ensures Atoi(Dec(n)) == ToInt32(Clamp(n))
  {
    hide Dec, DigitsValue, Atoi, Clamp, ToInt32;
    var d := Dec(n);
    assert d[0] in d && d + "" == d;
    AtoiPlain(d);
    DecValue(n, "");
  }

  /** The conversion changes nothing but multiples of 2^32. */
  lemma ToInt32Congruent(v: int)
    ensures (v - ToInt32(v)) % 0x1_0000_0000 == 0
  {
    var q := (v + 0x8000_0000) / 0x1_0000_0000;
    assert v - ToInt32(v) == q * 0x1_0000_0000;
  }

  lemma AtoiTrimmed(s: string, t: string)
    requires TrimLeft(s, SPACES) == t != ""
    ensures t[0] == '-' ==> Atoi(s) == ToInt32(Clamp(0 - DigitsValue(t[1..], 0)))
    ensures t[0] == '+' ==> Atoi(s) == ToInt32(Clamp(DigitsValue(t[1..], 0)))
    ensures t[0] != '-' && t[0] != '+' ==> Atoi(s) == ToInt32(Clamp(DigitsValue(t, 0)))
  {
    hide DigitsValue, Clamp, ToInt32, TrimLeft;
  }

  lemma SignFirst(sign: string, digits: string)
    requires sign in {"", "+", "-"} && digits != "" && IsDigit(digits[0])
    ensures var t := sign + digits;
            t != "" && t[0] !in SPACES && (if sign == "" then t == digits else t[0] == sign[0] && t[1..] == digits)
  {
  }

  /** atoi skips leading space, takes one sign, reads digits up to the first other character, and cuts. */
  lemma AtoiExactly(space: string, sign: string, n: nat, rest: string)
    requires (forall c :: c in space ==> c in SPACES) && sign in {"", "+", "-"}
    requires rest == "" || !IsDigit(rest[0])
    ensures Atoi(space + sign + Dec(n) + rest) == ToInt32(Clamp(if sign == "-" then 0 - n else n))
  {
    hide Dec, DigitsValue, Clamp, ToInt32, TrimLeft, Atoi;
    var digits := Dec(n) + rest;
    assert space + sign + Dec(n) + rest == space + (sign + digits);
    assert Dec(n)[0] in Dec(n) && digits[0] == Dec(n)[0];
    SignFirst(sign, digits);
    TrimLeftPadded(space, sign + digits, SPACES);
    AtoiTrimmed(space + (sign + digits), sign + digits);
    DecValue(n, rest);
  }

  /** Without a digit there it is 0. */
  lemma AtoiOfNoNumber(s: string)
    requires s == "" || (s[0] !in SPACES && s[0] !in {'+', '-'} && !IsDigit(s[0]))
    ensures Atoi(s) == 0
  {
  }

  lemma SmallInt(n: nat)
    requires n < 0x8000_0000
    ensures ToInt32(Clamp(n)) == n
  {
  }

  /** Text of a given length. */
  function Filler(n: nat): (s: string)
    ensures |s| == n && forall i :: 0 <= i < n ==> s[i] == 'x'
  {
    seq(n, _ => 'x')
  }
}
