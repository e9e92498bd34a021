/** itoa and its in-place reverse. */
module Itoa {
  import opened Words

  const BASE_BIN: nat := 2
  const BASE_HEX: nat := 16

  function Reversed<T>(s: seq<T>): (r: seq<T>)
    ensures |r| == |s|
    ensures forall k :: 0 <= k < |s| ==> r[k] == s[|s| - 1 - k]
  {
    seq(|s|, (k: nat) requires k < |s| => s[|s| - 1 - k])
  }

  /** reverse: the first `length` characters. */
  method Reverse(str: array<char>, length: nat)
    requires length <= str.Length
    modifies str
    ensures str[..length] == Reversed(old(str[..length])) && str[length..] == old(str[length..])
  {
    var start, end := 0, length - 1;
    while start < end
      invariant 0 <= start <= length && end == length - 1 - start && start <= end + 2
      invariant forall k :: 0 <= k < start ==> str[k] == old(str[length - 1 - k]) && str[length - 1 - k] == old(str[k])
      invariant forall k :: start <= k <= end ==> str[k] == old(str[k])
      invariant forall k :: length <= k < str.Length ==> str[k] == old(str[k])
    {
      str[start], str[end] := str[end], str[start];
      start := start + 1;
      end := end - 1;
    }
    forall k | 0 <= k < length ensures str[k] == old(str[length - 1 - k]) {
      if k > end && k >= start { assert str[length - 1 - (length - 1 - k)] == old(str[length - 1 - k]); }
    }
  }

  function DigitChar(d: nat): char
    requires d < 36
  {
    if d > 9 then (d - 10) as char + 'a' else d as char + '0'
  }

  function DigitValue(c: char): nat {
    if '0' <= c <= '9' then (c - '0') as nat else if 'a' <= c <= 'z' then (c - 'a') as nat + 10 else 0
  }

  lemma DivMod(n: nat, base: nat)
    requires base >= 2
    ensures n == n / base * base + n % base && 0 <= n / base <= n / 2 && n % base < base
    ensures n / base == 0 ==> n % base == n
  {
    var q := n / base;
    assert n == q * base + n % base;
    assert q * 2 <= q * base;
  }

  /** The digits, lowest first. */
  function Digits(n: nat, base: nat): (r: seq<char>)
    requires 2 <= base <= 36
  {
    if n == 0 then []
    else
      DivMod(n, base);
      [DigitChar(n % base)] + Digits(n / base, base)
  }

  /** The prefix, backwards. */
  function Suffix(base: nat): seq<char> {
    if base == BASE_HEX then ['x', '0'] else if base == BASE_BIN then ['b', '0'] else []
  }

  /** What itoa writes, without the terminator. */
  function Text(n: nat, base: nat): seq<char>
    requires 2 <= base <= 36
  {
    if n == 0 then ['0'] else Reversed(Digits(n, base) + Suffix(base))
  }

  /** itoa's loop. */
  method WriteDigits(num: nat, str: array<char>, base: nat) returns (i: nat)
    requires 2 <= base <= 36 && |Digits(num, base)| < str.Length
    modifies str
    ensures i == |Digits(num, base)| && str[..i] == Digits(num, base) && str[i..] == old(str[i..])
  {
    i := 0;
    var rest: nat := num;
    while rest != 0
      invariant i + |Digits(rest, base)| < str.Length
      invariant str[..i] + Digits(rest, base) == Digits(num, base)
      invariant str[i..] == old(str[i..])
      decreases rest
    {
      DivMod(rest, base);
      ghost var before, tail := str[..i], Digits(rest / base, base);
      var rem := rest % base;
      str[i] := if rem > 9 then (rem - 10) as char + 'a' else rem as char + '0';
      assert str[..i + 1] == before + [DigitChar(rem)];
      assert before + ([DigitChar(rem)] + tail) == before + [DigitChar(rem)] + tail;
      assert str[i + 1..] == old(str[i..])[1..];
      i := i + 1;
      rest := rest / base;
    }
  }

  /** The prefix, written backwards behind the digits. */
  method WriteSuffix(str: array<char>, base: nat, start: nat) returns (i: nat)
    requires start + |Suffix(base)| < str.Length
    modifies str
    ensures i == start + |Suffix(base)| && str[..i] == old(str[..start]) + Suffix(base) && str[i..] == old(str[i..])
  {
    i := start;
    if base == BASE_HEX {
      str[i], str[i + 1] := 'x', '0';
      i := i + 2;
    }
    if base == BASE_BIN {
      str[i], str[i + 1] := 'b', '0';
      i := i + 2;
    }
  }

  /** The terminator, then the characters before it the right way round. */
  method Finish(str: array<char>, i: nat)
    requires i < str.Length
    modifies str
    ensures str[..i] == Reversed(old(str[..i])) && str[i] == '\0' && str[i + 1..] == old(str[i..])[1..]
  {
    str[i] := '\0';
    ghost var tail := str[i..];
    Reverse(str, i);
    assert str[i] == tail[0] && str[i + 1..] == tail[1..];
  }

  /** itoa from its loop on. */
  method WriteNumber(num: nat, str: array<char>, base: nat)
    requires 0 < num < WORD && 2 <= base <= 36 && |Digits(num, base) + Suffix(base)| < str.Length
    modifies str
    ensures var s := Digits(num, base) + Suffix(base);
      Written(str, Reversed(s)) && str[|s| + 1..] == old(str[|s| + 1..])
  {
    ghost var s := Digits(num, base) + Suffix(base);
    ghost var tail := str[|s|..];
    var i := WriteDigits(num, str, base);
    i := WriteSuffix(str, base, i);
    assert str[..i] == s && str[i..] == tail;
    Finish(str, i);
    assert str[i + 1..] == tail[1..];
  }

  /** The buffer holds this text and the terminator. */
  ghost predicate Written(str: array<char>, text: seq<char>)
    reads str
  {
    |text| < str.Length && str[..|text|] == text && str[|text|] == '\0'
  }

  method Itoa(num: nat, str: array<char>, base: nat)
    requires num < WORD && 2 <= base <= 36 && |Text(num, base)| < str.Length
    modifies str
    ensures Written(str, Text(num, base)) && str[|Text(num, base)| + 1..] == old(str[|Text(num, base)| + 1..])
  {
    if num == 0 {
      str[0] := '0';
      str[1] := '\0';
    } else {
      WriteNumber(num, str, base);
    }
  }

  // ----- reading it back

  /** A number in positional notation, highest digit first. */
  function Value(s: seq<char>, base: nat): nat {
    if s == [] then 0 else Value(s[..|s| - 1], base) * base + DigitValue(s[|s| - 1])
  }

  /** Without the prefix of base 16 or 2. */
  function Strip(s: seq<char>, base: nat): seq<char> {
    if |s| >= 2 && ((base == BASE_HEX && s[..2] == "0x") || (base == BASE_BIN && s[..2] == "0b")) then s[2..] else s
  }

  lemma DigitRoundTrip(d: nat)
    requires d < 36
    ensures DigitValue(DigitChar(d)) == d && (DigitChar(d) == '0' <==> d == 0)
  {
  }

  lemma {:induction false} DigitsValue(n: nat, base: nat)
    requires 2 <= base <= 36
    ensures Value(Reversed(Digits(n, base)), base) == n
  {
    if n != 0 {
      DivMod(n, base);
      var q, d := n / base, n % base;
      var rest, all := Digits(q, base), Reversed(Digits(n, base));
      DigitsValue(q, base);
      DigitRoundTrip(d);
      assert all[..|all| - 1] == Reversed(rest) && all[|all| - 1] == DigitChar(d);
    }
  }

  /** The highest digit is not zero. */
  lemma {:induction false} LeadingDigit(n: nat, base: nat)
    requires 2 <= base <= 36 && n > 0
    ensures Digits(n, base) != [] && Digits(n, base)[|Digits(n, base)| - 1] != '0'
  {
    DivMod(n, base);
    var q, d := n / base, n % base;
    DigitRoundTrip(d);
    assert Digits(n, base) == [DigitChar(d)] + Digits(q, base);
    if q != 0 { LeadingDigit(q, base); }
  }

  function Pow2(k: nat): nat { if k == 0 then 1 else 2 * Pow2(k - 1) }

  lemma {:induction false} FewDigits(n: nat, base: nat, k: nat)
    requires 2 <= base <= 36 && n < Pow2(k)
    ensures |Digits(n, base)| <= k
  {
    if n != 0 {
      DivMod(n, base);
      FewDigits(n / base, base, k - 1);
    }
  }

  /** A digit of the base, in lower case. */
  predicate IsDigit(c: char, base: nat) {
    ('0' <= c <= '9' && (c - '0') as nat < base) || ('a' <= c <= 'z' && (c - 'a') as nat + 10 < base)
  }

  lemma {:induction false} DigitsAreDigits(n: nat, base: nat)
    requires 2 <= base <= 36
    ensures forall k :: 0 <= k < |Digits(n, base)| ==> IsDigit(Digits(n, base)[k], base)
  {
    if n != 0 {
      DivMod(n, base);
      DigitsAreDigits(n / base, base);
    }
  }

  lemma Unprefixed(n: nat, base: nat)
    requires 2 <= base <= 36 && n > 0
    ensures Strip(Text(n, base), base) == Reversed(Digits(n, base))
  {
    var d, s := Digits(n, base), Text(n, base);
    LeadingDigit(n, base);
    if base == BASE_HEX || base == BASE_BIN {
      assert s[0] == '0' && s[2..] == Reversed(d);
    } else {
      assert s == Reversed(d);
    }
  }

  lemma Prefixed(n: nat, base: nat)
    requires 2 <= base <= 36 && n > 0
    ensures Text(n, base) == (if base == 16 then "0x" else if base == 2 then "0b" else "") + Reversed(Digits(n, base))
  {
  }

  /**
   The text of every 32-bit number is "0x" in base 16 or "0b" in base 2 and then digits of the
   base, which read back as the number and have no leading zero.  Zero is "0" in every base.  The
   text fits 35 bytes with its terminator.
   */
  lemma ItoaRoundTrip(n: nat, base: nat)
    requires n < WORD && 2 <= base <= 36
    ensures var s := Text(n, base);
      && Value(Strip(s, base), base) == n
      && (n > 0 ==> s == (if base == 16 then "0x" else if base == 2 then "0b" else "") + Strip(s, base))
      && (n > 0 ==> Strip(s, base) != [] && Strip(s, base)[0] != '0')
      && (forall k :: 0 <= k < |Strip(s, base)| ==> IsDigit(Strip(s, base)[k], base))
      && (n == 0 ==> s == "0")
      && |s| + 1 <= 35
  {
    if n == 0 {
      assert Strip("0", base) == "0" && "0"[..0] == [];
      assert Value("0", base) == 0;
    } else {
      Unprefixed(n, base);
      Prefixed(n, base);
      DigitsAreDigits(n, base);
      DigitsValue(n, base);
      LeadingDigit(n, base);
      assert Pow2(32) == WORD by { PowersOfTwo(); }
      FewDigits(n, base, 32);
    }
  }

  lemma PowersOfTwo()
    ensures Pow2(32) == WORD
  {
    assert Pow2(8) == 0x100;
    assert Pow2(16) == 0x1_0000;
    assert Pow2(24) == 0x100_0000;
  }

  /** Different numbers are written differently. */
  lemma ItoaInjective(n: nat, m: nat, base: nat)
    requires n < WORD && m < WORD && 2 <= base <= 36 && Text(n, base) == Text(m, base)
    ensures n == m
  {
    ItoaRoundTrip(n, base);
    ItoaRoundTrip(m, base);
  }
}
