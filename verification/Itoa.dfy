/** programs/stdlib/src/stdlib.c: decimal text of a signed 32-bit number. */
module Itoa {
  import opened Strings

  const TEXT_SIZE := 12

  type Int32 = i: int | -0x8000_0000 <= i < 0x8000_0000

  /** C's / and %, which truncate toward zero. */
  function Quotient(a: int, b: int): int
    requires b > 0
  {
    if a >= 0 then a / b else -(-a / b)
  }

  function Remainder(a: int, b: int): int
    requires b > 0
  {
    a - Quotient(a, b) * b
  }

  // --- Decimal notation ---------------------------------------------------------------------

  function Digit(d: nat): char
    requires d < 10
  {
    ('0' as int + d) as char
  }

  predicate IsDigit(c: char) {
    '0' <= c <= '9'
  }

  function DigitValue(c: char): (d: nat)
    requires IsDigit(c)
    ensures d < 10 && Digit(d) == c
  {
    c as int - '0' as int
  }

  predicate IsDigits(s: seq<char>) {
    forall k :: 0 <= k < |s| ==> IsDigit(s[k])
  }

  /** The number a string of digits stands for. */
  function ValueOf(s: seq<char>): nat
    requires IsDigits(s)
  {
    if s == [] then 0 else 10 * ValueOf(s[..|s| - 1]) + DigitValue(s[|s| - 1])
  }

  /** No digits are superfluous: a leading zero stands alone. */
  predicate Canonical(s: seq<char>) {
    s != [] && IsDigits(s) && (s[0] == '0' ==> |s| == 1)
  }

  predicate IsNumeral(s: seq<char>) {
    Canonical(s) || (|s| > 1 && s[0] == '-' && Canonical(s[1..]) && s[1] != '0')
  }

  function NumberOf(s: seq<char>): int
    requires IsNumeral(s)
  {
    var n: int := ValueOf(if s[0] == '-' then s[1..] else s);
    if s[0] == '-' then -n else n
  }

  function Pow10(n: nat): nat {
    if n == 0 then 1 else 10 * Pow10(n - 1)
  }

  /** The digits in front of a numeral carry their weight. */
  lemma {:induction false} ValueOfMore(d: char, s: seq<char>)
    requires IsDigit(d) && IsDigits(s)
    ensures IsDigits([d] + s) && ValueOf([d] + s) == DigitValue(d) * Pow10(|s|) + ValueOf(s)
  {
    var t := [d] + s;
    if s == [] {
      assert t[..0] == [];
    } else {
      var before := s[..|s| - 1];
      assert t[..|t| - 1] == [d] + before;
      ValueOfMore(d, before);
      TenTimes(DigitValue(d), Pow10(|before|));
    }
  }

  lemma TenTimes(d: nat, p: nat)
    ensures d * (10 * p) == 10 * (d * p)
  {
  }

  lemma {:induction false} ValueBound(s: seq<char>)
    requires IsDigits(s)
    ensures ValueOf(s) < Pow10(|s|)
  {
    if s != [] { ValueBound(s[..|s| - 1]); }
  }

  lemma LeadingDigit(s: seq<char>)
    requires Canonical(s) && s[0] != '0'
    ensures ValueOf(s) >= Pow10(|s| - 1) >= 1
  {
    hide Pow10, ValueOf;
    assert s == [s[0]] + s[1..];
    ValueOfMore(s[0], s[1..]);
    PowerGrows(0, |s| - 1);
    AtLeastOnce(DigitValue(s[0]), Pow10(|s| - 1));
  }

  lemma AtLeastOnce(d: nat, p: nat)
    requires d >= 1
    ensures d * p >= p
  {
    assert d * p == (d - 1) * p + p;
  }

  lemma {:induction false} PowerGrows(m: nat, n: nat)
    requires m <= n
    ensures 1 <= Pow10(m) <= Pow10(n)
    decreases n
  {
    if m < n { PowerGrows(m, n - 1); } else if n > 0 { PowerGrows(m - 1, n - 1); }
  }

  /** Every number has one numeral: two numerals for it are the same string. */
  lemma NumeralIsUnique(s: seq<char>, t: seq<char>)
    requires IsNumeral(s) && IsNumeral(t) && NumberOf(s) == NumberOf(t)
    ensures s == t
  {
    if s[0] == '-' { LeadingDigit(s[1..]); }
    if t[0] == '-' { LeadingDigit(t[1..]); }
    if s[0] == '-' && t[0] == '-' {
      SameDigits(s[1..], t[1..]);
      assert s == ['-'] + s[1..] && t == ['-'] + t[1..];
    } else if s[0] != '-' && t[0] != '-' {
      SameDigits(s, t);
    }
  }

  lemma SameDigits(s: seq<char>, t: seq<char>)
    requires Canonical(s) && Canonical(t) && ValueOf(s) == ValueOf(t)
    ensures s == t
  {
    SameLength(s, t);
    SameLength(t, s);
    DigitByDigit(s, t);
  }

  lemma SameLength(s: seq<char>, t: seq<char>)
    requires Canonical(s) && Canonical(t) && ValueOf(s) == ValueOf(t)
    ensures |s| <= |t|
  {
    if |s| > |t| {
      PowerGrows(|t|, |s| - 1);
      ValueBound(t);
      LeadingDigit(s);
    }
  }

  lemma {:induction false} DigitByDigit(s: seq<char>, t: seq<char>)
    requires IsDigits(s) && IsDigits(t) && |s| == |t| && ValueOf(s) == ValueOf(t)
    ensures s == t
  {
    if s != [] {
      DigitByDigit(s[..|s| - 1], t[..|t| - 1]);
      assert s == s[..|s| - 1] + [s[|s| - 1]];
      assert t == t[..|t| - 1] + [t[|t| - 1]];
    }
  }

  // --- The code -------------------------------------------------------------------------------

  /** itoa: fills the static buffer from its end. For every int, the most negative one
      included, the string returned is the number's one numeral. */
  method IntToText(text: array<char>, number: Int32) returns (loc: nat)
    requires text.Length == TEXT_SIZE
    modifies text
    ensures loc < TEXT_SIZE - 1 && text[TEXT_SIZE - 1] == NUL
    ensures IsNumeral(text[loc..TEXT_SIZE - 1]) && NumberOf(text[loc..TEXT_SIZE - 1]) == number
    ensures StringIs(text[..], loc, text[loc..TEXT_SIZE - 1])
  {
    hide StringIs, IsNumeral, NumberOf, Written;
    text[TEXT_SIZE - 1] := NUL;
    var i: int := number;
    var neg := true;
    if i >= 0 {
      neg := false;
      i := -i;
    }
    loc := WriteDigits(text, i);
    ghost var digits := text[loc..TEXT_SIZE - 1];
    WrittenAll(-i, digits);
    if loc == TEXT_SIZE - 1 {
      loc := loc - 1;
      text[loc] := '0';
      assert text[loc..TEXT_SIZE - 1] == ['0'];
    }
    if neg {
      loc := loc - 1;
      text[loc] := '-';
      assert text[loc..TEXT_SIZE - 1] == ['-'] + digits;
    }
    Ends(text[..], loc);
  }

  /** itoa's loop, on a number that is not positive. */
  method WriteDigits(text: array<char>, number: int) returns (loc: nat)
    requires text.Length == TEXT_SIZE && -0x8000_0000 <= number <= 0
    modifies text
    ensures 1 <= loc <= TEXT_SIZE - 1 && text[TEXT_SIZE - 1] == old(text[TEXT_SIZE - 1])
    ensures Written(-number, 0, text[loc..TEXT_SIZE - 1])
  {
    hide Pow10, Written, Digit, Quotient, Remainder;
    loc := TEXT_SIZE - 1;
    var i := number;
    Begin(-i);
    assert text[loc..TEXT_SIZE - 1] == [];
    while i != 0
      invariant i <= 0 && 1 <= loc <= TEXT_SIZE - 1 && -i < Pow10(loc - 1)
      invariant text[TEXT_SIZE - 1] == old(text[TEXT_SIZE - 1])
      invariant Written(-number, -i, text[loc..TEXT_SIZE - 1])
      decreases -i
    {
      ghost var digits := text[loc..TEXT_SIZE - 1];
      RoomFor(-i, loc);
      Truncating(i);
      WrittenMore(-number, -i, digits);
      loc := loc - 1;
      text[loc] := Digit(-Remainder(i, 10));
      i := Quotient(i, 10);
      assert text[loc..TEXT_SIZE - 1] == [text[loc]] + digits;
    }
  }

  lemma Truncating(i: int)
    requires i < 0
    ensures Quotient(i, 10) == -(-i / 10) && Remainder(i, 10) == -(-i % 10) && i < Quotient(i, 10) <= 0
  {
  }

  /** Of n, the digits in s are written and the number m is still to be written before them. */
  predicate Written(n: nat, m: nat, s: seq<char>) {
    && IsDigits(s) && n == m * Pow10(|s|) + ValueOf(s)
    && (m == 0 && n > 0 ==> s != [] && s[0] != '0') && (n == 0 ==> s == [])
  }

  lemma Begin(n: nat)
    requires n <= 0x8000_0000
    ensures Written(n, n, []) && n < Pow10(10)
  {
    assert Pow10(5) == 100_000;
    assert Pow10(10) == 10_000_000_000;
  }

  lemma RoomFor(m: nat, loc: nat)
    requires 0 < m && 1 <= loc && m < Pow10(loc - 1)
    ensures loc >= 2 && m / 10 < Pow10(loc - 2)
  {
  }

  lemma WrittenMore(n: nat, m: nat, s: seq<char>)
    requires Written(n, m, s) && m > 0
    ensures Written(n, m / 10, [Digit(m % 10)] + s)
  {
    ValueOfMore(Digit(m % 10), s);
    Regroup(m, Pow10(|s|));
  }

  lemma WrittenAll(n: nat, s: seq<char>)
    requires Written(n, 0, s)
    ensures n == 0 <==> s == []
    ensures n > 0 ==> IsNumeral(s) && NumberOf(s) == n && IsNumeral(['-'] + s) && NumberOf(['-'] + s) + n == 0
    ensures IsNumeral(['0']) && NumberOf(['0']) == 0
  {
    assert (['-'] + s)[1..] == s;
    assert ['0'][..0] == [];
  }

  lemma Regroup(m: nat, p: nat)
    ensures m * p == m / 10 * (10 * p) + m % 10 * p
  {
    assert m == m / 10 * 10 + m % 10;
    assert m / 10 * 10 * p == m / 10 * (10 * p);
  }

  lemma Ends(text: seq<char>, loc: nat)
    requires |text| == TEXT_SIZE && loc < TEXT_SIZE - 1 && text[TEXT_SIZE - 1] == NUL
    requires IsNumeral(text[loc..TEXT_SIZE - 1])
    ensures StringIs(text, loc, text[loc..TEXT_SIZE - 1])
  {
    var s := text[loc..TEXT_SIZE - 1];
    forall k | 0 <= k < |s| ensures s[k] != NUL { if k > 0 && s[0] == '-' { assert s[k] == s[1..][k - 1]; } }
    StringAt(text, loc, s);
  }
}
