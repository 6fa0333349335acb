/** Cutting strings at a separator, and decimal numerals. */
module Text {
  import opened Wrappers

  /** How many characters come before the first `c`. */
  function Until(s: string, c: char): (n: nat)
    ensures n <= |s| && c !in s[..n] && (n < |s| ==> s[n] == c)
  {
    if s == [] || s[0] == c then 0 else 1 + Until(s[1..], c)
  }

  lemma {:induction false} UntilAt(field: string, c: char, rest: string)
    requires c !in field
    ensures Until(field + [c] + rest, c) == |field| && Until(field, c) == |field|
  {
    if field != [] {
      assert (field + [c] + rest)[1..] == field[1..] + [c] + rest;
      UntilAt(field[1..], c, rest);
    }
  }

  // ---------- decimal numerals ----------

  predicate IsDigit(c: char) { '0' <= c <= '9' }

  predicate IsDigits(s: string) {
    forall i :: 0 <= i < |s| ==> IsDigit(s[i])
  }

  function DigitValue(c: char): (d: nat)
    requires IsDigit(c)
    ensures d < 10
  {
    c as int - '0' as int
  }

  function Digit(d: nat): (c: char)
    requires d < 10
    ensures IsDigit(c) && DigitValue(c) == d
  {
    (d + '0' as int) as char
  }

  function Value(s: string): nat
    requires IsDigits(s)
  {
    if s == [] then 0 else Value(s[..|s| - 1]) * 10 + DigitValue(s[|s| - 1])
  }

  /** strconv.Itoa on a natural number. */
  function Itoa(n: nat): string {
    if n < 10 then [Digit(n)] else Itoa(n / 10) + [Digit(n % 10)]
  }

  /** The numeral has no leading zero. */
  predicate IsCanonical(s: string) {
    s != [] && IsDigits(s) && (|s| > 1 ==> s[0] != '0')
  }

  lemma {:induction false} ItoaIsCanonical(n: nat)
    ensures IsCanonical(Itoa(n)) && Value(Itoa(n)) == n
    ensures n != 0 ==> Itoa(n)[0] != '0'
  {
    if n < 10 {
      assert [Digit(n)][..0] == [];
    } else {
      ItoaIsCanonical(n / 10);
      var s := Itoa(n / 10);
      assert Itoa(n)[..|s|] == s;
    }
  }

  lemma {:induction false} CanonicalIsItoa(s: string)
    requires IsCanonical(s)
    ensures Itoa(Value(s)) == s
    ensures s[0] != '0' ==> Value(s) > 0
  {
    var n := |s| - 1;
    assert s == s[..n] + [s[n]];
    assert Digit(DigitValue(s[n])) == s[n];
    if n == 0 {
      assert Value(s[..0]) == 0;
    } else {
      CanonicalIsItoa(s[..n]);
      var v, d := Value(s[..n]), DigitValue(s[n]);
      assert Value(s) == v * 10 + d && v > 0;
      assert (v * 10 + d) / 10 == v && (v * 10 + d) % 10 == d;
    }
  }

  /** The values of Go's int on a 64-bit machine. */
  predicate FitsInt(v: int) {
    -0x8000_0000_0000_0000 <= v < 0x8000_0000_0000_0000
  }

  /** strconv.Atoi: an optional sign and at least one digit, in range. */
  function Atoi(s: string): Option<int> {
    var digits := if s != [] && (s[0] == '-' || s[0] == '+') then s[1..] else s;
    if digits == [] || !IsDigits(digits) then None
    else
      var magnitude: int := Value(digits);
      var v := if s[0] == '-' then -magnitude else magnitude;
      if FitsInt(v) then Some(v) else None
  }

  lemma AtoiOfItoa(n: nat)
    requires FitsInt(n)
    ensures Atoi(Itoa(n)) == Some(n)
  {
    ItoaIsCanonical(n);
  }

  /** A number is read as itself, as far as 64 bits go. */
  lemma AtoiPlain(n: nat, digits: string)
    requires digits == Itoa(n)
    ensures Atoi(digits) == if n <= 9223372036854775807 then Some(n) else None
  {
    ItoaIsCanonical(n);
  }

  lemma AtoiPlus(n: nat, digits: string, s: string)
    requires digits == Itoa(n) && s == "+" + digits
    ensures Atoi(s) == if n <= 9223372036854775807 then Some(n) else None
  {
    ItoaIsCanonical(n);
    assert s[1..] == digits;
  }

  /** And with its sign. */
  lemma AtoiMinus(n: nat, digits: string, s: string)
    requires digits == Itoa(n) && s == "-" + digits
    ensures Atoi(s).Some? <==> n <= 9223372036854775808
    ensures Atoi(s).Some? ==> Atoi(s).value + n == 0
  {
    ItoaIsCanonical(n);
    assert s[1..] == digits;
  }

  /** Nothing but digits, after an optional sign, is a number. */
  lemma NumbersAreDigits(s: string)
    requires Atoi(s).Some?
    ensures s != [] && (forall i :: 0 < i < |s| ==> '0' <= s[i] <= '9')
    ensures '0' <= s[0] <= '9' || (|s| > 1 && (s[0] == '+' || s[0] == '-'))
  {
    if s[0] == '-' || s[0] == '+' {
      assert forall i :: 0 < i < |s| ==> s[i] == s[1..][i - 1];
    }
  }

  // ---------- white space ----------

  /** unicode.IsSpace. */
  predicate IsSpace(c: char) {
    || c in "\t\n\U{B}\U{C}\r \U{85}\U{A0}\U{1680}\U{2028}\U{2029}\U{202F}\U{205F}\U{3000}"
    || '\U{2000}' <= c <= '\U{200A}'
  }

  function TrimLeft(s: string): string {
    if s != [] && IsSpace(s[0]) then TrimLeft(s[1..]) else s
  }

  function TrimRight(s: string): string {
    if s != [] && IsSpace(s[|s| - 1]) then TrimRight(s[..|s| - 1]) else s
  }

  /** strings.TrimSpace. */
  function TrimSpace(s: string): string { TrimRight(TrimLeft(s)) }

  /** The code points that Unicode calls white space. */
  predicate IsBlank(c: char) {
    || 9 <= c as int <= 13 || 0x2000 <= c as int <= 0x200a
    || c as int in {0x20, 0x85, 0xa0, 0x1680, 0x2028, 0x2029, 0x202f, 0x205f, 0x3000}
  }

  predicate AreSpaces(s: string) {
    forall i :: 0 <= i < |s| ==> IsBlank(s[i])
  }

  lemma SpaceIsBlank(c: char)
    ensures IsSpace(c) <==> IsBlank(c)
  {
  }

  lemma {:induction false} TrimLeftPadded(left: string, s: string)
    requires AreSpaces(left)
    ensures TrimLeft(left + s) == TrimLeft(s)
  {
    if left == [] {
      assert left + s == s;
    } else {
      SpaceIsBlank(left[0]);
      assert (left + s)[1..] == left[1..] + s;
      TrimLeftPadded(left[1..], s);
    }
  }

  lemma {:induction false} TrimRightPadded(s: string, right: string)
    requires AreSpaces(right)
    ensures TrimRight(s + right) == TrimRight(s)
  {
    if right == [] {
      assert s + right == s;
    } else {
      var n := |right| - 1;
      SpaceIsBlank(right[n]);
      assert (s + right)[..|s + right| - 1] == s + right[..n];
      TrimRightPadded(s, right[..n]);
    }
  }

  /** What is left of a text with spaces behind it: spaces, or what is left of the text, with them. */
  lemma {:induction false} TrimLeftThenRight(s: string, right: string)
    requires AreSpaces(right)
    ensures TrimRight(TrimLeft(s + right)) == TrimRight(TrimLeft(s))
  {
    if s == [] {
      assert s + right == right + s && right + [] == right;
      TrimLeftPadded(right, s);
    } else if IsSpace(s[0]) {
      assert (s + right)[1..] == s[1..] + right;
      TrimLeftThenRight(s[1..], right);
    } else {
      TrimRightPadded(s, right);
    }
  }

  /** White space on either side of a text is trimmed away. */
  lemma PaddingIsTrimmed(left: string, s: string, right: string)
    requires AreSpaces(left) && AreSpaces(right)
    ensures TrimSpace(left + s + right) == TrimSpace(s)
  {
    Regroup(left, s, right);
    TrimLeftPadded(left, s + right);
    TrimLeftThenRight(s, right);
  }

  lemma Regroup(a: string, b: string, c: string)
    ensures a + b + c == a + (b + c)
  {
  }

  /** strings.TrimPrefix with a slash. */
  function TrimSlash(s: string): string {
    if s != [] && s[0] == '/' then s[1..] else s
  }
}
