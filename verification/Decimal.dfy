/** Decimal numbers as the command line writes and reads them. */
module Decimal {
  import opened Bytes

  type i32 = x: int | -0x8000_0000 <= x < 0x8000_0000

  predicate IsDigit(c: char) {
    '0' <= c <= '9'
  }

  /** The characters that `std::stoi` skips in front of a number. */
  predicate IsSpace(c: char) {
    c == ' ' || 9 <= c as int <= 13
  }

  function Digit(d: int): (c: char)
    requires 0 <= d < 10
    ensures IsDigit(c)
  {
    ('0' as int + d) as char
  }

  function DigitValue(c: char): (d: nat)
    requires IsDigit(c)
    ensures d < 10
  {
    c as int - '0' as int
  }

  function SkipSpaces(s: string): string {
    if s != "" && IsSpace(s[0]) then SkipSpaces(s[1..]) else s
  }

  /** The longest prefix of digits. */
  function Digits(s: string): (d: string)
    ensures d <= s && (forall c | c in d :: IsDigit(c))
    ensures |d| < |s| ==> !IsDigit(s[|d|])
  {
    if s == "" || !IsDigit(s[0]) then "" else [s[0]] + Digits(s[1..])
  }

  function Value(d: string): nat
    requires forall c | c in d :: IsDigit(c)
  {
    if d == "" then 0 else 10 * Value(d[..|d| - 1]) + DigitValue(d[|d| - 1])
  }

  function Signed(negative: bool, n: nat): int {
    if negative then -(n as int) else n
  }

  /** `std::stoi`: spaces, a sign, digits, then anything. None is an exception: no digits, or a
      value outside int. */
  function Stoi(s: string): Option<i32> {
    var t := SkipSpaces(s);
    var negative := t != "" && t[0] == '-';
    var digits := Digits(if t != "" && (t[0] == '-' || t[0] == '+') then t[1..] else t);
    if digits == "" then None
    else
      var v := Signed(negative, Value(digits));
      if -0x8000_0000 <= v < 0x8000_0000 then Some(v) else None
  }

  function PrintNat(n: nat): (s: string)
    ensures s != "" && forall c | c in s :: IsDigit(c)
  {
    (if n < 10 then "" else PrintNat(n / 10)) + [Digit(n % 10)]
  }

  function Print(x: int): string {
    if x < 0 then "-" + PrintNat(-x) else PrintNat(x)
  }

  lemma {:induction false} ValueOfPrint(n: nat)
    ensures Value(PrintNat(n)) == n
  {
    var s := PrintNat(n);
    if n >= 10 {
      ValueOfPrint(n / 10);
      assert s[..|s| - 1] == PrintNat(n / 10);
    } else {
      assert s[..|s| - 1] == "";
    }
  }

  lemma DigitsOfDigits(s: string)
    requires forall c | c in s :: IsDigit(c)
    ensures Digits(s) == s
  {
    assert forall i | 0 <= i < |s| :: IsDigit(s[i]);
  }

  /** A sign or none, and digits, are read as the number they spell. */
  lemma StoiDigits(s: string, negative: bool)
    requires s != "" && forall c | c in s :: IsDigit(c)
    requires -0x8000_0000 <= Signed(negative, Value(s)) < 0x8000_0000
    ensures Stoi(if negative then "-" + s else s) == Some(Signed(negative, Value(s)))
  {
    hide Value;
    DigitsOfDigits(s);
    assert s[0] in s;
    var t := if negative then "-" + s else s;
    assert SkipSpaces(t) == t;
    assert ("-" + s)[1..] == s;
  }

  lemma StoiSpace(s: string)
    ensures Stoi(" " + s) == Stoi(s)
  {
    assert (" " + s)[1..] == s;
    assert SkipSpaces(" " + s) == SkipSpaces(s);
  }

  /** Reading gives back what was printed, with a space in front of it or not. */
  lemma StoiPrint(x: i32)
    ensures Stoi(Print(x)) == Some(x)
    ensures Stoi(" " + Print(x)) == Some(x)
  {
    hide Stoi;
    var y: int := x;
    var n: nat := if y < 0 then -y else y;
    ValueOfPrint(n);
    StoiDigits(PrintNat(n), y < 0);
    StoiSpace(Print(x));
  }

  // ---- What is read from any text ----

  /** Spaces, a sign or none, digits, and a rest that does not go on with what came before. */
  ghost predicate Split(spaces: string, sign: string, digits: string, rest: string) {
    && (forall c | c in spaces :: c == ' ' || 9 <= c as int <= 13)
    && (sign == "" || sign == "+" || sign == "-")
    && (forall c | c in digits :: '0' <= c <= '9')
    && (rest != "" ==> !('0' <= rest[0] <= '9'))
    && (rest != "" && digits == "" && sign == "" ==>
          rest[0] != '+' && rest[0] != '-' && rest[0] != ' ' && !(9 <= rest[0] as int <= 13))
  }

  lemma {:induction false} SkipsSpaces(spaces: string, t: string)
    requires forall c | c in spaces :: c == ' ' || 9 <= c as int <= 13
    requires t != "" ==> t[0] != ' ' && !(9 <= t[0] as int <= 13)
    ensures SkipSpaces(spaces + t) == t
    decreases |spaces|
  {
    if spaces == "" {
      assert spaces + t == t;
    } else {
      assert spaces[0] in spaces;
      assert (spaces + t)[1..] == spaces[1..] + t;
      assert forall c | c in spaces[1..] :: c in spaces;
      SkipsSpaces(spaces[1..], t);
    }
  }

  lemma {:induction false} TakesDigits(digits: string, rest: string)
    requires forall c | c in digits :: '0' <= c <= '9'
    requires rest != "" ==> !('0' <= rest[0] <= '9')
    ensures Digits(digits + rest) == digits
    decreases |digits|
  {
    if digits == "" {
      assert digits + rest == rest;
    } else {
      assert digits[0] in digits;
      assert (digits + rest)[1..] == digits[1..] + rest;
      assert forall c | c in digits[1..] :: c in digits;
      TakesDigits(digits[1..], rest);
    }
  }

  /** A text is read as the signed number its digits spell, whatever follows them, if it has digits
      and that number is an int; any other text is an exception. */
  lemma StoiReads(spaces: string, sign: string, digits: string, rest: string)
    requires Split(spaces, sign, digits, rest)
    ensures var n: int := Value(digits);
            var v := if sign == "-" then -n else n;
            Stoi(spaces + sign + digits + rest)
            == if digits != "" && -0x8000_0000 <= v <= 0x7FFF_FFFF then Some(v) else None
  {
    hide Value;
    hide SkipSpaces;
    hide Digits;
    var t := sign + (digits + rest);
    assert spaces + sign + digits + rest == spaces + t;
    assert digits != "" ==> digits[0] in digits;
    SkipsSpaces(spaces, t);
    TakesDigits(digits, rest);
    if sign == "" {
      assert t == digits + rest;
    } else {
      assert t[1..] == digits + rest;
    }
  }

  lemma {:induction false} LeadingSpaces(s: string) returns (spaces: string)
    ensures s == spaces + SkipSpaces(s) && forall c | c in spaces :: c == ' ' || 9 <= c as int <= 13
    ensures SkipSpaces(s) != "" ==> !IsSpace(SkipSpaces(s)[0])
    decreases |s|
  {
    if s != "" && IsSpace(s[0]) {
      var tail := s[1..];
      spaces := LeadingSpaces(tail);
      spaces := [s[0]] + spaces;
      assert s == [s[0]] + tail;
    } else {
      spaces := "";
    }
  }

  lemma LeadingDigits(t: string) returns (digits: string, rest: string)
    ensures t == digits + rest && (forall c | c in digits :: '0' <= c <= '9')
    ensures rest != "" ==> !('0' <= rest[0] <= '9')
  {
    digits := Digits(t);
    rest := t[|digits|..];
  }

  /** Every text can be split like this. */
  lemma EveryTextSplits(s: string) returns (spaces: string, sign: string, digits: string, rest: string)
    ensures Split(spaces, sign, digits, rest) && s == spaces + sign + digits + rest
  {
    hide SkipSpaces;
    spaces := LeadingSpaces(s);
    var t := SkipSpaces(s);
    if t != "" && (t[0] == '+' || t[0] == '-') {
      sign := [t[0]];
      digits, rest := LeadingDigits(t[1..]);
      assert t == sign + t[1..];
    } else {
      sign := "";
      digits, rest := LeadingDigits(t);
    }
  }
}
