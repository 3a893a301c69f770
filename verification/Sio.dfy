// The signal-safe number formatting of the Sio package.
module Sio {

  // ----- Strings in character arrays

  /** The C string at the start of a buffer ends before its first NUL. */
  predicate HasString(a: seq<char>, n: nat) {
    n < |a| && a[n] == '\0' && forall i :: 0 <= i < n ==> a[i] != '\0'
  }

  function Reverse(s: seq<char>): seq<char> {
    seq(|s|, i requires 0 <= i < |s| => s[|s| - 1 - i])
  }

  /** `sio_strlen` (and the C library's `strlen`). */
  method StrLen(s: array<char>, ghost n: nat) returns (i: nat)
    requires HasString(s[..], n)
    ensures i == n
  {
    i := 0;
    while s[i] != '\0'
      invariant i <= n
      decreases n - i
    {
      i := i + 1;
    }
  }

  /** `sio_reverse`: reverses the string in place and leaves the rest of the buffer alone. */
  method ReverseInPlace(s: array<char>, ghost n: nat)
    requires HasString(s[..], n)
    modifies s
    ensures s[..n] == Reverse(old(s[..n])) && s[n..] == old(s[n..])
  {
    ghost var s0 := s[..];
    var length: int := StrLen(s, n);
    var i, j := 0, length - 1;
    while i < j
      invariant 0 <= i && i + j == n - 1 && i <= j + 1
      invariant forall k :: (0 <= k < i || j < k < n) ==> s[k] == s0[n - 1 - k]
      invariant s[n..] == s0[n..]
      invariant forall k :: i <= k <= j ==> s[k] == s0[k]
      decreases j - i
    {
      var c := s[i];
      s[i] := s[j];
      s[j] := c;
      i, j := i + 1, j - 1;
    }
    assert forall k :: 0 <= k < n ==> s[k] == s0[n - 1 - k];
  }

  // ----- Digits

  lemma Euclid(v: nat, b: nat)
    requires b >= 2
    ensures v == (v / b) * b + v % b && v % b < b
    ensures v >= b ==> 1 <= v / b < v
    ensures v < b ==> v / b == 0 && v % b == v
  {
  }

  function DigitChar(d: nat): (c: char)
    requires d < 36
    ensures c != '\0' && c != '-'
  {
    if d < 10 then (d + '0' as int) as char else (d - 10 + 'a' as int) as char
  }

  const DIGITS: string := "0123456789abcdefghijklmnopqrstuvwxyz"

  lemma DigitTable(d: nat)
    requires d < 36
    ensures |DIGITS| == 36 && DigitChar(d) == DIGITS[d] && DigitValue(DIGITS[d]) == d
  {
  }

  function DigitValue(c: char): nat {
    if '0' <= c <= '9' then c as int - '0' as int
    else if 'a' <= c <= 'z' then c as int - 'a' as int + 10
    else 0
  }

  /** The digits of v in base b, lowest first; at least one. */
  function LowDigits(v: nat, b: nat): (s: seq<char>)
    requires 2 <= b <= 36
    ensures s != []
    decreases v
  {
    Euclid(v, b);
    if v < b then [DigitChar(v)] else [DigitChar(v % b)] + LowDigits(v / b, b)
  }

  function Magnitude(v: int): nat {
    if v < 0 then -v else v
  }

  /** What `sio_ltoa` leaves before the NUL. */
  function Format(v: int, b: nat): seq<char>
    requires 2 <= b <= 36
  {
    Reverse(LowDigits(Magnitude(v), b) + if v < 0 then ['-'] else [])
  }

  // ----- Reading the string back

  function ParseDigits(s: seq<char>, b: nat): nat {
    if s == [] then 0 else ParseDigits(s[..|s| - 1], b) * b + DigitValue(s[|s| - 1])
  }

  function Parse(s: seq<char>, b: nat): int {
    if s != [] && s[0] == '-' then 0 - ParseDigits(s[1..], b) else ParseDigits(s, b)
  }

  lemma ReverseCons(c: char, s: seq<char>)
    ensures Reverse([c] + s) == Reverse(s) + [c]
    ensures Reverse(s + [c]) == [c] + Reverse(s)
  {
  }

  lemma {:induction false} ParseSnoc(s: seq<char>, d: nat, b: nat)
    requires d < 36
    ensures ParseDigits(s + [DigitChar(d)], b) == ParseDigits(s, b) * b + d
  {
    assert (s + [DigitChar(d)])[..|s|] == s;
  }

  lemma {:induction false} ParseLowDigits(v: nat, b: nat)
    requires 2 <= b <= 36
    ensures ParseDigits(Reverse(LowDigits(v, b)), b) == v
  {
    hide Reverse, DigitChar, ParseDigits;
    Euclid(v, b);
    if v < b {
      ReverseCons(DigitChar(v), []);
      EmptyStrings(b);
      ParseSnoc([], v, b);
      assert [DigitChar(v)] == [DigitChar(v)] + [] && [] + [DigitChar(v)] == [DigitChar(v)];
    } else {
      ReverseCons(DigitChar(v % b), LowDigits(v / b, b));
      ParseSnoc(Reverse(LowDigits(v / b, b)), v % b, b);
      ParseLowDigits(v / b, b);
    }
  }

  lemma {:induction false} EmptyStrings(b: nat)
    ensures Reverse([]) == [] && ParseDigits([], b) * b == 0
  {
  }

  lemma {:induction false} LowDigitsStep(v: nat, b: nat)
    requires 2 <= b <= 36
    ensures LowDigits(v, b) == [DigitChar(v % b)] + if v / b > 0 then LowDigits(v / b, b) else []
    ensures v / b > 0 ==> v / b < v
  {
    Euclid(v, b);
  }

  lemma {:induction false} LowDigitsAreDigits(v: nat, b: nat)
    requires 2 <= b <= 36
    ensures forall i :: 0 <= i < |LowDigits(v, b)| ==> LowDigits(v, b)[i] != '\0' && LowDigits(v, b)[i] != '-'
  {
    hide LowDigits, DigitChar;
    LowDigitsStep(v, b);
    if v / b == 0 {
    } else {
      LowDigitsAreDigits(v / b, b);
    }
  }

  /** Every number in every base can be read back from its string. */
  lemma RoundTrip(v: int, b: nat)
    requires 2 <= b <= 36
    ensures Parse(Format(v, b), b) == v
  {
    var digits := LowDigits(Magnitude(v), b);
    ParseLowDigits(Magnitude(v), b);
    LowDigitsAreDigits(Magnitude(v), b);
    if v < 0 {
      ReverseCons('-', digits);
      assert (['-'] + Reverse(digits))[1..] == Reverse(digits);
    } else {
      assert digits + [] == digits;
      assert Reverse(digits)[0] == digits[|digits| - 1];
    }
  }

  lemma {:induction false} TopDigit(v: nat, b: nat)
    requires 2 <= b <= 36
    ensures var s := LowDigits(v, b);
            s[|s| - 1] == '0' <==> v == 0
  {
    Euclid(v, b);
    if v < b {
    } else {
      TopDigit(v / b, b);
      var high := LowDigits(v / b, b);
      assert ([DigitChar(v % b)] + high)[|high|] == high[|high| - 1];
    }
  }

  /** No leading zeros: "0" is the only string whose first digit is 0. */
  lemma NoLeadingZeros(v: int, b: nat)
    requires 2 <= b <= 36
    ensures var s := Format(v, b);
            && (v == 0 ==> s == ['0'])
            && (v > 0 ==> s != [] && s[0] != '0' && s[0] != '-')
            && (v < 0 ==> |s| >= 2 && s[0] == '-' && s[1] != '0')
  {
    var digits := LowDigits(Magnitude(v), b);
    TopDigit(Magnitude(v), b);
    LowDigitsAreDigits(Magnitude(v), b);
    if v < 0 {
      ReverseCons('-', digits);
    } else {
      assert digits + [] == digits;
    }
  }

  lemma FormattedNumbers()
    ensures Format(2048, 10) == "2048" && Format(-255, 16) == "-ff" && Format(0, 2) == "0"
  {
    hide LowDigits;
    LowDigitsStep(2048, 10);
    LowDigitsStep(204, 10);
    LowDigitsStep(20, 10);
    LowDigitsStep(2, 10);
    LowDigitsStep(255, 16);
    LowDigitsStep(15, 16);
    LowDigitsStep(0, 2);
  }

  function Power(b: nat, k: nat): nat {
    if k == 0 then 1 else b * Power(b, k - 1)
  }

  lemma PowerStep(b: nat, k: nat)
    ensures k > 0 ==> Power(b, k) == b * Power(b, k - 1)
    ensures Power(b, 0) == 1
  {
  }

  lemma QuotientBelow(v: nat, b: nat, p: nat)
    requires b > 0 && v < b * p
    ensures v / b < p
  {
    var q := v / b;
    assert q >= p ==> q * b >= p * b;
  }

  lemma QuotientBelowPower(v: nat, b: nat, k: nat)
    requires b > 0 && k > 0 && v < Power(b, k)
    ensures v / b < Power(b, k - 1)
    ensures v / b > 0 ==> k > 1
  {
    hide Power;
    PowerStep(b, k);
    PowerStep(b, 0);
    QuotientBelow(v, b, Power(b, k - 1));
  }

  lemma {:induction false} DigitCount(v: nat, b: nat, k: nat)
    requires 2 <= b <= 36 && k > 0 && v < Power(b, k)
    ensures |LowDigits(v, b)| <= k
    decreases k
  {
    hide LowDigits, DigitChar, Power;
    LowDigitsStep(v, b);
    QuotientBelowPower(v, b, k);
    var q := v / b;
    if q == 0 {
    } else {
      DigitCount(q, b, k - 1);
    }
  }

  const LONG_MAX: int := 0x7FFF_FFFF_FFFF_FFFF

  lemma LongBelowPower()
    ensures LONG_MAX < Power(10, 19)
  {
    assert Power(10, 4) == 10000;
    assert Power(10, 8) == 100000000;
    assert Power(10, 12) == 1000000000000;
    assert Power(10, 16) == 10000000000000000;
    assert Power(10, 19) == 10000000000000000000;
  }

  /** A 64-bit number in base 10 takes at most 20 characters, sign included. */
  lemma DecimalLength(v: int)
    requires -LONG_MAX <= v <= LONG_MAX
    ensures |Format(v, 10)| <= 20
  {
    LongBelowPower();
    DigitCount(Magnitude(v), 10, 19);
  }

  // ----- The method

  /** One digit moves from the number to the end of what is written. */
  lemma {:induction false} NextDigit(before: seq<char>, v: nat, b: nat)
    requires 2 <= b <= 36 && v > 0
    ensures v / b > 0 ==> v / b < v
    ensures before + LowDigits(v, b)
            == before + [DigitChar(v % b)] + if v / b > 0 then LowDigits(v / b, b) else []
  {
    hide LowDigits, DigitChar;
    LowDigitsStep(v, b);
    var more := if v / b > 0 then LowDigits(v / b, b) else [];
    assert before + ([DigitChar(v % b)] + more) == before + [DigitChar(v % b)] + more;
  }

  /** The do-while loop: writes the digits, lowest first, and returns their number. */
  method WriteDigits(v: nat, s: array<char>, b: nat) returns (i: nat)
    requires 2 <= b <= 36 && |LowDigits(v, b)| < s.Length
    modifies s
    ensures i == |LowDigits(v, b)| && s[..i] == LowDigits(v, b)
    ensures forall k :: i <= k < s.Length ==> s[k] == old(s[k])
  {
    hide LowDigits, DigitChar;
    ghost var digits := LowDigits(v, b);
    LowDigitsStep(v, b);
    s[0] := DigitChar(v % b);
    var rest := v / b;
    i := 1;
    while rest > 0
      invariant 0 < i < s.Length
      invariant forall k :: i <= k < s.Length ==> s[k] == old(s[k])
      invariant s[..i] + (if rest > 0 then LowDigits(rest, b) else []) == digits
      decreases rest
    {
      ghost var before := s[..i];
      NextDigit(before, rest, b);
      s[i] := DigitChar(rest % b);
      assert s[..i + 1] == before + [DigitChar(rest % b)];
      rest := rest / b;
      i := i + 1;
    }
  }

  /** `sio_ltoa`, for every long above the least one, whose magnitude does not fit in a long. */
  method Ltoa(v: int, s: array<char>, b: nat)
    requires -LONG_MAX <= v <= LONG_MAX && 2 <= b <= 36
    requires |Format(v, b)| < s.Length
    modifies s
    ensures s[..|Format(v, b)|] == Format(v, b)
    ensures HasString(s[..], |Format(v, b)|)
    ensures s[|Format(v, b)| + 1..] == old(s[..])[|Format(v, b)| + 1..]
  {
    hide LowDigits, DigitChar;
    ghost var digits, before := LowDigits(Magnitude(v), b), s[..];
    var neg := v < 0;
    var i := WriteDigits(if neg then -v else v, s, b);
    if neg {
      s[i] := '-';
      i := i + 1;
    }
    s[i] := '\0';
    ghost var low := digits + if neg then ['-'] else [];
    assert s[..i] == low;
    LowDigitsAreDigits(Magnitude(v), b);
    assert forall k :: 0 <= k < i ==> s[k] == low[k];
    ghost var filled := s[..];
    assert filled[i + 1..] == before[i + 1..];
    ReverseInPlace(s, i);
    assert s[i + 1..] == s[i..][1..] == filled[i..][1..] == filled[i + 1..];
    assert s[i] == s[i..][0];
    assert forall k :: 0 <= k < i ==> s[k] == s[..i][k];
  }
}
