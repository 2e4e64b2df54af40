/** Decimal and hexadecimal numerals: itoa, atoi and htoa. */
module Numerals {
  import opened Basics
  import opened Word32

  const INT_MIN: int := -0x8000_0000
  const INT_MAX: int := 0x7FFF_FFFF

  type int32 = x: int | INT_MIN <= x <= INT_MAX

  /** Signed 32-bit wrap-around. */
  function ToInt32(x: int): int32 { (x - INT_MIN) % 0x1_0000_0000 + INT_MIN }

  /** The negation of C: INT_MIN is its own negative. */
  function Negate(n: int32): int32 {
    var k: int := n;
    ToInt32(-k)
  }

  /** Division and remainder of C, which truncate toward zero. */
  function CDiv(a: int, b: nat): int
    requires b > 0
  {
    if a >= 0 then a / b else -(-a / b)
  }

  function CRem(a: int, b: nat): int
    requires b > 0
  {
    a - CDiv(a, b) * b
  }

  // ----- decimal text -----

  function DigitChar(d: nat): char
    requires d < 10
  {
    '0' + d as char
  }

  predicate IsDigit(c: char) { '0' <= c <= '9' }

  function Digits(n: nat): string {
    if n < 10 then [DigitChar(n)] else Digits(n / 10) + [DigitChar(n % 10)]
  }

  function Value(s: string): nat
    requires forall i :: 0 <= i < |s| ==> IsDigit(s[i])
  {
    if s == [] then 0 else (assert IsDigit(s[|s| - 1]); Value(s[..|s| - 1]) * 10 + (s[|s| - 1] as int - '0' as int))
  }

  /** What itoa writes.  The negation of INT_MIN overflows back to INT_MIN, whose last digit is
      then -8, the character '('. */
  function ItoaText(n: int32): string {
    if n == INT_MIN then "-(" else if n < 0 then "-" + Digits(-n) else Digits(n)
  }

  /** The value is positional, with base ten. */
  lemma ValueOf(s: string, c: char)
    requires (forall i :: 0 <= i < |s| ==> '0' <= s[i] <= '9') && '0' <= c <= '9'
    ensures forall i :: 0 <= i < |s + [c]| ==> IsDigit((s + [c])[i])
    ensures Value("") == 0 && Value(s + [c]) == 10 * Value(s) + (c as int - '0' as int)
  {
    assert (s + [c])[..|s + [c]| - 1] == s;
  }

  /** The digits are the decimal numeral of n without leading zeros. */
  lemma {:induction false} DigitsValue(n: nat)
    ensures (n >= 10 ==> Digits(n)[0] != '0') && (n == 0 ==> Digits(n) == "0") && (n > 0 ==> Digits(n)[0] != '0')
    ensures |Digits(n)| > 0 && forall i :: 0 <= i < |Digits(n)| ==> IsDigit(Digits(n)[i])
    ensures Value(Digits(n)) == n
  {
    if n >= 10 {
      DigitsValue(n / 10);
      assert Digits(n)[..|Digits(n)| - 1] == Digits(n / 10);
    }
  }

  ghost function Pow10(k: nat): nat { if k == 0 then 1 else 10 * Pow10(k - 1) }

  lemma {:induction false} DigitsLength(n: nat, k: nat)
    requires k > 0 && n < Pow10(k)
    ensures |Digits(n)| <= k
  {
    if n >= 10 {
      DigitsLength(n / 10, k - 1);
    }
  }

  /** The text is at most 11 characters long and has no NUL. */
  lemma ItoaTextShort(n: int32)
    ensures 1 <= |ItoaText(n)| <= 11
    ensures forall i :: 0 <= i < |ItoaText(n)| ==> ItoaText(n)[i] != NUL
  {
    if n != INT_MIN {
      var m := if n < 0 then -n else n;
      assert Pow10(10) == 10_000_000_000 by {
        assert Pow10(5) == 100_000;
      }
      DigitsLength(m, 10);
      DigitsValue(m);
    }
  }

  /** An optional minus sign, and then the decimal numeral of the absolute value: digits, with no
      zero in front unless it is the only one. */
  ghost predicate IsNumeral(s: string, m: nat) {
    && s != [] && (forall i :: 0 <= i < |s| ==> '0' <= s[i] <= '9') && (s[0] == '0' ==> |s| == 1)
    && (forall i :: 0 <= i < |s| ==> IsDigit(s[i])) && Value(s) == m
  }

  lemma ItoaTextIs(n: int32)
    ensures n >= 0 ==> IsNumeral(ItoaText(n), n)
    ensures INT_MIN < n < 0 ==> ItoaText(n)[0] == '-' && IsNumeral(ItoaText(n)[1..], -n)
  {
    if n != INT_MIN {
      var m: nat := if n < 0 then -n else n;
      DigitsValue(m);
      assert n < 0 ==> ItoaText(n)[1..] == Digits(m);
      if Digits(m)[0] == '0' { assert m == 0; }
    }
  }

  // ----- atoi -----

  predicate IsBlank(c: char) {
    c == ' ' || c == '\t' || c == '\n' || c == '\r' || c == 11 as char || c == 12 as char
  }

  /** The text after leading blanks. */
  function AfterBlanks(s: string): string {
    if s != [] && IsBlank(s[0]) then AfterBlanks(s[1..]) else s
  }

  /** The length of the longest prefix of digits. */
  function DigitRun(s: string): (k: nat)
    ensures k <= |s| && (forall i :: 0 <= i < k ==> IsDigit(s[i])) && (k < |s| ==> !IsDigit(s[k]))
  {
    if s != [] && IsDigit(s[0]) then 1 + DigitRun(s[1..]) else 0
  }

  /** What atoi makes of a text: blanks, an optional sign, digits, and whatever follows. */
  function AtoiValue(s: string): int32 {
    var t := AfterBlanks(s);
    var v: int := LeadingValue(AfterSign(t));
    ToInt32(if t != [] && t[0] == '-' then -v else v)
  }

  function AfterSign(t: string): string {
    if t != [] && (t[0] == '+' || t[0] == '-') then t[1..] else t
  }

  /** The value of the longest prefix of digits. */
  function LeadingValue(u: string): nat { Value(u[..DigitRun(u)]) }

  lemma DigitRunAll(s: string)
    requires forall i :: 0 <= i < |s| ==> IsDigit(s[i])
    ensures DigitRun(s) == |s|
  {}

  lemma NoWrap(x: int)
    ensures INT_MIN <= x <= INT_MAX ==> ToInt32(x) == x
    ensures ToInt32(-INT_MIN) == INT_MIN
  {}

  lemma AtoiSigned(negative: bool, m: nat)
    requires m <= INT_MAX
    ensures AtoiValue((if negative then "-" else "") + Digits(m)) == (if negative then 0 - m else m)
  {
    DigitsValue(m);
    hide Digits, ToInt32;
    var d := Digits(m);
    var s := (if negative then "-" else "") + d;
    DigitRunAll(d);
    NoWrap(if negative then 0 - m else m);
    assert d[..|d|] == d && IsDigit(d[0]);
    assert s[0] == if negative then '-' else d[0];
    assert AfterBlanks(s) == s;
    if negative { assert s[1..] == d; } else { assert s == d; }
  }

  /** Parsing what itoa printed gives the number back, for every number but INT_MIN. */
  lemma AtoiItoa(n: int32)
    ensures AtoiValue(ItoaText(n)) == n <==> n != INT_MIN
  {
    if n == INT_MIN {
      var s := "-(";
      assert AfterBlanks(s) == s && s[1..] == "(";
      assert DigitRun("(") == 0;
    } else {
      hide AtoiValue, Digits;
      var m: nat := if n < 0 then -n else n;
      AtoiSigned(n < 0, m);
      assert "" + Digits(m) == Digits(m);
    }
  }

  /** The blanks are the space and the characters 9 to 13. */
  lemma BlankIs(c: char)
    ensures IsBlank(c) <==> c == ' ' || 9 <= c as int <= 13
  {}

  /** Blanks in front, a plus sign, and whatever follows the digits do not change the value. */
  lemma AtoiText(blanks: string, sign: string, digits: string, rest: string)
    requires forall i :: 0 <= i < |blanks| ==> IsBlank(blanks[i])
    requires sign == "" || sign == "+" || sign == "-"
    requires digits != [] && forall i :: 0 <= i < |digits| ==> '0' <= digits[i] <= '9'
    requires rest != [] ==> !('0' <= rest[0] <= '9')
    ensures forall i :: 0 <= i < |digits| ==> IsDigit(digits[i])
    ensures var v: int := Value(digits);
            AtoiValue(blanks + sign + digits + rest) == ToInt32(if sign == "-" then -v else v)
  {
    hide LeadingValue, ToInt32, AfterBlanks, AfterSign, Value, IsBlank;
    var u := digits + rest;
    var t := sign + u;
    Joined(blanks, sign, digits, rest);
    LeadingDigits(digits, rest);
    assert u[0] == digits[0];
    SignTaken(sign, u);
    BlanksSkipped(blanks, t);
  }

  lemma Joined(a: string, b: string, c: string, d: string)
    ensures a + b + c + d == a + (b + (c + d))
  {}

  lemma SignTaken(sign: string, u: string)
    requires (sign == "" || sign == "+" || sign == "-") && u != [] && '0' <= u[0] <= '9'
    ensures AfterSign(sign + u) == u && !IsBlank((sign + u)[0]) && ((sign + u)[0] == '-' <==> sign == "-")
  {
    if sign == "" { assert sign + u == u; } else { assert (sign + u)[1..] == u; }
  }

  lemma LeadingDigits(digits: string, rest: string)
    requires forall i :: 0 <= i < |digits| ==> '0' <= digits[i] <= '9'
    requires rest != [] ==> !('0' <= rest[0] <= '9')
    ensures (forall i :: 0 <= i < |digits| ==> IsDigit(digits[i])) && LeadingValue(digits + rest) == Value(digits)
  {
    var u := digits + rest;
    assert u[..|digits|] == digits;
    forall i | 0 <= i < |digits| ensures IsDigit(u[i]) { assert u[i] == digits[i]; }
    assert |digits| < |u| ==> u[|digits|] == rest[0];
    DigitRunIs(u, |digits|);
  }

  lemma {:induction false} BlanksSkipped(blanks: string, t: string)
    requires forall i :: 0 <= i < |blanks| ==> IsBlank(blanks[i])
    requires t != [] && !IsBlank(t[0])
    ensures AfterBlanks(blanks + t) == t
  {
    if blanks == [] {
      assert blanks + t == t;
    } else {
      assert (blanks + t)[0] == blanks[0] && (blanks + t)[1..] == blanks[1..] + t;
      BlanksSkipped(blanks[1..], t);
    }
  }

  /** The wrapped value differs from the true one by a multiple of 2^32. */
  lemma ToInt32Is(x: int)
    ensures -0x8000_0000 <= ToInt32(x) <= 0x7FFF_FFFF && (ToInt32(x) - x) % 0x1_0000_0000 == 0
  {
    var y := x - INT_MIN;
    assert ToInt32(x) - x == -(y / 0x1_0000_0000) * 0x1_0000_0000;
    Multiple(-(y / 0x1_0000_0000));
  }

  lemma Multiple(k: int)
    ensures k * 0x1_0000_0000 % 0x1_0000_0000 == 0
  {}

  /** The digit loop of itoa leaves the digits in reverse order. */
  ghost function Reverse(s: string): string {
    if s == [] then [] else Reverse(s[1..]) + [s[0]]
  }

  lemma {:induction false} ReverseAppend(s: string, c: char)
    ensures Reverse(s + [c]) == [c] + Reverse(s)
  {
    if s != [] {
      assert (s + [c])[1..] == s[1..] + [c];
      ReverseAppend(s[1..], c);
    }
  }

  lemma {:induction false} ReverseAt(s: string, i: nat)
    requires i < |s|
    ensures |Reverse(s)| == |s| && Reverse(s)[i] == s[|s| - 1 - i]
  {
    if |s| > 1 { ReverseAt(s[1..], if i < |s| - 1 then i else 0); }
  }

  lemma ReverseLength(s: string)
    ensures |Reverse(s)| == |s|
  {
    if s != [] { ReverseAt(s, 0); }
  }

  /** The in-place reversal at the end of itoa. */
  method ReverseInPlace(str: array<char>, lo: nat, hi: nat)
    requires lo <= hi <= str.Length
    modifies str
    ensures str[lo..hi] == Reverse(old(str[lo..hi]))
    ensures str[..lo] == old(str[..lo]) && str[hi..] == old(str[hi..])
  {
    hide Reverse;
    var i, j := lo, hi - 1;
    while i < j
      invariant lo <= i && j < hi && i <= j + 1 && i + j == lo + hi - 1
      invariant forall k :: lo <= k < i ==> str[k] == old(str[lo + hi - 1 - k])
      invariant forall k :: j < k < hi ==> str[k] == old(str[lo + hi - 1 - k])
      invariant forall k :: i <= k <= j ==> str[k] == old(str[k])
      invariant str[..lo] == old(str[..lo]) && str[hi..] == old(str[hi..])
    {
      str[i], str[j] := str[j], str[i];
      i, j := i + 1, j - 1;
    }
    ghost var was, now := old(str[lo..hi]), str[lo..hi];
    forall k | 0 <= k < hi - lo ensures now[k] == was[|was| - 1 - k] {
      assert now[k] == str[lo + k] && was[|was| - 1 - k] == old(str[hi - 1 - k]);
    }
    ReversedWhen(was, now);
  }

  lemma ReversedWhen(was: string, now: string)
    requires |now| == |was| && forall k :: 0 <= k < |was| ==> now[k] == was[|was| - 1 - k]
    ensures now == Reverse(was)
  {
    forall k | 0 <= k < |was| ensures |Reverse(was)| == |was| && now[k] == Reverse(was)[k] {
      ReverseAt(was, k);
    }
    if was == [] { assert now == []; }
  }

  /** itoa at position `at` of a buffer; the result is the position of the terminating NUL. */
  method Itoa(n: int32, str: array<char>, at: nat) returns (end: nat)
    requires at + |ItoaText(n)| < str.Length
    modifies str
    ensures end == at + |ItoaText(n)|
    ensures str[at..end] == ItoaText(n) && str[end] == NUL
    ensures str[..at] == old(str[..at]) && str[end + 1..] == old(str[end + 1..])
  {
    hide ToInt32, Negate, ItoaText, LoopText, Reverse;
    ghost var back;
    end, back := WriteBackwards(n, str, at);
    var next := PutChar(str, end, NUL);
    assert str[at..end] == str[..end][at..] && str[at..end] == back;
    ghost var rest := str[end..];
    ReverseInPlace(str, at, end);
    assert str[end] == rest[0] && str[next..] == rest[1..];
  }

  lemma Appended(s0: string, s1: string, s2: string, at: nat, e: nat, text: string, c: char)
    requires at <= e < |s0| && |s1| == |s0| && |s2| == |s0|
    requires s1[..at] == s0[..at] && s1[e..] == s0[e..] && s1[at..e] == text
    requires s2[..e] == s1[..e] && s2[e] == c && s2[e + 1..] == s1[e + 1..]
    ensures s2[at..e + 1] == text + [c] && s2[..at] == s0[..at] && s2[e + 1..] == s0[e + 1..]
  {
    assert s2[at..e] == s2[..e][at..] && s1[at..e] == s1[..e][at..];
    assert s2[..at] == s2[..e][..at] && s1[..at] == s1[..e][..at];
    assert s1[e + 1..] == s1[e..][1..] && s0[e + 1..] == s0[e..][1..];
  }

  method PutChar(str: array<char>, i: nat, c: char) returns (next: nat)
    requires i < str.Length
    modifies str
    ensures next == i + 1 && str[i] == c && str[..i] == old(str[..i]) && str[next..] == old(str[next..])
  {
    str[i] := c;
    next := i + 1;
  }

  /** The digits and the sign, in the order in which itoa finds them. */
  method WriteBackwards(n: int32, str: array<char>, at: nat) returns (end: nat, ghost back: string)
    requires at + |ItoaText(n)| < str.Length
    modifies str
    ensures end == at + |ItoaText(n)| && str[at..end] == back && Reverse(back) == ItoaText(n)
    ensures str[..at] == old(str[..at]) && str[end..] == old(str[end..])
  {
    hide ToInt32, Negate, ItoaText, LoopText, Reverse;
    var m := if n < 0 then Negate(n) else n;
    NegateFacts(n);
    back := if n < 0 then LoopText(m) + "-" else LoopText(m);
    ReversedText(n, m, back);
    end := WriteDigits(m, str, at);
    if n < 0 {
      ghost var s0, s1, e := old(str[..]), str[..], end;
      assert s1[at..e] == str[at..e] && s1[..at] == str[..at] && s1[e..] == str[e..];
      assert s0[..at] == old(str[..at]) && s0[e..] == old(str[e..]);
      end := PutChar(str, end, '-');
      ghost var s2 := str[..];
      assert s2[..e] == str[..e] && s2[end..] == str[end..] && s1[..e] == s2[..e];
      Appended(s0, s1, s2, at, e, LoopText(m), '-');
      assert s2[at..end] == str[at..end] && s2[..at] == str[..at] && s0[end..] == old(str[end..]);
    }
  }

  /** The characters that the do-while loop writes, in its order. */
  ghost function LoopText(m: int): string
    requires INT_MIN <= m
    decreases if m >= 0 then m else 0
  {
    var c := (CRem(m, 10) + '0' as int) as char;
    if CDiv(m, 10) > 0 then [c] + LoopText(CDiv(m, 10)) else [c]
  }

  lemma {:induction false} LoopTextIsReversed(m: nat)
    ensures LoopText(m) == Reverse(Digits(m))
  {
    if m >= 10 {
      LoopTextIsReversed(m / 10);
      ReverseAppend(Digits(m / 10), DigitChar(m % 10));
    } else {
      assert Digits(m)[1..] == [];
      assert Reverse(Digits(m)) == Reverse([]) + [DigitChar(m)];
    }
  }

  lemma ReversedText(n: int32, m: int32, back: string)
    requires m == if n < 0 then Negate(n) else n
    requires back == if n < 0 then LoopText(m) + "-" else LoopText(m)
    ensures Reverse(back) == ItoaText(n) && |ItoaText(n)| == |back|
  {
    ReverseLength(back);
    var k: int := n;
    NoWrap(-k);
    hide ToInt32, Digits, LoopText, Reverse;
    if n == INT_MIN {
      MinText();
    } else {
      LoopTextIsReversed(m);
      ReverseTwice(Digits(m));
    }
    if n < 0 { ReverseAppend(LoopText(m), '-'); }
  }

  lemma NegateFacts(n: int32)
    ensures n < 0 ==> Negate(n) >= 0 || Negate(n) == INT_MIN
  {
    var k: int := n;
    NoWrap(-k);
  }

  lemma MinText()
    ensures LoopText(INT_MIN) == "(" && Reverse("(") == "("
  {
    assert CDiv(INT_MIN, 10) == -214_748_364 && CRem(INT_MIN, 10) == -8;
    assert Reverse("(") == Reverse([]) + "(";
  }

  lemma StepFacts(m: int)
    requires INT_MIN <= m
    ensures -9 <= CRem(m, 10) <= 9
    ensures CDiv(m, 10) > 0 ==> CDiv(m, 10) < m
    ensures INT_MIN <= CDiv(m, 10)
  {}

  lemma {:induction false} ReverseTwice(s: string)
    ensures Reverse(Reverse(s)) == s
  {
    if s != [] {
      ReverseTwice(s[1..]);
      ReverseAppend(Reverse(s[1..]), s[0]);
    }
  }

  /** The do-while loop of itoa. */
  method WriteDigits(m0: int32, str: array<char>, at: nat) returns (i: nat)
    requires (m0 >= 0 || m0 == INT_MIN) && at + |LoopText(m0)| <= str.Length
    modifies str
    ensures i == at + |LoopText(m0)|
    ensures str[at..i] == LoopText(m0)
    ensures str[..at] == old(str[..at]) && str[i..] == old(str[i..])
  {
    hide CRem, CDiv, LoopText;
    var m: int := m0;
    i := at;
    var more := true;
    ghost var written := [];
    while more
      invariant INT_MIN <= m && i == at + |written| <= str.Length
      invariant LoopText(m0) == written + (if more then LoopText(m) else [])
      invariant forall k :: at <= k < i ==> str[k] == written[k - at]
      invariant forall k :: 0 <= k < str.Length && !(at <= k < i) ==> str[k] == old(str[k])
      decreases more, if m >= 0 then m else 0
    {
      StepFacts(m);
      var c := (CRem(m, 10) + '0' as int) as char;
      LoopTextStep(m, written);
      str[i] := c;
      i := i + 1;
      written := written + [c];
      m := CDiv(m, 10);
      more := m > 0;
    }
  }

  lemma LoopTextStep(m: int, written: string)
    requires INT_MIN <= m && 0 <= CRem(m, 10) + '0' as int < 0xD800 && INT_MIN <= CDiv(m, 10)
    ensures LoopText(m) != []
    ensures var c := (CRem(m, 10) + '0' as int) as char;
            written + LoopText(m) == written + [c] + (if CDiv(m, 10) > 0 then LoopText(CDiv(m, 10)) else [])
  {}

  /** The character at position i of a C string; the string ends with a NUL. */
  function At(s: string, i: nat): char { if i < |s| then s[i] else NUL }

  lemma WrapStep(v: int, d: int)
    ensures ToInt32(ToInt32(v) * 10 + d) == ToInt32(v * 10 + d)
    ensures var w: int := ToInt32(v); ToInt32(-w) == ToInt32(-v) && ToInt32(w) == ToInt32(v)
  {
    var w: int := ToInt32(v);
    var k := (v - INT_MIN) / 0x1_0000_0000;
    assert v == w + k * 0x1_0000_0000;
    WrapShift(w * 10 + d, k * 10);
    WrapShift(-w, -k);
    WrapShift(w, 0);
  }

  lemma WrapShift(x: int, k: int)
    ensures ToInt32(x + k * 0x1_0000_0000) == ToInt32(x)
  {
    var y := x - INT_MIN;
    assert (y + k * 0x1_0000_0000) % 0x1_0000_0000 == y % 0x1_0000_0000 by { ModShift(y, k); }
  }

  lemma {:induction false} ModShift(y: int, k: int)
    ensures (y + k * 0x1_0000_0000) % 0x1_0000_0000 == y % 0x1_0000_0000
    decreases if k < 0 then -k else k
  {
    if k > 0 { ModShift(y, k - 1); } else if k < 0 { ModShift(y, k + 1); }
  }

  lemma {:induction false} DigitRunIs(s: string, k: nat)
    requires k <= |s| && (forall i :: 0 <= i < k ==> IsDigit(s[i])) && (k < |s| ==> !IsDigit(s[k]))
    ensures k == DigitRun(s)
  {
    if k > 0 {
      assert k < |s| ==> s[1..][k - 1] == s[k];
      DigitRunIs(s[1..], k - 1);
    }
  }

  /** atoi, with the overflow of int spelled out. */
  method Atoi(s: string) returns (r: int32)
    ensures r == AtoiValue(s)
  {
    hide ToInt32, LeadingValue, Value;
    var p := 0;
    while IsBlank(At(s, p))
      invariant p <= |s| && AfterBlanks(s[p..]) == AfterBlanks(s)
      decreases |s| - p
    {
      assert s[p..][1..] == s[p + 1..];
      p := p + 1;
    }
    ghost var t := AfterBlanks(s);
    assert s[p..] == t;
    var negative := false;
    if At(s, p) == '+' {
      p := p + 1;
    } else if At(s, p) == '-' {
      negative := true;
      p := p + 1;
    }
    assert s[p..] == AfterSign(t);
    var v := ReadDigits(s, p);
    WrapStep(LeadingValue(AfterSign(t)), 0);
    var k: int := v;
    r := if negative then ToInt32(-k) else ToInt32(k);
  }

  /** The digit loop of atoi. */
  method ReadDigits(s: string, p: nat) returns (v: int32)
    requires p <= |s|
    ensures v == ToInt32(LeadingValue(s[p..]))
  {
    hide ToInt32;
    ghost var u := s[p..];
    var k := 0;
    v := 0;
    NoWrap(0);
    assert u[..0] == [];
    while IsDigit(At(s, p + k))
      invariant k <= |u| && forall i :: 0 <= i < k ==> IsDigit(u[i])
      invariant v == ToInt32(Value(u[..k]))
      decreases |u| - k
    {
      var d := s[p + k] as int - '0' as int;
      assert u[..k + 1][..k] == u[..k] && u[..k + 1][k] == s[p + k];
      WrapStep(Value(u[..k]), d);
      var w: int := v;
      v := ToInt32(w * 10 + d);
      k := k + 1;
    }
    DigitRunIs(u, k);
  }

  // ----- hexadecimal text -----

  function HexChar(d: nat): char
    requires d < 16
  {
    if d >= 10 then (d - 10 + 'a' as int) as char else (d + '0' as int) as char
  }

  function HexDigits(n: nat): string {
    if n < 16 then [HexChar(n)] else HexDigits(n / 16) + [HexChar(n % 16)]
  }

  function HexText(n: word): string { "0x" + HexDigits(n) }

  predicate IsHexDigit(c: char) { '0' <= c <= '9' || 'a' <= c <= 'f' }

  function HexDigitValue(c: char): nat
    requires IsHexDigit(c)
  {
    if c <= '9' then c as int - '0' as int else c as int - 'a' as int + 10
  }

  ghost predicate AllHex(s: string) { forall i :: 0 <= i < |s| ==> IsHexDigit(s[i]) }

  ghost function HexValue(s: string): nat
    requires AllHex(s)
  {
    if s == [] then 0 else HexValue(s[..|s| - 1]) * 16 + HexDigitValue(s[|s| - 1])
  }

  /** The value is positional, with base sixteen and the letters a to f for ten to fifteen. */
  lemma HexValueOf(s: string, c: char)
    requires AllHex(s) && c in "0123456789abcdef"
    ensures AllHex(s + [c]) && HexValue("") == 0
    ensures exists d :: 0 <= d < 16 && "0123456789abcdef"[d] == c && HexValue(s + [c]) == 16 * HexValue(s) + d
  {
    var all := "0123456789abcdef";
    assert (s + [c])[..|s + [c]| - 1] == s;
    var d :| 0 <= d < |all| && all[d] == c;
    assert HexDigitValue(all[d]) == d;
  }

  /** A numeral: not empty, digits only, no leading zero unless it is the only digit. */
  ghost predicate HexNumeral(s: string) { s != [] && AllHex(s) && (|s| > 1 ==> s[0] != '0') }

  /** htoa's digits are a numeral of n. */
  lemma {:induction false} HexDigitsNumeral(n: nat)
    ensures HexNumeral(HexDigits(n)) && HexValue(HexDigits(n)) == n && (HexDigits(n)[0] == '0' ==> n == 0)
  {
    if n >= 16 {
      HexDigitsNumeral(n / 16);
      assert HexDigits(n)[..|HexDigits(n)| - 1] == HexDigits(n / 16);
    }
  }

  lemma HexTextIs(n: word)
    ensures |HexText(n)| > 2 && HexText(n)[..2] == "0x" && HexNumeral(HexText(n)[2..]) && HexValue(HexText(n)[2..]) == n
  {
    HexDigitsNumeral(n);
    assert HexText(n)[2..] == HexDigits(n);
  }

  /** They are the only one. */
  lemma {:induction false} HexNumeralUnique(s: string)
    requires HexNumeral(s)
    ensures s == HexDigits(HexValue(s))
  {
    var n := |s| - 1;
    LastHex(s[n]);
    if n == 0 {
      assert s[..0] == [] && s == [s[0]];
    } else {
      var front := s[..n];
      assert s == front + [s[n]];
      assert front[0] == s[0] && forall i :: 0 <= i < n ==> front[i] == s[i];
      HexNumeralUnique(front);
      HexDigitsNumeral(HexValue(front));
      HexStep(HexValue(front), HexDigitValue(s[n]));
    }
  }

  lemma LastHex(c: char)
    requires IsHexDigit(c)
    ensures HexDigitValue(c) < 16 && HexChar(HexDigitValue(c)) == c
  {}

  lemma HexStep(q: nat, d: nat)
    requires d < 16
    ensures q > 0 ==> HexDigits(q * 16 + d) == HexDigits(q) + [HexChar(d)]
    ensures HexDigits(0) == "0"
  {
    assert (q * 16 + d) / 16 == q && (q * 16 + d) % 16 == d;
  }

  /** n shifted right by k hexadecimal digits. */
  function Shift(n: nat, k: nat): nat { if k == 0 then n else Shift(n, k - 1) / 16 }

  /** What htoa has written when the digits above position k are done: nothing while they are all
      zero. */
  ghost function Written(q: nat): string { if q == 0 then [] else HexDigits(q) }

  lemma ShiftedOut(n: word)
    ensures Shift(n, 8) == 0
  {
    hide Shift;
    ShiftStep(n, 0);
    ShiftStep(n, 1);
    ShiftStep(n, 2);
    ShiftStep(n, 3);
    ShiftStep(n, 4);
    ShiftStep(n, 5);
    ShiftStep(n, 6);
    ShiftStep(n, 7);
  }

  lemma {:induction false} HexLength(n: nat, k: nat)
    requires k > 0 && Shift(n, k) == 0
    ensures |HexDigits(n)| <= k
  {
    if n >= 16 {
      ShiftStep(n, 0);
      ShiftInner(n, k - 1);
      HexLength(n / 16, k - 1);
    }
  }

  lemma {:induction false} ShiftInner(n: nat, k: nat)
    ensures Shift(n / 16, k) == Shift(n, k + 1)
  {
    if k > 0 { ShiftInner(n, k - 1); }
  }

  lemma WrittenStep(q: nat)
    ensures q > 0 ==> Written(q) == Written(q / 16) + [HexChar(q % 16)]
    ensures q == 0 <==> q / 16 == 0 && q % 16 == 0
    ensures HexDigits(q) == Written(q / 16) + [HexChar(q % 16)]
  {}

  /** The text is at most 10 characters long and has no NUL. */
  lemma HexTextShort(n: word)
    ensures 3 <= |HexText(n)| <= 10
    ensures forall i :: 0 <= i < |HexText(n)| ==> HexText(n)[i] != NUL
  {
    ShiftedOut(n);
    HexLength(n, 8);
    HexDigitsNumeral(n);
  }

  lemma {:induction false} WrittenShorter(n: nat, k: nat)
    requires k > 0
    ensures |Written(Shift(n, k))| < |HexDigits(n)|
    ensures Written(0) == []
  {
    ShiftStep(n, k - 1);
    WrittenStep(Shift(n, k - 1));
    if k > 1 { WrittenShorter(n, k - 1); }
  }

  /** place_at: one character and a NUL behind it. */
  method PlaceAt(str: array<char>, c: char, i: nat) returns (next: nat)
    requires i + 1 < str.Length
    modifies str
    ensures next == i + 1 && str[i] == c && str[i + 1] == NUL
    ensures forall k :: 0 <= k < str.Length && k != i && k != i + 1 ==> str[k] == old(str[k])
  {
    str[i] := c;
    str[i + 1] := NUL;
    next := i + 1;
  }

  /** htoa at position `at` of a buffer; the result is the position of the terminating NUL. */
  method Htoa(n: word, str: array<char>, at: nat) returns (end: nat)
    requires at + |HexText(n)| < str.Length
    modifies str
    ensures end == at + |HexText(n)|
    ensures str[at..end] == HexText(n) && str[end] == NUL
    ensures str[..at] == old(str[..at]) && str[end + 1..] == old(str[end + 1..])
  {
    HexTextShort(n);
    hide HexDigits, Shift, HexChar, Written, Holds;
    HoldsNothing(str, at);
    assert "" + ['0'] == "0" && "0" + ['x'] == "0x";
    end := AppendAt(str, at, at, '0', "");
    end := AppendAt(str, at, end, 'x', "0");
    end := HighDigits(n, str, at, end);
    ShiftStep(n, 0);
    WrittenStep(n);
    ghost var text := "0x" + Written(Shift(n, 1));
    end := AppendAt(str, at, end, HexChar(n % 16), text);
    assert text + [HexChar(n % 16)] == HexText(n);
    HoldsAll(str, at, HexText(n));
  }

  /** The digit loop of htoa: all digits but the last, without leading zeros. */
  method HighDigits(n: word, str: array<char>, at: nat, start: nat) returns (end: nat)
    requires start == at + 2 && at + |HexText(n)| < str.Length && Holds(str, at, "0x") && str[start] == NUL
    modifies str
    ensures end == start + |Written(Shift(n, 1))| < at + |HexText(n)|
    ensures Holds(str, at, "0x" + Written(Shift(n, 1))) && str[end] == NUL
    ensures forall i :: 0 <= i < str.Length && !(at <= i <= end) ==> str[i] == old(str[i])
  {
    hide HexDigits, Shift, HexChar, Written, Holds;
    ghost var text := "0x";
    end := start;
    var zeros := false;
    var k := 7;
    ShiftedOut(n);
    WrittenShorter(n, 8);
    while k > 0
      invariant 0 <= k <= 7
      invariant zeros <==> Shift(n, k + 1) != 0
      invariant text == "0x" + Written(Shift(n, k + 1))
      invariant end == at + |text| && |text| < |HexText(n)| && Holds(str, at, text) && str[end] == NUL
      invariant forall i :: 0 <= i < str.Length && !(at <= i <= end) ==> str[i] == old(str[i])
    {
      HexRound(n, k);
      var digit := Shift(n, k) % 16;
      if digit != 0 || zeros {
        zeros := true;
        end := AppendAt(str, at, end, HexChar(digit), text);
        text := text + [HexChar(digit)];
      }
      k := k - 1;
    }
  }

  /** One round of the digit loop: the digit at position k, or still nothing. */
  lemma HexRound(n: word, k: nat)
    requires 0 < k
    ensures var q, p := Shift(n, k), Shift(n, k + 1);
            && |Written(q)| < |HexDigits(n)|
            && (q % 16 != 0 || p != 0 ==> q != 0 && Written(q) == Written(p) + [HexChar(q % 16)])
            && (q % 16 == 0 && p == 0 ==> q == 0 && Written(q) == Written(p))
  {
    hide HexDigits, Shift, HexChar, Written;
    ShiftStep(n, k);
    WrittenStep(Shift(n, k));
    WrittenShorter(n, k);
  }

  /** place_at behind a text that starts at position `at`. */
  method AppendAt(str: array<char>, at: nat, end: nat, c: char, ghost text: string) returns (next: nat)
    requires end == at + |text| && end + 1 < str.Length && Holds(str, at, text)
    modifies str
    ensures next == end + 1 && Holds(str, at, text + [c]) && str[next] == NUL
    ensures forall i :: 0 <= i < str.Length && !(at <= i <= next) ==> str[i] == old(str[i])
  {
    next := PlaceAt(str, c, end);
  }

  lemma HoldsNothing(str: array<char>, at: nat)
    requires at <= str.Length
    ensures Holds(str, at, "")
  {}

  lemma HoldsAll(str: array<char>, at: nat, text: string)
    requires Holds(str, at, text)
    ensures at + |text| <= str.Length && str[at..at + |text|] == text
  {}

  /** The buffer holds text at position `at`. */
  ghost predicate Holds(str: array<char>, at: nat, text: string)
    reads str
  {
    at + |text| <= str.Length && forall i :: at <= i < at + |text| ==> str[i] == text[i - at]
  }

  lemma ShiftStep(n: nat, k: nat)
    ensures Shift(n, k + 1) == Shift(n, k) / 16 && Shift(n, 0) == n
  {}
}
