/** Searching in strings, and numbers as decimal text. */
module Text {
  import opened Options

  /** Position of the first c, or |s|: std::string::find with npos read as the length. */
  function IndexOf(s: string, c: char): (i: nat)
    ensures i <= |s| && c !in s[..i] && (i < |s| ==> s[i] == c)
    ensures i == |s| <==> c !in s
  {
    if s == "" || s[0] == c then 0
    else
      var i := 1 + IndexOf(s[1..], c);
      assert s[..i] == [s[0]] + s[1..][..i - 1];
      assert s == [s[0]] + s[1..];
      i
  }

  lemma NoneBefore(d: string, i: nat)
    requires i <= |d| && ':' !in d[..i]
    ensures forall k :: 0 <= k < i ==> d[k] != ':'
  {
    forall k | 0 <= k < i
      ensures d[k] != ':'
    {
      assert d[..i][k] == d[k];
    }
  }

  /** There is only one first colon. */
  lemma FirstColon(d: string, i: nat, j: nat)
    requires j < |d| && d[j] == ':' && ':' !in d[..j]
    requires i <= |d| && ':' !in d[..i] && (i < |d| ==> d[i] == ':')
    ensures i == j
  {
    NoneBefore(d, i);
    NoneBefore(d, j);
  }

  /** Position after the last c among the first n characters, or 0: find_last_of(c) + 1, which is 0 for npos. */
  function LastOf(s: string, c: char, n: nat): (k: nat)
    requires n <= |s|
    ensures k <= n && (k > 0 ==> s[k - 1] == c) && forall i :: k <= i < n ==> s[i] != c
  {
    if n == 0 || s[n - 1] == c then n else LastOf(s, c, n - 1)
  }

  /** The text after the last c, the whole text if there is none: substr(find_last_of(c) + 1). */
  function AfterLast(s: string, c: char): string {
    s[LastOf(s, c, |s|)..]
  }

  /** The text before the last c, the whole text if there is none: substr(0, find_last_of(c)). */
  function BeforeLast(s: string, c: char): string {
    var k := LastOf(s, c, |s|);
    if k == 0 then s else s[..k - 1]
  }

  lemma SplitLast(a: string, c: char, b: string)
    requires c !in b
    ensures AfterLast(a + [c] + b, c) == b && BeforeLast(a + [c] + b, c) == a
  {
    var s := a + [c] + b;
    var k := LastOf(s, c, |s|);
    assert s[|a|] == c;
    assert k == |a| + 1;
  }

  // ---- Decimal text ----

  predicate IsDigit(c: char) {
    '0' <= c <= '9'
  }

  predicate AllDigits(s: string) {
    forall i :: 0 <= i < |s| ==> IsDigit(s[i])
  }

  function DigitChar(d: nat): (c: char)
    requires d < 10
    ensures IsDigit(c) && c as int - '0' as int == d
  {
    ('0' as int + d) as char
  }

  function Decimal(n: nat): (s: string)
    ensures s != "" && AllDigits(s)
  {
    if n < 10 then [DigitChar(n)] else Decimal(n / 10) + [DigitChar(n % 10)]
  }

  /** An int as `operator<<` and std::to_string write it. */
  function DecimalInt(n: int): string {
    if n < 0 then "-" + Decimal(-n) else Decimal(n)
  }

  function NatOf(s: string): nat
    requires AllDigits(s)
  {
    if s == "" then 0 else NatOf(s[..|s| - 1]) * 10 + (s[|s| - 1] as int - '0' as int)
  }

  lemma {:induction false} NatOfDecimal(n: nat)
    ensures NatOf(Decimal(n)) == n
  {
    var s := Decimal(n);
    if n < 10 {
      assert s[..0] == "";
    } else {
      NatOfDecimal(n / 10);
      assert s[..|s| - 1] == Decimal(n / 10);
    }
  }

  lemma DecimalInjective(m: int, n: int)
    requires DecimalInt(m) == DecimalInt(n)
    ensures m == n
  {
    assert m < 0 <==> DecimalInt(m)[0] == '-';
    assert n < 0 <==> DecimalInt(n)[0] == '-';
    if m >= 0 {
      NatOfDecimal(m);
      NatOfDecimal(n);
    } else {
      NatOfDecimal(-m);
      NatOfDecimal(-n);
      assert DecimalInt(m)[1..] == Decimal(-m) && DecimalInt(n)[1..] == Decimal(-n);
    }
  }

  lemma DecimalHasNo(n: int, c: char)
    requires !IsDigit(c) && c != '-'
    ensures c !in DecimalInt(n) && DecimalInt(n) != ""
  {
    var s := DecimalInt(n);
    forall i | 0 <= i < |s| ensures s[i] != c {
      if n < 0 && i > 0 {
        assert s[i] == Decimal(-n)[i - 1];
      }
    }
  }

  predicate InInt(n: int) {
    -0x8000_0000 <= n < 0x8000_0000
  }

  function CastDigits(negative: bool, digits: string): Option<int> {
    if digits == "" || !AllDigits(digits) then None
    else
      var n := if negative then 0 - NatOf(digits) else NatOf(digits);
      if InInt(n) then Some(n) else None
  }

  /** boost::lexical_cast<int>: an optional sign and digits, nothing else, within the range of int. */
  function LexicalCast(s: string): Option<int> {
    if s != "" && (s[0] == '-' || s[0] == '+') then CastDigits(s[0] == '-', s[1..]) else CastDigits(false, s)
  }

  /** The decimal text of an int is read back. */
  lemma CastDecimal(n: int)
    ensures LexicalCast(DecimalInt(n)) == if InInt(n) then Some(n) else None
  {
    var m := if n < 0 then -n else n;
    var s := Decimal(m);
    NatOfDecimal(m);
    assert IsDigit(s[0]);
    assert ("-" + s)[1..] == s;
  }

  predicate IsSpace(c: char) {
    c == ' ' || 9 <= c as int <= 13
  }

  function LeadingDigits(s: string): (d: string)
    ensures AllDigits(d) && d <= s && (|d| < |s| ==> !IsDigit(s[|d|]))
  {
    if s == "" || !IsDigit(s[0]) then ""
    else
      assert s == [s[0]] + s[1..];
      [s[0]] + LeadingDigits(s[1..])
  }

  /** atoi without overflow. */
  function Atoi(s: string): int {
    if s == "" then 0
    else if IsSpace(s[0]) then Atoi(s[1..])
    else if s[0] == '-' then 0 - NatOf(LeadingDigits(s[1..]))
    else if s[0] == '+' then NatOf(LeadingDigits(s[1..]))
    else NatOf(LeadingDigits(s))
  }

  lemma AtoiDecimal(n: nat)
    ensures Atoi(Decimal(n)) == n
  {
    var s := Decimal(n);
    assert IsDigit(s[0]);
    assert LeadingDigits(s) == s;
    NatOfDecimal(n);
  }
}
