/** Numbers as text, with the characters written out: what is printed, what is read, and what is refused. */
module TextLaws {
  import opened Options
  import opened Text

  lemma DigitIff(c: char)
    ensures IsDigit(c) <==> c in {'0', '1', '2', '3', '4', '5', '6', '7', '8', '9'}
  {
  }

  /** Decimal text: a single digit, or the text of the tens and a digit, after a minus for a negative number. */
  lemma DecimalLaws(n: nat, d: nat)
    requires d < 10
    ensures Decimal(d) == [('0' as int + d) as char]
    ensures n > 0 ==> Decimal(10 * n + d) == Decimal(n) + [('0' as int + d) as char]
    ensures DecimalInt(n) == Decimal(n) && (n > 0 ==> DecimalInt(0 - n) == "-" + Decimal(n))
  {
    var m := 10 * n + d;
    assert m / 10 == n && m % 10 == d;
  }

  /** The number that a text of digits stands for. */
  lemma NatOfLaws(s: string, d: nat)
    requires AllDigits(s) && d < 10
    ensures AllDigits("") && NatOf("") == 0
    ensures var t := s + [('0' as int + d) as char]; AllDigits(t) && NatOf(t) == 10 * NatOf(s) + d
  {
    var t := s + [('0' as int + d) as char];
    assert t[..|t| - 1] == s;
  }

  // ---- lexical_cast ----

  /** s is digits with or without a sign, and stands for n. */
  ghost predicate IsNumeral(s: string, sign: string, digits: string, n: int) {
    && s == sign + digits && sign in {"", "+", "-"} && digits != "" && AllDigits(digits)
    && n == if sign == "-" then 0 - NatOf(digits) else NatOf(digits)
  }

  lemma NumeralCasts(s: string, sign: string, digits: string, n: int)
    requires IsNumeral(s, sign, digits, n)
    ensures LexicalCast(s) == if -0x8000_0000 <= n <= 0x7fff_ffff then Some(n) else None
  {
    assert IsDigit(digits[0]);
    if sign == "" {
      assert s == digits;
    } else {
      assert s[0] == sign[0] && s[1..] == digits;
    }
  }

  lemma CastsNumeral(s: string) returns (sign: string, digits: string)
    requires LexicalCast(s).Some?
    ensures IsNumeral(s, sign, digits, LexicalCast(s).value) && -0x8000_0000 <= LexicalCast(s).value <= 0x7fff_ffff
  {
    if s[0] == '-' || s[0] == '+' {
      sign, digits := s[..1], s[1..];
      assert s[..1] == [s[0]];
    } else {
      sign, digits := "", s;
    }
    assert s == sign + digits;
  }

  /** A text is read exactly when it is an optional sign and one or more digits, and nothing else, whose number an int
      holds; then it is read as that number. */
  lemma LexicalCastIff(s: string, n: int)
    ensures LexicalCast(s) == Some(n) <==>
              -0x8000_0000 <= n <= 0x7fff_ffff && exists sign: string, digits: string :: IsNumeral(s, sign, digits, n)
  {
    if LexicalCast(s) == Some(n) {
      var sign, digits := CastsNumeral(s);
    }
    forall sign: string, digits: string | IsNumeral(s, sign, digits, n)
      ensures LexicalCast(s) == if -0x8000_0000 <= n <= 0x7fff_ffff then Some(n) else None
    {
      NumeralCasts(s, sign, digits, n);
    }
  }

  // ---- atoi ----

  predicate IsSpaceText(ws: string) {
    forall i :: 0 <= i < |ws| ==> ws[i] as int in {9, 10, 11, 12, 13, 32}
  }

  lemma {:induction false} DigitsLead(digits: string, rest: string)
    requires AllDigits(digits) && (rest != "" ==> !IsDigit(rest[0]))
    ensures LeadingDigits(digits + rest) == digits
  {
    if digits == "" {
      assert digits + rest == rest;
    } else {
      assert (digits + rest)[1..] == digits[1..] + rest;
      DigitsLead(digits[1..], rest);
    }
  }

  lemma Signed(sign: string, digits: string, rest: string)
    requires sign in {"+", "-"}
    ensures (sign + digits + rest)[0] == sign[0] && (sign + digits + rest)[1..] == digits + rest
  {
  }

  lemma Unsigned(digits: string, rest: string)
    ensures "" + digits + rest == digits + rest
    ensures digits != "" ==> (digits + rest)[0] == digits[0]
    ensures digits == "" ==> digits + rest == rest
  {
  }

  lemma NoSpaces(sign: string, digits: string, rest: string)
    requires sign in {"", "+", "-"} && AllDigits(digits) && (rest != "" ==> !IsDigit(rest[0]))
    requires sign == "" && digits == "" && rest != "" ==> rest[0] as int !in {9, 10, 11, 12, 13, 32} && rest[0] !in {'+', '-'}
    ensures Atoi(sign + digits + rest) == if sign == "-" then 0 - NatOf(digits) else NatOf(digits)
  {
    DigitsLead(digits, rest);
    if sign != "" {
      Signed(sign, digits, rest);
    } else {
      Unsigned(digits, rest);
    }
  }

  /** Every text is white space, an optional sign, digits or none, and a rest; atoi reads the digits, 0 if there are none. */
  lemma {:induction false} AtoiIs(ws: string, sign: string, digits: string, rest: string)
    requires IsSpaceText(ws) && sign in {"", "+", "-"} && AllDigits(digits) && (rest != "" ==> !IsDigit(rest[0]))
    requires sign == "" && digits == "" && rest != "" ==> rest[0] as int !in {9, 10, 11, 12, 13, 32} && rest[0] !in {'+', '-'}
    ensures Atoi(ws + (sign + digits + rest)) == if sign == "-" then 0 - NatOf(digits) else NatOf(digits)
    decreases |ws|
  {
    var s := ws + (sign + digits + rest);
    if ws != "" {
      assert s[0] == ws[0] && s[1..] == ws[1..] + (sign + digits + rest);
      AtoiIs(ws[1..], sign, digits, rest);
    } else {
      assert s == sign + digits + rest;
      NoSpaces(sign, digits, rest);
    }
  }
}
