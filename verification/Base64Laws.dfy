/** Base64 with the alphabet written out, and the test vectors of section 10 of RFC 4648. */
module Base64Laws {
  import opened Base64

  lemma Capitals(d: int)
    requires 0 <= d < 26
    ensures CharOf(d) == "ABCDEFGHIJKLMNOPQRSTUVWXYZ"[d]
  {
  }

  lemma SmallLetters(d: int)
    requires 26 <= d < 52
    ensures CharOf(d) == "abcdefghijklmnopqrstuvwxyz"[d - 26]
  {
  }

  lemma Numerals(d: int)
    requires 52 <= d < 64
    ensures CharOf(d) == "0123456789+/"[d - 52]
  {
  }

  /** The alphabet is the text of the source's table. */
  lemma AlphabetIs(d: int)
    requires 0 <= d < 64
    ensures CharOf(d) == ("ABCDEFGHIJKLMNOPQRSTUVWXYZ" + "abcdefghijklmnopqrstuvwxyz" + "0123456789+/")[d]
  {
    if d < 26 {
      Capitals(d);
    } else if d < 52 {
      SmallLetters(d);
    } else {
      Numerals(d);
    }
  }

  /** A character has a value exactly when it is in this text, and then its value is its place there. */
  lemma SextetIff(c: char, d: int)
    ensures Sextet(c) == d && d != -1
            <==> 0 <= d < 64 && c == ("ABCDEFGHIJKLMNOPQRSTUVWXYZ" + "abcdefghijklmnopqrstuvwxyz" + "0123456789+/")[d]
  {
    if 0 <= d < 64 {
      AlphabetIs(d);
      SextetOfChar(d);
    }
  }

  /** Decoding stops at the first character outside the alphabet; padding is one. */
  lemma {:induction false} DecodingStops(s: string, c: char, rest: string)
    requires Sextet(c) == -1
    ensures Digits(s + [c] + rest) == Digits(s) && Decoded(s + [c] + rest) == Decoded(s)
    decreases |s|
  {
    var t := s + [c] + rest;
    if s == "" {
      assert t[0] == c;
    } else {
      assert t[0] == s[0] && t[1..] == s[1..] + [c] + rest;
      if Sextet(s[0]) != -1 {
        DecodingStops(s[1..], c, rest);
      }
    }
  }

  lemma GroupsMore(x: string, a: char, b: char, c: char)
    requires IsBytes(x) && |x| % 3 == 0 && a as int < 256 && b as int < 256 && c as int < 256
    ensures Groups(x + [a, b, c]) == Groups(x) + Group(a as int, b as int, c as int)
  {
    assert (x + [a, b, c])[..|x|] == x;
  }

  /** The test vectors. */
  lemma VectorF()
    ensures Encode("f", true) == "Zg=="
  {
    assert "f"[..0] == "" && "f"[0..] == "f";
    assert EncodeDigits("f") == [25, 32];
    assert Chars([25, 32]) == "Zg";
  }

  lemma VectorFo()
    ensures Encode("fo", true) == "Zm8="
  {
    assert "fo"[..0] == "" && "fo"[0..] == "fo";
    assert EncodeDigits("fo") == [25, 38, 60];
    assert Chars([25, 38, 60]) == "Zm8";
  }

  lemma GroupsOfFoo()
    ensures Groups("foo") == [25, 38, 61, 47]
  {
    GroupsMore("", 'f', 'o', 'o');
    assert "" + ['f', 'o', 'o'] == "foo" && Groups("") == [];
    assert Group('f' as int, 'o' as int, 'o' as int) == [25, 38, 61, 47];
  }

  lemma VectorFoo()
    ensures Encode("foo", true) == "Zm9v"
  {
    GroupsOfFoo();
    assert "foo"[..3] == "foo" && "foo"[3..] == "";
    assert EncodeDigits("foo") == [25, 38, 61, 47];
    assert Chars([25, 38, 61, 47]) == "Zm9v";
  }

  lemma GroupsOfFoobar()
    ensures Groups("foobar") == [25, 38, 61, 47, 24, 38, 5, 50]
  {
    GroupsOfFoo();
    GroupsMore("foo", 'b', 'a', 'r');
    assert "foo" + ['b', 'a', 'r'] == "foobar";
    assert Group('b' as int, 'a' as int, 'r' as int) == [24, 38, 5, 50];
  }

  lemma CharsOfFoobar()
    ensures Chars([25, 38, 61, 47, 24, 38, 5, 50]) == "Zm9vYmFy"
  {
  }

  lemma VectorFoobar()
    ensures Encode("foobar", true) == "Zm9vYmFy"
  {
    GroupsOfFoobar();
    CharsOfFoobar();
    assert "foobar"[..6] == "foobar" && "foobar"[6..] == "";
  }

  // ---- Any text of the alphabet ----

  lemma {:induction false} Accumulate(ds: seq<int>) returns (a: Accumulator)
    requires AllSextets(ds)
    ensures Agrees(a, ds)
    decreases |ds|
  {
    if ds == [] {
      a := Accumulator(0, -8, "");
      assert 0 == DigitsValue([]) + Turns(0);
    } else {
      var n := |ds| - 1;
      a := Accumulate(ds[..n]);
      AbsorbAgrees(a, ds[..n], ds[n]);
      a := Absorb(a, ds[n]);
      assert ds[..n] + [ds[n]] == ds;
    }
  }

  lemma Lengths(n: nat, bytes: nat, over: int)
    requires over in {0, 2, 4, 6} && 6 * n == 8 * bytes + over
    ensures bytes == 6 * n / 8
    ensures over == if n % 4 == 0 then 0 else if n % 4 == 1 then 6 else if n % 4 == 2 then 4 else 2
  {
  }

  /** Any n characters of the alphabet decode to 6 n / 8 bytes, whether an encoder could have made them or not: the bits that
      are left over are dropped, whatever they are. */
  lemma DecodedIs(s: string)
    ensures var n, v := |Digits(s)|, DigitsValue(Digits(s));
            && |Decoded(s)| == 6 * n / 8
            && BytesValue(Decoded(s))
               == if n % 4 == 0 then v else if n % 4 == 1 then v / 64 else if n % 4 == 2 then v / 16 else v / 4
  {
    var a := Accumulate(Digits(s));
    AgreesAtEnd(a, s);
    Lengths(|Digits(s)|, |a.out|, a.valb + 8);
  }

  // ---- The accumulator ----

  lemma TurnsAre(k: int)
    ensures Turns(k) == 4_294_967_296 * k && (4_294_967_296 * k) % 4_294_967_296 == 0
  {
  }

  /** The accumulator is an int of 32 bits: from -2^31 to 2^31 - 1, and away from the exact number by a multiple of 2^32. */
  lemma WrapIs(x: int)
    ensures -2_147_483_648 <= Wrap(x) <= 2_147_483_647 && (Wrap(x) - x) % 4_294_967_296 == 0
  {
    var k := WrapTurns(x);
    TurnsAre(k);
  }

  lemma BytesIff(s: string)
    ensures IsBytes(s) <==> forall i :: 0 <= i < |s| ==> s[i] as int <= 255
  {
  }
}
