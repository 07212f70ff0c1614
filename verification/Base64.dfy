/**
 `base64_decode` (src/session.cc:171-190) and the encoding of section 4 of RFC 4648.

 The accumulator of the source is an int that is never masked: it wraps after a few characters. `Decoded` is what
 the loop computes, said with exact numbers.
 */
module Base64 {

  predicate IsBytes(s: string) {
    forall i :: 0 <= i < |s| ==> s[i] as int < 256
  }

  // ---- The alphabet, table 1 of RFC 4648 ----

  predicate IsSextet(d: int) {
    0 <= d < 64
  }

  function CharOf(d: int): char
    requires IsSextet(d)
  {
    if d < 26 then ('A' as int + d) as char
    else if d < 52 then ('a' as int + d - 26) as char
    else if d < 62 then ('0' as int + d - 52) as char
    else if d == 62 then '+'
    else '/'
  }

  /** The value of a character, -1 outside the alphabet. */
  function Sextet(c: char): (d: int)
    ensures d == -1 || (IsSextet(d) && CharOf(d) == c)
  {
    if 'A' <= c <= 'Z' then c as int - 'A' as int
    else if 'a' <= c <= 'z' then c as int - 'a' as int + 26
    else if '0' <= c <= '9' then c as int - '0' as int + 52
    else if c == '+' then 62
    else if c == '/' then 63
    else -1
  }

  lemma SextetOfChar(d: int)
    requires IsSextet(d)
    ensures Sextet(CharOf(d)) == d && CharOf(d) as int < 256
  {
  }

  // ---- Numbers in base 64 and in base 256, most significant first ----

  predicate AllSextets(ds: seq<int>) {
    forall i :: 0 <= i < |ds| ==> IsSextet(ds[i])
  }

  function DigitsValue(ds: seq<int>): nat
    requires AllSextets(ds)
  {
    if ds == [] then 0 else DigitsValue(ds[..|ds| - 1]) * 64 + ds[|ds| - 1]
  }

  function BytesValue(bs: string): nat {
    if bs == "" then 0 else BytesValue(bs[..|bs| - 1]) * 256 + bs[|bs| - 1] as int
  }

  /** The low k bytes of v. */
  function ToBytes(v: nat, k: nat): (s: string)
    ensures |s| == k && IsBytes(s)
  {
    if k == 0 then "" else ToBytes(v / 256, k - 1) + [(v % 256) as char]
  }

  lemma {:induction false} BytesOfValue(bs: string)
    requires IsBytes(bs)
    ensures ToBytes(BytesValue(bs), |bs|) == bs
    decreases |bs|
  {
    if bs != "" {
      BytesOfValue(bs[..|bs| - 1]);
    }
  }

  lemma DigitsSnoc(ds: seq<int>, d: int)
    requires AllSextets(ds) && IsSextet(d)
    ensures AllSextets(ds + [d]) && DigitsValue(ds + [d]) == DigitsValue(ds) * 64 + d
  {
    assert (ds + [d])[..|ds|] == ds;
  }

  lemma BytesSnoc(bs: string, c: char)
    ensures BytesValue(bs + [c]) == BytesValue(bs) * 256 + c as int
  {
    assert (bs + [c])[..|bs|] == bs;
  }

  // ---- Decoding ----

  /** The values of the characters before the first one outside the alphabet. */
  function Digits(s: string): (ds: seq<int>)
    ensures |ds| <= |s| && AllSextets(ds)
    ensures forall i :: 0 <= i < |ds| ==> ds[i] == Sextet(s[i])
    ensures |ds| < |s| ==> Sextet(s[|ds|]) == -1
  {
    if s == "" || Sextet(s[0]) == -1 then []
    else
      assert s == [s[0]] + s[1..];
      [Sextet(s[0])] + Digits(s[1..])
  }

  /** x >> n, an arithmetic shift, for the shifts that occur. */
  function ShiftRight(x: int, n: int): (y: int)
    ensures x >= 0 ==> y >= 0
  {
    if n == 0 then x else if n == 2 then x / 4 else if n == 4 then x / 16 else x / 64
  }

  /** The whole bytes of the base-64 number, from the top. */
  function Decoded(s: string): (out: string)
    ensures IsBytes(out)
  {
    var ds := Digits(s);
    ToBytes(ShiftRight(DigitsValue(ds), 6 * |ds| % 8), 6 * |ds| / 8)
  }

  /** An int of 32 bits: what is out of range comes back in at the other end. */
  function Wrap(x: int): (w: int)
    ensures -0x8000_0000 <= w < 0x8000_0000
    decreases if x < 0 then -x - 1 else x
  {
    if x >= 0x8000_0000 then Wrap(x - 0x1_0000_0000)
    else if x < -0x8000_0000 then Wrap(x + 0x1_0000_0000)
    else x
  }

  function Turns(k: int): int {
    k * 0x1_0000_0000
  }

  /** Equal up to whole turns of the 32-bit range. */
  ghost predicate Congruent(x: int, y: int) {
    exists k :: x == y + Turns(k)
  }

  lemma {:induction false} WrapTurns(x: int) returns (k: int)
    ensures Wrap(x) == x + Turns(k)
    decreases if x < 0 then -x - 1 else x
  {
    k := 0;
    if x >= 0x8000_0000 {
      k := WrapTurns(x - 0x1_0000_0000);
      k := k - 1;
    } else if x < -0x8000_0000 {
      k := WrapTurns(x + 0x1_0000_0000);
      k := k + 1;
    }
  }

  /** The shifted and added accumulator still agrees with the exact number. */
  lemma ShiftCongruent(val: int, v: int, d: int)
    requires Congruent(val, v)
    ensures Congruent(Wrap(Wrap(val * 64) + d), v * 64 + d)
  {
    var a :| val == v + Turns(a);
    var b := WrapTurns(val * 64);
    var c := WrapTurns(Wrap(val * 64) + d);
    assert Wrap(Wrap(val * 64) + d) == v * 64 + d + Turns(a * 64 + b + c);
  }

  lemma Mod4(x: int, k: int)
    ensures (x + 4 * k) % 4 == x % 4
  {
  }

  lemma Mod16(x: int, k: int)
    ensures (x + 16 * k) % 16 == x % 16
  {
  }

  lemma Mod64(x: int, k: int)
    ensures (x + 64 * k) % 64 == x % 64
  {
  }

  lemma Mod256(x: int, k: int)
    ensures (x + 256 * k) % 256 == x % 256
  {
  }

  /** char((x >> n) & 0xFF) */
  function ByteAt(x: int, n: int): (c: char)
    ensures c as int == ShiftRight(x, n) % 256
  {
    (ShiftRight(x, n) % 256) as char
  }

  /** The byte taken from the wrapped accumulator is the byte of the exact number. */
  lemma LowByte(val: int, v: int, n: int)
    requires Congruent(val, v) && n in {0, 2, 4}
    ensures ByteAt(val, n) == ByteAt(v, n)
  {
    var k :| val == v + Turns(k);
    if n == 0 {
      Mod256(v, k * 0x100_0000);
    } else if n == 2 {
      Quarter(v, k);
      Mod256(v / 4, k * 0x40_0000);
    } else {
      Sixteenth(v, k);
      Mod256(v / 16, k * 0x10_0000);
    }
  }

  lemma Quarter(v: int, k: int)
    ensures (v + Turns(k)) / 4 == v / 4 + 256 * (k * 0x40_0000)
  {
  }

  lemma Sixteenth(v: int, k: int)
    ensures (v + Turns(k)) / 16 == v / 16 + 256 * (k * 0x10_0000)
  {
  }

  /** One more character completes a byte when n of its bits are over. */
  lemma NextByte(v: nat, d: int, n: int)
    requires IsSextet(d) && n in {0, 2, 4}
    ensures ShiftRight(v * 64 + d, n) == ShiftRight(v, n + 2) * 256 + ByteAt(v * 64 + d, n) as int
  {
    if n == 0 {
      NextOf4(v, d);
    } else if n == 2 {
      NextOf16(v, d);
    } else {
      NextOf64(v, d);
    }
  }

  lemma NextOf4(v: nat, d: int)
    requires IsSextet(d)
    ensures v * 64 + d == v / 4 * 256 + (v * 64 + d) % 256
  {
    var r := v % 4 * 64 + d;
    assert v * 64 + d == r + 256 * (v / 4);
    Mod256(r, v / 4);
  }

  lemma NextOf16(v: nat, d: int)
    requires IsSextet(d)
    ensures (v * 64 + d) / 4 == v / 16 * 256 + (v * 64 + d) / 4 % 256
  {
    var r := v % 16 * 64 + d;
    assert v * 64 + d == r + 1024 * (v / 16);
    assert (v * 64 + d) / 4 == r / 4 + 256 * (v / 16);
    Mod256(r / 4, v / 16);
  }

  lemma NextOf64(v: nat, d: int)
    requires IsSextet(d)
    ensures (v * 64 + d) / 16 == v / 64 * 256 + (v * 64 + d) / 16 % 256
  {
    var r := v % 64 * 64 + d;
    assert v * 64 + d == r + 4096 * (v / 64);
    assert (v * 64 + d) / 16 == r / 16 + 256 * (v / 64);
    Mod256(r / 16, v / 64);
  }

  /** The variables of the loop. */
  datatype Accumulator = Accumulator(val: int, valb: int, out: string)

  /** The loop body for a character of value d. */
  function Absorb(a: Accumulator, d: int): Accumulator
    requires a.valb in {-8, -6, -4, -2}
  {
    var val, valb := Wrap(Wrap(a.val * 64) + d), a.valb + 6;
    if valb >= 0 then Accumulator(val, valb - 8, a.out + [ByteAt(val, valb)])
    else Accumulator(val, valb, a.out)
  }

  /** At the loop head: the accumulator is the exact number up to wrapping, every bit read is either put out or among
      the low valb + 8 bits, and the output is the top of the number. */
  ghost predicate Agrees(a: Accumulator, ds: seq<int>) {
    && AllSextets(ds)
    && a.valb in {-8, -6, -4, -2} && 6 * |ds| == 8 * |a.out| + a.valb + 8
    && Congruent(a.val, DigitsValue(ds))
    && IsBytes(a.out) && BytesValue(a.out) == ShiftRight(DigitsValue(ds), a.valb + 8)
  }

  lemma PutByte(val: int, out: string, v: nat, d: int, n: int)
    requires IsSextet(d) && n in {0, 2, 4}
    requires Congruent(val, v * 64 + d) && BytesValue(out) == ShiftRight(v, n + 2)
    ensures BytesValue(out + [ByteAt(val, n)]) == ShiftRight(v * 64 + d, n)
  {
    var top, c := ShiftRight(v * 64 + d, n), ByteAt(val, n);
    assert top == BytesValue(out) * 256 + c as int by {
      LowByte(val, v * 64 + d, n);
      NextByte(v, d, n);
    }
    BytesSnoc(out, c);
  }

  lemma AbsorbAgrees(a: Accumulator, ds: seq<int>, d: int)
    requires Agrees(a, ds) && IsSextet(d)
    ensures Agrees(Absorb(a, d), ds + [d])
  {
    DigitsSnoc(ds, d);
    ShiftCongruent(a.val, DigitsValue(ds), d);
    if a.valb == -8 {
      assert (DigitsValue(ds) * 64 + d) / 64 == DigitsValue(ds);
    } else {
      PutByte(Wrap(Wrap(a.val * 64) + d), a.out, DigitsValue(ds), d, a.valb + 6);
    }
  }

  /** 2 to the power n, for the same n. */
  function Power(n: int): (p: int)
    ensures p > 0
  {
    if n == 0 then 1 else if n == 2 then 4 else if n == 4 then 16 else 64
  }

  /** Bit conservation: the output and the low bits of the wrapped accumulator make up the exact number. */
  lemma BitsConserved(a: Accumulator, ds: seq<int>)
    requires Agrees(a, ds)
    ensures BytesValue(a.out) * Power(a.valb + 8) + a.val % Power(a.valb + 8) == DigitsValue(ds)
  {
    LowBits(a.val, DigitsValue(ds));
  }

  lemma LowBits(val: int, v: int)
    requires Congruent(val, v)
    ensures val % 4 == v % 4 && val % 16 == v % 16 && val % 64 == v % 64
  {
    var k :| val == v + Turns(k);
    assert val == v + 4 * (k * 0x4000_0000) == v + 16 * (k * 0x1000_0000) == v + 64 * (k * 0x400_0000);
    Mod4(v, k * 0x4000_0000);
    Mod16(v, k * 0x1000_0000);
    Mod64(v, k * 0x400_0000);
  }

  lemma AgreesAtEnd(a: Accumulator, s: string)
    requires Agrees(a, Digits(s))
    ensures a.out == Decoded(s)
  {
    var ds := Digits(s);
    BytesOfValue(a.out);
    Bits(6 * |ds|, |a.out|, a.valb + 8);
  }

  lemma Bits(x: nat, bytes: nat, over: nat)
    requires x == 8 * bytes + over && over < 8
    ensures x / 8 == bytes && x % 8 == over
  {
  }

  ghost predicate IsTable(table: array<int>)
    reads table
  {
    table.Length == 256 && forall k :: 0 <= k < 256 ==> table[k] == Sextet(k as char)
  }

  /** The table T of the source. */
  method BuildTable() returns (table: array<int>)
    ensures fresh(table) && IsTable(table)
  {
    table := new int[256](_ => -1);
    for i := 0 to 64
      invariant forall k :: 0 <= k < 256 ==> table[k] == if Sextet(k as char) < i then Sextet(k as char) else -1
    {
      SextetOfChar(i);
      table[CharOf(i) as int] := i;
    }
  }

  lemma TableAt(table: array<int>, c: char)
    requires IsTable(table) && c as int < 256
    ensures table[c as int] == Sextet(c)
  {
    assert (c as int) as char == c;
  }

  /** The loop head after i characters. */
  ghost predicate AtHead(a: Accumulator, s: string, i: nat) {
    i <= |Digits(s)| && Agrees(a, Digits(s)[..i])
  }

  lemma Begin(s: string)
    ensures AtHead(Accumulator(0, -8, ""), s, 0)
  {
    assert 0 == DigitsValue([]) + Turns(0);
    assert Digits(s)[..0] == [];
  }

  lemma Advance(a: Accumulator, s: string, i: nat)
    requires AtHead(a, s, i) && i < |s| && Sextet(s[i]) != -1
    ensures AtHead(Absorb(a, Sextet(s[i])), s, i + 1)
  {
    NextDigit(s, i);
    AbsorbAgrees(a, Digits(s)[..i], Sextet(s[i]));
  }

  lemma NextDigit(s: string, i: nat)
    requires i <= |Digits(s)| && i < |s| && Sextet(s[i]) != -1
    ensures i < |Digits(s)| && Digits(s)[..i + 1] == Digits(s)[..i] + [Sextet(s[i])]
  {
  }

  lemma Finish(a: Accumulator, s: string, i: nat)
    requires AtHead(a, s, i) && (i < |s| ==> Sextet(s[i]) == -1)
    ensures a.out == Decoded(s)
  {
    assert i == |Digits(s)| && Digits(s)[..i] == Digits(s);
    AgreesAtEnd(a, s);
  }

  method Decode(input: string) returns (out: string)
    requires IsBytes(input)
    ensures out == Decoded(input)
  {
    out := "";
    var table := BuildTable();
    var val, valb := 0, -8;
    Begin(input);
    var i := 0;
    while i < |input|
      invariant i <= |input| && IsTable(table) && valb in {-8, -6, -4, -2}
      invariant AtHead(Accumulator(val, valb, out), input, i)
    {
      TableAt(table, input[i]);
      var d := table[input[i] as int];
      if d == -1 {
        break;
      }
      Advance(Accumulator(val, valb, out), input, i);
      val := Wrap(Wrap(val * 64) + d);
      valb := valb + 6;
      if valb >= 0 {
        out := out + [ByteAt(val, valb)];
        valb := valb - 8;
      }
      i := i + 1;
    }
    Finish(Accumulator(val, valb, out), input, i);
  }

  // ---- The encoding of section 4 of RFC 4648 ----

  /** Three bytes in a row cut into four groups of six bits; `GroupValue` says that they are the same 24 bits. */
  function Group(a: int, b: int, c: int): (ds: seq<int>)
    requires 0 <= a < 256 && 0 <= b < 256 && 0 <= c < 256
    ensures |ds| == 4 && AllSextets(ds)
  {
    [a / 4, a % 4 * 16 + b / 16, b % 16 * 4 + c / 64, c % 64]
  }

  /** The groups of input whose length is a multiple of three. */
  function Groups(x: string): (ds: seq<int>)
    requires IsBytes(x) && |x| % 3 == 0
    ensures |ds| == |x| / 3 * 4 && AllSextets(ds)
    decreases |x|
  {
    if x == "" then []
    else
      var n := |x| - 3;
      Groups(x[..n]) + Group(x[n] as int, x[n + 1] as int, x[n + 2] as int)
  }

  /** One or two bytes at the end, with zero bits added on the right to fill the last 6-bit group. */
  function Tail(x: string): (ds: seq<int>)
    requires IsBytes(x) && |x| < 3
    ensures |ds| == (if x == "" then 0 else |x| + 1) && AllSextets(ds)
  {
    if |x| == 0 then []
    else if |x| == 1 then Group(x[0] as int, 0, 0)[..2]
    else Group(x[0] as int, x[1] as int, 0)[..3]
  }

  function EncodeDigits(x: string): (ds: seq<int>)
    requires IsBytes(x)
    ensures AllSextets(ds)
  {
    var full := |x| / 3 * 3;
    Groups(x[..full]) + Tail(x[full..])
  }

  function Chars(ds: seq<int>): (s: string)
    requires AllSextets(ds)
    ensures |s| == |ds| && forall i :: 0 <= i < |ds| ==> s[i] == CharOf(ds[i])
  {
    if ds == [] then "" else Chars(ds[..|ds| - 1]) + [CharOf(ds[|ds| - 1])]
  }

  function Padding(x: string): string {
    if |x| % 3 == 0 then "" else if |x| % 3 == 1 then "==" else "="
  }

  function Encode(x: string, pad: bool := true): string
    requires IsBytes(x)
  {
    Chars(EncodeDigits(x)) + if pad then Padding(x) else ""
  }

  // ---- Decoding what was encoded ----

  lemma GroupValue(a: int, b: int, c: int)
    requires 0 <= a < 256 && 0 <= b < 256 && 0 <= c < 256
    ensures var g := Group(a, b, c); ((g[0] * 64 + g[1]) * 64 + g[2]) * 64 + g[3] == (a * 256 + b) * 256 + c
  {
    assert a == a / 4 * 4 + a % 4;
    assert b == b / 16 * 16 + b % 16;
    assert c == c / 64 * 64 + c % 64;
  }

  lemma AppendGroup(ds: seq<int>, g: seq<int>)
    requires AllSextets(ds) && AllSextets(g) && |g| == 4
    ensures AllSextets(ds + g)
    ensures DigitsValue(ds + g) == DigitsValue(ds) * 0x100_0000 + (((g[0] * 64 + g[1]) * 64 + g[2]) * 64 + g[3])
  {
    AppendThree(ds, g[..3]);
    DigitsSnoc(ds + g[..3], g[3]);
    assert ds + g[..3] + [g[3]] == ds + g;
  }

  lemma AppendThree(ds: seq<int>, g: seq<int>)
    requires AllSextets(ds) && AllSextets(g) && |g| == 3
    ensures AllSextets(ds + g)
    ensures DigitsValue(ds + g) == DigitsValue(ds) * 0x4_0000 + ((g[0] * 64 + g[1]) * 64 + g[2])
  {
    AppendTwo(ds, g[..2]);
    DigitsSnoc(ds + g[..2], g[2]);
    assert ds + g[..2] + [g[2]] == ds + g;
  }

  lemma AppendTwo(ds: seq<int>, g: seq<int>)
    requires AllSextets(ds) && AllSextets(g) && |g| == 2
    ensures AllSextets(ds + g)
    ensures DigitsValue(ds + g) == DigitsValue(ds) * 0x1000 + (g[0] * 64 + g[1])
  {
    DigitsSnoc(ds, g[0]);
    DigitsSnoc(ds + [g[0]], g[1]);
    assert ds + [g[0]] + [g[1]] == ds + g;
  }

  lemma AppendByte(x: string, n: nat)
    requires n + 1 == |x|
    ensures BytesValue(x) == BytesValue(x[..n]) * 256 + x[n] as int
  {
  }

  lemma {:induction false} GroupsValue(x: string)
    requires IsBytes(x) && |x| % 3 == 0
    ensures DigitsValue(Groups(x)) == BytesValue(x)
    decreases |x|
  {
    if x != "" {
      var n := |x| - 3;
      var y := x[..n];
      GroupsValue(y);
      GroupValue(x[n] as int, x[n + 1] as int, x[n + 2] as int);
      AppendGroup(Groups(y), Group(x[n] as int, x[n + 1] as int, x[n + 2] as int));
      AppendByte(x, n + 2);
      AppendByte(x[..n + 2], n + 1);
      AppendByte(x[..n + 1], n);
      assert x[..n + 2][..n + 1] == x[..n + 1] && x[..n + 1][..n] == y;
    }
  }

  /** The zero bits that fill the last 6-bit group. */
  function FillBits(x: string): int {
    if |x| % 3 == 0 then 0 else if |x| % 3 == 1 then 4 else 2
  }

  lemma TailValue(a: int, b: int)
    requires 0 <= a < 256 && 0 <= b < 256
    ensures Group(a, 0, 0)[0] * 64 + Group(a, 0, 0)[1] == a * 16
    ensures (Group(a, b, 0)[0] * 64 + Group(a, b, 0)[1]) * 64 + Group(a, b, 0)[2] == (a * 256 + b) * 4
  {
    GroupValue(a, 0, 0);
    GroupValue(a, b, 0);
  }

  lemma ShiftBack(m: nat)
    ensures ShiftRight(16 * m, 4) == m && ShiftRight(4 * m, 2) == m
  {
  }

  lemma OneMore(ds: seq<int>, t: seq<int>, y: string, c: char)
    requires AllSextets(ds) && AllSextets(t) && |t| == 2
    requires DigitsValue(ds) == BytesValue(y) && t[0] * 64 + t[1] == 16 * c as int
    ensures DigitsValue(ds + t) == 16 * BytesValue(y + [c])
  {
    AppendTwo(ds, t);
    BytesSnoc(y, c);
  }

  lemma TwoMore(ds: seq<int>, t: seq<int>, y: string, c: char, d: char)
    requires AllSextets(ds) && AllSextets(t) && |t| == 3
    requires DigitsValue(ds) == BytesValue(y) && (t[0] * 64 + t[1]) * 64 + t[2] == 4 * (c as int * 256 + d as int)
    ensures DigitsValue(ds + t) == 4 * BytesValue(y + [c, d])
  {
    AppendThree(ds, t);
    BytesSnoc(y, c);
    BytesSnoc(y + [c], d);
    assert y + [c] + [d] == y + [c, d];
  }

  lemma TailOfOne(c: char)
    requires c as int < 256
    ensures var t := Tail([c]); t[0] * 64 + t[1] == 16 * c as int
  {
    TailValue(c as int, 0);
  }

  lemma TailOfTwo(c: char, d: char)
    requires c as int < 256 && d as int < 256
    ensures var t := Tail([c, d]); (t[0] * 64 + t[1]) * 64 + t[2] == 4 * (c as int * 256 + d as int)
  {
    TailValue(c as int, d as int);
  }

  lemma CutTail(x: string)
    ensures var y := x[..|x| / 3 * 3];
            && |y| % 3 == 0 && |x| - |y| == |x| % 3
            && (|x| % 3 == 1 ==> x == y + [x[|y|]] && x[|y|..] == [x[|y|]])
            && (|x| % 3 == 2 ==> x == y + [x[|y|], x[|y| + 1]] && x[|y|..] == [x[|y|], x[|y| + 1]])
  {
  }

  /** The encoding's number is the input's number with the fill bits on the right. */
  lemma EncodeValue(x: string)
    requires IsBytes(x)
    ensures ShiftRight(DigitsValue(EncodeDigits(x)), FillBits(x)) == BytesValue(x)
  {
    var y := x[..|x| / 3 * 3];
    CutTail(x);
    ShiftBack(BytesValue(x));
    GroupsValue(y);
    if |x| % 3 == 0 {
      assert x == y && EncodeDigits(x) == Groups(y);
    } else if |x| % 3 == 1 {
      TailOfOne(x[|y|]);
      OneMore(Groups(y), Tail([x[|y|]]), y, x[|y|]);
    } else {
      TailOfTwo(x[|y|], x[|y| + 1]);
      TwoMore(Groups(y), Tail([x[|y|], x[|y| + 1]]), y, x[|y|], x[|y| + 1]);
    }
  }

  lemma EncodeLength(x: string)
    requires IsBytes(x)
    ensures 6 * |EncodeDigits(x)| / 8 == |x| && 6 * |EncodeDigits(x)| % 8 == FillBits(x)
  {
    CutTail(x);
    assert |EncodeDigits(x)| == |x| / 3 * 4 + (if |x| % 3 == 0 then 0 else |x| % 3 + 1);
    Bits(6 * |EncodeDigits(x)|, |x|, FillBits(x));
  }

  lemma DigitsOfChars(ds: seq<int>, rest: string)
    requires AllSextets(ds) && (rest == "" || Sextet(rest[0]) == -1)
    ensures Digits(Chars(ds) + rest) == ds
  {
    var s := Chars(ds) + rest;
    forall i | 0 <= i < |ds|
      ensures Sextet(s[i]) == ds[i]
    {
      SextetOfChar(ds[i]);
    }
    assert rest != "" ==> s[|ds|] == rest[0];
    assert |Digits(s)| == |ds|;
  }

  lemma CharsAreBytes(ds: seq<int>)
    requires AllSextets(ds)
    ensures IsBytes(Chars(ds))
  {
    forall i | 0 <= i < |ds|
      ensures CharOf(ds[i]) as int < 256
    {
      SextetOfChar(ds[i]);
    }
  }

  /** Every byte string comes back from its encoding, with and without padding. */
  lemma RoundTrip(x: string, pad: bool)
    requires IsBytes(x)
    ensures Decoded(Encode(x, pad)) == x
  {
    DigitsOfChars(EncodeDigits(x), if pad then Padding(x) else "");
    EncodeLength(x);
    EncodeValue(x);
    BytesOfValue(x);
  }

  lemma EncodeIsBytes(x: string, pad: bool)
    requires IsBytes(x)
    ensures IsBytes(Encode(x, pad))
  {
    CharsAreBytes(EncodeDigits(x));
    Appended(Chars(EncodeDigits(x)), if pad then Padding(x) else "");
  }

  lemma Appended(a: string, b: string)
    requires IsBytes(a) && IsBytes(b)
    ensures IsBytes(a + b)
  {
  }
}
