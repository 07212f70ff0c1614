/** The lookup of `port` and `timer` with its numbers written out. */
module LookupLaws {
  import opened Options
  import opened Text
  import opened TextLaws
  import opened ConfigTree
  import opened ConfigLookup

  /** The first childless two-token statement of that name. */
  ghost predicate IsFirst(name: string, ts: seq<Stmt>, i: int) {
    && 0 <= i < |ts| && ts[i].Simple? && |ts[i].tokens| == 2 && ts[i].tokens[0] == name
    && forall j :: 0 <= j < i ==> !(ts[j].Simple? && |ts[j].tokens| == 2 && ts[j].tokens[0] == name)
  }

  lemma {:induction false} FirstIs(name: string, ts: seq<Stmt>)
    ensures forall i :: IsFirst(name, ts, i) ==> First(name, ts) == Some(Atoi(ts[i].tokens[1]))
    ensures First(name, ts).Some? ==> exists i :: IsFirst(name, ts, i)
    decreases |ts|
  {
    if ts != [] {
      FirstIs(name, ts[1..]);
      if Names(ts[0], name) {
        assert IsFirst(name, ts, 0);
        assert forall i :: IsFirst(name, ts, i) ==> i == 0;
      } else {
        forall i | IsFirst(name, ts, i)
          ensures First(name, ts) == Some(Atoi(ts[i].tokens[1]))
        {
          assert i > 0 && IsFirst(name, ts[1..], i - 1);
        }
        if i :| IsFirst(name, ts[1..], i) {
          assert IsFirst(name, ts, i + 1);
        }
      }
    }
  }

  /** A block that has such a statement answers for everything inside it: with the value that atoi reads if this is from 0
      to 65535, and with -1 if not. */
  lemma ValueIs(name: string, ts: seq<Stmt>, i: int)
    requires IsFirst(name, ts, i)
    ensures var n := Atoi(ts[i].tokens[1]); Lookup(name, ts) == if 0 <= n <= 65535 then n else -1
  {
    FirstIs(name, ts);
  }

  /** A block without one answers as the first child block whose answer is not -1, or -1. */
  lemma BelowIs(name: string, ts: seq<Stmt>, i: int)
    requires First(name, ts) == None
    requires 0 <= i < |ts| && ts[i].Block? && Lookup(name, ts[i].body) != -1
    requires forall j :: 0 <= j < i && ts[j].Block? ==> Lookup(name, ts[j].body) == -1
    ensures Lookup(name, ts) == Lookup(name, ts[i].body)
  {
    BelowFrom(name, ts, i);
  }

  lemma {:induction false} BelowFrom(name: string, ts: seq<Stmt>, i: int)
    requires 0 <= i < |ts| && ts[i].Block? && Lookup(name, ts[i].body) != -1
    requires forall j :: 0 <= j < i && ts[j].Block? ==> Lookup(name, ts[j].body) == -1
    ensures LookupBelow(name, ts) == Lookup(name, ts[i].body)
    decreases i
  {
    if i > 0 {
      BelowFrom(name, ts[1..], i - 1);
    }
  }

  /** The value of a statement whose second token is white space, a sign or none, digits or none, and a rest: `port 8080;`
      gives 8080, `port 80x;` gives 80, `port -80;` gives -1, and `port x;` gives 0. */
  lemma StatementValue(name: string, ws: string, sign: string, digits: string, rest: string, more: seq<Stmt>)
    requires IsSpaceText(ws) && sign in {"", "+", "-"} && AllDigits(digits) && (rest != "" ==> !IsDigit(rest[0]))
    requires sign == "" && digits == "" && rest != "" ==> rest[0] as int !in {9, 10, 11, 12, 13, 32} && rest[0] !in {'+', '-'}
    ensures var n := if sign == "-" then 0 - NatOf(digits) else NatOf(digits);
            Lookup(name, [Simple([name, ws + (sign + digits + rest)])] + more) == if 0 <= n <= 65535 then n else -1
  {
    var ts := [Simple([name, ws + (sign + digits + rest)])] + more;
    AtoiIs(ws, sign, digits, rest);
    assert IsFirst(name, ts, 0);
    ValueIs(name, ts, 0);
  }

  lemma DecimalValue(name: string, n: nat, more: seq<Stmt>)
    ensures Lookup(name, [Simple([name, Decimal(n)])] + more) == if n <= 65535 then n else -1
  {
    var ts := [Simple([name, Decimal(n)])] + more;
    AtoiDecimal(n);
    assert IsFirst(name, ts, 0);
    ValueIs(name, ts, 0);
  }

  /** `port x;` is valid and means 0. */
  lemma NotANumber(name: string, more: seq<Stmt>)
    ensures Lookup(name, [Simple([name, "x"])] + more) == 0
  {
    StatementValue(name, "", "", "", "x", more);
    assert "" + ("" + "" + "x") == "x";
  }

  // ---- The promise of the comment ----

  /** The first childless two-token statement of that name with a value from 0 to 65535. */
  ghost predicate IsFirstValid(name: string, ts: seq<Stmt>, i: int) {
    && 0 <= i < |ts| && ts[i].Simple? && |ts[i].tokens| == 2 && ts[i].tokens[0] == name
    && 0 <= Atoi(ts[i].tokens[1]) <= 65535
    && forall j :: 0 <= j < i && ts[j].Simple? && |ts[j].tokens| == 2 && ts[j].tokens[0] == name ==>
         !(0 <= Atoi(ts[j].tokens[1]) <= 65535)
  }

  lemma {:induction false} FirstValidIs(name: string, ts: seq<Stmt>)
    ensures forall i :: IsFirstValid(name, ts, i) ==> FirstValid(name, ts) == Some(Atoi(ts[i].tokens[1]))
    ensures FirstValid(name, ts).Some? ==> exists i :: IsFirstValid(name, ts, i)
    decreases |ts|
  {
    if ts != [] {
      FirstValidIs(name, ts[1..]);
      if Names(ts[0], name) && InRange(Atoi(ts[0].tokens[1])) {
        assert IsFirstValid(name, ts, 0);
        assert forall i :: IsFirstValid(name, ts, i) ==> i == 0;
      } else {
        forall i | IsFirstValid(name, ts, i)
          ensures FirstValid(name, ts) == Some(Atoi(ts[i].tokens[1]))
        {
          assert i > 0 && IsFirstValid(name, ts[1..], i - 1);
        }
        if i :| IsFirstValid(name, ts[1..], i) {
          assert IsFirstValid(name, ts, i + 1);
        }
      }
    }
  }
}
