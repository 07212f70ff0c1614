/** Configs and headers: who gets in. */
module EndToEnd {
  import opened ConfigTree
  import opened ConfigMachine
  import opened ConfigRoundTrip
  import opened ConfigCredentials
  import opened Base64
  import opened Session

  // ---- Who gets in ----

  /** A user whose last entry in the block in use is u:p gets in with p, also when p has colons, and with or without
      padding. */
  lemma ConfiguredUsersAuthenticate(ts: seq<Stmt>, path: seq<nat>, u: string, p: string, pad: bool)
    requires Defined(ts) && EntryInUse(ts, path, u, p) && IsBytes(u + ":" + p)
    ensures IsBytes(BasicHeader(u, p, pad)) && Accepts(Credentials(ts), BasicHeader(u, p, pad))
  {
    BasicHeaderIsBytes(u, p, pad);
    UserIff(ts, u, p);
    UsersHaveNoColon(ts, u);
    BasicHeaderCarries(u, p, pad);
  }

  ghost predicate CarriesEntry(ts: seq<Stmt>, header: string, path: seq<nat>, u: string, p: string) {
    Carries(header, u, p) && EntryInUse(ts, path, u, p)
  }

  /** A header is accepted exactly when it carries a user and the password in the user's last entry, both taken at the
      first colon, in a `credentials` block before which no child block and no other such block comes on any level. */
  lemma AcceptedIff(ts: seq<Stmt>, header: string)
    requires Defined(ts)
    ensures Accepts(Credentials(ts), header) <==> exists path, u: string, p: string :: CarriesEntry(ts, header, path, u, p)
  {
    if Accepts(Credentials(ts), header) {
      var u: string, p: string :| Carries(header, u, p) && u in Credentials(ts) && Credentials(ts)[u] == p;
      UserIff(ts, u, p);
      var path :| EntryInUse(ts, path, u, p);
      assert CarriesEntry(ts, header, path, u, p);
    }
    forall path, u: string, p: string | CarriesEntry(ts, header, path, u, p)
      ensures Accepts(Credentials(ts), header)
    {
      UserIff(ts, u, p);
    }
  }

  /** A config without such a block lets nobody in. */
  lemma NobodyGetsIn(ts: seq<Stmt>, header: string)
    requires Defined(ts) && !AnyInUse(ts)
    ensures !Accepts(Credentials(ts), header)
  {
    NoneInUse(ts);
  }

  /** Printing the config of an accepted text and parsing it again lets in the same headers, if its tokens are printable. */
  lemma ReprintedLetsIn(s: string, depth: int, header: string)
    requires ParseText(s).ok && Every(ParseText(s).tree, Printable) && Defined(ParseText(s).tree)
    ensures var o := ParseText(Print(ParseText(s).tree, depth));
            && o.ok && Defined(o.tree)
            && (Accepts(Credentials(o.tree), header)
                <==> exists path, u: string, p: string :: CarriesEntry(ParseText(s).tree, header, path, u, p))
  {
    CanonicalIff(s, depth);
    AcceptedIff(ParseText(s).tree, header);
  }
}
