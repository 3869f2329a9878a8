/** What the messages of x/sanction mean on the wire, by field number: field 1
    of a blacklist message is its authority, field 2 of either message an
    account, field 1 of the genesis a nested message without fields. */
module SanctionMeaning {
  import opened Options
  import opened WireVarint
  import opened WireSkip
  import opened WireDecode
  import opened WireMeaning
  import opened SanctionMessages

  /** The payloads of the fields numbered `n`, in order. */
  function Payloads(fs: seq<Field>, n: nat): seq<Slice> {
    if fs == [] then []
    else
      (if Number(fs[0]) == n && fs[0].body.Delimited? then [fs[0].body.payload] else []) + Payloads(fs[1..], n)
  }

  lemma {:induction false} BlacklistMerge(fs: seq<Field>, m: Blacklist)
    ensures
      var written := Payloads(fs, 1);
      MergeAll(fs, {1, 2}, MergeBlacklist, m)
        == Decoded(Blacklist(if written == [] then m.authority else written[|written| - 1],
                             m.accounts + Payloads(fs, 2)), None)
  {
    hide Number;
    if fs == [] {
      assert m.accounts + [] == m.accounts;
    } else {
      var f, next := fs[0], m;
      assert [] + Payloads(fs[1..], 1) == Payloads(fs[1..], 1) && [] + Payloads(fs[1..], 2) == Payloads(fs[1..], 2);
      if Number(f) in {1, 2} && f.body.Delimited? {
        next := MergeBlacklist(m, Number(f), f.body.payload).msg;
      }
      BlacklistMerge(fs[1..], next);
      if Number(f) == 2 && f.body.Delimited? {
        assert m.accounts + [f.body.payload] + Payloads(fs[1..], 2)
          == m.accounts + ([f.body.payload] + Payloads(fs[1..], 2));
      }
    }
  }

  /** A buffer decodes into a blacklist message exactly if it is a sequence of
      accepted fields; the last field 1 replaces the authority, each field 2 is
      one more account, and nothing else has any effect. */
  lemma BlacklistMeaning(d: seq<byte>, m: Blacklist, r: Blacklist)
    requires Sliceable(d)
    ensures DecodeBlacklist(d, m) == Decoded(r, None)
      <==> exists fs ::
             && EncAll(fs) == d && AllAccepted(fs, {1, 2})
             && r.authority == (var written := Payloads(fs, 1);
                                if written == [] then m.authority else written[|written| - 1])
             && r.accounts == m.accounts + Payloads(fs, 2)
  {
    hide DecodeFrom, MergeAll, EncAll, AllAccepted, Payloads;
    DecodeMeaning(d, {1, 2}, MergeBlacklist, m, r);
    if DecodeBlacklist(d, m) == Decoded(r, None) {
      var fs :| EncAll(fs) == d && AllAccepted(fs, {1, 2})
                && MergeAll(fs, {1, 2}, MergeBlacklist, m) == Decoded(r, None);
      BlacklistMerge(fs, m);
    }
    if fs :| && EncAll(fs) == d && AllAccepted(fs, {1, 2})
             && r.authority == (var written := Payloads(fs, 1);
                                if written == [] then m.authority else written[|written| - 1])
             && r.accounts == m.accounts + Payloads(fs, 2)
    {
      BlacklistMerge(fs, m);
    }
  }

  /** A message without fields accepts exactly the sequences of fields. */
  ghost predicate Fieldless(d: seq<byte>) {
    exists fs :: EncAll(fs) == d && AllAccepted(fs, {})
  }

  lemma ParamsMeaning(d: Slice)
    ensures DecodeParams(d, Params).err.None? <==> Fieldless(d)
  {
    hide DecodeFrom, EncAll, AllAccepted;
    DecodeMeaning(d, {}, MergeNothing, Params, Params);
    assert DecodeParams(d, Params).msg == Params;
    if Fieldless(d) {
      var fs :| EncAll(fs) == d && AllAccepted(fs, {});
      NothingMerges(fs);
    }
  }

  lemma {:induction false} NothingMerges(fs: seq<Field>)
    ensures MergeAll(fs, {}, MergeNothing, Params) == Decoded(Params, None)
  {
    if fs != [] {
      NothingMerges(fs[1..]);
    }
  }

  ghost predicate AllFieldless(payloads: seq<Slice>) {
    forall p :: p in payloads ==> Fieldless(p)
  }

  lemma {:induction false} GenesisMerge(fs: seq<Field>, m: Genesis)
    ensures
      var all := MergeAll(fs, {1, 2}, MergeGenesis, m);
      && (all.err.None? <==> AllFieldless(Payloads(fs, 1)))
      && (all.err.None? ==> all.msg == Genesis(Params, m.accounts + Payloads(fs, 2)))
  {
    hide Number, Fieldless, DecodeParams;
    assert m.params == Params;
    if fs == [] {
      assert m.accounts + [] == m.accounts;
    } else {
      var f, next, nested := fs[0], m, Payloads(fs[1..], 1);
      if Number(f) == 1 && f.body.Delimited? {
        ParamsMeaning(f.body.payload);
        assert AllFieldless([f.body.payload] + nested) <==> Fieldless(f.body.payload) && AllFieldless(nested) by {
          assert f.body.payload in [f.body.payload] + nested;
          assert forall p :: p in nested ==> p in [f.body.payload] + nested;
        }
        assert MergeGenesis(m, 1, f.body.payload).msg == m;
      } else if Number(f) == 2 && f.body.Delimited? {
        next := MergeGenesis(m, 2, f.body.payload).msg;
        assert m.accounts + [f.body.payload] + Payloads(fs[1..], 2)
          == m.accounts + ([f.body.payload] + Payloads(fs[1..], 2));
      }
      GenesisMerge(fs[1..], next);
    }
  }

  /** The same for the genesis, whose nested messages must decode too. */
  lemma GenesisMeaning(d: seq<byte>, m: Genesis, r: Genesis)
    requires Sliceable(d)
    ensures DecodeGenesis(d, m) == Decoded(r, None)
      <==> exists fs ::
             && EncAll(fs) == d && AllAccepted(fs, {1, 2}) && AllFieldless(Payloads(fs, 1))
             && r == Genesis(Params, m.accounts + Payloads(fs, 2))
  {
    hide DecodeFrom, MergeAll, EncAll, AllAccepted, Payloads, AllFieldless;
    DecodeMeaning(d, {1, 2}, MergeGenesis, m, r);
    if DecodeGenesis(d, m) == Decoded(r, None) {
      var fs :| EncAll(fs) == d && AllAccepted(fs, {1, 2})
                && MergeAll(fs, {1, 2}, MergeGenesis, m) == Decoded(r, None);
      GenesisMerge(fs, m);
    }
    if fs :| && EncAll(fs) == d && AllAccepted(fs, {1, 2}) && AllFieldless(Payloads(fs, 1))
             && r == Genesis(Params, m.accounts + Payloads(fs, 2))
    {
      GenesisMerge(fs, m);
    }
  }

  /** The bytes themselves: the authority unless empty, then the accounts; an
      empty nested message, then the accounts. */
  lemma BytesAre(m: Blacklist, accounts: seq<Slice>)
    ensures BlacklistBytes(m)
      == (if m.authority == [] then [] else [0x0a] + Shortest(|m.authority|) + m.authority)
         + AccountsPart(m.accounts)
    ensures GenesisBytes(Genesis(Params, accounts)) == [0x0a, 0x00] + AccountsPart(accounts)
    ensures AccountsPart([]) == []
    ensures accounts != [] ==>
      AccountsPart(accounts)
        == [0x12] + Shortest(|accounts[0]|) + accounts[0] + AccountsPart(accounts[1..])
  {
    hide Shortest;
    assert Shortest(0) == [0x00] by { ZeroIsOneByte(); }
    assert m.authority != [] ==>
      LenField(0x0a, m.authority) == [0x0a] + Shortest(|m.authority|) + m.authority;
    assert LenField(0x0a, []) == [0x0a, 0x00];
  }

  lemma ZeroIsOneByte()
    ensures Shortest(0) == [0x00]
  {
  }
}
