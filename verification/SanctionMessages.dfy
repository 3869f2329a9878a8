/** The messages of x/sanction: MsgAddBlacklistAccounts and
    MsgRemoveBlacklistAccounts share one layout, Params and the responses have
    no fields, GenesisState nests Params. */
module SanctionMessages {
  import opened Options
  import opened WireVarint
  import opened WireSkip
  import opened WireDecode

  datatype Blacklist = Blacklist(authority: Slice, accounts: seq<Slice>)
  datatype Params = Params
  datatype Genesis = Genesis(params: Params, accounts: seq<Slice>)

  const AUTHORITY_TAG: byte := 0x0a
  const PARAMS_TAG: byte := 0x0a
  const ACCOUNT_TAG: byte := 0x12

  // ----- encodings

  function AccountsPart(accounts: seq<Slice>): seq<byte> {
    if accounts == [] then [] else LenField(ACCOUNT_TAG, accounts[0]) + AccountsPart(accounts[1..])
  }

  function AuthorityPart(authority: Slice): seq<byte> {
    if authority == [] then [] else LenField(AUTHORITY_TAG, authority)
  }

  function BlacklistBytes(m: Blacklist): seq<byte> {
    AuthorityPart(m.authority) + AccountsPart(m.accounts)
  }

  function GenesisBytes(m: Genesis): seq<byte> {
    LenField(PARAMS_TAG, []) + AccountsPart(m.accounts)
  }

  // ----- merging

  function MergeBlacklist(m: Blacklist, num: int, payload: Slice): Decoded<Blacklist> {
    Decoded(if num == 1 then m.(authority := payload) else m.(accounts := m.accounts + [payload]), None)
  }

  function MergeNothing(m: Params, num: int, payload: Slice): Decoded<Params> {
    Decoded(m, None)
  }

  function MergeGenesis(m: Genesis, num: int, payload: Slice): Decoded<Genesis> {
    if num == 1 then
      var r := DecodeParams(payload, m.params);
      Decoded(m.(params := r.msg), r.err)
    else Decoded(m.(accounts := m.accounts + [payload]), None)
  }

  function DecodeBlacklist(d: seq<byte>, m: Blacklist): Decoded<Blacklist>
    requires Sliceable(d)
  {
    DecodeFrom(d, 0, {1, 2}, MergeBlacklist, m)
  }

  function DecodeParams(d: seq<byte>, m: Params): Decoded<Params>
    requires Sliceable(d)
  {
    DecodeFrom(d, 0, {}, MergeNothing, m)
  }

  function DecodeGenesis(d: seq<byte>, m: Genesis): Decoded<Genesis>
    requires Sliceable(d)
  {
    DecodeFrom(d, 0, {1, 2}, MergeGenesis, m)
  }

  // ----- the buffer writer

  function FieldSize(payload: Slice): nat {
    1 + |payload| + Sov(|payload|)
  }

  lemma FieldSizeIsLength(tag: byte, payload: Slice)
    ensures FieldSize(payload) == |LenField(tag, payload)|
  {
    SovIsLength(|payload|);
  }

  /** Writes a field so that it ends at `end`, payload first and tag last. */
  method PutField(dAtA: array<byte>, end: nat, tag: byte, payload: Slice) returns (start: nat)
    requires end <= dAtA.Length && FieldSize(payload) <= end
    modifies dAtA
    ensures start == end - FieldSize(payload)
    ensures dAtA[start..end] == LenField(tag, payload)
    ensures forall k :: 0 <= k < dAtA.Length && !(start <= k < end) ==> dAtA[k] == old(dAtA[k])
  {
    FieldSizeIsLength(tag, payload);
    SovIsLength(|payload|);
    var i := end - |payload|;
    forall k | 0 <= k < |payload| {
      dAtA[i + k] := payload[k];
    }
    assert dAtA[i..end] == payload;
    var j := EncodeVarint(dAtA, i, |payload|);
    assert dAtA[i..end] == payload;
    assert dAtA[j..end] == dAtA[j..i] + dAtA[i..end];
    start := j - 1;
    ghost var body := dAtA[j..end];
    dAtA[start] := tag;
    assert dAtA[j..end] == body && dAtA[start..end] == [tag] + dAtA[j..end];
  }

  /** An empty string is not written. */
  method PutAuthority(dAtA: array<byte>, end: nat, authority: Slice) returns (start: nat)
    requires end <= dAtA.Length && |AuthorityPart(authority)| <= end
    modifies dAtA
    ensures start == end - |AuthorityPart(authority)|
    ensures dAtA[start..end] == AuthorityPart(authority)
    ensures forall k :: 0 <= k < dAtA.Length && !(start <= k < end) ==> dAtA[k] == old(dAtA[k])
  {
    start := end;
    if |authority| > 0 {
      FieldSizeIsLength(AUTHORITY_TAG, authority);
      start := PutField(dAtA, end, AUTHORITY_TAG, authority);
    }
  }

  lemma NoAccounts()
    ensures AccountsPart([]) == []
  {
  }

  /** Writes repeated strings from the last to the first. */
  method PutAccounts(dAtA: array<byte>, end: nat, accounts: seq<Slice>) returns (start: nat)
    requires end <= dAtA.Length && |AccountsPart(accounts)| <= end < TWO63
    modifies dAtA
    ensures start == end - |AccountsPart(accounts)|
    ensures dAtA[start..end] == AccountsPart(accounts)
    ensures forall k :: 0 <= k < dAtA.Length && !(start <= k < end) ==> dAtA[k] == old(dAtA[k])
  {
    start := end;
    var k := |accounts|;
    assert accounts[k..] == [];
    while k > 0
      invariant 0 <= k <= |accounts| && start <= end
      invariant |AccountsPart(accounts[k..])| == end - start
      invariant dAtA[start..end] == AccountsPart(accounts[k..])
      invariant forall q :: 0 <= q < dAtA.Length && !(start <= q < end) ==> dAtA[q] == old(dAtA[q])
    {
      k := k - 1;
      AccountsTail(accounts, k);
      assert accounts[k..][1..] == accounts[k + 1..];
      FieldSizeIsLength(ACCOUNT_TAG, accounts[k]);
      ghost var tail := dAtA[start..end];
      var next := PutField(dAtA, start, ACCOUNT_TAG, accounts[k]);
      assert dAtA[start..end] == tail;
      assert dAtA[next..end] == dAtA[next..start] + dAtA[start..end];
      start := next;
    }
    assert accounts[0..] == accounts;
  }

  /** The encoding of a tail is no longer than the whole. */
  lemma {:induction false} AccountsTail(accounts: seq<Slice>, k: nat)
    requires k < |accounts|
    ensures |LenField(ACCOUNT_TAG, accounts[k])| + |AccountsPart(accounts[k + 1..])| <= |AccountsPart(accounts)|
  {
    if k > 0 {
      assert accounts[1..][k..] == accounts[k + 1..];
      AccountsTail(accounts[1..], k - 1);
    }
  }

  /** Bytes of repeated strings, counted in order. */
  method SizeOfAccounts(accounts: seq<Slice>) returns (n: nat)
    ensures n == |AccountsPart(accounts)|
  {
    n := 0;
    for k := 0 to |accounts|
      invariant n + |AccountsPart(accounts[k..])| == |AccountsPart(accounts)|
    {
      assert accounts[k..][1..] == accounts[k + 1..];
      FieldSizeIsLength(ACCOUNT_TAG, accounts[k]);
      var l := |accounts[k]|;
      n := n + 1 + l + Sov(l);
    }
  }

  class BlacklistMsg {
    var authority: Slice
    var accounts: seq<Slice>

    constructor (m: Blacklist)
      ensures Value() == m
    {
      authority, accounts := m.authority, m.accounts;
    }

    ghost function Value(): Blacklist
      reads this
    {
      Blacklist(authority, accounts)
    }

    method Size() returns (n: nat)
      ensures n == |BlacklistBytes(Value())|
    {
      n := 0;
      var l := |authority|;
      if l > 0 {
        FieldSizeIsLength(AUTHORITY_TAG, authority);
        n := n + 1 + l + Sov(l);
      }
      if |accounts| > 0 {
        var part := SizeOfAccounts(accounts);
        n := n + part;
      }
    }

    /** Fills the end of the buffer and leaves the rest of it alone. */
    method MarshalToSizedBuffer(dAtA: array<byte>) returns (n: nat)
      requires |BlacklistBytes(Value())| <= dAtA.Length < TWO63
      modifies dAtA
      ensures n == |BlacklistBytes(Value())|
      ensures dAtA[dAtA.Length - n..] == BlacklistBytes(Value())
      ensures dAtA[..dAtA.Length - n] == old(dAtA[..dAtA.Length - n])
    {
      hide LenField, AccountsPart, Sov;
      var i := dAtA.Length;
      assert AccountsPart([]) == [] by { NoAccounts(); }
      if |accounts| > 0 {
        i := PutAccounts(dAtA, i, accounts);
      }
      ghost var mid, tail := i, dAtA[i..];
      assert tail == dAtA[mid..dAtA.Length] == AccountsPart(accounts);
      i := PutAuthority(dAtA, i, authority);
      assert dAtA[mid..] == tail;
      assert dAtA[i..] == dAtA[i..mid] + dAtA[mid..];
      return dAtA.Length - i;
    }

    method Marshal() returns (dAtA: array<byte>)
      requires |BlacklistBytes(Value())| < TWO63
      ensures fresh(dAtA) && dAtA[..] == BlacklistBytes(Value())
    {
      var size := Size();
      dAtA := new byte[size];
      var n := MarshalToSizedBuffer(dAtA);
      assert dAtA[dAtA.Length - n..] == dAtA[..];
    }

    method Unmarshal(dAtA: seq<byte>) returns (err: Option<WireError>)
      requires Sliceable(dAtA)
      modifies this
      ensures Decoded(Value(), err) == DecodeBlacklist(dAtA, old(Value()))
    {
      hide NextField;
      var i := 0;
      while i < |dAtA|
        invariant 0 <= i <= |dAtA|
        invariant DecodeFrom(dAtA, i, {1, 2}, MergeBlacklist, Value())
          == DecodeBlacklist(dAtA, old(Value()))
      {
        var turn := NextTurn(dAtA, i, {1, 2});
        match turn
        case Bad(e) => return Some(e);
        case Unknown(next) => i := next;
        case Known(num, payload, next) =>
          if num == 1 {
            authority := payload;
          } else {
            accounts := accounts + [payload];
          }
          i := next;
      }
      return None;
    }
  }

  /** One turn of a generated decode loop: the tag, then either the length and
      the bytes of a known field or a call of the skipper. */
  method NextTurn(dAtA: seq<byte>, index: nat, known: set<int>) returns (t: Turn)
    requires Sliceable(dAtA) && index < |dAtA|
    ensures t == NextField(dAtA, index, known)
  {
    var tag := DecodeVarint(dAtA, index);
    if tag.VarintError? {
      return Bad(tag.err);
    }
    var fieldNum, wireType := FieldNum(tag.value), tag.value % 8;
    if wireType == 4 {
      return Bad(EndGroupForNonGroup);
    }
    if fieldNum <= 0 {
      return Bad(IllegalTag);
    }
    if fieldNum in known {
      if wireType != 2 {
        return Bad(WrongWireType);
      }
      var length := DecodeVarint(dAtA, tag.next);
      if length.VarintError? {
        return Bad(length.err);
      }
      var intLen := ToInt(length.value);
      if intLen < 0 {
        return Bad(InvalidLength);
      }
      var postIndex := Add(length.next, intLen);
      if postIndex < 0 {
        return Bad(InvalidLength);
      }
      if postIndex > |dAtA| {
        return Bad(UnexpectedEOF);
      }
      return Known(fieldNum, dAtA[length.next..postIndex], postIndex);
    }
    var skippy := SkipTx(dAtA[index..]);
    if skippy.SkipError? {
      return Bad(skippy.err);
    }
    SkipFits(dAtA[index..], 0, 0);
    if Add(index, skippy.n) < 0 {
      return Bad(InvalidLength);
    }
    if index + skippy.n > |dAtA| {
      return Bad(UnexpectedEOF);
    }
    return Unknown(index + skippy.n);
  }

  /** Params, and both response messages. */
  method UnmarshalParams(dAtA: seq<byte>) returns (err: Option<WireError>)
    requires Sliceable(dAtA)
    ensures Decoded(Params, err) == DecodeParams(dAtA, Params)
  {
    var i := 0;
    while i < |dAtA|
      invariant 0 <= i <= |dAtA|
      invariant DecodeFrom(dAtA, i, {}, MergeNothing, Params) == DecodeParams(dAtA, Params)
    {
      var turn := NextTurn(dAtA, i, {});
      if turn.Bad? {
        return Some(turn.err);
      }
      i := turn.next;
    }
    return None;
  }

  class GenesisMsg {
    var params: Params
    var accounts: seq<Slice>

    constructor (m: Genesis)
      ensures Value() == m
    {
      params, accounts := m.params, m.accounts;
    }

    ghost function Value(): Genesis
      reads this
    {
      Genesis(params, accounts)
    }

    method Size() returns (n: nat)
      ensures n == |GenesisBytes(Value())|
    {
      FieldSizeIsLength(PARAMS_TAG, []);
      n := 1 + 0 + Sov(0);
      if |accounts| > 0 {
        var part := SizeOfAccounts(accounts);
        n := n + part;
      }
    }

    method MarshalToSizedBuffer(dAtA: array<byte>) returns (n: nat)
      requires |GenesisBytes(Value())| <= dAtA.Length < TWO63
      modifies dAtA
      ensures n == |GenesisBytes(Value())|
      ensures dAtA[dAtA.Length - n..] == GenesisBytes(Value())
      ensures dAtA[..dAtA.Length - n] == old(dAtA[..dAtA.Length - n])
    {
      var i := dAtA.Length;
      FieldSizeIsLength(PARAMS_TAG, []);
      if |accounts| > 0 {
        i := PutAccounts(dAtA, i, accounts);
      }
      ghost var mid, tail := i, dAtA[i..];
      assert tail == dAtA[mid..dAtA.Length] == AccountsPart(accounts);
      i := PutField(dAtA, i, PARAMS_TAG, []);
      assert dAtA[mid..] == tail;
      assert dAtA[i..] == dAtA[i..mid] + dAtA[mid..];
      return dAtA.Length - i;
    }

    method Marshal() returns (dAtA: array<byte>)
      requires |GenesisBytes(Value())| < TWO63
      ensures fresh(dAtA) && dAtA[..] == GenesisBytes(Value())
    {
      var size := Size();
      dAtA := new byte[size];
      var n := MarshalToSizedBuffer(dAtA);
      assert dAtA[dAtA.Length - n..] == dAtA[..];
    }

    method Unmarshal(dAtA: seq<byte>) returns (err: Option<WireError>)
      requires Sliceable(dAtA)
      modifies this
      ensures Decoded(Value(), err) == DecodeGenesis(dAtA, old(Value()))
    {
      hide NextField, DecodeParams;
      var i := 0;
      assert params == Params;
      while i < |dAtA|
        invariant 0 <= i <= |dAtA| && params == Params
        invariant DecodeFrom(dAtA, i, {1, 2}, MergeGenesis, Value())
          == DecodeGenesis(dAtA, old(Value()))
      {
        var turn := NextTurn(dAtA, i, {1, 2});
        match turn
        case Bad(e) => return Some(e);
        case Unknown(next) => i := next;
        case Known(num, payload, next) =>
          if num == 1 {
            var nested := UnmarshalParams(payload);
            if nested.Some? {
              return nested;
            }
          } else {
            accounts := accounts + [payload];
          }
          i := next;
      }
      return None;
    }
  }

  // ----- round trips

  /** What decoding `m` on top of `into` leaves: repeated fields append, a
      written singular field replaces. */
  function Merged(into: Blacklist, m: Blacklist): Blacklist {
    Blacklist(if m.authority == [] then into.authority else m.authority, into.accounts + m.accounts)
  }

  lemma {:induction false} AccountsDecode(accounts: seq<Slice>, m: Blacklist)
    requires Sliceable(AccountsPart(accounts))
    ensures DecodeBlacklist(AccountsPart(accounts), m)
      == Decoded(m.(accounts := m.accounts + accounts), None)
    decreases |accounts|
  {
    hide DecodeFrom;
    if accounts == [] {
      EmptyDecodes({1, 2}, MergeBlacklist, m);
      assert m.accounts + [] == m.accounts;
    } else {
      var first, rest := LenField(ACCOUNT_TAG, accounts[0]), AccountsPart(accounts[1..]);
      DecodeLenField(2, accounts[0], {1, 2}, MergeBlacklist, m);
      DecodeConcat(first, rest, 0, {1, 2}, MergeBlacklist, m);
      AccountsDecode(accounts[1..], m.(accounts := m.accounts + [accounts[0]]));
      assert m.accounts + [accounts[0]] + accounts[1..] == m.accounts + accounts;
    }
  }

  lemma EmptyDecodes<M>(known: set<int>, merge: (M, int, Slice) -> Decoded<M>, m: M)
    ensures DecodeFrom([], 0, known, merge, m) == Decoded(m, None)
  {
  }

  /** Unmarshal of Marshal, into any receiver. */
  lemma BlacklistRoundTrip(m: Blacklist, into: Blacklist)
    requires Sliceable(BlacklistBytes(m))
    ensures DecodeBlacklist(BlacklistBytes(m), into) == Decoded(Merged(into, m), None)
    ensures into == Blacklist([], []) ==> DecodeBlacklist(BlacklistBytes(m), into) == Decoded(m, None)
  {
    hide DecodeFrom;
    AccountsDecode(m.accounts, into.(authority := Merged(into, m).authority));
    if m.authority == [] {
      assert BlacklistBytes(m) == AccountsPart(m.accounts);
      assert into.(authority := Merged(into, m).authority) == into;
    } else {
      DecodeLenField(1, m.authority, {1, 2}, MergeBlacklist, into);
      DecodeConcat(AuthorityPart(m.authority), AccountsPart(m.accounts), 0, {1, 2}, MergeBlacklist, into);
    }
    assert [] + m.accounts == m.accounts;
  }

  /** Two encoded messages back to back decode to their merge. */
  lemma BlacklistConcat(a: Blacklist, b: Blacklist)
    requires Sliceable(BlacklistBytes(a) + BlacklistBytes(b))
    ensures DecodeBlacklist(BlacklistBytes(a) + BlacklistBytes(b), Blacklist([], []))
      == Decoded(Merged(a, b), None)
  {
    hide DecodeFrom, BlacklistBytes;
    BlacklistRoundTrip(a, Blacklist([], []));
    BlacklistRoundTrip(b, a);
    DecodeConcat(BlacklistBytes(a), BlacklistBytes(b), 0, {1, 2}, MergeBlacklist, Blacklist([], []));
  }

  lemma {:induction false} GenesisAccountsDecode(accounts: seq<Slice>, m: Genesis)
    requires Sliceable(AccountsPart(accounts))
    ensures DecodeGenesis(AccountsPart(accounts), m) == Decoded(m.(accounts := m.accounts + accounts), None)
    decreases |accounts|
  {
    hide DecodeFrom;
    if accounts == [] {
      EmptyDecodes({1, 2}, MergeGenesis, m);
      assert m.accounts + [] == m.accounts;
    } else {
      var first, rest := LenField(ACCOUNT_TAG, accounts[0]), AccountsPart(accounts[1..]);
      DecodeLenField(2, accounts[0], {1, 2}, MergeGenesis, m);
      DecodeConcat(first, rest, 0, {1, 2}, MergeGenesis, m);
      GenesisAccountsDecode(accounts[1..], m.(accounts := m.accounts + [accounts[0]]));
      assert m.accounts + [accounts[0]] + accounts[1..] == m.accounts + accounts;
    }
  }

  /** The nested message is always written, even though it is empty, and read back. */
  lemma GenesisRoundTrip(m: Genesis, into: Genesis)
    requires Sliceable(GenesisBytes(m))
    ensures DecodeGenesis(GenesisBytes(m), into) == Decoded(Genesis(m.params, into.accounts + m.accounts), None)
    ensures into == Genesis(Params, []) ==> DecodeGenesis(GenesisBytes(m), into) == Decoded(m, None)
  {
    hide DecodeFrom;
    EmptyDecodes({}, MergeNothing, into.params);
    assert m.params == Params && into.params == Params;
    DecodeLenField(1, [], {1, 2}, MergeGenesis, into);
    GenesisAccountsDecode(m.accounts, into);
    DecodeConcat(LenField(PARAMS_TAG, []), AccountsPart(m.accounts), 0, {1, 2}, MergeGenesis, into);
    assert [] + m.accounts == m.accounts;
  }
}
