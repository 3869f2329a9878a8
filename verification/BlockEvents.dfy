/** Exporting, clearing and restoring the event lists kept in a node's state
    store, height by height. */
module BlockEvents {
  import opened Options

  type Event(==, 0, !new)

  /** What a response holds beside its event lists. */
  type Payload(==, 0, !new)

  type Events = seq<Event>

  datatype TxResult = TxResult(events: Events, rest: Payload)

  /** One height's FinalizeBlock response; a transaction result may be nil. */
  datatype Response = Response(events: Events, txResults: seq<Option<TxResult>>, rest: Payload)

  /** One record of an export file. */
  datatype Export = Export(height: int, blockEvents: Events, txEvents: seq<Events>)

  /** The heights whose response loads, with that response. */
  type Stored = map<int, Response>

  // ----- what one height yields and takes

  function EventsOf(tx: Option<TxResult>): Events {
    if tx.Some? then tx.value.events else []
  }

  function Loaded(height: int, r: Response): Export {
    Export(height, r.events, seq(|r.txResults|, i requires 0 <= i < |r.txResults| => EventsOf(r.txResults[i])))
  }

  function WithTxEvents(tx: Option<TxResult>, txEvents: seq<Events>, i: nat): Option<TxResult> {
    if tx.Some? && i < |txEvents| then Some(tx.value.(events := txEvents[i])) else tx
  }

  function Overwritten(r: Response, e: Export): Response {
    Response(
      e.blockEvents,
      seq(|r.txResults|, i requires 0 <= i < |r.txResults| => WithTxEvents(r.txResults[i], e.txEvents, i)),
      r.rest)
  }

  function ClearedExport(e: Export): Export {
    Export(e.height, [], seq(|e.txEvents|, _ => []))
  }

  // ----- the three commands

  /** export-block-events: heights that do not load are skipped. */
  function Exported(s: Stored, heights: seq<int>): seq<Export> {
    if heights == [] then []
    else
      var before := Exported(s, heights[..|heights| - 1]);
      var h := heights[|heights| - 1];
      if h in s then before + [Loaded(h, s[h])] else before
  }

  function Applied(s: Stored, e: Export): Stored {
    if e.height in s then s[e.height := Overwritten(s[e.height], e)] else s
  }

  /** cleanup-block-events. */
  function Cleaned(s: Stored, heights: seq<int>): Stored {
    if heights == [] then s
    else
      var before := Cleaned(s, heights[..|heights| - 1]);
      var h := heights[|heights| - 1];
      if h in before then Applied(before, ClearedExport(Loaded(h, before[h]))) else before
  }

  /** import-block-events. */
  function Imported(s: Stored, exports: seq<Export>): Stored {
    if exports == [] then s
    else Applied(Imported(s, exports[..|exports| - 1]), exports[|exports| - 1])
  }

  /** The record holds the events of the response at its height: the block's,
      and for each transaction result that result's, or none for a nil one. */
  ghost predicate Holds(e: Export, height: int, s: Stored) {
    && height in s && e.height == height && e.blockEvents == s[height].events
    && |e.txEvents| == |s[height].txResults|
    && forall i :: 0 <= i < |e.txEvents| ==>
         e.txEvents[i] == if s[height].txResults[i].Some? then s[height].txResults[i].value.events else []
  }

  /** The listed heights that load, in order and with their repeats. */
  function Loading(s: Stored, heights: seq<int>): seq<int> {
    if heights == [] then []
    else (if heights[0] in s then [heights[0]] else []) + Loading(s, heights[1..])
  }

  lemma {:induction false} LoadingLast(s: Stored, heights: seq<int>, h: int)
    ensures Loading(s, heights + [h]) == Loading(s, heights) + if h in s then [h] else []
  {
    if heights == [] {
      assert [] + [h] == [h];
    } else {
      assert (heights + [h])[1..] == heights[1..] + [h];
      LoadingLast(s, heights[1..], h);
    }
  }

  /** The file has one record per listed height that loads, in order. */
  lemma {:induction false} ExportedIs(s: Stored, heights: seq<int>)
    ensures
      var file, loading := Exported(s, heights), Loading(s, heights);
      |file| == |loading| && forall i :: 0 <= i < |file| ==> Holds(file[i], loading[i], s)
  {
    if heights != [] {
      var n := |heights| - 1;
      ExportedIs(s, heights[..n]);
      LoadingLast(s, heights[..n], heights[n]);
      assert heights == heights[..n] + [heights[n]];
    }
  }

  // ----- the commands as they run against the store

  class StateStore {
    var responses: Stored

    constructor (responses: Stored)
      ensures this.responses == responses
    {
      this.responses := responses;
    }

    method LoadFinalizeBlockResponse(height: int) returns (r: Option<Response>)
      ensures r == if height in responses then Some(responses[height]) else None
    {
      r := if height in responses then Some(responses[height]) else None;
    }

    method SaveFinalizeBlockResponse(height: int, r: Response)
      modifies this
      ensures responses == old(responses)[height := r]
    {
      responses := responses[height := r];
    }

    method LoadBlockEventsExport(height: int) returns (e: Option<Export>)
      ensures e == if height in responses then Some(Loaded(height, responses[height])) else None
      ensures e.Some? ==> Holds(e.value, height, responses)
    {
      var loaded := LoadFinalizeBlockResponse(height);
      if loaded.None? {
        return None;
      }
      var r := loaded.value;
      var txEvents: array<Events> := new Events[|r.txResults|](_ => []);
      for i := 0 to |r.txResults|
        invariant forall j :: 0 <= j < |r.txResults| ==> txEvents[j] == if j < i then EventsOf(r.txResults[j]) else []
      {
        if r.txResults[i].Some? {
          txEvents[i] := r.txResults[i].value.events;
        }
      }
      e := Some(Export(height, r.events, txEvents[..]));
      assert txEvents[..] == Loaded(height, r).txEvents;
    }

    /** False when the height does not load. */
    method ApplyBlockEventsExport(e: Export) returns (ok: bool)
      modifies this
      ensures ok <==> e.height in old(responses)
      ensures responses == Applied(old(responses), e)
      ensures responses.Keys == old(responses).Keys
      ensures forall h :: h in responses && h != e.height ==> responses[h] == old(responses)[h]
      ensures ok ==>
        var was, now := old(responses)[e.height], responses[e.height];
        && now.events == e.blockEvents && now.rest == was.rest && |now.txResults| == |was.txResults|
        && forall i :: 0 <= i < |now.txResults| ==>
             now.txResults[i] ==
               if was.txResults[i].Some? && i < |e.txEvents|
               then Some(TxResult(e.txEvents[i], was.txResults[i].value.rest)) else was.txResults[i]
    {
      var loaded := LoadFinalizeBlockResponse(e.height);
      if loaded.None? {
        return false;
      }
      var r := loaded.value;
      var txResults := r.txResults;
      for i := 0 to |txResults|
        invariant |txResults| == |r.txResults|
        invariant forall j :: 0 <= j < i ==> txResults[j] == WithTxEvents(r.txResults[j], e.txEvents, j)
        invariant txResults[i..] == r.txResults[i..]
      {
        assert txResults[i] == txResults[i..][0] == r.txResults[i];
        if txResults[i].Some? && i < |e.txEvents| {
          txResults := txResults[i := Some(txResults[i].value.(events := e.txEvents[i]))];
        }
      }
      assert txResults == Overwritten(r, e).txResults;
      SaveFinalizeBlockResponse(e.height, Response(e.blockEvents, txResults, r.rest));
      ok := true;
    }

    method ExportBlockEvents(heights: seq<int>) returns (file: seq<Export>)
      ensures file == Exported(responses, heights)
      ensures
        var loading := Loading(responses, heights);
        |file| == |loading| && forall i :: 0 <= i < |file| ==> Holds(file[i], loading[i], responses)
    {
      ExportedIs(responses, heights);
      file := [];
      for i := 0 to |heights|
        invariant file == Exported(responses, heights[..i])
      {
        assert heights[..i + 1][..i] == heights[..i];
        var e := LoadBlockEventsExport(heights[i]);
        if e.None? {
          continue;
        }
        file := file + [e.value];
      }
      assert heights[..|heights|] == heights;
    }

    method CleanupBlockEvents(heights: seq<int>)
      modifies this
      ensures responses == Cleaned(old(responses), heights)
      ensures responses.Keys == old(responses).Keys
      ensures forall h :: h in responses && h !in heights ==> responses[h] == old(responses)[h]
      ensures forall h :: h in responses && h in heights ==> EventsCleared(old(responses)[h], responses[h])
    {
      CleanedIs(responses, heights);
      for i := 0 to |heights|
        invariant responses == Cleaned(old(responses), heights[..i])
      {
        assert heights[..i + 1][..i] == heights[..i];
        var e := LoadBlockEventsExport(heights[i]);
        if e.None? {
          continue;
        }
        var cleared := Export(heights[i], [], seq(|e.value.txEvents|, _ => []));
        assert cleared == ClearedExport(e.value);
        var ok := ApplyBlockEventsExport(cleared);
      }
      assert heights[..|heights|] == heights;
    }

    /** Returns how many records found their height. */
    method ImportBlockEvents(file: seq<Export>) returns (imported: nat)
      modifies this
      ensures responses == Imported(old(responses), file)
      ensures imported == |set i | 0 <= i < |file| && file[i].height in old(responses)|
    {
      imported := 0;
      for i := 0 to |file|
        invariant responses == Imported(old(responses), file[..i])
        invariant imported == |set j | 0 <= j < i && file[j].height in old(responses)|
      {
        assert file[..i + 1][..i] == file[..i];
        ImportKeepsHeights(old(responses), file[..i]);
        ghost var found := set j | 0 <= j < i && file[j].height in old(responses);
        assert (set j | 0 <= j < i + 1 && file[j].height in old(responses))
          == if file[i].height in old(responses) then found + {i} else found;
        var ok := ApplyBlockEventsExport(file[i]);
        if !ok {
          continue;
        }
        imported := imported + 1;
      }
      assert file[..|file|] == file;
    }
  }

  lemma {:induction false} ImportKeepsHeights(s: Stored, file: seq<Export>)
    ensures Imported(s, file).Keys == s.Keys
  {
    if file != [] {
      ImportKeepsHeights(s, file[..|file| - 1]);
    }
  }

  // ----- what the commands mean

  /** A response with every event list emptied. */
  function Bare(r: Response): Response {
    Response(
      [],
      seq(|r.txResults|, i requires 0 <= i < |r.txResults| => BareTx(r.txResults[i])),
      r.rest)
  }

  function BareTx(tx: Option<TxResult>): Option<TxResult> {
    if tx.Some? then Some(TxResult([], tx.value.rest)) else None
  }

  /** `s` with the responses of `heights` emptied of events and nothing else
      changed: no order, no repeats, no missing heights. */
  ghost function BareAt(s: Stored, heights: set<int>): Stored {
    map h | h in s :: if h in heights then Bare(s[h]) else s[h]
  }

  ghost function SetOf(heights: seq<int>): set<int> {
    set h | h in heights
  }

  lemma ClearedIsBare(height: int, r: Response)
    ensures Overwritten(r, ClearedExport(Loaded(height, r))) == Bare(r)
    ensures Bare(Bare(r)) == Bare(r)
  {
    var c := Overwritten(r, ClearedExport(Loaded(height, r)));
    assert c.txResults == Bare(r).txResults;
    assert Bare(Bare(r)).txResults == Bare(r).txResults;
  }

  lemma SetOfLast(heights: seq<int>)
    requires heights != []
    ensures SetOf(heights) == SetOf(heights[..|heights| - 1]) + {heights[|heights| - 1]}
  {
    assert heights == heights[..|heights| - 1] + [heights[|heights| - 1]];
  }

  /** Cleaning up changes nothing but the event lists of the heights named. */
  lemma {:induction false} CleanupOnlyEvents(s: Stored, heights: seq<int>)
    ensures Cleaned(s, heights) == BareAt(s, SetOf(heights))
  {
    hide Bare, Overwritten, ClearedExport, Loaded;
    if heights == [] {
      assert BareAt(s, {}) == s;
    } else {
      var init, h := heights[..|heights| - 1], heights[|heights| - 1];
      CleanupOnlyEvents(s, init);
      SetOfLast(heights);
      hide SetOf;
      var before := Cleaned(s, init);
      if h in s {
        ClearedIsBare(h, s[h]);
        ClearedIsBare(h, before[h]);
        LoadedHeight(h, before[h]);
      }
    }
  }

  /** Only event lists differ, and those of the second are empty. */
  ghost predicate EventsCleared(was: Response, now: Response) {
    && now.events == [] && now.rest == was.rest && |now.txResults| == |was.txResults|
    && forall i :: 0 <= i < |now.txResults| ==>
         now.txResults[i] ==
           if was.txResults[i].Some? then Some(TxResult([], was.txResults[i].value.rest)) else None
  }

  lemma BareIs(r: Response, b: Response)
    ensures b == Bare(r) <==> EventsCleared(r, b)
  {
    if EventsCleared(r, b) {
      assert b.txResults == Bare(r).txResults;
    }
  }

  /** What clean-up leaves, height by height. */
  lemma CleanedIs(s: Stored, heights: seq<int>)
    ensures
      var c := Cleaned(s, heights);
      && c.Keys == s.Keys
      && forall h :: h in c ==> if h in heights then EventsCleared(s[h], c[h]) else c[h] == s[h]
  {
    CleanupOnlyEvents(s, heights);
    hide Cleaned, Bare, EventsCleared;
    forall h | h in s && h in heights ensures EventsCleared(s[h], Bare(s[h])) {
      BareIs(s[h], Bare(s[h]));
    }
  }

  /** Files import one after the other as one. */
  lemma {:induction false} ImportConcat(s: Stored, a: seq<Export>, b: seq<Export>)
    ensures Imported(s, a + b) == Imported(Imported(s, a), b)
    decreases |b|
  {
    hide Applied;
    if b == [] {
      assert a + b == a;
    } else {
      var n := |b| - 1;
      assert (a + b)[..|a + b| - 1] == a + b[..n] && (a + b)[|a + b| - 1] == b[n];
      ImportConcat(s, a, b[..n]);
    }
  }

  /** Importing one record writes its height's event lists, as far as it has
      them, and nothing else. */
  lemma ImportOne(s: Stored, e: Export)
    ensures
      var t := Imported(s, [e]);
      && t.Keys == s.Keys && (forall h :: h in s && h != e.height ==> t[h] == s[h])
      && (e.height in s ==>
            var was, now := s[e.height], t[e.height];
            && now.events == e.blockEvents && now.rest == was.rest && |now.txResults| == |was.txResults|
            && forall i :: 0 <= i < |now.txResults| ==>
                 now.txResults[i] ==
                   if was.txResults[i].Some? && i < |e.txEvents|
                   then Some(TxResult(e.txEvents[i], was.txResults[i].value.rest)) else was.txResults[i])
  {
    assert [e][..0] == [] && Imported(s, []) == s;
  }

  /** Writing a response's own events over any response of the same bare shape
      gives that response back, and over no other. */
  lemma OverwriteRestores(r: Response, original: Response, height: int)
    ensures Overwritten(r, Loaded(height, original)) == original <==> Bare(r) == Bare(original)
    ensures Bare(Overwritten(r, Loaded(height, original))) == Bare(r)
    ensures Overwritten(Overwritten(r, Loaded(height, original)), Loaded(height, original))
         == Overwritten(r, Loaded(height, original))
  {
    var e := Loaded(height, original);
    var o := Overwritten(r, e);
    assert Bare(o).txResults == Bare(r).txResults;
    assert Overwritten(o, e).txResults == o.txResults;
    if Bare(r) == Bare(original) {
      forall i | 0 <= i < |r.txResults| ensures o.txResults[i] == original.txResults[i] {
        assert Bare(r).txResults[i] == Bare(original).txResults[i];
      }
      assert o.txResults == original.txResults;
    }
  }

  /** An export file written from `s` writes `s`'s events over those of the
      heights named, each once or more, whatever else `t` holds. */
  ghost function RestoredAt(t: Stored, s: Stored, heights: set<int>): Stored {
    map h | h in t :: if h in heights && h in s then Overwritten(t[h], Loaded(h, s[h])) else t[h]
  }

  lemma {:induction false} ImportWrites(t: Stored, s: Stored, heights: seq<int>)
    ensures Imported(t, Exported(s, heights)) == RestoredAt(t, s, SetOf(heights))
  {
    hide Bare, Overwritten, Loaded;
    if heights == [] {
      assert RestoredAt(t, s, {}) == t;
    } else {
      var init, h := heights[..|heights| - 1], heights[|heights| - 1];
      ImportWrites(t, s, init);
      SetOfLast(heights);
      hide SetOf;
      if h in s {
        var file := Exported(s, init);
        assert (file + [Loaded(h, s[h])])[..|file|] == file;
        LoadedHeight(h, s[h]);
        if h in t {
          OverwriteRestores(t[h], s[h], h);
        }
      }
    }
  }

  lemma LoadedHeight(h: int, r: Response)
    ensures Loaded(h, r).height == h && ClearedExport(Loaded(h, r)).height == h
  {
  }

  /** The two responses differ in event lists only. */
  ghost predicate SameButEvents(a: Response, b: Response) {
    && a.rest == b.rest && |a.txResults| == |b.txResults|
    && forall i :: 0 <= i < |a.txResults| ==>
         (a.txResults[i].Some? <==> b.txResults[i].Some?)
         && (a.txResults[i].Some? ==> a.txResults[i].value.rest == b.txResults[i].value.rest)
  }

  lemma SameBare(a: Response, b: Response)
    ensures Bare(a) == Bare(b) <==> SameButEvents(a, b)
  {
    if Bare(a) == Bare(b) {
      forall i | 0 <= i < |a.txResults|
        ensures (a.txResults[i].Some? <==> b.txResults[i].Some?)
          && (a.txResults[i].Some? ==> a.txResults[i].value.rest == b.txResults[i].value.rest)
      {
        assert Bare(a).txResults[i] == Bare(b).txResults[i];
      }
    }
    if SameButEvents(a, b) {
      assert Bare(a).txResults == Bare(b).txResults;
    }
  }

  /** Importing what was exported from `s` turns a store into `s` exactly if it
      differed from `s` in nothing but event lists at the heights exported. */
  lemma ImportRestores(t: Stored, s: Stored, heights: seq<int>)
    ensures Imported(t, Exported(s, heights)) == s
      <==> (&& t.Keys == s.Keys
            && forall h :: h in s ==> if h in heights then SameButEvents(t[h], s[h]) else t[h] == s[h])
  {
    ImportWrites(t, s, heights);
    hide Bare, Overwritten, Loaded, Imported, Exported, SameButEvents;
    var result := RestoredAt(t, s, SetOf(heights));
    assert result.Keys == t.Keys;
    if t.Keys == s.Keys {
      forall h | h in s
        ensures h in t && (result[h] == s[h] <==> if h in heights then SameButEvents(t[h], s[h]) else t[h] == s[h])
      {
        assert h in s.Keys && h in t.Keys;
        OverwriteRestores(t[h], s[h], h);
        SameBare(t[h], s[h]);
      }
      if forall h :: h in s ==> result[h] == s[h] {
        forall h | h in result ensures h in s { assert h in t.Keys; }
        assert result == s;
      }
    }
  }

  /** Export, clean up, import: the store is back as it was, for any list of
      heights, with repeats and missing heights and nil results. */
  lemma ExportCleanupImport(s: Stored, heights: seq<int>)
    ensures Imported(Cleaned(s, heights), Exported(s, heights)) == s
  {
    CleanedIs(s, heights);
    ImportRestores(Cleaned(s, heights), s, heights);
    hide Imported, Exported, Cleaned;
  }

  /** Cleaning up again, in any order and over any part of the heights, changes
      nothing. */
  lemma CleanupIdempotent(s: Stored, heights: seq<int>, again: seq<int>)
    requires forall h :: h in again ==> h in heights
    ensures Cleaned(Cleaned(s, heights), again) == Cleaned(s, heights)
  {
    CleanupOnlyEvents(s, heights);
    CleanupOnlyEvents(Cleaned(s, heights), again);
    hide Bare, Cleaned;
    var c := BareAt(s, SetOf(heights));
    forall h | h in s && h in again ensures Bare(c[h]) == c[h] {
      assert h in SetOf(heights);
      ClearedIsBare(h, s[h]);
    }
    assert BareAt(c, SetOf(again)) == c;
  }
}
