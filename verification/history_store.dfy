/** The history log as the app component keeps it: a live list in memory
    and a serialised copy under the 'agri_content_history' storage key,
    written with one degrade-and-retry step when the write is refused. */
module HistoryStore {
  import opened Types
  import opened History

  /** The live list and the storage slot holding its serialised mirror. */
  datatype Store = Store(live: seq<HistoryItem>, slot: Option<string>)

  /** Which branch of the save routine ran. */
  datatype SaveOutcome =
    | Saved               // the first write succeeded
    | SavedWithoutImage   // the retry without the newest image succeeded
    | SessionOnly         // both writes failed; only memory was updated
    | Dropped             // the first write failed on an empty list

  /** The branch taken, given the list and whether each write attempt is
      accepted by the storage. */
  function OutcomeOf(newHistory: seq<HistoryItem>, firstOk: bool, retryOk: bool): SaveOutcome
  {
    if firstOk then Saved
    else if |newHistory| == 0 then Dropped
    else if retryOk then SavedWithoutImage
    else SessionOnly
  }

  /** Save a new list: write it; if the write throws and the list is not
      empty, retry once with the newest record's image removed, and if that
      also throws keep the full list in memory only. `firstOk` and
      `retryOk` say whether each write is accepted. */
  function Save(s: Store, newHistory: seq<HistoryItem>, firstOk: bool, retryOk: bool,
                c: Codec<seq<HistoryItem>>): (r: Store)
    // the slot is either left alone or holds exactly the live list
    ensures r.slot == s.slot || r.slot == Some(c.encode(r.live))
    // only a failed first write of an empty list leaves memory unchanged
    ensures OutcomeOf(newHistory, firstOk, retryOk) == Dropped ==> r == s
    ensures OutcomeOf(newHistory, firstOk, retryOk) != Dropped ==>
      && |r.live| == |newHistory| && Ids(r.live) == Ids(newHistory)
      && forall i :: 1 <= i < |newHistory| ==> r.live[i] == newHistory[i]
  {
    if firstOk then
      Store(newHistory, Some(c.encode(newHistory)))
    else if |newHistory| > 0 then
      var fallback := StripLatestImage(newHistory);
      if retryOk then Store(fallback, Some(c.encode(fallback)))
      else Store(newHistory, s.slot)
    else
      s
  }

  /** The history-load effect on mount: nothing for an absent or empty
      value or an unparseable one, otherwise the decoded list. */
  function LoadHistory(slot: Option<string>, c: Codec<seq<HistoryItem>>): (h: seq<HistoryItem>)
    ensures slot.None? || slot == Some("") ==> h == []
    ensures slot.Some? && slot.value != "" && c.decode(slot.value).None? ==> h == []
    ensures slot.Some? && slot.value != "" && c.decode(slot.value).Some? ==>
      h == c.decode(slot.value).value
  {
    ReadSlot(slot, c).GetOr([])
  }

  /** The component's state right after mount: the slot is untouched, and
      the live list is what the slot decodes to, or empty when it reads as
      nothing. */
  function Mount(slot: Option<string>, c: Codec<seq<HistoryItem>>): (r: Store)
    ensures r.slot == slot
    ensures ReadSlot(slot, c) == Some(r.live) || (ReadSlot(slot, c).None? && r.live == [])
  {
    Store(LoadHistory(slot, c), slot)
  }

  /** `addToHistory` as written: the record, built from the supplied id and
      timestamp, is prepended to `snapshot`, the list the handler captured
      when the form was submitted, not to the live list at the moment the
      generated result arrives. The list is capped at 50 and saved. */
  function AddFromSnapshot(s: Store, snapshot: seq<HistoryItem>, input: SeedInput,
                           result: GeneratedContent, id: string, timestamp: int,
                           firstOk: bool, retryOk: bool, c: Codec<seq<HistoryItem>>): (r: Store)
    ensures 0 < |r.live| <= MaxItems
    ensures r.live[0].id == id && r.live[0].input == input
    ensures r.live[1..] == Take(snapshot, MaxItems - 1)
  {
    var nh := Prepend(snapshot, HistoryItem(id, timestamp, input, result));
    assert nh[1..] == Take(snapshot, MaxItems - 1);
    Save(s, nh, firstOk, retryOk, c)
  }

  /** An add that prepends to the live list current when the result
      arrives. When nothing changed the list during generation this is
      exactly the handler (`AddFromSnapshot` with the live list as the
      snapshot); it is the behaviour the rest of the model uses. */
  function Add(s: Store, input: SeedInput, result: GeneratedContent, id: string, timestamp: int,
               firstOk: bool, retryOk: bool, c: Codec<seq<HistoryItem>>): (r: Store)
    ensures 0 < |r.live| <= MaxItems
    ensures r.live[0].id == id && r.live[0].input == input
    ensures r.live[1..] == Take(s.live, MaxItems - 1)
  {
    AddFromSnapshot(s, s.live, input, result, id, timestamp, firstOk, retryOk, c)
  }

  /** `handleDeleteHistory`: drop every record with the id and save. Unless
      the save is dropped, no record with the id is left. */
  function Delete(s: Store, id: string, firstOk: bool, retryOk: bool,
                  c: Codec<seq<HistoryItem>>): (r: Store)
    ensures |r.live| <= |s.live|
    ensures r == s || forall i :: 0 <= i < |r.live| ==> r.live[i].id != id
  {
    var f := RemoveId(s.live, id);
    var r := Save(s, f, firstOk, retryOk, c);
    assert r != s ==> forall i :: 0 <= i < |r.live| ==> r.live[i].id == f[i].id;
    r
  }

  // ---- the four branches of a save ----

  /** An accepted first write stores the full list and shows it. */
  lemma SaveFirstWriteOk(s: Store, newHistory: seq<HistoryItem>, retryOk: bool,
                         c: Codec<seq<HistoryItem>>)
    requires Faithful(c)
    ensures Save(s, newHistory, true, retryOk, c).live == newHistory
    ensures LoadHistory(Save(s, newHistory, true, retryOk, c).slot, c) == newHistory
  {
    ReadWritten(c, newHistory);
  }

  /** A refused first write and an accepted retry store and show the list
      with only record 0's image removed. */
  lemma SaveRetryOk(s: Store, newHistory: seq<HistoryItem>, c: Codec<seq<HistoryItem>>)
    requires Faithful(c)
    requires |newHistory| > 0
    ensures var r := Save(s, newHistory, false, true, c);
      && |r.live| == |newHistory|
      && r.live[1..] == newHistory[1..]
      && r.live[0].result.imageBase64 == None
      && r.live[0].(result := r.live[0].result.(imageBase64 := newHistory[0].result.imageBase64))
         == newHistory[0]
      && LoadHistory(r.slot, c) == r.live
  {
    StripLatestImageOnlyDropsImage(newHistory);
    ReadWritten(c, StripLatestImage(newHistory));
  }

  /** Two refused writes leave the slot as it was and show the full list:
      there is no further fallback. */
  lemma SaveBothRefused(s: Store, newHistory: seq<HistoryItem>, c: Codec<seq<HistoryItem>>)
    requires |newHistory| > 0
    ensures Save(s, newHistory, false, false, c) == Store(newHistory, s.slot)
    ensures LoadHistory(Save(s, newHistory, false, false, c).slot, c) == LoadHistory(s.slot, c)
  {
  }

  /** A refused first write of an empty list changes nothing at all. */
  lemma SaveEmptyRefused(s: Store, retryOk: bool, c: Codec<seq<HistoryItem>>)
    ensures Save(s, [], false, retryOk, c) == s
  {
  }

  /** Whenever the slot is written, reading it back gives the live list. */
  lemma SaveKeepsMirror(s: Store, newHistory: seq<HistoryItem>, firstOk: bool, retryOk: bool,
                        c: Codec<seq<HistoryItem>>)
    requires Faithful(c)
    ensures var r := Save(s, newHistory, firstOk, retryOk, c);
      r.slot == s.slot || LoadHistory(r.slot, c) == r.live
  {
    var r := Save(s, newHistory, firstOk, retryOk, c);
    if r.slot != s.slot {
      ReadWritten(c, r.live);
    }
  }

  // ---- add ----

  /** After an add the new record is first, the older ones follow in their
      order, and there are at most 50, whatever the storage does. */
  lemma AddPutsNewestFirst(s: Store, input: SeedInput, result: GeneratedContent, id: string,
                           timestamp: int, firstOk: bool, retryOk: bool, c: Codec<seq<HistoryItem>>)
    ensures var r := Add(s, input, result, id, timestamp, firstOk, retryOk, c);
      && 0 < |r.live| <= MaxItems
      && r.live[0].id == id && r.live[0].timestamp == timestamp && r.live[0].input == input
      && r.live[0].result.postContent == result.postContent
      && r.live[0].result.imagePrompt == result.imagePrompt
      && r.live[1..] == Take(s.live, MaxItems - 1)
  {
    var nh := Prepend(s.live, HistoryItem(id, timestamp, input, result));
    StripLatestImageOnlyDropsImage(nh);
    assert nh[1..] == Take(s.live, MaxItems - 1);
  }

  /** Adding to a full log drops exactly its last (oldest) record. */
  lemma AddToFullDropsOldest(s: Store, input: SeedInput, result: GeneratedContent, id: string,
                             timestamp: int, firstOk: bool, retryOk: bool, c: Codec<seq<HistoryItem>>)
    requires |s.live| == MaxItems
    ensures var r := Add(s, input, result, id, timestamp, firstOk, retryOk, c);
      |r.live| == MaxItems && r.live[1..] == s.live[..MaxItems - 1]
  {
    AddPutsNewestFirst(s, input, result, id, timestamp, firstOk, retryOk, c);
  }

  // ---- delete ----

  /** A delete that is not dropped leaves no record with the id, and the
      survivors are the others in their original order. */
  lemma DeleteRemovesEveryMatch(s: Store, id: string, firstOk: bool, retryOk: bool,
                                c: Codec<seq<HistoryItem>>)
    requires OutcomeOf(RemoveId(s.live, id), firstOk, retryOk) != Dropped
    ensures var r := Delete(s, id, firstOk, retryOk, c);
      && Ids(r.live) == Ids(RemoveId(s.live, id))
      && forall i :: 0 <= i < |r.live| ==> r.live[i].id != id
  {
    var r := Delete(s, id, firstOk, retryOk, c);
    forall i | 0 <= i < |r.live|
      ensures r.live[i].id != id
    {
      var f := RemoveId(s.live, id);
      assert Ids(r.live)[i] == Ids(f)[i];
      RemoveIdMembers(s.live, id, f[i]);
    }
  }

  /** Deleting an id no record carries, with the write accepted, changes
      nothing visible. */
  lemma DeleteAbsentId(s: Store, id: string, retryOk: bool, c: Codec<seq<HistoryItem>>)
    requires forall i :: 0 <= i < |s.live| ==> s.live[i].id != id
    ensures Delete(s, id, true, retryOk, c).live == s.live
  {
    RemoveAbsentId(s.live, id);
  }

  /** With writes accepted, deleting an id twice equals deleting it once. */
  lemma DeleteTwice(s: Store, id: string, r1: bool, r2: bool, c: Codec<seq<HistoryItem>>)
    ensures Delete(Delete(s, id, true, r1, c), id, true, r2, c) == Delete(s, id, true, r1, c)
  {
    RemoveIdIdempotent(s.live, id);
  }

  /** Under a storage that refuses the first write, deleting the only record
      leaves it visible and the slot untouched. */
  lemma DeleteOnlyItemRefused(x: HistoryItem, slot: Option<string>, retryOk: bool,
                              c: Codec<seq<HistoryItem>>)
    ensures Delete(Store([x], slot), x.id, false, retryOk, c) == Store([x], slot)
  {
    assert RemoveId([x], x.id) == [] by {
      assert [x][1..] == [];
    }
  }

  // ---- an add racing a delete ----

  /** As written, a record deleted while a generation is running comes back:
      the add prepends to the list captured at submit time. */
  lemma StaleAddRestoresDeleted(x: HistoryItem, slot: Option<string>, input: SeedInput,
                                result: GeneratedContent, id: string, timestamp: int,
                                c: Codec<seq<HistoryItem>>)
    ensures var deleted := Delete(Store([x], slot), x.id, true, true, c);
      && deleted.live == []
      && AddFromSnapshot(deleted, [x], input, result, id, timestamp, true, true, c).live
         == [HistoryItem(id, timestamp, input, result), x]
  {
    assert RemoveId([x], x.id) == [] by {
      assert [x][1..] == [];
    }
    assert Take([x], MaxItems - 1) == [x];
  }

  /** With the add working on the current list, a deleted id stays gone
      unless the new record itself carries it. */
  lemma DeleteThenAddStaysDeleted(s: Store, xid: string, f1: bool, r1: bool,
                                  input: SeedInput, result: GeneratedContent, id: string,
                                  timestamp: int, f2: bool, r2: bool, c: Codec<seq<HistoryItem>>)
    requires OutcomeOf(RemoveId(s.live, xid), f1, r1) != Dropped
    requires id != xid
    ensures var r := Add(Delete(s, xid, f1, r1, c), input, result, id, timestamp, f2, r2, c);
      forall i :: 0 <= i < |r.live| ==> r.live[i].id != xid
  {
    var d := Delete(s, xid, f1, r1, c);
    DeleteRemovesEveryMatch(s, xid, f1, r1, c);
    var r := Add(d, input, result, id, timestamp, f2, r2, c);
    forall i | 0 <= i < |r.live|
      ensures r.live[i].id != xid
    {
      if i > 0 {
        assert r.live[i] == Take(d.live, MaxItems - 1)[i - 1];
      }
    }
  }

  // ---- sequences of operations ----

  /** One user action on the log, with the storage's answers to its writes. */
  datatype Op =
    | AddOp(input: SeedInput, result: GeneratedContent, id: string, timestamp: int,
            firstOk: bool, retryOk: bool)
    | DeleteOp(id: string, firstOk: bool, retryOk: bool)

  function Step(s: Store, op: Op, c: Codec<seq<HistoryItem>>): Store
  {
    match op
    case AddOp(input, result, id, timestamp, firstOk, retryOk) =>
      Add(s, input, result, id, timestamp, firstOk, retryOk, c)
    case DeleteOp(id, firstOk, retryOk) => Delete(s, id, firstOk, retryOk, c)
  }

  /** The actions applied in order. */
  function Run(s: Store, ops: seq<Op>, c: Codec<seq<HistoryItem>>): Store
    decreases |ops|
  {
    if ops == [] then s else Run(Step(s, ops[0], c), ops[1..], c)
  }

  /** Both the live list and what a reload would show hold at most 50. */
  ghost predicate Bounded(s: Store, c: Codec<seq<HistoryItem>>)
  {
    |s.live| <= MaxItems && |LoadHistory(s.slot, c)| <= MaxItems
  }

  /** Any sequence of adds and deletes keeps the log within the cap, in
      memory and in storage. */
  lemma {:induction false} RunKeepsBound(s: Store, ops: seq<Op>, c: Codec<seq<HistoryItem>>)
    requires Faithful(c)
    requires Bounded(s, c)
    ensures Bounded(Run(s, ops, c), c)
    decreases |ops|
  {
    if ops != [] {
      var t := Step(s, ops[0], c);
      var nh := match ops[0]
        case AddOp(input, result, id, timestamp, _, _) =>
          Prepend(s.live, HistoryItem(id, timestamp, input, result))
        case DeleteOp(id, _, _) => RemoveId(s.live, id);
      SaveKeepsMirror(s, nh, ops[0].firstOk, ops[0].retryOk, c);
      assert Bounded(t, c);
      RunKeepsBound(t, ops[1..], c);
    }
  }

  predicate AllAdds(ops: seq<Op>)
  {
    forall i :: 0 <= i < |ops| ==> ops[i].AddOp?
  }

  /** The actions after the first of a run of adds are adds. */
  lemma AllAddsTail(ops: seq<Op>)
    requires ops != [] && AllAdds(ops)
    ensures AllAdds(ops[1..])
  {
    forall i | 0 <= i < |ops[1..]| ensures ops[1..][i].AddOp? {
      assert ops[1..][i] == ops[i + 1];
    }
  }

  /** The ids of the added records, newest first. */
  function NewestFirst(ops: seq<Op>): (r: seq<string>)
    ensures |r| == |ops|
    decreases |ops|
  {
    if ops == [] then [] else NewestFirst(ops[1..]) + [ops[0].id]
  }

  /** Whatever storage answers, an add shows the new id in front of the
      first 49 old ids. */
  lemma AddKeepsIds(s: Store, input: SeedInput, result: GeneratedContent, id: string,
                    timestamp: int, firstOk: bool, retryOk: bool, c: Codec<seq<HistoryItem>>)
    ensures Ids(Add(s, input, result, id, timestamp, firstOk, retryOk, c).live)
      == Take([id] + Ids(s.live), MaxItems)
  {
    var item := HistoryItem(id, timestamp, input, result);
    var r := Add(s, input, result, id, timestamp, firstOk, retryOk, c);
    assert Ids(r.live) == Ids(Prepend(s.live, item));
    IdsPrependTake(item, s.live, MaxItems);
  }

  /** After any run of adds, whatever the storage answered, the log holds
      the ids of the 50 newest records, newest first, followed by the old
      ids while there is room. */
  lemma {:induction false} AddsKeepNewestFifty(s: Store, ops: seq<Op>, c: Codec<seq<HistoryItem>>)
    requires AllAdds(ops)
    requires |s.live| <= MaxItems || ops != []
    ensures Ids(Run(s, ops, c).live) == Take(NewestFirst(ops) + Ids(s.live), MaxItems)
    decreases |ops|
  {
    if ops != [] {
      var op := ops[0];
      var t := Step(s, op, c);
      AddKeepsIds(s, op.input, op.result, op.id, op.timestamp, op.firstOk, op.retryOk, c);
      AllAddsTail(ops);
      AddsKeepNewestFifty(t, ops[1..], c);
      TakeAppendTake(NewestFirst(ops[1..]), [op.id] + Ids(s.live), MaxItems);
      assert NewestFirst(ops[1..]) + ([op.id] + Ids(s.live)) == NewestFirst(ops) + Ids(s.live);
    }
  }

  /** The records of the adds, newest first. */
  function NewestItems(ops: seq<Op>): (r: seq<HistoryItem>)
    requires AllAdds(ops)
    ensures |r| == |ops|
    ensures Ids(r) == NewestFirst(ops)
    decreases |ops|
  {
    if ops == [] then []
    else
      AllAddsTail(ops);
      var op := ops[0];
      NewestItems(ops[1..]) + [HistoryItem(op.id, op.timestamp, op.input, op.result)]
  }

  /** The added records, newest first, are the later adds' records
      followed by the first add's record. */
  lemma NewestItemsStep(ops: seq<Op>, rest: seq<HistoryItem>)
    requires ops != [] && AllAdds(ops)
    ensures AllAdds(ops[1..])
    ensures NewestItems(ops) + rest
      == NewestItems(ops[1..]) + ([HistoryItem(ops[0].id, ops[0].timestamp, ops[0].input, ops[0].result)] + rest)
  {
    AllAddsTail(ops);
  }

  /** An add shows the new list, or, after a refused write and an
      accepted retry, the new list with the newest image dropped. */
  lemma AddDropsOnlyImages(s: Store, input: SeedInput, result: GeneratedContent, id: string,
                           timestamp: int, firstOk: bool, retryOk: bool, c: Codec<seq<HistoryItem>>)
    ensures DropsOnlyImages(Add(s, input, result, id, timestamp, firstOk, retryOk, c).live,
                            Prepend(s.live, HistoryItem(id, timestamp, input, result)))
  {
    var nh := Prepend(s.live, HistoryItem(id, timestamp, input, result));
    var r := Add(s, input, result, id, timestamp, firstOk, retryOk, c);
    assert r.live == nh || r.live == StripLatestImage(nh);
  }

  /** After any run of adds, whatever the storage answered, each live
      record is the added or old record at its place among the first 50,
      newest first, or that record without its image. */
  lemma {:induction false} AddsDropOnlyImages(s: Store, ops: seq<Op>, c: Codec<seq<HistoryItem>>)
    requires AllAdds(ops)
    requires |s.live| <= MaxItems || ops != []
    ensures DropsOnlyImages(Run(s, ops, c).live, Take(NewestItems(ops) + s.live, MaxItems))
    decreases |ops|
  {
    if ops == [] {
      assert NewestItems(ops) + s.live == s.live;
    } else {
      var op := ops[0];
      var item := HistoryItem(op.id, op.timestamp, op.input, op.result);
      var t := Step(s, op, c);
      AddDropsOnlyImages(s, op.input, op.result, op.id, op.timestamp, op.firstOk, op.retryOk, c);
      NewestItemsStep(ops, s.live);
      AddsDropOnlyImages(t, ops[1..], c);
      DropsOnlyImagesCompose(Run(t, ops[1..], c).live, NewestItems(ops[1..]), t.live,
                             [item] + s.live, MaxItems);
    }
  }

  /** After any run of adds, whatever the storage answered, the log holds
      the 50 newest records, newest first, each equal to the added or old
      record at its place or to that record without its image. */
  lemma AddsKeepNewestRecords(s: Store, ops: seq<Op>, c: Codec<seq<HistoryItem>>)
    requires AllAdds(ops)
    requires |s.live| <= MaxItems || ops != []
    ensures DropsOnlyImages(Run(s, ops, c).live, Take(NewestItems(ops) + s.live, MaxItems))
    ensures StripAll(Run(s, ops, c).live) == Take(StripAll(NewestItems(ops) + s.live), MaxItems)
  {
    AddsDropOnlyImages(s, ops, c);
    DropsOnlyImagesStripAll(Run(s, ops, c).live, Take(NewestItems(ops) + s.live, MaxItems));
    StripAllAppendTake([], NewestItems(ops) + s.live, MaxItems);
  }

  /** Fifty or more adds leave exactly the fifty most recently added
      records, newest first, some possibly without their images: the
      oldest were dropped from the tail. A start over the cap, as a loaded
      list may be, makes no difference. */
  lemma ManyAddsKeepFiftyNewest(s: Store, ops: seq<Op>, c: Codec<seq<HistoryItem>>)
    requires AllAdds(ops)
    requires |ops| >= MaxItems
    ensures DropsOnlyImages(Run(s, ops, c).live, NewestItems(ops)[..MaxItems])
    ensures StripAll(Run(s, ops, c).live) == StripAll(NewestItems(ops)[..MaxItems])
    ensures Ids(Run(s, ops, c).live) == NewestFirst(ops)[..MaxItems]
  {
    AddsKeepNewestRecords(s, ops, c);
    AddsKeepNewestFifty(s, ops, c);
    StripAllAppendTake(NewestItems(ops), s.live, MaxItems);
    assert (NewestItems(ops) + s.live)[..MaxItems] == NewestItems(ops)[..MaxItems];
    assert Take(NewestItems(ops) + s.live, MaxItems) == NewestItems(ops)[..MaxItems];
    assert (NewestFirst(ops) + Ids(s.live))[..MaxItems] == NewestFirst(ops)[..MaxItems];
  }
}
