/** The signature inventory: indexed entries partitioned into groups, and its merge. */
module Inventory {
  import opened Wrappers
  import opened Orders
  import opened Digest

  /** A locator-scoped identity and the scope-free identity used for digests and diffs. */
  datatype SignatureId = SignatureId(value: Slice, semantic: Slice)

  function IdKey(id: SignatureId): seq<seq<int>> {
    [id.value, id.semantic]
  }

  predicate IdLeq(a: SignatureId, b: SignatureId) {
    KeyLeq(IdKey(a), IdKey(b))
  }

  lemma IdLeqIsTotal()
    ensures TotalOrder(IdLeq)
  {
    KeyLeqIsTotal();
    forall a: SignatureId, b: SignatureId | IdKey(a) == IdKey(b) ensures a == b {
      assert IdKey(a)[0] == IdKey(b)[0] && IdKey(a)[1] == IdKey(b)[1];
    }
  }

  /** In id order: by the scoped text, then by the semantic text. */
  ghost predicate IdBefore(a: SignatureId, b: SignatureId) {
    BytesBefore(a.value, b.value) || (a.value == b.value && BytesBefore(a.semantic, b.semantic))
  }

  lemma IdLeqMeans(a: SignatureId, b: SignatureId)
    ensures IdLeq(a, b) <==> a == b || IdBefore(a, b)
    ensures !IdBefore(a, a)
  {
    var x, y: seq<seq<int>> := IdKey(a), IdKey(b);
    KeyLeqMeans(x, y);
    KeyLeqMeans(x[1..], y[1..]);
    BytesLeqMeans(a.value, b.value);
    BytesLeqMeans(a.semantic, b.semantic);
    NotBeforeItself(a.value);
    NotBeforeItself(b.semantic);
  }

  const SEPARATOR: seq<Byte> := Ascii("::")

  /** `SignatureId::scoped`, for texts that fit in memory. */
  function Scoped(document: Option<Slice>, semantic: Slice): SignatureId
    requires document.Some? ==> |document.value| + 2 + |semantic| <= ISIZE_MAX
  {
    match document
    case Some(d) => SignatureId(d + SEPARATOR + semantic, semantic)
    case None => SignatureId(semantic, semantic)
  }

  /** The document scope an id carries before its semantic text, if it ends with that text. */
  function ScopeOf(id: SignatureId): Option<seq<Byte>> {
    var n := |id.value| - |id.semantic|;
    if n >= 0 && id.value[n..] == id.semantic then Some(id.value[..n]) else None
  }

  /** An entry id and its group id carry the same document scope. */
  predicate SameScope(id: SignatureId, g: SignatureId) {
    ScopeOf(id).Some? && ScopeOf(id) == ScopeOf(g)
  }

  /** Ids built for one document share its scope. */
  lemma ScopedShareScope(document: Option<Slice>, a: Slice, b: Slice)
    requires document.Some? ==> |document.value| + 2 + |a| <= ISIZE_MAX
    requires document.Some? ==> |document.value| + 2 + |b| <= ISIZE_MAX
    ensures SameScope(Scoped(document, a), Scoped(document, b))
    ensures ScopeOf(Scoped(document, a)) == Some(if document.Some? then document.value + SEPARATOR else [])
  {
    if document.Some? {
      var prefix := document.value + SEPARATOR;
      assert (prefix + a)[|prefix|..] == a && (prefix + a)[..|prefix|] == prefix;
      assert (prefix + b)[|prefix|..] == b && (prefix + b)[..|prefix|] == prefix;
    }
  }

  datatype SignatureEntry = SignatureEntry(id: SignatureId, groupId: SignatureId, digest: SignatureDigest)

  datatype GroupContext = GroupContext(extraction: Option<Slice>, metadata: Option<Slice>)

  datatype Group = Group(entryIds: set<SignatureId>, context: Option<GroupContext>)

  datatype InventoryError =
    | DuplicateSignatureGroup(id: SignatureId, existingGroup: SignatureId, incomingGroup: SignatureId)
    | DuplicateSignatureMismatch(id: SignatureId)
    | MissingSignatureEntry(id: SignatureId)
    | MissingSignatureGroup(id: SignatureId)
    | DiagnosticCountExceeded(limit: nat, observedAtLeast: nat)

  /** The value of an inventory: its two maps. */
  datatype Contents = Contents(entries: map<SignatureId, SignatureEntry>, groups: map<SignatureId, Group>) {

    /** Entry ids are partitioned by group, and no group is empty of both entries and context. */
    ghost predicate Valid() {
      && (forall id :: id in entries ==> entries[id].id == id)
      && (forall id :: id in entries ==>
            entries[id].groupId in groups && id in groups[entries[id].groupId].entryIds)
      && (forall g, id :: g in groups && id in groups[g].entryIds ==>
            id in entries && entries[id].groupId == g)
      && (forall g :: g in groups ==> groups[g].entryIds != {} || groups[g].context.Some?)
    }

    /** Every entry carries the document scope of its group. */
    ghost predicate ScopesAgree() {
      forall id :: id in entries ==> SameScope(id, entries[id].groupId)
    }

    function GroupAt(g: SignatureId): Group {
      if g in groups then groups[g] else Group({}, None)
    }

    function ContextAt(g: SignatureId): Option<GroupContext> {
      GroupAt(g).context
    }
  }

  const EMPTY: Contents := Contents(map[], map[])

  /** A mutation's final value and the error that stopped it, if one did. */
  datatype Outcome = Outcome(contents: Contents, error: Option<InventoryError>)

  function Inserted(s: Contents, entry: SignatureEntry): Outcome {
    if entry.id in s.entries then
      var existing := s.entries[entry.id];
      if existing == entry then Outcome(s, None)
      else if existing.groupId != entry.groupId then
        Outcome(s, Some(DuplicateSignatureGroup(entry.id, existing.groupId, entry.groupId)))
      else Outcome(s, Some(DuplicateSignatureMismatch(entry.id)))
    else
      var group := s.GroupAt(entry.groupId);
      Outcome(Contents(s.entries[entry.id := entry],
                       s.groups[entry.groupId := group.(entryIds := group.entryIds + {entry.id})]),
              None)
  }

  function WithGroupContext(s: Contents, g: SignatureId, context: GroupContext): Outcome {
    var group := s.GroupAt(g);
    if group.context.Some? && group.context.value != context
    then Outcome(s, Some(DuplicateSignatureMismatch(g)))
    else Outcome(s.(groups := s.groups[g := group.(context := Some(context))]), None)
  }

  function InsertedAll(s: Contents, ids: seq<SignatureId>, from: map<SignatureId, SignatureEntry>): Outcome
    requires forall id :: id in ids ==> id in from
    decreases |ids|
  {
    if ids == [] then Outcome(s, None) else
      var step := Inserted(s, from[ids[0]]);
      if step.error.Some? then step else InsertedAll(step.contents, ids[1..], from)
  }

  function WithContexts(s: Contents, ids: seq<SignatureId>, from: map<SignatureId, Group>): Outcome
    requires forall id :: id in ids ==> id in from
    decreases |ids|
  {
    if ids == [] then Outcome(s, None)
    else if from[ids[0]].context.None? then WithContexts(s, ids[1..], from)
    else
      var step := WithGroupContext(s, ids[0], from[ids[0]].context.value);
      if step.error.Some? then step else WithContexts(step.contents, ids[1..], from)
  }

  /** `merge`: entries in id order, then contexts in group order, stopping at the first conflict. */
  ghost function Merged(s: Contents, incoming: Contents): Outcome {
    var step := InsertedAll(s, Ascending(IdLeq, incoming.entries.Keys), incoming.entries);
    if step.error.Some? then step
    else WithContexts(step.contents, Ascending(IdLeq, incoming.groups.Keys), incoming.groups)
  }

  ghost function MergedFrom(s: Contents, inventories: seq<Contents>): Outcome
    decreases |inventories|
  {
    if inventories == [] then Outcome(s, None) else
      var step := Merged(s, inventories[0]);
      if step.error.Some? then step else MergedFrom(step.contents, inventories[1..])
  }

  ghost function MergedAll(inventories: seq<Contents>): Outcome {
    MergedFrom(EMPTY, inventories)
  }

  // ------------------------------------------------------------------ the class

  class SignatureInventory {
    var entries: map<SignatureId, SignatureEntry>
    var groups: map<SignatureId, Group>

    function Value(): Contents
      reads this
    {
      Contents(entries, groups)
    }

    constructor ()
      ensures Value() == EMPTY
    {
      entries, groups := map[], map[];
    }

    method Insert(entry: SignatureEntry) returns (error: Option<InventoryError>)
      modifies this
      ensures Outcome(Value(), error) == Inserted(old(Value()), entry)
    {
      if entry.id in entries {
        var existing := entries[entry.id];
        if existing == entry {
          return None;
        }
        if existing.groupId != entry.groupId {
          return Some(DuplicateSignatureGroup(entry.id, existing.groupId, entry.groupId));
        }
        return Some(DuplicateSignatureMismatch(entry.id));
      }
      var group := if entry.groupId in groups then groups[entry.groupId] else Group({}, None);
      groups := groups[entry.groupId := group.(entryIds := group.entryIds + {entry.id})];
      entries := entries[entry.id := entry];
      error := None;
    }

    method SetGroupContext(g: SignatureId, context: GroupContext) returns (error: Option<InventoryError>)
      modifies this
      ensures Outcome(Value(), error) == WithGroupContext(old(Value()), g, context)
    {
      var group := if g in groups then groups[g] else Group({}, None);
      if group.context.Some? && group.context.value != context {
        return Some(DuplicateSignatureMismatch(g));
      }
      groups := groups[g := group.(context := Some(context))];
      error := None;
    }

    method AbsorbEntries(ids: seq<SignatureId>, from: map<SignatureId, SignatureEntry>)
      returns (error: Option<InventoryError>)
      requires forall id :: id in ids ==> id in from
      modifies this
      ensures Outcome(Value(), error) == InsertedAll(old(Value()), ids, from)
    {
      for i := 0 to |ids|
        invariant InsertedAll(old(Value()), ids, from) == InsertedAll(Value(), ids[i..], from)
      {
        assert ids[i] in ids && ids[i..][1..] == ids[i + 1..];
        error := Insert(from[ids[i]]);
        if error.Some? {
          return;
        }
      }
      error := None;
    }

    method AbsorbContexts(ids: seq<SignatureId>, from: map<SignatureId, Group>)
      returns (error: Option<InventoryError>)
      requires forall id :: id in ids ==> id in from
      modifies this
      ensures Outcome(Value(), error) == WithContexts(old(Value()), ids, from)
    {
      for i := 0 to |ids|
        invariant WithContexts(old(Value()), ids, from) == WithContexts(Value(), ids[i..], from)
      {
        assert ids[i] in ids && ids[i..][1..] == ids[i + 1..];
        var group := from[ids[i]];
        if group.context.Some? {
          error := SetGroupContext(ids[i], group.context.value);
          if error.Some? {
            return;
          }
        }
      }
      error := None;
    }

    method Merge(incoming: SignatureInventory) returns (error: Option<InventoryError>)
      requires incoming != this
      modifies this
      ensures Outcome(Value(), error) == Merged(old(Value()), old(incoming.Value()))
    {
      IdLeqIsTotal();
      var entryIds := Enumerate(IdLeq, incoming.entries.Keys);
      error := AbsorbEntries(entryIds, incoming.entries);
      if error.None? {
        var groupIds := Enumerate(IdLeq, incoming.groups.Keys);
        error := AbsorbContexts(groupIds, incoming.groups);
      }
    }

    static method MergeAll(inventories: seq<SignatureInventory>)
      returns (merged: Result<SignatureInventory, InventoryError>)
      ensures match merged
              case Success(inventory) =>
                fresh(inventory) && MergedAll(Values(inventories)) == Outcome(inventory.Value(), None)
              case Failure(error) => MergedAll(Values(inventories)).error == Some(error)
    {
      hide Merged;
      ghost var values := Values(inventories);
      var accumulated := new SignatureInventory();
      for i := 0 to |inventories|
        invariant fresh(accumulated)
        invariant Values(inventories) == values
        invariant MergedAll(values) == MergedFrom(accumulated.Value(), values[i..])
      {
        assert values[i..][0] == inventories[i].Value() && values[i..][1..] == values[i + 1..];
        var error := accumulated.Merge(inventories[i]);
        if error.Some? {
          return Failure(error.value);
        }
      }
      merged := Success(accumulated);
    }
  }

  ghost function Values(inventories: seq<SignatureInventory>): (r: seq<Contents>)
    reads inventories
    ensures |r| == |inventories|
    ensures forall i :: 0 <= i < |r| ==> r[i] == inventories[i].Value()
  {
    if inventories == [] then [] else [inventories[0].Value()] + Values(inventories[1..])
  }
}
