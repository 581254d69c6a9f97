/** Merge is an order-independent partial union that keeps the partition of entries by group. */
module MergeLaws {
  import opened Wrappers
  import opened Orders
  import opened Unions
  import opened Inventory

  // ----------------------------------------------------------- what is merged

  function Contexts(c: Contents): map<SignatureId, GroupContext> {
    map g | g in c.groups && c.groups[g].context.Some? :: c.groups[g].context.value
  }

  /** A valid inventory is determined by its entries and its contexts. */
  lemma DeterminedByEntriesAndContexts(a: Contents, b: Contents)
    requires a.Valid() && b.Valid() && a.entries == b.entries && Contexts(a) == Contexts(b)
    ensures a == b
  {
    forall g ensures g in a.groups ==> g in b.groups && a.groups[g] == b.groups[g] {
      GroupsFollow(a, b, g);
    }
    forall g ensures g in b.groups ==> g in a.groups {
      GroupsFollow(b, a, g);
    }
    assert a.groups == b.groups;
  }

  lemma GroupsFollow(a: Contents, b: Contents, g: SignatureId)
    requires a.Valid() && b.Valid() && a.entries == b.entries && Contexts(a) == Contexts(b)
    ensures g in a.groups ==> g in b.groups && a.groups[g] == b.groups[g]
  {
    if g in a.groups {
      if a.groups[g].context.Some? {
        assert g in Contexts(a) && g in Contexts(b);
      } else {
        var id :| id in a.groups[g].entryIds;
        assert b.entries[id].groupId == g;
        assert g !in Contexts(a) && g !in Contexts(b);
      }
      assert a.groups[g].context == b.groups[g].context;
      var x, y := a.groups[g].entryIds, b.groups[g].entryIds;
      forall id ensures id in x <==> id in y {
        if id in x { assert b.entries[id].groupId == g; }
        if id in y { assert a.entries[id].groupId == g; }
      }
      assert x == y;
    }
  }

  // ------------------------------------------------------------ validity is kept

  lemma InsertedKeepsValid(s: Contents, e: SignatureEntry)
    requires s.Valid()
    ensures Inserted(s, e).contents.Valid()
  {
    var r := Inserted(s, e).contents;
    if e.id !in s.entries {
      forall g, id | g in r.groups && id in r.groups[g].entryIds
        ensures id in r.entries && r.entries[id].groupId == g
      {
        assert id == e.id || id in s.GroupAt(g).entryIds;
      }
    }
  }

  lemma WithGroupContextKeepsValid(s: Contents, g: SignatureId, context: GroupContext)
    requires s.Valid()
    ensures WithGroupContext(s, g, context).contents.Valid()
  {
    var r := WithGroupContext(s, g, context).contents;
    forall h, id | h in r.groups && id in r.groups[h].entryIds
      ensures id in r.entries && r.entries[id].groupId == h
    {
      assert id in s.GroupAt(h).entryIds;
    }
  }

  lemma {:induction false} InsertedAllKeepsValid(
      s: Contents, ids: seq<SignatureId>, from: map<SignatureId, SignatureEntry>)
    requires s.Valid() && forall id :: id in ids ==> id in from
    ensures InsertedAll(s, ids, from).contents.Valid()
    decreases |ids|
  {
    if ids != [] {
      InsertedKeepsValid(s, from[ids[0]]);
      InsertedAllKeepsValid(Inserted(s, from[ids[0]]).contents, ids[1..], from);
    }
  }

  lemma {:induction false} WithContextsKeepsValid(s: Contents, ids: seq<SignatureId>, from: map<SignatureId, Group>)
    requires s.Valid() && forall id :: id in ids ==> id in from
    ensures WithContexts(s, ids, from).contents.Valid()
    decreases |ids|
  {
    if ids != [] {
      if from[ids[0]].context.None? {
        WithContextsKeepsValid(s, ids[1..], from);
      } else {
        WithGroupContextKeepsValid(s, ids[0], from[ids[0]].context.value);
        WithContextsKeepsValid(WithGroupContext(s, ids[0], from[ids[0]].context.value).contents, ids[1..], from);
      }
    }
  }

  /** Every merge leaves the entries partitioned by group, whether or not it succeeds. */
  lemma MergedKeepsValid(s: Contents, t: Contents)
    requires s.Valid()
    ensures Merged(s, t).contents.Valid()
  {
    var ids := Ascending(IdLeq, t.entries.Keys);
    InsertedAllKeepsValid(s, ids, t.entries);
    WithContextsKeepsValid(InsertedAll(s, ids, t.entries).contents, Ascending(IdLeq, t.groups.Keys), t.groups);
  }

  /** What callers do to an inventory. */
  datatype Mutation =
    | Insertion(entry: SignatureEntry)
    | Contextualisation(g: SignatureId, context: GroupContext)
    | Absorption(incoming: Contents)

  ghost function Mutated(s: Contents, mutation: Mutation): Contents {
    match mutation
    case Insertion(entry) => Inserted(s, entry).contents
    case Contextualisation(g, context) => WithGroupContext(s, g, context).contents
    case Absorption(incoming) => Merged(s, incoming).contents
  }

  ghost function Built(history: seq<Mutation>): Contents {
    if history == [] then EMPTY else Mutated(Built(history[..|history| - 1]), history[|history| - 1])
  }

  /** Whatever was done to an inventory since it was created, and whether or not it succeeded, its
      entries are partitioned by group: every entry's group exists and lists it, and every listed
      entry exists under that group. Missing-group and missing-entry errors are unreachable. */
  lemma {:induction false} EveryHistoryIsValid(history: seq<Mutation>)
    ensures Built(history).Valid()
  {
    hide Inserted, WithGroupContext, Merged;
    if history == [] {
    } else {
      hide Contents.Valid;
      var before := Built(history[..|history| - 1]);
      EveryHistoryIsValid(history[..|history| - 1]);
      match history[|history| - 1] {
        case Insertion(entry) => InsertedKeepsValid(before, entry);
        case Contextualisation(g, context) => WithGroupContextKeepsValid(before, g, context);
        case Absorption(incoming) => MergedKeepsValid(before, incoming);
      }
    }
  }

  // ----------------------------------------------------------- scopes are kept

  lemma {:induction false} InsertedAllKeepsScopes(
      s: Contents, ids: seq<SignatureId>, from: map<SignatureId, SignatureEntry>)
    requires s.ScopesAgree()
    requires forall id :: id in ids ==> id in from && from[id].id == id && SameScope(id, from[id].groupId)
    ensures InsertedAll(s, ids, from).contents.ScopesAgree()
    decreases |ids|
  {
    if ids != [] {
      InsertedAllKeepsScopes(Inserted(s, from[ids[0]]).contents, ids[1..], from);
    }
  }

  lemma MergedKeepsScopes(s: Contents, t: Contents)
    requires s.ScopesAgree() && t.ScopesAgree() && forall id :: id in t.entries ==> t.entries[id].id == id
    ensures Merged(s, t).contents.ScopesAgree()
  {
    hide ScopeOf, SameScope;
    var ids := Ascending(IdLeq, t.entries.Keys);
    InsertedAllKeepsScopes(s, ids, t.entries);
    WithContextsEntries(InsertedAll(s, ids, t.entries).contents, Ascending(IdLeq, t.groups.Keys), t.groups);
  }

  /** What the parsers do: an entry is inserted under a group of its own document. */
  ghost predicate ScopedMutation(mutation: Mutation) {
    match mutation
    case Insertion(entry) => SameScope(entry.id, entry.groupId)
    case Contextualisation(_, _) => true
    case Absorption(incoming) => incoming.Valid() && incoming.ScopesAgree()
  }

  /** An inventory built from scoped entries keeps every entry in its group's document scope. */
  lemma {:induction false} ScopedHistoryAgrees(history: seq<Mutation>)
    requires forall k :: 0 <= k < |history| ==> ScopedMutation(history[k])
    ensures Built(history).ScopesAgree()
  {
    hide ScopeOf, SameScope, Merged;
    if history != [] {
      var before, last := Built(history[..|history| - 1]), history[|history| - 1];
      ScopedHistoryAgrees(history[..|history| - 1]);
      assert ScopedMutation(last);
      if last.Absorption? { MergedKeepsScopes(before, last.incoming); }
    }
  }

  // ---------------------------------------------------------- what a step does

  lemma InsertedContexts(s: Contents, e: SignatureEntry)
    ensures Contexts(Inserted(s, e).contents) == Contexts(s)
  {
  }

  lemma {:induction false} InsertedAllContexts(
      s: Contents, ids: seq<SignatureId>, from: map<SignatureId, SignatureEntry>)
    requires forall id :: id in ids ==> id in from
    ensures Contexts(InsertedAll(s, ids, from).contents) == Contexts(s)
    decreases |ids|
  {
    if ids != [] {
      InsertedContexts(s, from[ids[0]]);
      InsertedAllContexts(Inserted(s, from[ids[0]]).contents, ids[1..], from);
    }
  }

  /** Inserting a batch succeeds exactly when every shared id carries the same entry. */
  lemma {:induction false} InsertedAllSucceeds(
      s: Contents, ids: seq<SignatureId>, from: map<SignatureId, SignatureEntry>)
    requires forall id :: id in ids ==> id in from && from[id].id == id
    ensures InsertedAll(s, ids, from).error.None?
       <==> forall id :: id in ids && id in s.entries ==> s.entries[id] == from[id]
    decreases |ids|
  {
    if ids != [] {
      var step := Inserted(s, from[ids[0]]);
      if step.error.None? {
        InsertedAllSucceeds(step.contents, ids[1..], from);
      }
    }
  }

  lemma {:induction false} InsertedAllAt(
      s: Contents, ids: seq<SignatureId>, from: map<SignatureId, SignatureEntry>, id: SignatureId)
    requires forall k :: k in ids ==> k in from && from[k].id == k
    requires InsertedAll(s, ids, from).error.None?
    ensures var r := InsertedAll(s, ids, from).contents.entries;
            && (id in r <==> id in s.entries || id in ids)
            && (id in s.entries ==> r[id] == s.entries[id])
            && (id in ids ==> r[id] == from[id])
    decreases |ids|
  {
    if ids != [] {
      InsertedAllAt(Inserted(s, from[ids[0]]).contents, ids[1..], from, id);
    }
  }

  lemma {:induction false} WithContextsEntries(s: Contents, ids: seq<SignatureId>, from: map<SignatureId, Group>)
    requires forall id :: id in ids ==> id in from
    ensures WithContexts(s, ids, from).contents.entries == s.entries
    decreases |ids|
  {
    if ids != [] {
      if from[ids[0]].context.None? {
        WithContextsEntries(s, ids[1..], from);
      } else {
        WithContextsEntries(WithGroupContext(s, ids[0], from[ids[0]].context.value).contents, ids[1..], from);
      }
    }
  }

  /** Setting a batch of contexts succeeds exactly when every shared group carries the same one. */
  lemma {:induction false} WithContextsSucceeds(s: Contents, ids: seq<SignatureId>, from: map<SignatureId, Group>)
    requires forall id :: id in ids ==> id in from
    ensures WithContexts(s, ids, from).error.None?
       <==> forall g :: g in ids && from[g].context.Some? && s.ContextAt(g).Some? ==> s.ContextAt(g) == from[g].context
    decreases |ids|
  {
    if ids != [] {
      if from[ids[0]].context.None? {
        WithContextsSucceeds(s, ids[1..], from);
      } else {
        var step := WithGroupContext(s, ids[0], from[ids[0]].context.value);
        if step.error.None? {
          WithContextsSucceeds(step.contents, ids[1..], from);
        }
      }
    }
  }

  lemma {:induction false} WithContextsAt(s: Contents, ids: seq<SignatureId>, from: map<SignatureId, Group>,
      g: SignatureId)
    requires forall id :: id in ids ==> id in from
    requires WithContexts(s, ids, from).error.None?
    ensures WithContexts(s, ids, from).contents.ContextAt(g)
         == if g in ids && from[g].context.Some? then from[g].context else s.ContextAt(g)
    decreases |ids|
  {
    if ids != [] {
      if from[ids[0]].context.None? {
        WithContextsAt(s, ids[1..], from, g);
      } else {
        WithContextsAt(WithGroupContext(s, ids[0], from[ids[0]].context.value).contents, ids[1..], from, g);
      }
    }
  }

  lemma ContextLookup(c: Contents, g: SignatureId)
    ensures g in Contexts(c) <==> c.ContextAt(g).Some?
    ensures g in Contexts(c) ==> c.ContextAt(g) == Some(Contexts(c)[g])
  {
  }

  lemma EntriesMergeSucceeds(s: Contents, t: Contents)
    requires forall id :: id in t.entries ==> t.entries[id].id == id
    ensures InsertedAll(s, Ascending(IdLeq, t.entries.Keys), t.entries).error.None?
       <==> Compatible(s.entries, t.entries)
  {
    InsertedAllSucceeds(s, Ascending(IdLeq, t.entries.Keys), t.entries);
  }

  ghost function AfterEntries(s: Contents, t: Contents): Outcome {
    InsertedAll(s, Ascending(IdLeq, t.entries.Keys), t.entries)
  }

  lemma EntriesMergeAt(s: Contents, t: Contents, id: SignatureId)
    requires (forall k :: k in t.entries ==> t.entries[k].id == k) && AfterEntries(s, t).error.None?
    ensures id in AfterEntries(s, t).contents.entries <==> id in s.entries || id in t.entries
    ensures var r := AfterEntries(s, t).contents.entries;
            id in r ==> r[id] == if id in t.entries then t.entries[id] else s.entries[id]
  {
    var ids := Ascending(IdLeq, t.entries.Keys);
    assert id in ids <==> id in t.entries;
    InsertedAllAt(s, ids, t.entries, id);
  }

  lemma EntriesMerge(s: Contents, t: Contents)
    requires (forall k :: k in t.entries ==> t.entries[k].id == k) && AfterEntries(s, t).error.None?
    ensures AfterEntries(s, t).contents.entries == s.entries + t.entries
  {
    var r := AfterEntries(s, t).contents.entries;
    forall id
      ensures id in r <==> id in s.entries + t.entries
      ensures id in r ==> r[id] == (s.entries + t.entries)[id]
    {
      EntriesMergeAt(s, t, id);
    }
  }

  lemma ContextsMergeAt(s: Contents, t: Contents, g: SignatureId)
    requires WithContexts(s, Ascending(IdLeq, t.groups.Keys), t.groups).error.None?
    ensures WithContexts(s, Ascending(IdLeq, t.groups.Keys), t.groups).contents.ContextAt(g)
         == if t.ContextAt(g).Some? then t.ContextAt(g) else s.ContextAt(g)
  {
    var ids := Ascending(IdLeq, t.groups.Keys);
    assert g in ids <==> g in t.groups;
    WithContextsAt(s, ids, t.groups, g);
  }

  lemma ContextsMergeSucceeds(s: Contents, t: Contents)
    ensures WithContexts(s, Ascending(IdLeq, t.groups.Keys), t.groups).error.None?
       <==> Compatible(Contexts(s), Contexts(t))
  {
    var ids := Ascending(IdLeq, t.groups.Keys);
    WithContextsSucceeds(s, ids, t.groups);
    forall g
      ensures (g in ids && t.groups[g].context.Some? && s.ContextAt(g).Some? ==> s.ContextAt(g) == t.groups[g].context)
         <==> (g in Contexts(s) && g in Contexts(t) ==> Contexts(s)[g] == Contexts(t)[g])
    {
      ContextLookup(s, g);
      ContextLookup(t, g);
      assert g in ids <==> g in t.groups;
    }
  }

  lemma ContextsMerge(s: Contents, t: Contents)
    requires WithContexts(s, Ascending(IdLeq, t.groups.Keys), t.groups).error.None?
    ensures Contexts(WithContexts(s, Ascending(IdLeq, t.groups.Keys), t.groups).contents) == Contexts(s) + Contexts(t)
  {
    var r := WithContexts(s, Ascending(IdLeq, t.groups.Keys), t.groups).contents;
    forall g
      ensures g in Contexts(r) <==> g in Contexts(s) + Contexts(t)
      ensures g in Contexts(r) ==> Contexts(r)[g] == (Contexts(s) + Contexts(t))[g]
    {
      ContextsMergeAt(s, t, g);
      ContextLookup(r, g);
      ContextLookup(s, g);
      ContextLookup(t, g);
    }
  }

  /** Merging two inventories succeeds exactly when they agree, and then yields their union. */
  lemma MergedMeaning(s: Contents, t: Contents)
    requires t.Valid()
    ensures Merged(s, t).error.None? <==> Compatible(s.entries, t.entries) && Compatible(Contexts(s), Contexts(t))
    ensures Merged(s, t).error.None? ==>
              && Merged(s, t).contents.entries == s.entries + t.entries
              && Contexts(Merged(s, t).contents) == Contexts(s) + Contexts(t)
  {
    hide InsertedAll, WithContexts, Contexts;
    EntriesMergeSucceeds(s, t);
    InsertedAllContexts(s, Ascending(IdLeq, t.entries.Keys), t.entries);
    var step := InsertedAll(s, Ascending(IdLeq, t.entries.Keys), t.entries);
    if step.error.None? {
      EntriesMerge(s, t);
      ContextsMergeSucceeds(step.contents, t);
      if Merged(s, t).error.None? {
        WithContextsEntries(step.contents, Ascending(IdLeq, t.groups.Keys), t.groups);
        ContextsMerge(step.contents, t);
      }
    }
  }

  // ------------------------------------------------------- what an error names

  lemma {:induction false} InsertErrorIsWitnessed(
      s: Contents, ids: seq<SignatureId>, from: map<SignatureId, SignatureEntry>)
    requires Distinct(ids) && (forall id :: id in ids ==> id in from && from[id].id == id)
    requires InsertedAll(s, ids, from).error.Some?
    requires forall id :: id in s.entries ==> s.entries[id].id == id
    ensures var e := InsertedAll(s, ids, from).error.value;
            && (e.DuplicateSignatureGroup? || e.DuplicateSignatureMismatch?)
            && e.id in ids && e.id in s.entries
            && (e.DuplicateSignatureGroup? ==>
                  s.entries[e.id].groupId == e.existingGroup != e.incomingGroup == from[e.id].groupId)
            && (e.DuplicateSignatureMismatch? ==>
                  s.entries[e.id].groupId == from[e.id].groupId && s.entries[e.id].digest != from[e.id].digest)
    decreases |ids|
  {
    var step := Inserted(s, from[ids[0]]);
    if step.error.None? {
      forall id | id in ids[1..] ensures id in ids && id != ids[0] {
        var k :| 0 <= k < |ids[1..]| && ids[1..][k] == id;
        assert ids[k + 1] == id;
      }
      InsertErrorIsWitnessed(step.contents, ids[1..], from);
    }
  }

  lemma {:induction false} ContextErrorIsWitnessed(s: Contents, ids: seq<SignatureId>, from: map<SignatureId, Group>)
    requires Distinct(ids) && forall id :: id in ids ==> id in from
    requires WithContexts(s, ids, from).error.Some?
    ensures var e := WithContexts(s, ids, from).error.value;
            && e.DuplicateSignatureMismatch? && e.id in ids
            && s.ContextAt(e.id).Some? && from[e.id].context.Some? && s.ContextAt(e.id) != from[e.id].context
    decreases |ids|
  {
    forall id | id in ids[1..] ensures id in ids && id != ids[0] {
      var k :| 0 <= k < |ids[1..]| && ids[1..][k] == id;
      assert ids[k + 1] == id;
    }
    if from[ids[0]].context.None? {
      ContextErrorIsWitnessed(s, ids[1..], from);
    } else {
      var step := WithGroupContext(s, ids[0], from[ids[0]].context.value);
      if step.error.None? {
        ContextErrorIsWitnessed(step.contents, ids[1..], from);
      }
    }
  }

  /** The error a failed merge reports names a real conflict between the two inputs. */
  lemma MergeErrorIsWitnessed(s: Contents, t: Contents)
    requires s.Valid() && t.Valid() && Merged(s, t).error.Some?
    ensures match Merged(s, t).error.value
            case DuplicateSignatureGroup(id, existing, incoming) =>
              && id in s.entries && id in t.entries
              && s.entries[id].groupId == existing != incoming == t.entries[id].groupId
            case DuplicateSignatureMismatch(id) =>
              || (id in s.entries && id in t.entries && s.entries[id].groupId == t.entries[id].groupId
                  && s.entries[id].digest != t.entries[id].digest)
              || (s.ContextAt(id).Some? && t.ContextAt(id).Some? && s.ContextAt(id) != t.ContextAt(id))
            case _ => false
  {
    var ids, groupIds := Ascending(IdLeq, t.entries.Keys), Ascending(IdLeq, t.groups.Keys);
    var step := InsertedAll(s, ids, t.entries);
    if step.error.Some? {
      AscendingIsDistinct(IdLeq, t.entries.Keys);
      InsertErrorIsWitnessed(s, ids, t.entries);
    } else {
      InsertedAllContexts(s, ids, t.entries);
      AscendingIsDistinct(IdLeq, t.groups.Keys);
      ContextErrorIsWitnessed(step.contents, groupIds, t.groups);
      var id := Merged(s, t).error.value.id;
      ContextLookup(step.contents, id);
      ContextLookup(s, id);
    }
  }

  // ------------------------------------------------------ where a merge stops

  lemma {:induction false} InsertedAllStops(s: Contents, ids: seq<SignatureId>,
      from: map<SignatureId, SignatureEntry>) returns (k: nat)
    requires Distinct(ids) && (forall id :: id in ids ==> id in from && from[id].id == id)
    requires InsertedAll(s, ids, from).error.Some?
    ensures k < |ids| && ids[k] in ids && ids[k] in s.entries && s.entries[ids[k]] != from[ids[k]]
    ensures InsertedAll(s, ids, from).error == Some(
              if s.entries[ids[k]].groupId != from[ids[k]].groupId
              then DuplicateSignatureGroup(ids[k], s.entries[ids[k]].groupId, from[ids[k]].groupId)
              else DuplicateSignatureMismatch(ids[k]))
    ensures InsertedAll(s, ids[..k], from) == Outcome(InsertedAll(s, ids, from).contents, None)
    decreases |ids|
  {
    var step := Inserted(s, from[ids[0]]);
    if step.error.Some? {
      k := 0;
      assert ids[0] in ids;
    } else {
      var rest := ids[1..];
      var j := InsertedAllStops(step.contents, rest, from);
      k := j + 1;
      assert ids[..k][1..] == rest[..j] && ids[..k][0] == ids[0] && ids[k] != ids[0];
      assert ids[k] in ids;
    }
  }

  lemma {:induction false} WithContextsStops(s: Contents, ids: seq<SignatureId>, from: map<SignatureId, Group>)
    returns (k: nat)
    requires Distinct(ids) && forall id :: id in ids ==> id in from
    requires WithContexts(s, ids, from).error.Some?
    ensures k < |ids| && ids[k] in ids && from[ids[k]].context.Some?
    ensures s.ContextAt(ids[k]).Some? && s.ContextAt(ids[k]) != from[ids[k]].context
    ensures WithContexts(s, ids, from).error == Some(DuplicateSignatureMismatch(ids[k]))
    ensures WithContexts(s, ids[..k], from) == Outcome(WithContexts(s, ids, from).contents, None)
    decreases |ids|
  {
    var rest := ids[1..];
    if from[ids[0]].context.None? {
      var j := WithContextsStops(s, rest, from);
      k := j + 1;
      assert ids[..k][1..] == rest[..j] && ids[..k][0] == ids[0] && ids[k] in ids;
    } else {
      var step := WithGroupContext(s, ids[0], from[ids[0]].context.value);
      if step.error.Some? {
        k := 0;
        assert ids[0] in ids;
      } else {
        var j := WithContextsStops(step.contents, rest, from);
        k := j + 1;
        assert ids[..k][1..] == rest[..j] && ids[..k][0] == ids[0] && ids[k] != ids[0] && ids[k] in ids;
      }
    }
  }

  ghost predicate EntriesClash(s: Contents, t: Contents, id: SignatureId) {
    id in s.entries && id in t.entries && s.entries[id] != t.entries[id]
  }

  ghost predicate ContextsClash(s: Contents, t: Contents, g: SignatureId) {
    g in Contexts(s) && g in Contexts(t) && Contexts(s)[g] != Contexts(t)[g]
  }

  /** What a merge refused at entry `id` has done to entry `k`. */
  ghost predicate EntryUpTo(s: Contents, t: Contents, id: SignatureId, r: Contents, k: SignatureId) {
    && (k in r.entries <==> k in s.entries || (k in t.entries && IdBefore(k, id)))
    && (k in r.entries ==> r.entries[k] == if k in s.entries then s.entries[k] else t.entries[k])
    && (EntriesClash(s, t, k) ==> k == id || IdBefore(id, k))
  }

  /** Refused at entry `id`, the least that clashes: the entries before it are in, nothing else is. */
  ghost predicate StoppedAtEntry(s: Contents, t: Contents, id: SignatureId, r: Outcome) {
    && EntriesClash(s, t, id)
    && r.error == Some(if s.entries[id].groupId != t.entries[id].groupId
                       then DuplicateSignatureGroup(id, s.entries[id].groupId, t.entries[id].groupId)
                       else DuplicateSignatureMismatch(id))
    && (forall k :: EntryUpTo(s, t, id, r.contents, k)) && Contexts(r.contents) == Contexts(s)
  }

  /** What a merge refused at group `g` has done to the context of `h`. */
  ghost predicate ContextUpTo(s: Contents, t: Contents, g: SignatureId, r: Contents, h: SignatureId) {
    && (h in Contexts(r) <==> h in Contexts(s) || (h in Contexts(t) && IdBefore(h, g)))
    && (h in Contexts(r) ==> Contexts(r)[h] == if h in Contexts(s) then Contexts(s)[h] else Contexts(t)[h])
    && (ContextsClash(s, t, h) ==> h == g || IdBefore(g, h))
  }

  /** Refused at the context of group `g`, the least that clashes: all entries and the contexts of
      the groups before it are in. */
  ghost predicate StoppedAtContext(s: Contents, t: Contents, g: SignatureId, r: Outcome) {
    && ContextsClash(s, t, g) && r.error == Some(DuplicateSignatureMismatch(g))
    && r.contents.entries == s.entries + t.entries
    && forall h :: ContextUpTo(s, t, g, r.contents, h)
  }

  lemma PrefixIsBefore(ids: seq<SignatureId>, k: nat, id: SignatureId)
    requires Sorted(IdLeq, ids) && Distinct(ids) && k < |ids|
    ensures id in ids[..k] <==> id in ids && IdBefore(id, ids[k])
    ensures id in ids && id !in ids[..k] ==> id == ids[k] || IdBefore(ids[k], id)
  {
    hide IdLeq, IdBefore;
    IdLeqMeans(id, ids[k]);
    IdLeqMeans(ids[k], id);
    IdLeqIsTotal();
    if id in ids {
      var j :| 0 <= j < |ids| && ids[j] == id;
      if j < k { assert ids[..k][j] == id; }
    }
  }

  lemma IdsInOrder(ids: set<SignatureId>)
    ensures Sorted(IdLeq, Ascending(IdLeq, ids)) && Distinct(Ascending(IdLeq, ids))
  {
    IdLeqIsTotal();
    AscendingIsSorted(IdLeq, ids);
    AscendingIsDistinct(IdLeq, ids);
  }

  lemma EntriesStopAt(s: Contents, t: Contents, k: nat, id: SignatureId)
    requires forall x :: x in t.entries ==> t.entries[x].id == x
    requires var ids := Ascending(IdLeq, t.entries.Keys);
             k < |ids| && (forall x :: x in ids[..k] ==> x in t.entries)
             && InsertedAll(s, ids[..k], t.entries) == Outcome(AfterEntries(s, t).contents, None)
    ensures EntryUpTo(s, t, Ascending(IdLeq, t.entries.Keys)[k], AfterEntries(s, t).contents, id)
  {
    hide IdLeq, IdBefore, Sorted, Distinct, InsertedAll, AfterEntries;
    var ids := Ascending(IdLeq, t.entries.Keys);
    IdsInOrder(t.entries.Keys);
    PrefixIsBefore(ids, k, id);
    InsertedAllSucceeds(s, ids[..k], t.entries);
    InsertedAllAt(s, ids[..k], t.entries, id);
    assert id in ids <==> id in t.entries;
  }

  lemma EntriesStop(s: Contents, t: Contents)
    requires (forall x :: x in t.entries ==> t.entries[x].id == x) && AfterEntries(s, t).error.Some?
    ensures exists id :: StoppedAtEntry(s, t, id, AfterEntries(s, t))
  {
    hide IdLeq, Contexts, Sorted, Distinct, InsertedAll, EntryUpTo;
    var ids := Ascending(IdLeq, t.entries.Keys);
    IdsInOrder(t.entries.Keys);
    var k := InsertedAllStops(s, ids, t.entries);
    InsertedAllContexts(s, ids, t.entries);
    forall id ensures EntryUpTo(s, t, ids[k], AfterEntries(s, t).contents, id) {
      EntriesStopAt(s, t, k, id);
    }
    assert StoppedAtEntry(s, t, ids[k], AfterEntries(s, t));
  }

  lemma EntryIds(c: Contents)
    requires c.Valid()
    ensures forall id :: id in c.entries ==> c.entries[id].id == id
  {
  }

  lemma ContextsStopAt(s: Contents, t: Contents, k: nat, h: SignatureId)
    requires var ids := Ascending(IdLeq, t.groups.Keys);
             k < |ids| && (forall x :: x in ids[..k] ==> x in t.groups)
             && WithContexts(s, ids[..k], t.groups) == Outcome(WithContexts(s, ids, t.groups).contents, None)
    ensures var ids := Ascending(IdLeq, t.groups.Keys);
            ContextUpTo(s, t, ids[k], WithContexts(s, ids, t.groups).contents, h)
  {
    hide IdLeq, IdBefore, Sorted, Distinct, WithContexts, Contexts;
    var ids := Ascending(IdLeq, t.groups.Keys);
    var r := WithContexts(s, ids, t.groups).contents;
    IdsInOrder(t.groups.Keys);
    PrefixIsBefore(ids, k, h);
    WithContextsSucceeds(s, ids[..k], t.groups);
    WithContextsAt(s, ids[..k], t.groups, h);
    ContextLookup(r, h);
    ContextLookup(s, h);
    ContextLookup(t, h);
    assert h in ids <==> h in t.groups;
  }

  lemma SameContexts(s: Contents, middle: Contents, t: Contents, g: SignatureId, r: Contents, h: SignatureId)
    requires Contexts(middle) == Contexts(s) && ContextUpTo(middle, t, g, r, h)
    ensures ContextUpTo(s, t, g, r, h)
  {
    hide Contexts, IdBefore;
  }

  lemma SameClash(s: Contents, middle: Contents, t: Contents, g: SignatureId)
    requires Contexts(middle) == Contexts(s)
    ensures ContextsClash(middle, t, g) <==> ContextsClash(s, t, g)
  {
    hide Contexts;
  }

  lemma ContextsStop(s: Contents, middle: Contents, t: Contents)
    requires middle.entries == s.entries + t.entries && Contexts(middle) == Contexts(s)
    requires WithContexts(middle, Ascending(IdLeq, t.groups.Keys), t.groups).error.Some?
    ensures exists g :: StoppedAtContext(s, t, g, WithContexts(middle, Ascending(IdLeq, t.groups.Keys), t.groups))
  {
    hide IdLeq, Contexts, Sorted, Distinct, WithContexts, ContextUpTo;
    var ids := Ascending(IdLeq, t.groups.Keys);
    var r := WithContexts(middle, ids, t.groups);
    IdsInOrder(t.groups.Keys);
    var k := WithContextsStops(middle, ids, t.groups);
    WithContextsEntries(middle, ids, t.groups);
    ContextLookup(middle, ids[k]);
    ContextLookup(t, ids[k]);
    forall h ensures ContextUpTo(s, t, ids[k], r.contents, h) {
      ContextsStopAt(middle, t, k, h);
      SameContexts(s, middle, t, ids[k], r.contents, h);
    }
    SameClash(s, middle, t, ids[k]);
    assert StoppedAtContext(s, t, ids[k], r);
  }

  /** A refused merge stops at its first conflict in id order, entries before contexts: the error is
      that conflict's, and what came before it, and nothing else, has been merged. */
  lemma RefusedMergeStopsFirst(s: Contents, t: Contents)
    requires s.Valid() && t.Valid() && Merged(s, t).error.Some?
    ensures if exists id :: EntriesClash(s, t, id)
            then exists id :: StoppedAtEntry(s, t, id, Merged(s, t))
            else exists g :: StoppedAtContext(s, t, g, Merged(s, t))
  {
    hide Contents.Valid, Contexts, InsertedAll, WithContexts, StoppedAtContext;
    EntryIds(t);
    if AfterEntries(s, t).error.Some? {
      EntriesStop(s, t);
    } else {
      EntriesMergeSucceeds(s, t);
      EntriesMerge(s, t);
      InsertedAllContexts(s, Ascending(IdLeq, t.entries.Keys), t.entries);
      ContextsStop(s, AfterEntries(s, t).contents, t);
    }
  }

  // ------------------------------------------------------------- merging a list

  ghost predicate AllValid(parts: seq<Contents>) {
    forall i :: 0 <= i < |parts| ==> parts[i].Valid()
  }

  ghost function EntryMaps(parts: seq<Contents>): (r: seq<map<SignatureId, SignatureEntry>>)
    ensures |r| == |parts| && forall i :: 0 <= i < |parts| ==> r[i] == parts[i].entries
  {
    seq(|parts|, i requires 0 <= i < |parts| => parts[i].entries)
  }

  ghost function ContextMaps(parts: seq<Contents>): (r: seq<map<SignatureId, GroupContext>>)
    ensures |r| == |parts| && forall i :: 0 <= i < |parts| ==> r[i] == Contexts(parts[i])
  {
    seq(|parts|, i requires 0 <= i < |parts| => Contexts(parts[i]))
  }

  lemma {:induction false} MergedFromKeepsValid(s: Contents, parts: seq<Contents>)
    requires s.Valid()
    ensures MergedFrom(s, parts).contents.Valid()
    decreases |parts|
  {
    if parts != [] {
      MergedKeepsValid(s, parts[0]);
      MergedFromKeepsValid(Merged(s, parts[0]).contents, parts[1..]);
    }
  }

  lemma {:induction false} MergedFromFolds(s: Contents, parts: seq<Contents>)
    requires AllValid(parts)
    ensures MergedFrom(s, parts).error.None?
       <==> FoldSucceeds(s.entries, EntryMaps(parts)) && FoldSucceeds(Contexts(s), ContextMaps(parts))
    ensures MergedFrom(s, parts).error.None? ==>
              && MergedFrom(s, parts).contents.entries == Fold(s.entries, EntryMaps(parts))
              && Contexts(MergedFrom(s, parts).contents) == Fold(Contexts(s), ContextMaps(parts))
    decreases |parts|
  {
    hide Merged, Contexts, Contents.Valid, Compatible;
    if parts != [] {
      var first, rest := parts[0], parts[1..];
      MergedMeaning(s, first);
      assert EntryMaps(parts)[1..] == EntryMaps(rest) && ContextMaps(parts)[1..] == ContextMaps(rest);
      if Merged(s, first).error.None? {
        MergedFromFolds(Merged(s, first).contents, rest);
      }
    }
  }

  /** `merge_all` succeeds exactly when the inputs agree pairwise on shared entries and contexts;
      it then holds exactly their entries and contexts, and always keeps the partition by group. */
  lemma MergeAllIsPartialUnion(parts: seq<Contents>)
    requires AllValid(parts)
    ensures MergedAll(parts).contents.Valid()
    ensures MergedAll(parts).error.None?
       <==> AllCompatible(Members(EntryMaps(parts))) && AllCompatible(Members(ContextMaps(parts)))
    ensures MergedAll(parts).error.None? ==>
              && IsUnion(MergedAll(parts).contents.entries, Members(EntryMaps(parts)))
              && IsUnion(Contexts(MergedAll(parts).contents), Members(ContextMaps(parts)))
  {
    MergedFromKeepsValid(EMPTY, parts);
    MergedFromFolds(EMPTY, parts);
    assert Contexts(EMPTY) == map[];
    FoldMeaning(EMPTY.entries, EntryMaps(parts));
    FoldMeaning(Contexts(EMPTY), ContextMaps(parts));
    EmptyAdds(Members(EntryMaps(parts)));
    EmptyAdds(Members(ContextMaps(parts)));
  }

  lemma SameMembersSameMaps(a: seq<Contents>, b: seq<Contents>)
    requires Members(a) == Members(b)
    ensures Members(EntryMaps(a)) == Members(EntryMaps(b))
    ensures Members(ContextMaps(a)) == Members(ContextMaps(b))
  {
    MapsOfMembers(a);
    MapsOfMembers(b);
  }

  lemma MapsOfMembers(a: seq<Contents>)
    ensures Members(EntryMaps(a)) == set p | p in Members(a) :: p.entries
    ensures Members(ContextMaps(a)) == set p | p in Members(a) :: Contexts(p)
  {
  }

  /** Any reordering of the inputs, even with repetitions, gives the same verdict and inventory. */
  lemma MergeAllIgnoresOrder(a: seq<Contents>, b: seq<Contents>)
    requires AllValid(a) && AllValid(b) && Members(a) == Members(b)
    ensures MergedAll(a).error.None? <==> MergedAll(b).error.None?
    ensures MergedAll(a).error.None? ==> MergedAll(a) == MergedAll(b)
  {
    MergeAllIsPartialUnion(a);
    MergeAllIsPartialUnion(b);
    SameMembersSameMaps(a, b);
    if MergedAll(a).error.None? {
      var x, y := MergedAll(a).contents, MergedAll(b).contents;
      UnionIsUnique(x.entries, y.entries, Members(EntryMaps(a)));
      UnionIsUnique(Contexts(x), Contexts(y), Members(ContextMaps(a)));
      DeterminedByEntriesAndContexts(x, y);
    }
  }

  lemma {:induction false} MergedFromStops(s: Contents, parts: seq<Contents>) returns (k: nat)
    requires MergedFrom(s, parts).error.Some?
    ensures k < |parts| && MergedFrom(s, parts[..k]).error.None?
    ensures MergedFrom(s, parts) == Merged(MergedFrom(s, parts[..k]).contents, parts[k])
    decreases |parts|
  {
    hide Merged;
    var step := Merged(s, parts[0]);
    if step.error.Some? {
      k := 0;
    } else {
      var j := MergedFromStops(step.contents, parts[1..]);
      k := j + 1;
      assert parts[..k][1..] == parts[1..][..j] && parts[..k][0] == parts[0];
    }
  }

  /** A refused `merge_all` is refused by the first input that clashes with the union of those before
      it, and with the error of that merge. */
  lemma MergeAllStopsFirst(parts: seq<Contents>) returns (k: nat)
    requires AllValid(parts) && MergedAll(parts).error.Some?
    ensures k < |parts| && MergedAll(parts[..k]).error.None?
    ensures IsUnion(MergedAll(parts[..k]).contents.entries, Members(EntryMaps(parts[..k])))
    ensures IsUnion(Contexts(MergedAll(parts[..k]).contents), Members(ContextMaps(parts[..k])))
    ensures var before := MergedAll(parts[..k]).contents;
            if exists id :: EntriesClash(before, parts[k], id)
            then exists id :: StoppedAtEntry(before, parts[k], id, MergedAll(parts))
            else exists g :: StoppedAtContext(before, parts[k], g, MergedAll(parts))
  {
    hide Merged, Contexts, StoppedAtEntry, StoppedAtContext, EntriesClash, IsUnion, Contents.Valid;
    k := MergedFromStops(EMPTY, parts);
    assert AllValid(parts[..k]);
    MergeAllIsPartialUnion(parts[..k]);
    RefusedMergeStopsFirst(MergedAll(parts[..k]).contents, parts[k]);
  }
}
