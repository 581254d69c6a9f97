/** A pure relabelling of groups is reported as label changes and as nothing else. */
module Relabelling {
  import opened Wrappers
  import opened Orders
  import opened Digest
  import opened Inventory
  import opened InventoryDigests
  import opened Diff
  import opened DiffIdentity
  import opened DiffLaws

  function Renamed(f: Slice -> Slice): Tagged -> Tagged {
    (t: Tagged) => Tagged(f(t.name), t.group)
  }

  function Moves(f: Slice -> Slice): Tagged -> bool {
    (t: Tagged) => f(t.name) != t.name
  }

  /** Each label of `tags` is kept or sent to a label `tags` does not use. */
  ghost predicate KeepsOrLeaves(f: Slice -> Slice, tags: seq<Tagged>) {
    forall n :: n in Names(tags) ==> f(n) == n || f(n) !in Names(tags)
  }

  /** A contract digest occurs with one group digest only. */
  ghost predicate ContractsDistinguish(tags: seq<Tagged>) {
    forall s, t :: s in tags && t in tags && s.group.contract == t.group.contract ==> s.group == t.group
  }

  ghost predicate Relabelled(f: Slice -> Slice, before: seq<Tagged>, after: seq<Tagged>) {
    && KeepsOrLeaves(f, before)
    && ContractsDistinguish(before)
    && multiset(after) == multiset(MapSeq(Renamed(f), before))
  }

  // ------------------------------------------------- what each label looks like

  lemma AfterMembers(f: Slice -> Slice, before: seq<Tagged>, after: seq<Tagged>, t: Tagged)
    requires Relabelled(f, before, after)
    ensures t in after <==> exists s :: s in before && t == Tagged(f(s.name), s.group)
  {
    var image := MapSeq(Renamed(f), before);
    assert t in after <==> t in multiset(after);
    assert t in image <==> t in multiset(image);
    if t in image {
      var k :| 0 <= k < |image| && image[k] == t;
      assert before[k] in before && t == Tagged(f(before[k].name), before[k].group);
    }
    if s :| s in before && t == Tagged(f(s.name), s.group) {
      var k :| 0 <= k < |before| && before[k] == s;
      assert image[k] == t;
    }
  }

  lemma {:induction false} UnderRenamedKept(f: Slice -> Slice, tags: seq<Tagged>, all: seq<Tagged>, name: Slice)
    requires KeepsOrLeaves(f, all) && (forall t :: t in tags ==> t.name in Names(all))
    requires name in Names(all) && f(name) == name
    ensures Under(MapSeq(Renamed(f), tags), name) == Under(tags, name)
  {
    if tags != [] {
      MapSeqCons(Renamed(f), tags);
      assert tags[0] in tags && forall t :: t in tags[1..] ==> t in tags;
      UnderRenamedKept(f, tags[1..], all, name);
    }
  }

  /** A kept label carries the same groups on both sides. */
  lemma KeptLabel(f: Slice -> Slice, before: seq<Tagged>, after: seq<Tagged>, name: Slice)
    requires Relabelled(f, before, after) && name in Names(before) && f(name) == name
    ensures ListAt(IndexOf(after), name) == ListAt(IndexOf(before), name)
  {
    var image := MapSeq(Renamed(f), before);
    UnderRenamedKept(f, before, before, name);
    UnderPermutation(after, image, name);
    NamesPermutation(after, image);
    GroupLeqIsTotal();
    SortIsCanonical(GroupLeq, Under(after, name), Under(before, name));
    UnderEmpty(before, name);
    UnderEmpty(image, name);
  }

  /** A label given up is gone. */
  lemma LeftLabel(f: Slice -> Slice, before: seq<Tagged>, after: seq<Tagged>, name: Slice)
    requires Relabelled(f, before, after) && name in Names(before) && f(name) != name
    ensures name !in Names(after)
  {
    forall t | t in after ensures t.name != name {
      AfterMembers(f, before, after, t);
      var s :| s in before && t == Tagged(f(s.name), s.group);
      assert s.name in Names(before);
    }
  }

  /** Under any label, either both sides agree or one of them is empty. */
  lemma LabelCases(f: Slice -> Slice, before: seq<Tagged>, after: seq<Tagged>, name: Slice)
    requires Relabelled(f, before, after)
    ensures || ListAt(IndexOf(after), name) == ListAt(IndexOf(before), name)
            || (name in Names(before) && f(name) != name && ListAt(IndexOf(after), name) == [])
            || (name !in Names(before) && ListAt(IndexOf(before), name) == [])
  {
    IndexListsNonempty(before, name);
    IndexListsNonempty(after, name);
    if name in Names(before) {
      if f(name) == name {
        KeptLabel(f, before, after, name);
      } else {
        LeftLabel(f, before, after, name);
      }
    }
  }

  // ------------------------------------------------------------- categories

  lemma {:induction false} RenamedShapes(f: Slice -> Slice, tags: seq<Tagged>, shape: SignatureDigest)
    ensures CountIf(HasShape(shape), MapSeq(Renamed(f), tags)) == CountIf(HasShape(shape), tags)
  {
    if tags != [] {
      MapSeqCons(Renamed(f), tags);
      RenamedShapes(f, tags[1..], shape);
    }
  }

  lemma SameShapeCounts(f: Slice -> Slice, before: seq<Tagged>, after: seq<Tagged>, shape: SignatureDigest)
    requires Relabelled(f, before, after)
    ensures ShapeCount(IndexOf(after), shape) == ShapeCount(IndexOf(before), shape)
  {
    FlatAllIsTags(after);
    FlatAllIsTags(before);
    CountIfPermutation(HasShape(shape), FlatAll(IndexOf(after)), after);
    CountIfPermutation(HasShape(shape), after, MapSeq(Renamed(f), before));
    RenamedShapes(f, before, shape);
    CountIfPermutation(HasShape(shape), before, FlatAll(IndexOf(before)));
  }

  lemma {:induction false} AbsentFromMembers(tags: seq<Tagged>, other: Index, g: GroupDigest)
    ensures g in AbsentFrom(tags, other)
       <==> exists t :: t in tags && t.group == g && !LabelHasShape(other, t.name, g.sourceShape)
  {
    hide LabelHasShape;
    if tags != [] {
      AbsentFromMembers(tags[1..], other, g);
      assert tags == [tags[0]] + tags[1..];
    }
  }

  /** When the group itself is among the candidates, its peer is that very group. */
  lemma ExactPeer(candidates: seq<GroupDigest>, g: GroupDigest)
    requires g in candidates
    requires forall x :: x in candidates && x.contract == g.contract ==> x == g
    ensures PeerFor(candidates, g) == Some(g)
  {
    FirstWithExists(candidates, g.sourceShape, g.contract);
    assert g.contract in ContractsWith(candidates, g.sourceShape);
  }

  lemma OnlyLabels(g: GroupDigest, own: Index, other: Index)
    requires ShapeCount(own, g.sourceShape) == ShapeCount(other, g.sourceShape)
    requires PeerFor(PeerCandidates(other, own), g) == Some(g)
    ensures UnmatchedCategories(g, own, other) == {Labels}
  {
  }

  lemma CandidatesOf(tags: seq<Tagged>, other: Index, g: GroupDigest)
    ensures g in PeerCandidates(IndexOf(tags), other)
       <==> exists t :: t in tags && t.group == g && !LabelHasShape(other, t.name, g.sourceShape)
  {
    hide LabelHasShape;
    FlatAllIsTags(tags);
    var flat := FlatAll(IndexOf(tags));
    forall t ensures t in flat <==> t in tags {
      assert t in flat <==> t in multiset(flat);
      assert t in tags <==> t in multiset(tags);
    }
    AbsentFromMembers(flat, other, g);
  }

  lemma AddedIsLabels(f: Slice -> Slice, before: seq<Tagged>, after: seq<Tagged>, name: Slice, g: GroupDigest)
    requires Relabelled(f, before, after) && name !in Names(before) && Tagged(name, g) in after
    ensures UnmatchedCategories(g, IndexOf(after), IndexOf(before)) == {Labels}
  {
    hide IndexOf;
    AfterMembers(f, before, after, Tagged(name, g));
    var s :| s in before && Tagged(name, g) == Tagged(f(s.name), s.group);
    LeftLabel(f, before, after, s.name);
    IndexListsNonempty(after, s.name);
    CandidatesOf(before, IndexOf(after), g);
    assert !LabelHasShape(IndexOf(after), s.name, g.sourceShape);
    assert s.group == g;
    var candidates := PeerCandidates(IndexOf(before), IndexOf(after));
    forall x | x in candidates && x.contract == g.contract ensures x == g {
      CandidatesOf(before, IndexOf(after), x);
    }
    ExactPeer(candidates, g);
    SameShapeCounts(f, before, after, g.sourceShape);
    OnlyLabels(g, IndexOf(after), IndexOf(before));
  }

  lemma RemovedIsLabels(f: Slice -> Slice, before: seq<Tagged>, after: seq<Tagged>, name: Slice, g: GroupDigest)
    requires Relabelled(f, before, after) && name in Names(before) && f(name) != name && Tagged(name, g) in before
    ensures UnmatchedCategories(g, IndexOf(before), IndexOf(after)) == {Labels}
  {
    hide IndexOf;
    var moved := Tagged(f(name), g);
    AfterMembers(f, before, after, moved);
    assert moved in after;
    IndexListsNonempty(before, f(name));
    assert !LabelHasShape(IndexOf(before), f(name), g.sourceShape);
    CandidatesOf(after, IndexOf(before), g);
    var candidates := PeerCandidates(IndexOf(after), IndexOf(before));
    forall x | x in candidates && x.contract == g.contract ensures x == g {
      CandidatesOf(after, IndexOf(before), x);
      var t :| t in after && t.group == x;
      AfterMembers(f, before, after, t);
      var s :| s in before && t == Tagged(f(s.name), s.group);
      assert Tagged(name, g) in before && s.group.contract == g.contract;
    }
    ExactPeer(candidates, g);
    SameShapeCounts(f, before, after, g.sourceShape);
    OnlyLabels(g, IndexOf(before), IndexOf(after));
  }

  // ---------------------------------------------------------- label by label

  lemma ResidueOfNothing(a: seq<GroupDigest>)
    ensures Residue(a, []) == a && Residue([], a) == []
  {
    MinusNothing(a);
  }

  lemma {:induction false} MinusNothing(a: seq<GroupDigest>)
    ensures Minus(a, multiset{}) == a
  {
    if a != [] {
      MinusNothing(a[1..]);
      assert a == [a[0]] + a[1..];
    }
  }

  lemma ListMembers(tags: seq<Tagged>, name: Slice, g: GroupDigest)
    ensures g in ListAt(IndexOf(tags), name) <==> Tagged(name, g) in tags
  {
    UnderCount(tags, Tagged(name, g));
    UnderEmpty(tags, name);
    var list := Sort(GroupLeq, Under(tags, name));
    assert g in list <==> g in multiset(list);
    assert Tagged(name, g) in tags <==> Tagged(name, g) in multiset(tags);
  }

  ghost predicate OnlyLabelMoves(d: seq<DiffEntry>) {
    forall e :: e in d ==> !e.Changed? && e.categories == {Labels}
  }

  /** Under one label: nothing if it is kept, else one label-only entry for each of its groups. */
  lemma NameDiffRelabelled(f: Slice -> Slice, before: seq<Tagged>, after: seq<Tagged>, name: Slice)
    requires Relabelled(f, before, after)
    ensures var d := NameDiff(name, IndexOf(after), IndexOf(before));
            && OnlyLabelMoves(d)
            && |d| == (if name in Names(before) && f(name) == name then 0
                       else |ListAt(IndexOf(after), name)| + |ListAt(IndexOf(before), name)|)
  {
    hide IndexOf, ListAt, Residue, UnmatchedCategories;
    var c, p := IndexOf(after), IndexOf(before);
    LabelCases(f, before, after, name);
    IndexListsNonempty(before, name);
    if ListAt(c, name) == ListAt(p, name) {
      EqualListsLeaveNothing(name, c, p);
      if name in Names(before) && f(name) != name {
        LeftLabel(f, before, after, name);
        IndexListsNonempty(after, name);
      }
    } else if name in Names(before) {
      var list := ListAt(p, name);
      assert f(name) != name by {
        if f(name) == name { KeptLabel(f, before, after, name); }
      }
      ResidueOfNothing(list);
      assert list[0..] == list;
      forall i | 0 <= i < |list| ensures UnmatchedCategories(list[i], p, c) == {Labels} {
        ListMembers(before, name, list[i]);
        RemovedIsLabels(f, before, after, name, list[i]);
      }
    } else {
      var list := ListAt(c, name);
      ResidueOfNothing(list);
      assert list[0..] == list;
      forall i | 0 <= i < |list| ensures UnmatchedCategories(list[i], c, p) == {Labels} {
        ListMembers(after, name, list[i]);
        AddedIsLabels(f, before, after, name, list[i]);
      }
    }
  }

  // ------------------------------------------------------------ whole diffs

  /** Tags listed under a label that is not one of `before`'s kept labels. */
  ghost function Unkept(f: Slice -> Slice, before: seq<Tagged>): Tagged -> bool {
    (t: Tagged) => !(t.name in Names(before) && f(t.name) == t.name)
  }

  lemma {:induction false} CountTagList(p: Tagged -> bool, name: Slice, groups: seq<GroupDigest>, holds: bool)
    requires forall g :: p(Tagged(name, g)) == holds
    ensures CountIf(p, TagList(name, groups)) == if holds then |groups| else 0
  {
    if groups != [] {
      assert TagList(name, groups)[1..] == TagList(name, groups[1..]);
      CountTagList(p, name, groups[1..], holds);
    }
  }

  lemma {:induction false} DiffOverRelabelled(f: Slice -> Slice, before: seq<Tagged>, after: seq<Tagged>,
      names: seq<Slice>)
    requires Relabelled(f, before, after)
    ensures var d := DiffOver(names, IndexOf(after), IndexOf(before));
            && OnlyLabelMoves(d)
            && |d| == CountIf(Unkept(f, before), Flat(IndexOf(after), names))
                    + CountIf(Unkept(f, before), Flat(IndexOf(before), names))
  {
    hide IndexOf, NameDiff, Relabelled;
    if names != [] {
      var n, c, p, q := names[0], IndexOf(after), IndexOf(before), Unkept(f, before);
      NameDiffRelabelled(f, before, after, n);
      DiffOverRelabelled(f, before, after, names[1..]);
      var holds := !(n in Names(before) && f(n) == n);
      CountTagList(q, n, ListAt(c, n), holds);
      CountTagList(q, n, ListAt(p, n), holds);
      CountIfAppend(q, TagList(n, ListAt(c, n)), Flat(c, names[1..]));
      CountIfAppend(q, TagList(n, ListAt(p, n)), Flat(p, names[1..]));
    }
  }

  lemma {:induction false} CountMoved(f: Slice -> Slice, tags: seq<Tagged>, all: seq<Tagged>)
    requires KeepsOrLeaves(f, all) && forall t :: t in tags ==> t.name in Names(all)
    ensures CountIf(Unkept(f, all), tags) == CountIf(Moves(f), tags)
    ensures CountIf(Unkept(f, all), MapSeq(Renamed(f), tags)) == CountIf(Moves(f), tags)
  {
    if tags != [] {
      MapSeqCons(Renamed(f), tags);
      assert tags[0] in tags && forall t :: t in tags[1..] ==> t in tags;
      CountMoved(f, tags[1..], all);
    }
  }

  /** Exactly two entries for every moved group, none of them `Changed`, all of them `{Labels}`. */
  lemma RelabelledTags(f: Slice -> Slice, before: seq<Tagged>, after: seq<Tagged>)
    requires Relabelled(f, before, after)
    ensures var d := DiffEntries(IndexOf(after), IndexOf(before));
            OnlyLabelMoves(d) && |d| == 2 * CountIf(Moves(f), before)
  {
    hide IndexOf, DiffOver, OnlyLabelMoves;
    var c, p, q := IndexOf(after), IndexOf(before), Unkept(f, before);
    var names := Ascending(SliceLeq, c.Keys + p.Keys);
    DiffOverRelabelled(f, before, after, names);
    AscendingIsDistinct(SliceLeq, c.Keys + p.Keys);
    KeysAreNames(after);
    KeysAreNames(before);
    FlatIsTags(after, names);
    FlatIsTags(before, names);
    CountIfPermutation(q, Flat(c, names), after);
    CountIfPermutation(q, after, MapSeq(Renamed(f), before));
    CountIfPermutation(q, Flat(p, names), before);
    CountMoved(f, before, before);
  }

  lemma KeysAreNames(tags: seq<Tagged>)
    ensures IndexOf(tags).Keys == Names(tags)
  {
  }

  // ------------------------------------------------------------- inventories

  /** `current` is `previous` with every group renamed by `rename`, which moves its semantic
      label by `f` and leaves the content and the context of the group alone. */
  ghost predicate IsRelabelling(current: Contents, previous: Contents, f: Slice -> Slice,
                                rename: map<SignatureId, SignatureId>)
    requires Complete(current) && Complete(previous)
  {
    && rename.Keys == previous.groups.Keys
    && rename.Values == current.groups.Keys
    && Injective(rename)
    && (forall g :: g in rename ==>
          && rename[g].semantic == f(g.semantic)
          && Shape(current.groups[rename[g]], current.entries) == Shape(previous.groups[g], previous.entries)
          && Extraction(current.groups[rename[g]]) == Extraction(previous.groups[g])
          && Metadata(current.groups[rename[g]]) == Metadata(previous.groups[g]))
    && (forall g, h :: g in previous.groups && h in previous.groups ==>
          f(g.semantic) == g.semantic || f(g.semantic) != h.semantic)
  }

  ghost function TagFn(hash: Hash, c: Contents): SignatureId -> Tagged
    requires Complete(c)
  {
    (g: SignatureId) => if g in c.groups then TagAt(hash, c, g) else Tagged(g.semantic, GroupDigestOf(hash, [], None, None))
  }

  lemma TagsAreMapped(hash: Hash, c: Contents, ids: seq<SignatureId>)
    requires Complete(c) && forall g :: g in ids ==> g in c.groups
    ensures Tags(hash, c, ids) == MapSeq(TagFn(hash, c), ids)
  {
  }

  function LookUp(rename: map<SignatureId, SignatureId>): SignatureId -> SignatureId {
    (g: SignatureId) => if g in rename then rename[g] else g
  }

  ghost predicate Injective(rename: map<SignatureId, SignatureId>) {
    forall g, h :: g in rename && h in rename && rename[g] == rename[h] ==> g == h
  }

  lemma RenamedOnce(rename: map<SignatureId, SignatureId>, g: SignatureId)
    requires Injective(rename) && g in rename
    ensures multiset(MapSeq(LookUp(rename), Ascending(IdLeq, rename.Keys)))[rename[g]] == 1
  {
    var ids := Ascending(IdLeq, rename.Keys);
    forall y | y in ids && LookUp(rename)(y) == LookUp(rename)(g) ensures y == g {
      assert y in rename;
    }
    MapSeqCounts(LookUp(rename), ids, g);
  }

  lemma RenamedInValues(rename: map<SignatureId, SignatureId>, h: SignatureId)
    requires h in MapSeq(LookUp(rename), Ascending(IdLeq, rename.Keys))
    ensures h in rename.Values
  {
  }

  /** Renaming an enumeration of the old group ids enumerates the new ones. */
  lemma RenamedIds(rename: map<SignatureId, SignatureId>)
    requires Injective(rename)
    ensures multiset(MapSeq(LookUp(rename), Ascending(IdLeq, rename.Keys))) == multiset(rename.Values)
  {
    hide MapSeq, Injective;
    var image := MapSeq(LookUp(rename), Ascending(IdLeq, rename.Keys));
    forall h ensures multiset(image)[h] == multiset(rename.Values)[h] {
      if h in rename.Values {
        var g :| g in rename && rename[g] == h;
        RenamedOnce(rename, g);
      }
      if h in image {
        RenamedInValues(rename, h);
      }
    }
  }

  lemma RenamedIdsExist(current: Contents, previous: Contents, f: Slice -> Slice, rename: map<SignatureId, SignatureId>)
    requires Complete(current) && Complete(previous) && IsRelabelling(current, previous, f, rename)
    ensures var image := MapSeq(LookUp(rename), Ascending(IdLeq, previous.groups.Keys));
            && multiset(image) == multiset(Ascending(IdLeq, current.groups.Keys))
            && forall g :: g in image ==> g in current.groups
  {
    hide Shape;
    RenamedIds(rename);
    var image := MapSeq(LookUp(rename), Ascending(IdLeq, previous.groups.Keys));
    forall g | g in image ensures g in current.groups {
      assert g in multiset(image);
    }
  }

  lemma RenamedTags(hash: Hash, current: Contents, previous: Contents, f: Slice -> Slice,
                    rename: map<SignatureId, SignatureId>)
    requires Complete(current) && Complete(previous) && IsRelabelling(current, previous, f, rename)
    ensures multiset(TaggedGroups(hash, current)) == multiset(MapSeq(Renamed(f), TaggedGroups(hash, previous)))
  {
    hide IsRelabelling, TagAt, Tags, TagFn;
    var ids := Ascending(IdLeq, previous.groups.Keys);
    var image := MapSeq(LookUp(rename), ids);
    var ids' := Ascending(IdLeq, current.groups.Keys);
    RenamedIdsExist(current, previous, f, rename);
    TagsAreMapped(hash, current, image);
    TagsAreMapped(hash, current, ids');
    MapSeqPermutation(TagFn(hash, current), image, ids');
    ImageTags(hash, current, previous, f, rename);
  }

  lemma ImageTags(hash: Hash, current: Contents, previous: Contents, f: Slice -> Slice,
                  rename: map<SignatureId, SignatureId>)
    requires Complete(current) && Complete(previous) && IsRelabelling(current, previous, f, rename)
    requires forall g :: g in MapSeq(LookUp(rename), Ascending(IdLeq, previous.groups.Keys)) ==> g in current.groups
    ensures Tags(hash, current, MapSeq(LookUp(rename), Ascending(IdLeq, previous.groups.Keys)))
         == MapSeq(Renamed(f), TaggedGroups(hash, previous))
  {
    hide TagAt, IsRelabelling;
    var ids := Ascending(IdLeq, previous.groups.Keys);
    var image := MapSeq(LookUp(rename), ids);
    var left, right := Tags(hash, current, image), MapSeq(Renamed(f), Tags(hash, previous, ids));
    forall i | 0 <= i < |ids| ensures left[i] == right[i] {
      assert ids[i] in ids && image[i] in image;
      SameTag(hash, current, previous, f, rename, ids[i]);
    }
  }

  lemma SameTag(hash: Hash, current: Contents, previous: Contents, f: Slice -> Slice,
                rename: map<SignatureId, SignatureId>, g: SignatureId)
    requires Complete(current) && Complete(previous) && IsRelabelling(current, previous, f, rename) && g in previous.groups
    ensures g in rename && rename[g] in current.groups
    ensures TagAt(hash, current, rename[g]) == Renamed(f)(TagAt(hash, previous, g))
  {
    hide Shape, GroupDigestOf;
    assert rename[g] in rename.Values;
  }

  lemma InventoryKeepsOrLeaves(hash: Hash, current: Contents, previous: Contents, f: Slice -> Slice,
      rename: map<SignatureId, SignatureId>)
    requires Complete(current) && Complete(previous) && IsRelabelling(current, previous, f, rename)
    ensures KeepsOrLeaves(f, TaggedGroups(hash, previous))
  {
    hide TagAt, IsRelabelling;
    var tags, ids := TaggedGroups(hash, previous), Ascending(IdLeq, previous.groups.Keys);
    forall n | n in Names(tags) && f(n) in Names(tags) ensures f(n) == n {
      var g := NamedGroup(hash, previous, n);
      var h := NamedGroup(hash, previous, f(n));
      LabelsKeptOrLeft(current, previous, f, rename, g, h);
    }
  }

  lemma LabelsKeptOrLeft(current: Contents, previous: Contents, f: Slice -> Slice,
                         rename: map<SignatureId, SignatureId>, g: SignatureId, h: SignatureId)
    requires Complete(current) && Complete(previous) && IsRelabelling(current, previous, f, rename)
    requires g in previous.groups && h in previous.groups
    ensures f(g.semantic) == g.semantic || f(g.semantic) != h.semantic
  {
  }

  lemma NamedGroup(hash: Hash, c: Contents, n: Slice) returns (g: SignatureId)
    requires Complete(c) && n in Names(TaggedGroups(hash, c))
    ensures g in c.groups && g.semantic == n
  {
    hide TagAt;
    var tags, ids := TaggedGroups(hash, c), Ascending(IdLeq, c.groups.Keys);
    var t :| t in tags && t.name == n;
    var i :| 0 <= i < |tags| && tags[i] == t;
    assert ids[i] in ids;
    g := ids[i];
    TagName(hash, c, g);
  }

  lemma TagName(hash: Hash, c: Contents, g: SignatureId)
    requires Complete(c) && g in c.groups
    ensures TagAt(hash, c, g).name == g.semantic
  {
  }

  /** Total relabelling: if the current inventory is the previous one with each label kept or
      sent to a label the previous one does not use, the diff has exactly two entries for each
      moved group, none of them `Changed`, and every category set is exactly `{Labels}`, for any
      repetition of shapes and contexts, as long as the hash does not collide on the messages
      hashed for the previous inventory. */
  lemma TotalRelabelling(hash: Hash, current: Contents, previous: Contents, f: Slice -> Slice,
      rename: map<SignatureId, SignatureId>)
    requires Complete(current) && Complete(previous) && IsRelabelling(current, previous, f, rename)
    requires NoCollision(hash, ContractMessages(hash, previous))
    ensures var d := DiffEntries(SemanticView(hash, current), SemanticView(hash, previous));
            OnlyLabelMoves(d) && |d| == 2 * CountIf(Moves(f), TaggedGroups(hash, previous))
  {
    hide TaggedGroups, IndexOf, DiffEntries, IsRelabelling, GroupContractMessage, KeepsOrLeaves;
    var before, after := TaggedGroups(hash, previous), TaggedGroups(hash, current);
    RenamedTags(hash, current, previous, f, rename);
    InventoryKeepsOrLeaves(hash, current, previous, f, rename);
    TaggedGroupsAreDerived(hash, previous);
    forall s, t | s in before && t in before && s.group.contract == t.group.contract ensures s.group == t.group {
      ContractDetermines(hash, ContractMessages(hash, previous), s, t);
    }
    RelabelledTags(f, before, after);
  }

  // ---------------------------------------------------------------- identities

  lemma RenamedKeepsShapes(f: Slice -> Slice, tags: seq<Tagged>)
    ensures MapSeq(ShapeDigest, MapSeq(Renamed(f), tags)) == MapSeq(ShapeDigest, tags)
  {
    var there, back := MapSeq(ShapeDigest, MapSeq(Renamed(f), tags)), MapSeq(ShapeDigest, tags);
    forall i | 0 <= i < |tags| ensures there[i] == back[i] {
      assert MapSeq(Renamed(f), tags)[i] == Renamed(f)(tags[i]);
    }
  }

  /** The label-free identity of an inventory depends on its group shapes only. */
  lemma ShapesDecideSourceShape(hash: Hash, c: Contents, p: Contents)
    requires Complete(c) && Complete(p)
    requires multiset(MapSeq(ShapeDigest, TaggedGroups(hash, c))) == multiset(MapSeq(ShapeDigest, TaggedGroups(hash, p)))
    ensures SourceShapeIdentity(hash, c) == SourceShapeIdentity(hash, p)
  {
    hide TaggedGroups, MapSeq, DigestFields, FrameAll;
    DigestLeqIsTotal();
    SortIsCanonical(DigestLeq, MapSeq(ShapeDigest, TaggedGroups(hash, c)), MapSeq(ShapeDigest, TaggedGroups(hash, p)));
  }

  lemma MovesAreGroups(hash: Hash, c: Contents, f: Slice -> Slice)
    requires Complete(c)
    ensures CountIf(Moves(f), TaggedGroups(hash, c)) == 0 <==> forall g :: g in c.groups ==> f(g.semantic) == g.semantic
  {
    hide TagAt;
    var tags, ids := TaggedGroups(hash, c), Ascending(IdLeq, c.groups.Keys);
    if CountIf(Moves(f), tags) == 0 {
      forall g | g in c.groups ensures f(g.semantic) == g.semantic {
        assert g in ids;
        var i :| 0 <= i < |ids| && ids[i] == g;
        TagName(hash, c, g);
        if f(g.semantic) != g.semantic { CountIfPositive(Moves(f), tags, i); }
      }
    } else {
      var i := CountIfWitness(Moves(f), tags);
      assert ids[i] in ids;
      TagName(hash, c, ids[i]);
    }
  }

  /** A relabelling never changes the label-free identity, and changes the contract digest exactly
      when it moves a label. */
  lemma RelabellingMovesIdentity(hash: Hash, current: Contents, previous: Contents, f: Slice -> Slice,
      rename: map<SignatureId, SignatureId>)
    requires Complete(current) && Complete(previous) && IsRelabelling(current, previous, f, rename)
    requires NoCollision(hash, ContractMessages(hash, current) + ContractMessages(hash, previous))
    ensures SourceShapeIdentity(hash, current) == SourceShapeIdentity(hash, previous)
    ensures ContractDigest(hash, current) == ContractDigest(hash, previous)
       <==> forall g :: g in previous.groups ==> f(g.semantic) == g.semantic
  {
    hide TaggedGroups, IsRelabelling, DiffEntries, ContractDigest, SourceShapeIdentity, ContractMessages, IndexOf;
    var before, after := TaggedGroups(hash, previous), TaggedGroups(hash, current);
    RenamedTags(hash, current, previous, f, rename);
    MapSeqPermutation(ShapeDigest, after, MapSeq(Renamed(f), before));
    RenamedKeepsShapes(f, before);
    ShapesDecideSourceShape(hash, current, previous);
    TotalRelabelling(hash, current, previous, f, rename);
    DiffAgreesWithIdentity(hash, current, previous);
    MovesAreGroups(hash, previous, f);
  }
}
