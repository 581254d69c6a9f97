/** What every entry of a contract diff says about the two inventories, told on their own groups. */
module DiffMeaning {
  import opened Wrappers
  import opened Orders
  import opened Digest
  import opened Inventory
  import opened InventoryDigests
  import opened Diff
  import opened DiffIdentity
  import opened ContractMeaning
  import opened Relabelling

  /** Everything a diff sees of group `g`: its two digests and the two parts of its context. */
  ghost function SightOf(hash: Hash, c: Contents, g: SignatureId): GroupDigest
    requires Complete(c) && g in c.groups
  {
    var it, shape := HoldingOf(c, g), hash(ShapeMessage(Sort(NamedLeq, EntriesOf(c, g))));
    GroupDigest(shape, hash(GroupContractMessage(shape, it.extraction, it.metadata)), it.extraction, it.metadata)
  }

  lemma TagIsSight(hash: Hash, c: Contents, g: SignatureId)
    requires Complete(c) && g in c.groups
    ensures TagAt(hash, c, g) == Tagged(g.semantic, SightOf(hash, c, g))
  {
    hide Shape, EntriesOf, ShapeMessage, GroupContractMessage;
    ShapeIsEntries(c, g);
  }

  ghost function SightsIn(hash: Hash, c: Contents, ids: seq<SignatureId>, name: Slice): seq<GroupDigest>
    requires Complete(c) && forall g :: g in ids ==> g in c.groups
  {
    if ids == [] then []
    else (assert ids[0] in ids; if ids[0].semantic == name then [SightOf(hash, c, ids[0])] else [])
         + SightsIn(hash, c, ids[1..], name)
  }

  /** The groups of one label, as often as they occur. */
  ghost function Sights(hash: Hash, c: Contents, name: Slice): multiset<GroupDigest>
    requires Complete(c)
  {
    multiset(SightsIn(hash, c, Ascending(IdLeq, c.groups.Keys), name))
  }

  lemma {:induction false} UnderIsSights(hash: Hash, c: Contents, ids: seq<SignatureId>, name: Slice)
    requires Complete(c) && forall g :: g in ids ==> g in c.groups
    ensures Under(Tags(hash, c, ids), name) == SightsIn(hash, c, ids, name)
  {
    hide SightOf, TagAt;
    if ids != [] {
      assert ids[0] in ids;
      TagIsSight(hash, c, ids[0]);
      var tags := Tags(hash, c, ids);
      assert tags[0] == TagAt(hash, c, ids[0]) && tags[1..] == Tags(hash, c, ids[1..]);
      UnderIsSights(hash, c, ids[1..], name);
    }
  }

  lemma ListIsSights(hash: Hash, c: Contents, name: Slice)
    requires Complete(c)
    ensures multiset(ListAt(SemanticView(hash, c), name)) == Sights(hash, c, name)
  {
    hide TagAt, SightOf;
    UnderIsSights(hash, c, Ascending(IdLeq, c.groups.Keys), name);
    UnderEmpty(TaggedGroups(hash, c), name);
  }

  lemma GroupTag(hash: Hash, c: Contents, g: SignatureId)
    requires Complete(c) && g in c.groups
    ensures Tagged(g.semantic, SightOf(hash, c, g)) in TaggedGroups(hash, c)
  {
    hide TagAt, SightOf;
    var ids := Ascending(IdLeq, c.groups.Keys);
    assert g in ids;
    var i :| 0 <= i < |ids| && ids[i] == g;
    TagIsSight(hash, c, g);
    assert TaggedGroups(hash, c)[i] == TagAt(hash, c, g);
  }

  lemma TagGroup(hash: Hash, c: Contents, t: Tagged) returns (g: SignatureId)
    requires Complete(c) && t in TaggedGroups(hash, c)
    ensures g in c.groups && t == Tagged(g.semantic, SightOf(hash, c, g))
  {
    hide TagAt, SightOf;
    var ids, tags := Ascending(IdLeq, c.groups.Keys), TaggedGroups(hash, c);
    var i :| 0 <= i < |tags| && tags[i] == t;
    assert ids[i] in ids;
    g := ids[i];
    TagIsSight(hash, c, g);
  }

  // ------------------------------------------------------- counting by content

  ghost function OfShape(hash: Hash, c: Contents, shape: SignatureDigest): set<SignatureId>
    requires Complete(c)
  {
    set g | g in c.groups && SightOf(hash, c, g).sourceShape == shape
  }

  ghost function Among(hash: Hash, c: Contents, ids: seq<SignatureId>, shape: SignatureDigest): set<SignatureId>
    requires Complete(c)
  {
    set g | g in ids && g in c.groups && SightOf(hash, c, g).sourceShape == shape
  }

  lemma AmongCons(hash: Hash, c: Contents, ids: seq<SignatureId>, shape: SignatureDigest)
    requires Complete(c) && ids != [] && ids[0] in c.groups
    ensures Among(hash, c, ids, shape)
         == (if SightOf(hash, c, ids[0]).sourceShape == shape then {ids[0]} else {}) + Among(hash, c, ids[1..], shape)
  {
    hide SightOf;
    assert ids == [ids[0]] + ids[1..];
  }

  lemma {:induction false} CountIds(hash: Hash, c: Contents, ids: seq<SignatureId>, shape: SignatureDigest)
    requires Complete(c) && Distinct(ids) && forall g :: g in ids ==> g in c.groups
    ensures CountIf(HasShape(shape), Tags(hash, c, ids)) == |Among(hash, c, ids, shape)|
  {
    hide SightOf, TagAt, Among;
    if ids != [] {
      var first, rest, tags := ids[0], ids[1..], Tags(hash, c, ids);
      assert first in ids;
      TagIsSight(hash, c, first);
      assert tags[0] == TagAt(hash, c, first) && tags[1..] == Tags(hash, c, rest);
      CountIds(hash, c, rest, shape);
      AmongCons(hash, c, ids, shape);
      AmongOnly(hash, c, rest, shape, first);
    } else {
      NoneAmong(hash, c, shape);
    }
  }

  lemma AmongOnly(hash: Hash, c: Contents, ids: seq<SignatureId>, shape: SignatureDigest, g: SignatureId)
    requires Complete(c)
    ensures g in Among(hash, c, ids, shape) ==> g in ids
  {
  }

  lemma NoneAmong(hash: Hash, c: Contents, shape: SignatureDigest)
    requires Complete(c)
    ensures Among(hash, c, [], shape) == {}
  {
  }

  lemma AllAmong(hash: Hash, c: Contents, shape: SignatureDigest)
    requires Complete(c)
    ensures OfShape(hash, c, shape) == Among(hash, c, Ascending(IdLeq, c.groups.Keys), shape)
  {
    hide SightOf;
  }

  lemma ShapeCountIs(hash: Hash, c: Contents, shape: SignatureDigest)
    requires Complete(c)
    ensures ShapeCount(SemanticView(hash, c), shape) == |OfShape(hash, c, shape)|
  {
    hide SightOf, TagAt, IndexOf, OfShape, Among;
    var ids, tags := Ascending(IdLeq, c.groups.Keys), TaggedGroups(hash, c);
    FlatAllIsTags(tags);
    CountIfPermutation(HasShape(shape), FlatAll(IndexOf(tags)), tags);
    AscendingIsDistinct(IdLeq, c.groups.Keys);
    CountIds(hash, c, ids, shape);
    AllAmong(hash, c, shape);
  }

  lemma LabelHasShapeIs(hash: Hash, c: Contents, name: Slice, shape: SignatureDigest)
    requires Complete(c)
    ensures LabelHasShape(SemanticView(hash, c), name, shape)
       <==> exists g :: g in OfShape(hash, c, shape) && g.semantic == name
  {
    hide SightOf, TaggedGroups, IndexOf;
    var tags := TaggedGroups(hash, c);
    var list := ListAt(IndexOf(tags), name);
    if LabelHasShape(IndexOf(tags), name, shape) {
      var k :| 0 <= k < |list| && list[k].sourceShape == shape;
      ListMembers(tags, name, list[k]);
      var g := TagGroup(hash, c, Tagged(name, list[k]));
    }
    if g :| g in OfShape(hash, c, shape) && g.semantic == name {
      GroupTag(hash, c, g);
      ListMembers(tags, name, SightOf(hash, c, g));
      var k :| 0 <= k < |list| && list[k] == SightOf(hash, c, g);
    }
  }

  // -------------------------------------------------------------------- peers

  /** A group of the other side with the given shape, under a label that carries no such group here. */
  ghost predicate IsPeerCandidate(hash: Hash, own: Contents, other: Contents, shape: SignatureDigest, h: SignatureId)
    requires Complete(own) && Complete(other)
  {
    h in OfShape(hash, other, shape) && forall g :: g in OfShape(hash, own, shape) ==> g.semantic != h.semantic
  }

  /** Of two candidates the first is preferred for a group with this contract digest: the exact
      contract, else the lower contract digest; on a tie the lower label, then the lower group. */
  ghost predicate Preferred(hash: Hash, other: Contents, contract: SignatureDigest, h: SignatureId, k: SignatureId)
    requires Complete(other) && h in other.groups && k in other.groups
  {
    var a, b := SightOf(hash, other, h), SightOf(hash, other, k);
    if a.contract == b.contract then
      BytesBefore(h.semantic, k.semantic) || (h.semantic == k.semantic && GroupLeq(a, b))
    else a.contract == contract || (b.contract != contract && BytesBefore(a.contract, b.contract))
  }

  ghost predicate IsPeer(hash: Hash, own: Contents, other: Contents, g: SignatureId, h: SignatureId)
    requires Complete(own) && Complete(other) && g in own.groups
  {
    var sight := SightOf(hash, own, g);
    && IsPeerCandidate(hash, own, other, sight.sourceShape, h)
    && forall k :: IsPeerCandidate(hash, own, other, sight.sourceShape, k) ==>
         Preferred(hash, other, sight.contract, h, k)
  }

  /** Labels in byte order, and the groups of one label in theirs. */
  ghost predicate TagLeq(a: Tagged, b: Tagged) {
    BytesBefore(a.name, b.name) || (a.name == b.name && GroupLeq(a.group, b.group))
  }

  ghost predicate TagsAscend(tags: seq<Tagged>) {
    forall i, j :: 0 <= i < j < |tags| ==> TagLeq(tags[i], tags[j])
  }

  lemma {:induction false} FlatAscends(index: Index, names: seq<Slice>)
    requires ListsSorted(index) && Sorted(SliceLeq, names) && Distinct(names)
    ensures TagsAscend(Flat(index, names))
  {
    hide GroupLeq, BytesBefore;
    if names != [] {
      var list := ListAt(index, names[0]);
      var first, rest := TagList(names[0], list), Flat(index, names[1..]);
      FlatAscends(index, names[1..]);
      forall i, j | 0 <= i < |first| && 0 <= j < |rest| ensures TagLeq(first[i], rest[j]) {
        FlatMembers(index, names[1..], rest[j]);
        var k :| 0 <= k < |names[1..]| && names[1..][k] == rest[j].name;
        assert SliceLeq(names[0], names[k + 1]) && names[0] != names[k + 1];
        BytesLeqMeans(names[0], names[k + 1]);
      }
      forall i, j | 0 <= i < j < |first| ensures TagLeq(first[i], first[j]) {
        assert GroupLeq(list[i], list[j]);
      }
    }
  }

  ghost predicate Fitting(other: Index, shape: SignatureDigest, contract: SignatureDigest, t: Tagged) {
    t.group.sourceShape == shape && t.group.contract == contract && !LabelHasShape(other, t.name, shape)
  }

  lemma {:induction false} FirstIsEarliest(tags: seq<Tagged>, other: Index, shape: SignatureDigest,
      contract: SignatureDigest) returns (t: Tagged)
    requires TagsAscend(tags) && FirstWith(AbsentFrom(tags, other), shape, contract).Some?
    ensures t in tags && Some(t.group) == FirstWith(AbsentFrom(tags, other), shape, contract)
    ensures Fitting(other, shape, contract, t)
    ensures forall s :: s in tags && Fitting(other, shape, contract, s) ==> s == t || TagLeq(t, s)
  {
    hide LabelHasShape, TagLeq;
    assert tags == [tags[0]] + tags[1..];
    if !LabelHasShape(other, tags[0].name, tags[0].group.sourceShape)
       && tags[0].group.sourceShape == shape && tags[0].group.contract == contract {
      t := tags[0];
    } else {
      assert FirstWith(AbsentFrom(tags, other), shape, contract)
          == FirstWith(AbsentFrom(tags[1..], other), shape, contract) by {
        if !LabelHasShape(other, tags[0].name, tags[0].group.sourceShape) {
          assert AbsentFrom(tags, other)[1..] == AbsentFrom(tags[1..], other);
        } else {
          assert AbsentFrom(tags, other) == AbsentFrom(tags[1..], other);
        }
      }
      t := FirstIsEarliest(tags[1..], other, shape, contract);
    }
  }

  lemma CandidateIs(hash: Hash, own: Contents, other: Contents, h: SignatureId)
    requires Complete(own) && Complete(other) && h in other.groups
    ensures var a := SightOf(hash, other, h);
            IsPeerCandidate(hash, own, other, a.sourceShape, h)
            <==> !LabelHasShape(SemanticView(hash, own), h.semantic, a.sourceShape)
  {
    hide SightOf, SemanticView;
    LabelHasShapeIs(hash, own, h.semantic, SightOf(hash, other, h).sourceShape);
  }

  lemma FlatIs(hash: Hash, c: Contents, t: Tagged)
    requires Complete(c)
    ensures t in FlatAll(SemanticView(hash, c)) <==> t in TaggedGroups(hash, c)
    ensures TagsAscend(FlatAll(SemanticView(hash, c)))
  {
    hide TaggedGroups, IndexOf, TagsAscend;
    var tags := TaggedGroups(hash, c);
    FlatAllIsTags(tags);
    assert t in FlatAll(IndexOf(tags)) <==> t in multiset(FlatAll(IndexOf(tags)));
    assert t in tags <==> t in multiset(tags);
    IndexOfIsSorted(tags);
    SliceLeqIsTotal();
    AscendingIsSorted(SliceLeq, IndexOf(tags).Keys);
    AscendingIsDistinct(SliceLeq, IndexOf(tags).Keys);
    FlatAscends(IndexOf(tags), Ascending(SliceLeq, IndexOf(tags).Keys));
  }

  lemma ContractsAre(hash: Hash, own: Contents, other: Contents, shape: SignatureDigest, contract: SignatureDigest)
    requires Complete(own) && Complete(other)
    ensures contract in ContractsWith(PeerCandidates(SemanticView(hash, other), SemanticView(hash, own)), shape)
       <==> exists h :: h in other.groups && IsPeerCandidate(hash, own, other, shape, h)
              && SightOf(hash, other, h).contract == contract
  {
    hide SightOf, TaggedGroups, IndexOf, IsPeerCandidate, LabelHasShape;
    var tags, mine := TaggedGroups(hash, other), SemanticView(hash, own);
    var candidates := PeerCandidates(IndexOf(tags), mine);
    if contract in ContractsWith(candidates, shape) {
      var x :| x in candidates && x.sourceShape == shape && x.contract == contract;
      CandidatesOf(tags, mine, x);
      var t :| t in tags && t.group == x && !LabelHasShape(mine, t.name, x.sourceShape);
      var h := TagGroup(hash, other, t);
      CandidateIs(hash, own, other, h);
    }
    if h :| h in other.groups && IsPeerCandidate(hash, own, other, shape, h)
            && SightOf(hash, other, h).contract == contract {
      CandidateShape(hash, own, other, shape, h);
      CandidateIs(hash, own, other, h);
      GroupTag(hash, other, h);
      CandidatesOf(tags, mine, SightOf(hash, other, h));
    }
  }

  lemma CandidateShape(hash: Hash, own: Contents, other: Contents, shape: SignatureDigest, h: SignatureId)
    requires Complete(own) && Complete(other) && IsPeerCandidate(hash, own, other, shape, h)
    ensures h in other.groups && SightOf(hash, other, h).sourceShape == shape
  {
  }

  /** The contract digest by which the peer is found. */
  ghost function PeerContract(candidates: seq<GroupDigest>, digest: GroupDigest): SignatureDigest
    requires ContractsWith(candidates, digest.sourceShape) != {}
  {
    var contracts := ContractsWith(candidates, digest.sourceShape);
    if digest.contract in contracts then digest.contract else Ascending(DigestLeq, contracts)[0]
  }

  lemma PeerByContract(candidates: seq<GroupDigest>, digest: GroupDigest)
    ensures ContractsWith(candidates, digest.sourceShape) == {} ==> PeerFor(candidates, digest) == None
    ensures ContractsWith(candidates, digest.sourceShape) != {} ==>
              var contract := PeerContract(candidates, digest);
              PeerFor(candidates, digest) == FirstWith(candidates, digest.sourceShape, contract)
              && FirstWith(candidates, digest.sourceShape, contract).Some?
              && contract in ContractsWith(candidates, digest.sourceShape)
  {
    var contracts := ContractsWith(candidates, digest.sourceShape);
    FirstWithExists(candidates, digest.sourceShape, digest.contract);
    if contracts != {} {
      assert Ascending(DigestLeq, contracts)[0] in contracts;
      FirstWithExists(candidates, digest.sourceShape, PeerContract(candidates, digest));
    }
  }

  lemma PeerContractIsLeast(candidates: seq<GroupDigest>, digest: GroupDigest, contract: SignatureDigest)
    requires contract in ContractsWith(candidates, digest.sourceShape)
    ensures var least := PeerContract(candidates, digest);
            least == contract || least == digest.contract
            || (contract != digest.contract && BytesBefore(least, contract))
  {
    hide ContractsWith;
    var contracts := ContractsWith(candidates, digest.sourceShape);
    DigestLeqIsTotal();
    AscendingIsSorted(DigestLeq, contracts);
    var ordered := Ascending(DigestLeq, contracts);
    assert contract in ordered;
    var k :| 0 <= k < |ordered| && ordered[k] == contract;
    BytesLeqMeans(ordered[0], contract);
  }

  /** The peer of a group, if there is one, told on the groups of the other side. */
  lemma PeerMeans(hash: Hash, own: Contents, other: Contents, g: SignatureId)
    requires Complete(own) && Complete(other) && g in own.groups
    ensures var candidates := PeerCandidates(SemanticView(hash, other), SemanticView(hash, own));
            match PeerFor(candidates, SightOf(hash, own, g))
            case Some(p) =>
              exists h :: IsPeer(hash, own, other, g, h) && h in other.groups && SightOf(hash, other, h) == p
            case None => forall h :: !IsPeerCandidate(hash, own, other, SightOf(hash, own, g).sourceShape, h)
  {
    hide SightOf, TaggedGroups, IndexOf, IsPeerCandidate, LabelHasShape, ContractsWith, PeerFor, PeerContract, TagLeq;
    var sight, mine := SightOf(hash, own, g), SemanticView(hash, own);
    var candidates := PeerCandidates(SemanticView(hash, other), mine);
    PeerByContract(candidates, sight);
    if ContractsWith(candidates, sight.sourceShape) == {} {
      forall h ensures !IsPeerCandidate(hash, own, other, sight.sourceShape, h) {
        if IsPeerCandidate(hash, own, other, sight.sourceShape, h) {
          CandidateShape(hash, own, other, sight.sourceShape, h);
          ContractsAre(hash, own, other, sight.sourceShape, SightOf(hash, other, h).contract);
        }
      }
    } else {
      var contract := PeerContract(candidates, sight);
      var flat := FlatAll(SemanticView(hash, other));
      FlatIs(hash, other, Tagged([], sight));
      var t := FirstIsEarliest(flat, mine, sight.sourceShape, contract);
      FlatIs(hash, other, t);
      var h := TagGroup(hash, other, t);
      CandidateIs(hash, own, other, h);
      forall k | IsPeerCandidate(hash, own, other, sight.sourceShape, k)
        ensures k in other.groups && Preferred(hash, other, sight.contract, h, k)
      {
        PreferredOver(hash, own, other, g, t, h, k);
      }
      assert IsPeer(hash, own, other, g, h);
    }
  }

  lemma PreferredOver(hash: Hash, own: Contents, other: Contents, g: SignatureId, t: Tagged, h: SignatureId,
      k: SignatureId)
    requires Complete(own) && Complete(other) && g in own.groups
    requires var candidates := PeerCandidates(SemanticView(hash, other), SemanticView(hash, own));
             ContractsWith(candidates, SightOf(hash, own, g).sourceShape) != {}
             && t.group.contract == PeerContract(candidates, SightOf(hash, own, g))
             && forall s :: s in FlatAll(SemanticView(hash, other))
                  && Fitting(SemanticView(hash, own), SightOf(hash, own, g).sourceShape, t.group.contract, s)
                  ==> s == t || TagLeq(t, s)
    requires h in other.groups && t == Tagged(h.semantic, SightOf(hash, other, h))
    requires IsPeerCandidate(hash, own, other, SightOf(hash, own, g).sourceShape, k)
    ensures k in other.groups && Preferred(hash, other, SightOf(hash, own, g).contract, h, k)
  {
    hide SightOf, TaggedGroups, IndexOf, IsPeerCandidate, LabelHasShape, ContractsWith, PeerContract;
    var sight := SightOf(hash, own, g);
    var candidates := PeerCandidates(SemanticView(hash, other), SemanticView(hash, own));
    CandidateShape(hash, own, other, sight.sourceShape, k);
    CandidateIs(hash, own, other, k);
    var s := Tagged(k.semantic, SightOf(hash, other, k));
    GroupTag(hash, other, k);
    FlatIs(hash, other, s);
    ContractsAre(hash, own, other, sight.sourceShape, s.group.contract);
    PeerContractIsLeast(candidates, sight, s.group.contract);
    if s == t {
      GroupLeqIsTotal();
    }
  }

  // ------------------------------------------------------------- the categories

  /** Which parts of two groups differ is exactly what the categories say. */
  ghost predicate Differences(a: GroupDigest, b: GroupDigest, categories: set<Category>) {
    && (SourceSemantics in categories <==> a.sourceShape != b.sourceShape)
    && (ExtractionContext in categories <==> a.extraction != b.extraction)
    && (DocumentMetadata in categories <==> a.metadata != b.metadata)
  }

  /** Why group `g` of one side has no partner: its content occurs a different number of times on the
      other side, or under no label that lacks it here; otherwise it moved, and it is compared with
      its peer. */
  ghost predicate Unmatched(hash: Hash, own: Contents, other: Contents, g: SignatureId, categories: set<Category>)
    requires Complete(own) && Complete(other) && g in own.groups
  {
    var shape := SightOf(hash, own, g).sourceShape;
    if |OfShape(hash, own, shape)| != |OfShape(hash, other, shape)|
       || forall h :: !IsPeerCandidate(hash, own, other, shape, h)
    then categories == {SourceSemantics}
    else exists h :: h in other.groups && IsPeer(hash, own, other, g, h) && Labels in categories
           && Differences(SightOf(hash, own, g), SightOf(hash, other, h), categories)
  }

  lemma ChangedCategoriesMean(a: GroupDigest, b: GroupDigest)
    ensures Differences(a, b, ChangedCategories(a, b)) && Labels !in ChangedCategories(a, b)
    ensures Differences(a, b, ChangedCategories(a, b) + {Labels})
  {
  }

  lemma UnmatchedCategoriesMean(hash: Hash, own: Contents, other: Contents, g: SignatureId)
    requires Complete(own) && Complete(other) && g in own.groups
    ensures Unmatched(hash, own, other, g,
                      UnmatchedCategories(SightOf(hash, own, g), SemanticView(hash, own), SemanticView(hash, other)))
  {
    hide SightOf, SemanticView, IsPeerCandidate, PeerFor, PeerCandidates, ShapeCount, OfShape, ChangedCategories;
    hide Differences, IsPeer;
    var sight := SightOf(hash, own, g);
    ShapeCountIs(hash, own, sight.sourceShape);
    ShapeCountIs(hash, other, sight.sourceShape);
    PeerMeans(hash, own, other, g);
    match PeerFor(PeerCandidates(SemanticView(hash, other), SemanticView(hash, own)), sight) {
      case Some(p) =>
        var h :| IsPeer(hash, own, other, g, h) && h in other.groups && SightOf(hash, other, h) == p;
        ChangedCategoriesMean(sight, p);
        PeerIsCandidate(hash, own, other, g, h);
      case None =>
    }
  }

  lemma PeerIsCandidate(hash: Hash, own: Contents, other: Contents, g: SignatureId, h: SignatureId)
    requires Complete(own) && Complete(other) && g in own.groups && IsPeer(hash, own, other, g, h)
    ensures IsPeerCandidate(hash, own, other, SightOf(hash, own, g).sourceShape, h)
  {
  }

  // -------------------------------------------------------------- label by label

  function EntriesNamed(d: seq<DiffEntry>, name: Slice): seq<DiffEntry> {
    if d == [] then []
    else EntriesNamed(d[..|d| - 1], name) + (if d[|d| - 1].name == name then [d[|d| - 1]] else [])
  }

  /** One label's entries: what is left of its groups on either side once equal ones are paired off,
      `u` and `v` in group order, is paired as changes, and the surplus is added or removed. */
  ghost predicate LabelEntries(hash: Hash, current: Contents, previous: Contents, name: Slice, d: seq<DiffEntry>,
      u: seq<GroupDigest>, v: seq<GroupDigest>)
    requires Complete(current) && Complete(previous)
  {
    && Sorted(GroupLeq, u) && Sorted(GroupLeq, v)
    && multiset(u) == Sights(hash, current, name) - Sights(hash, previous, name)
    && multiset(v) == Sights(hash, previous, name) - Sights(hash, current, name)
    && |d| == (if |u| >= |v| then |u| else |v|)
    && forall i :: 0 <= i < |d| ==> LabelEntry(hash, current, previous, name, d[i], i, u, v)
  }

  ghost predicate LabelEntry(hash: Hash, current: Contents, previous: Contents, name: Slice, e: DiffEntry, i: nat,
      u: seq<GroupDigest>, v: seq<GroupDigest>)
    requires Complete(current) && Complete(previous)
  {
    e.name == name &&
    if i < |u| && i < |v| then
      && e.Changed? && e.current == u[i].contract && e.previous == v[i].contract
      && Differences(u[i], v[i], e.categories) && Labels !in e.categories
    else if i < |u| then
      e.Added? && UnmatchedAs(hash, current, previous, name, u[i], e.categories)
    else
      e.Removed? && i < |v| && UnmatchedAs(hash, previous, current, name, v[i], e.categories)
  }

  ghost predicate UnmatchedAs(hash: Hash, own: Contents, other: Contents, name: Slice, sight: GroupDigest,
      categories: set<Category>)
    requires Complete(own) && Complete(other)
  {
    exists g :: g in own.groups && g.semantic == name && SightOf(hash, own, g) == sight
      && Unmatched(hash, own, other, g, categories)
  }

  lemma ResidueMeans(hash: Hash, c: Contents, p: Contents, name: Slice)
    requires Complete(c) && Complete(p)
    ensures var u := Residue(ListAt(SemanticView(hash, c), name), ListAt(SemanticView(hash, p), name));
            && Sorted(GroupLeq, u) && multiset(u) == Sights(hash, c, name) - Sights(hash, p, name)
            && forall x :: x in u ==> Tagged(name, x) in TaggedGroups(hash, c)
  {
    hide TaggedGroups, IndexOf, Sights, Minus, Sorted;
    var s, t := TaggedGroups(hash, c), TaggedGroups(hash, p);
    var a, b := ListAt(IndexOf(s), name), ListAt(IndexOf(t), name);
    IndexOfIsSorted(s);
    ListSorted(IndexOf(s), name);
    MinusMeaning(a, multiset(b));
    MinusSorted(a, multiset(b));
    ListIsSights(hash, c, name);
    ListIsSights(hash, p, name);
    forall x | x in Residue(a, b) ensures Tagged(name, x) in s {
      ListMembers(s, name, x);
    }
  }

  lemma ListSorted(index: Index, name: Slice)
    requires ListsSorted(index)
    ensures Sorted(GroupLeq, ListAt(index, name))
  {
  }

  lemma UnmatchedIs(hash: Hash, own: Contents, other: Contents, name: Slice, sight: GroupDigest)
    requires Complete(own) && Complete(other) && Tagged(name, sight) in TaggedGroups(hash, own)
    ensures UnmatchedAs(hash, own, other, name, sight,
                        UnmatchedCategories(sight, SemanticView(hash, own), SemanticView(hash, other)))
  {
    hide TaggedGroups, SemanticView, SightOf, UnmatchedCategories, Unmatched;
    var g := TagGroup(hash, own, Tagged(name, sight));
    UnmatchedCategoriesMean(hash, own, other, g);
  }

  lemma NameDiffMeans(hash: Hash, current: Contents, previous: Contents, name: Slice)
    requires Complete(current) && Complete(previous)
    ensures var c, p := SemanticView(hash, current), SemanticView(hash, previous);
            var u, v := Residue(ListAt(c, name), ListAt(p, name)), Residue(ListAt(p, name), ListAt(c, name));
            LabelEntries(hash, current, previous, name, NameDiff(name, c, p), u, v)
  {
    hide SemanticView, Residue, UnmatchedCategories, ChangedCategories, UnmatchedAs, Differences, Sights, TaggedGroups;
    hide ListAt, Sorted;
    var c, p := SemanticView(hash, current), SemanticView(hash, previous);
    var u, v := Residue(ListAt(c, name), ListAt(p, name)), Residue(ListAt(p, name), ListAt(c, name));
    var d, shared := NameDiff(name, c, p), Min(|u|, |v|);
    ResidueMeans(hash, current, previous, name);
    ResidueMeans(hash, previous, current, name);
    var changed := ChangedEntries(name, u, v);
    var added, removed := AddedEntries(name, u[shared..], c, p), RemovedEntries(name, v[shared..], p, c);
    assert d == changed + added + removed;
    forall i | 0 <= i < |d| ensures LabelEntry(hash, current, previous, name, d[i], i, u, v) {
      if i < shared {
        ChangedCategoriesMean(u[i], v[i]);
      } else if i < |u| {
        assert d[i] == added[i - shared] && u[i] in u;
        UnmatchedIs(hash, current, previous, name, u[i]);
      } else {
        assert d[i] == removed[i - shared] && v[i] in v;
        UnmatchedIs(hash, previous, current, name, v[i]);
      }
    }
  }

  // -------------------------------------------------------------- the whole diff

  lemma {:induction false} NamedAppend(a: seq<DiffEntry>, b: seq<DiffEntry>, name: Slice)
    ensures EntriesNamed(a + b, name) == EntriesNamed(a, name) + EntriesNamed(b, name)
  {
    if b == [] {
      assert a + b == a;
    } else {
      assert (a + b)[..|a + b| - 1] == a + b[..|b| - 1];
      NamedAppend(a, b[..|b| - 1], name);
    }
  }

  lemma {:induction false} NamedAllOrNone(d: seq<DiffEntry>, name: Slice, n: Slice)
    requires forall i :: 0 <= i < |d| ==> d[i].name == n
    ensures EntriesNamed(d, name) == if n == name then d else []
  {
    if d != [] {
      NamedAllOrNone(d[..|d| - 1], name, n);
      assert d == d[..|d| - 1] + [d[|d| - 1]];
    }
  }

  lemma NameDiffNames(name: Slice, c: Index, p: Index)
    ensures forall i :: 0 <= i < |NameDiff(name, c, p)| ==> NameDiff(name, c, p)[i].name == name
  {
    hide Residue, UnmatchedCategories, ChangedCategories, ListAt;
  }

  lemma {:induction false} DiffOverNamed(names: seq<Slice>, c: Index, p: Index, name: Slice)
    requires Distinct(names)
    ensures EntriesNamed(DiffOver(names, c, p), name) == if name in names then NameDiff(name, c, p) else []
  {
    hide NameDiff;
    if names != [] {
      NamedAppend(NameDiff(names[0], c, p), DiffOver(names[1..], c, p), name);
      NameDiffNames(names[0], c, p);
      NamedAllOrNone(NameDiff(names[0], c, p), name, names[0]);
      DiffOverNamed(names[1..], c, p, name);
      assert names == [names[0]] + names[1..];
    }
  }

  /** Labels in byte order along the diff. */
  ghost predicate NamesAscend(d: seq<DiffEntry>) {
    forall i, j :: 0 <= i < j < |d| ==> d[i].name == d[j].name || BytesBefore(d[i].name, d[j].name)
  }

  lemma {:induction false} DiffOverAscends(names: seq<Slice>, c: Index, p: Index)
    requires Sorted(SliceLeq, names)
    ensures NamesAscend(DiffOver(names, c, p))
    ensures forall i :: 0 <= i < |DiffOver(names, c, p)| ==> DiffOver(names, c, p)[i].name in names
  {
    hide NameDiff, BytesBefore;
    if names != [] {
      NameDiffNames(names[0], c, p);
      DiffOverAscends(names[1..], c, p);
      var rest := DiffOver(names[1..], c, p);
      forall j | 0 <= j < |rest| ensures rest[j].name == names[0] || BytesBefore(names[0], rest[j].name) {
        var k :| 0 <= k < |names[1..]| && names[1..][k] == rest[j].name;
        BytesLeqMeans(names[0], names[k + 1]);
        assert SliceLeq(names[0], names[k + 1]);
      }
    }
  }

  /** The whole diff, label by label: entries go by label in byte order, and those of one label are
      exactly its unmatched groups, paired, added and removed with the categories that say why. */
  lemma DiffMeans(hash: Hash, current: Contents, previous: Contents, name: Slice)
    requires Complete(current) && Complete(previous)
    ensures var d := DiffEntries(SemanticView(hash, current), SemanticView(hash, previous));
            NamesAscend(d)
            && exists u, v :: LabelEntries(hash, current, previous, name, EntriesNamed(d, name), u, v)
  {
    hide SemanticView, NameDiff, LabelEntries, NamesAscend;
    var c, p := SemanticView(hash, current), SemanticView(hash, previous);
    var names := Ascending(SliceLeq, c.Keys + p.Keys);
    SliceLeqIsTotal();
    AscendingIsSorted(SliceLeq, c.Keys + p.Keys);
    AscendingIsDistinct(SliceLeq, c.Keys + p.Keys);
    DiffOverAscends(names, c, p);
    DiffOverNamed(names, c, p, name);
    NameDiffMeans(hash, current, previous, name);
    if name !in names { EqualListsLeaveNothing(name, c, p); }
  }

  lemma {:induction false} NamedHas(d: seq<DiffEntry>, e: DiffEntry) returns (i: nat)
    requires e in d
    ensures i < |EntriesNamed(d, e.name)| && EntriesNamed(d, e.name)[i] == e
  {
    var front := d[..|d| - 1];
    assert d == front + [d[|d| - 1]];
    if e in front {
      i := NamedHas(front, e);
    } else {
      i := |EntriesNamed(front, e.name)|;
    }
  }

  /** Entry by entry. A change shows the contract digests of a current and of a previous group of its
      label, in that order, and its categories are exactly the parts that differ between the two; an
      addition is an unmatched current group, a removal an unmatched previous one. */
  ghost predicate EntryMeans(hash: Hash, current: Contents, previous: Contents, e: DiffEntry)
    requires Complete(current) && Complete(previous)
  {
    match e
    case Changed(name, now, before, k) =>
      exists g, h :: g in current.groups && h in previous.groups && g.semantic == name == h.semantic
        && now == SightOf(hash, current, g).contract && before == SightOf(hash, previous, h).contract
        && Labels !in k && Differences(SightOf(hash, current, g), SightOf(hash, previous, h), k)
    case Added(name, k) =>
      exists g :: g in current.groups && g.semantic == name && Unmatched(hash, current, previous, g, k)
    case Removed(name, k) =>
      exists g :: g in previous.groups && g.semantic == name && Unmatched(hash, previous, current, g, k)
  }

  lemma {:induction false} SightGroup(hash: Hash, c: Contents, ids: seq<SignatureId>, name: Slice,
      sight: GroupDigest) returns (g: SignatureId)
    requires Complete(c) && (forall h :: h in ids ==> h in c.groups) && sight in SightsIn(hash, c, ids, name)
    ensures g in c.groups && g.semantic == name && SightOf(hash, c, g) == sight
  {
    hide SightOf;
    assert ids[0] in ids;
    if ids[0].semantic == name && SightOf(hash, c, ids[0]) == sight {
      g := ids[0];
    } else {
      g := SightGroup(hash, c, ids[1..], name, sight);
    }
  }

  lemma EveryEntryMeans(hash: Hash, current: Contents, previous: Contents, e: DiffEntry)
    requires Complete(current) && Complete(previous)
    requires e in DiffEntries(SemanticView(hash, current), SemanticView(hash, previous))
    ensures EntryMeans(hash, current, previous, e)
  {
    hide SemanticView, DiffEntries, SightOf, Unmatched, Differences, SightsIn;
    var d := DiffEntries(SemanticView(hash, current), SemanticView(hash, previous));
    DiffMeans(hash, current, previous, e.name);
    var u, v :| LabelEntries(hash, current, previous, e.name, EntriesNamed(d, e.name), u, v);
    var i := NamedHas(d, e);
    assert LabelEntry(hash, current, previous, e.name, e, i, u, v);
    if e.Changed? {
      assert u[i] in multiset(u) && v[i] in multiset(v);
      var g := SightGroup(hash, current, Ascending(IdLeq, current.groups.Keys), e.name, u[i]);
      var h := SightGroup(hash, previous, Ascending(IdLeq, previous.groups.Keys), e.name, v[i]);
    }
  }
}
