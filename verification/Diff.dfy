/** The contract diff: residual groups per label, and the classification of each change. */
module Diff {
  import opened Wrappers
  import opened Orders
  import opened Digest
  import opened Inventory
  import opened InventoryDigests

  datatype Category = SourceSemantics | ExtractionContext | Labels | DocumentMetadata

  datatype DiffEntry =
    | Added(name: Slice, categories: set<Category>)
    | Removed(name: Slice, categories: set<Category>)
    | Changed(name: Slice, current: SignatureDigest, previous: SignatureDigest, categories: set<Category>)

  datatype InventoryDiff = InventoryDiff(contractDigest: SignatureDigest, entries: seq<DiffEntry>)

  /** Group digests by semantic label, each list sorted. */
  type Index = map<Slice, seq<GroupDigest>>

  function ListAt(index: Index, name: Slice): seq<GroupDigest> {
    if name in index then index[name] else []
  }

  function Under(tags: seq<Tagged>, name: Slice): seq<GroupDigest> {
    if tags == [] then []
    else (if tags[0].name == name then [tags[0].group] else []) + Under(tags[1..], name)
  }

  ghost function Names(tags: seq<Tagged>): set<Slice> {
    set t | t in tags :: t.name
  }

  ghost function IndexOf(tags: seq<Tagged>): Index {
    map name | name in Names(tags) :: Sort(GroupLeq, Under(tags, name))
  }

  function TagList(name: Slice, groups: seq<GroupDigest>): (r: seq<Tagged>)
    ensures |r| == |groups|
  {
    seq(|groups|, i requires 0 <= i < |groups| => Tagged(name, groups[i]))
  }

  function Flat(index: Index, names: seq<Slice>): seq<Tagged> {
    if names == [] then [] else TagList(names[0], ListAt(index, names[0])) + Flat(index, names[1..])
  }

  /** The whole index in iteration order: labels ascending, each label's groups sorted. */
  ghost function FlatAll(index: Index): seq<Tagged> {
    Flat(index, Ascending(SliceLeq, index.Keys))
  }

  function HasShape(shape: SignatureDigest): Tagged -> bool {
    (t: Tagged) => t.group.sourceShape == shape
  }

  ghost function ShapeCount(index: Index, shape: SignatureDigest): nat {
    CountIf(HasShape(shape), FlatAll(index))
  }

  predicate AnyShape(groups: seq<GroupDigest>, shape: SignatureDigest) {
    exists k :: 0 <= k < |groups| && groups[k].sourceShape == shape
  }

  ghost predicate LabelHasShape(index: Index, name: Slice, shape: SignatureDigest) {
    AnyShape(ListAt(index, name), shape)
  }

  /** Groups of `tags` whose label does not carry their shape in `other`. */
  ghost function AbsentFrom(tags: seq<Tagged>, other: Index): seq<GroupDigest> {
    if tags == [] then []
    else (if LabelHasShape(other, tags[0].name, tags[0].group.sourceShape) then [] else [tags[0].group])
         + AbsentFrom(tags[1..], other)
  }

  ghost function PeerCandidates(own: Index, other: Index): seq<GroupDigest> {
    AbsentFrom(FlatAll(own), other)
  }

  // ------------------------------------------------------------- label peers

  /** The first candidate with the given shape and contract digests. */
  function FirstWith(candidates: seq<GroupDigest>, shape: SignatureDigest,
      contract: SignatureDigest): Option<GroupDigest> {
    if candidates == [] then None
    else if candidates[0].sourceShape == shape && candidates[0].contract == contract then Some(candidates[0])
    else FirstWith(candidates[1..], shape, contract)
  }

  ghost function ContractsWith(candidates: seq<GroupDigest>, shape: SignatureDigest): set<SignatureDigest> {
    set g | g in candidates && g.sourceShape == shape :: g.contract
  }

  /** The peer of a digest: its exact contract if a candidate has it, else the least contract
      digest among the candidates of its shape; the earliest candidate carrying that contract. */
  ghost function PeerFor(candidates: seq<GroupDigest>, digest: GroupDigest): Option<GroupDigest> {
    var exact := FirstWith(candidates, digest.sourceShape, digest.contract);
    var contracts := ContractsWith(candidates, digest.sourceShape);
    if exact.Some? then exact
    else if contracts == {} then None
    else FirstWith(candidates, digest.sourceShape, Ascending(DigestLeq, contracts)[0])
  }

  lemma {:induction false} FirstWithAppend(
      candidates: seq<GroupDigest>, g: GroupDigest, shape: SignatureDigest, contract: SignatureDigest)
    ensures FirstWith(candidates + [g], shape, contract)
         == if FirstWith(candidates, shape, contract).Some? then FirstWith(candidates, shape, contract)
            else if g.sourceShape == shape && g.contract == contract then Some(g) else None
  {
    if candidates == [] {
      assert candidates + [g] == [g];
    } else {
      assert (candidates + [g])[1..] == candidates[1..] + [g];
      FirstWithAppend(candidates[1..], g, shape, contract);
    }
  }

  lemma {:induction false} FirstWithExists(candidates: seq<GroupDigest>, shape: SignatureDigest,
      contract: SignatureDigest)
    ensures FirstWith(candidates, shape, contract).Some? <==> contract in ContractsWith(candidates, shape)
    ensures var r := FirstWith(candidates, shape, contract);
            r.Some? ==> r.value in candidates && r.value.sourceShape == shape && r.value.contract == contract
  {
    if candidates != [] {
      FirstWithExists(candidates[1..], shape, contract);
      assert candidates == [candidates[0]] + candidates[1..];
      assert ContractsWith(candidates, shape)
          == ContractsWith([candidates[0]], shape) + ContractsWith(candidates[1..], shape);
    }
  }

  /** `InventoryLabelPeers`: candidates indexed by shape, then by contract, first come first kept. */
  class LabelPeers {
    var byShape: map<SignatureDigest, map<SignatureDigest, GroupDigest>>
    ghost var inserted: seq<GroupDigest>

    ghost predicate Valid()
      reads this
    {
      forall shape, contract :: Lookup(shape, contract) == FirstWith(inserted, shape, contract)
    }

    function Lookup(shape: SignatureDigest, contract: SignatureDigest): Option<GroupDigest>
      reads this
    {
      if shape in byShape && contract in byShape[shape] then Some(byShape[shape][contract]) else None
    }

    constructor ()
      ensures Valid() && inserted == []
    {
      byShape := map[];
      inserted := [];
    }

    method Insert(digest: GroupDigest)
      requires Valid()
      modifies this
      ensures Valid() && inserted == old(inserted) + [digest]
    {
      var peers: map<SignatureDigest, GroupDigest> :=
        if digest.sourceShape in byShape then byShape[digest.sourceShape] else map[];
      if digest.contract !in peers {
        peers := peers[digest.contract := digest];
      }
      byShape := byShape[digest.sourceShape := peers];
      inserted := inserted + [digest];
      forall shape, contract ensures Lookup(shape, contract) == FirstWith(inserted, shape, contract) {
        FirstWithAppend(old(inserted), digest, shape, contract);
        assert old(Lookup(shape, contract)) == FirstWith(old(inserted), shape, contract);
      }
    }

    method Peer(digest: GroupDigest) returns (peer: Option<GroupDigest>)
      requires Valid()
      ensures peer == PeerFor(inserted, digest)
    {
      ghost var contracts := ContractsWith(inserted, digest.sourceShape);
      forall c ensures c in contracts <==> Lookup(digest.sourceShape, c).Some? {
        FirstWithExists(inserted, digest.sourceShape, c);
      }
      assert Lookup(digest.sourceShape, digest.contract) == FirstWith(inserted, digest.sourceShape, digest.contract);
      if digest.sourceShape !in byShape {
        assert contracts == {};
        return None;
      }
      var peers := byShape[digest.sourceShape];
      assert peers.Keys == contracts;
      if digest.contract in peers {
        return Some(peers[digest.contract]);
      }
      if peers.Keys == {} {
        return None;
      }
      DigestLeqIsTotal();
      var keys := Enumerate(DigestLeq, peers.Keys);
      assert keys[0] in peers.Keys;
      assert Lookup(digest.sourceShape, keys[0]) == FirstWith(inserted, digest.sourceShape, keys[0]);
      peer := Some(peers[keys[0]]);
    }
  }

  // --------------------------------------------------------- change categories

  function ChangedCategories(a: GroupDigest, b: GroupDigest): set<Category> {
    (if a.sourceShape != b.sourceShape then {SourceSemantics} else {})
    + (if a.extraction != b.extraction then {ExtractionContext} else {})
    + (if a.metadata != b.metadata then {DocumentMetadata} else {})
  }

  ghost function UnmatchedCategories(digest: GroupDigest, own: Index, other: Index): set<Category> {
    if ShapeCount(own, digest.sourceShape) != ShapeCount(other, digest.sourceShape) then {SourceSemantics}
    else
      match PeerFor(PeerCandidates(other, own), digest)
      case Some(peer) => ChangedCategories(digest, peer) + {Labels}
      case None => {SourceSemantics}
  }

  // ------------------------------------------------------------ the difference

  /** `a` without one occurrence of each element of `b`, in the order of `a`. */
  ghost function Minus(a: seq<GroupDigest>, b: multiset<GroupDigest>): seq<GroupDigest> {
    if a == [] then []
    else if a[0] in b then Minus(a[1..], b - multiset{a[0]})
    else [a[0]] + Minus(a[1..], b)
  }

  /** The groups of `a` left over once equal groups of `a` and `b` are paired off. */
  ghost function Residue(a: seq<GroupDigest>, b: seq<GroupDigest>): seq<GroupDigest> {
    Minus(a, multiset(b))
  }

  ghost function ChangedEntries(name: Slice, current: seq<GroupDigest>, previous: seq<GroupDigest>): (r: seq<DiffEntry>)
    ensures |r| == Min(|current|, |previous|)
    ensures forall i :: 0 <= i < |r| ==>
      r[i] == Changed(name, current[i].contract, previous[i].contract, ChangedCategories(current[i], previous[i]))
  {
    seq(Min(|current|, |previous|), i requires 0 <= i < Min(|current|, |previous|) =>
      Changed(name, current[i].contract, previous[i].contract, ChangedCategories(current[i], previous[i])))
  }

  ghost function AddedEntries(name: Slice, groups: seq<GroupDigest>, own: Index, other: Index): (r: seq<DiffEntry>)
    ensures |r| == |groups|
    ensures forall i :: 0 <= i < |r| ==> r[i] == Added(name, UnmatchedCategories(groups[i], own, other))
  {
    seq(|groups|, i requires 0 <= i < |groups| => Added(name, UnmatchedCategories(groups[i], own, other)))
  }

  ghost function RemovedEntries(name: Slice, groups: seq<GroupDigest>, own: Index, other: Index): (r: seq<DiffEntry>)
    ensures |r| == |groups|
    ensures forall i :: 0 <= i < |r| ==> r[i] == Removed(name, UnmatchedCategories(groups[i], own, other))
  {
    seq(|groups|, i requires 0 <= i < |groups| => Removed(name, UnmatchedCategories(groups[i], own, other)))
  }

  /** The diff of one label: residuals paired as changes, the surplus added or removed. */
  ghost function NameDiff(name: Slice, current: Index, previous: Index): seq<DiffEntry> {
    var unmatchedCurrent := Residue(ListAt(current, name), ListAt(previous, name));
    var unmatchedPrevious := Residue(ListAt(previous, name), ListAt(current, name));
    var shared := Min(|unmatchedCurrent|, |unmatchedPrevious|);
    ChangedEntries(name, unmatchedCurrent, unmatchedPrevious)
    + AddedEntries(name, unmatchedCurrent[shared..], current, previous)
    + RemovedEntries(name, unmatchedPrevious[shared..], previous, current)
  }

  ghost function DiffOver(names: seq<Slice>, current: Index, previous: Index): seq<DiffEntry> {
    if names == [] then [] else NameDiff(names[0], current, previous) + DiffOver(names[1..], current, previous)
  }

  /** Every label of either side in ascending order. */
  ghost function DiffEntries(current: Index, previous: Index): seq<DiffEntry> {
    DiffOver(Ascending(SliceLeq, current.Keys + previous.Keys), current, previous)
  }

  // ------------------------------------------------------ residuals by merging

  lemma {:induction false} MinusMeaning(a: seq<GroupDigest>, b: multiset<GroupDigest>)
    ensures multiset(Minus(a, b)) == multiset(a) - b
    ensures forall x :: x in Minus(a, b) ==> x in a
  {
    if a != [] {
      assert a == [a[0]] + a[1..];
      if a[0] in b {
        MinusMeaning(a[1..], b - multiset{a[0]});
      } else {
        MinusMeaning(a[1..], b);
      }
    }
  }

  lemma {:induction false} MinusSorted(a: seq<GroupDigest>, b: multiset<GroupDigest>)
    requires Sorted(GroupLeq, a)
    ensures Sorted(GroupLeq, Minus(a, b))
  {
    if a != [] {
      if a[0] in b {
        MinusSorted(a[1..], b - multiset{a[0]});
      } else {
        MinusSorted(a[1..], b);
        MinusMeaning(a[1..], b);
        var rest := Minus(a[1..], b);
        forall k | 0 <= k < |rest| ensures GroupLeq(a[0], rest[k]) {
          assert rest[k] in a[1..];
        }
      }
    }
  }

  lemma ResidueIs(a: seq<GroupDigest>, b: seq<GroupDigest>, u: seq<GroupDigest>)
    requires Sorted(GroupLeq, a) && Sorted(GroupLeq, u)
    requires multiset(u) == multiset(a) - multiset(b)
    ensures u == Residue(a, b)
  {
    GroupLeqIsTotal();
    MinusMeaning(a, multiset(b));
    MinusSorted(a, multiset(b));
    SortedIsCanonical(GroupLeq, u, Residue(a, b));
  }

  ghost predicate Below(u: seq<GroupDigest>, rest: seq<GroupDigest>) {
    forall x, y :: x in u && y in rest ==> GroupLeq(x, y) && x != y
  }

  ghost predicate AtMost(u: seq<GroupDigest>, rest: seq<GroupDigest>) {
    forall x, y :: x in u && y in rest ==> GroupLeq(x, y)
  }

  lemma WalkStep(a: seq<GroupDigest>, i: nat)
    requires i < |a|
    ensures multiset(a[..i + 1]) == multiset(a[..i]) + multiset{a[i]}
    ensures a[i..] == [a[i]] + a[i + 1..]
  {
    assert a[..i + 1] == a[..i] + [a[i]];
  }

  lemma AppendSorted(u: seq<GroupDigest>, x: GroupDigest, rest: seq<GroupDigest>)
    requires Sorted(GroupLeq, u) && AtMost(u, rest) && x in rest
    ensures Sorted(GroupLeq, u + [x])
  {
  }

  lemma SkipAhead(u: seq<GroupDigest>, x: GroupDigest, a: seq<GroupDigest>, i: nat, b: seq<GroupDigest>, j: nat)
    requires i < |a| && j < |b| && x == a[i] && GroupLeq(x, b[j]) && x != b[j]
    requires Sorted(GroupLeq, a) && Sorted(GroupLeq, b)
    requires AtMost(u, a[i..]) && Below(u, b[j..])
    ensures AtMost(u + [x], a[i + 1..]) && Below(u + [x], b[j..])
  {
    GroupLeqIsTotal();
    forall y, z | y in u + [x] && z in a[i + 1..] ensures GroupLeq(y, z) {
      var k :| i + 1 <= k < |a| && a[k] == z;
      assert z in a[i..];
    }
    forall y, z | y in u + [x] && z in b[j..] ensures GroupLeq(y, z) && y != z {
      var k :| j <= k < |b| && b[k] == z;
      assert GroupLeq(b[j], z);
    }
  }

  lemma Narrow(u: seq<GroupDigest>, a: seq<GroupDigest>, i: nat)
    requires i < |a|
    ensures AtMost(u, a[i..]) ==> AtMost(u, a[i + 1..])
    ensures Below(u, a[i..]) ==> Below(u, a[i + 1..])
  {
  }

  lemma DisjointGrows(u: seq<GroupDigest>, v: seq<GroupDigest>, x: GroupDigest, rest: seq<GroupDigest>)
    requires multiset(u) !! multiset(v) && Below(v, rest) && x in rest
    ensures multiset(u + [x]) !! multiset(v)
  {
    assert x !in v;
  }

  lemma SplitDifference(a: multiset<GroupDigest>, b: multiset<GroupDigest>,
                        u: multiset<GroupDigest>, v: multiset<GroupDigest>, m: multiset<GroupDigest>)
    requires a == u + m && b == v + m && u !! v
    ensures u == a - b && v == b - a
  {
  }

  /** Two sorted lists walked in step: what has been seen splits into matched pairs `m` and the
      two residues, which share nothing and stay below everything still to come. */
  ghost predicate Walking(a: seq<GroupDigest>, b: seq<GroupDigest>, i: nat, j: nat,
                          u: seq<GroupDigest>, v: seq<GroupDigest>, m: multiset<GroupDigest>) {
    && i <= |a| && j <= |b|
    && Sorted(GroupLeq, a) && Sorted(GroupLeq, b) && Sorted(GroupLeq, u) && Sorted(GroupLeq, v)
    && multiset(a[..i]) == multiset(u) + m && multiset(b[..j]) == multiset(v) + m
    && multiset(u) !! multiset(v)
    && AtMost(u, a[i..]) && Below(u, b[j..])
    && AtMost(v, b[j..]) && Below(v, a[i..])
  }

  lemma WalkStart(a: seq<GroupDigest>, b: seq<GroupDigest>)
    requires Sorted(GroupLeq, a) && Sorted(GroupLeq, b)
    ensures Walking(a, b, 0, 0, [], [], multiset{})
  {
  }

  lemma WalkSwap(a: seq<GroupDigest>, b: seq<GroupDigest>, i: nat, j: nat,
                 u: seq<GroupDigest>, v: seq<GroupDigest>, m: multiset<GroupDigest>)
    requires Walking(a, b, i, j, u, v, m)
    ensures Walking(b, a, j, i, v, u, m)
  {
  }

  lemma StepEqual(a: seq<GroupDigest>, b: seq<GroupDigest>, i: nat, j: nat,
                  u: seq<GroupDigest>, v: seq<GroupDigest>, m: multiset<GroupDigest>)
    requires Walking(a, b, i, j, u, v, m) && i < |a| && j < |b| && a[i] == b[j]
    ensures Walking(a, b, i + 1, j + 1, u, v, m + multiset{a[i]})
  {
    WalkStep(a, i);
    WalkStep(b, j);
    Narrow(u, a, i);
    Narrow(u, b, j);
    Narrow(v, a, i);
    Narrow(v, b, j);
  }

  lemma StepLess(a: seq<GroupDigest>, b: seq<GroupDigest>, i: nat, j: nat,
                 u: seq<GroupDigest>, v: seq<GroupDigest>, m: multiset<GroupDigest>)
    requires Walking(a, b, i, j, u, v, m) && i < |a| && j < |b| && GroupLeq(a[i], b[j]) && a[i] != b[j]
    ensures Walking(a, b, i + 1, j, u + [a[i]], v, m)
  {
    WalkStep(a, i);
    AppendSorted(u, a[i], a[i..]);
    SkipAhead(u, a[i], a, i, b, j);
    DisjointGrows(u, v, a[i], a[i..]);
    Narrow(v, a, i);
  }

  /** The two-index merge over sorted lists leaves exactly the two multiset differences, sorted. */
  method MergeResiduals(a: seq<GroupDigest>, b: seq<GroupDigest>)
    returns (u: seq<GroupDigest>, v: seq<GroupDigest>)
    requires Sorted(GroupLeq, a) && Sorted(GroupLeq, b)
    ensures u == Residue(a, b) && v == Residue(b, a)
  {
    hide Walking;
    GroupLeqIsTotal();
    u, v := [], [];
    var i, j := 0, 0;
    ghost var m: multiset<GroupDigest> := multiset{};
    WalkStart(a, b);
    while i < |a| && j < |b|
      invariant i <= |a| && j <= |b|
      invariant Walking(a, b, i, j, u, v, m)
      decreases |a| - i + |b| - j
    {
      if a[i] == b[j] {
        StepEqual(a, b, i, j, u, v, m);
        m := m + multiset{a[i]};
        i, j := i + 1, j + 1;
      } else if GroupLeq(a[i], b[j]) {
        StepLess(a, b, i, j, u, v, m);
        u, i := u + [a[i]], i + 1;
      } else {
        WalkSwap(a, b, i, j, u, v, m);
        StepLess(b, a, j, i, v, u, m);
        WalkSwap(b, a, j + 1, i, v + [b[j]], u, m);
        v, j := v + [b[j]], j + 1;
      }
    }
    Drained(a, b, i, j, u, v, m);
    u, v := u + a[i..], v + b[j..];
  }

  /** What either side still holds when the other is exhausted is unmatched. */
  lemma Drained(a: seq<GroupDigest>, b: seq<GroupDigest>, i: nat, j: nat,
                u: seq<GroupDigest>, v: seq<GroupDigest>, m: multiset<GroupDigest>)
    requires Walking(a, b, i, j, u, v, m) && (i == |a| || j == |b|)
    ensures u + a[i..] == Residue(a, b) && v + b[j..] == Residue(b, a)
  {
    DrainDisjoint(u, a[i..], v, b[j..]);
    DrainAccounts(a, i, u, m);
    DrainAccounts(b, j, v, m);
    SplitDifference(multiset(a), multiset(b), multiset(u + a[i..]), multiset(v + b[j..]), m);
    TailSorted(u, a, i);
    TailSorted(v, b, j);
    ResidueIs(a, b, u + a[i..]);
    ResidueIs(b, a, v + b[j..]);
  }

  lemma DrainAccounts(a: seq<GroupDigest>, i: nat, u: seq<GroupDigest>, m: multiset<GroupDigest>)
    requires i <= |a| && multiset(a[..i]) == multiset(u) + m
    ensures multiset(a) == multiset(u + a[i..]) + m
  {
    assert a == a[..i] + a[i..];
  }

  lemma DrainDisjoint(u: seq<GroupDigest>, restA: seq<GroupDigest>, v: seq<GroupDigest>, restB: seq<GroupDigest>)
    requires restA == [] || restB == []
    requires multiset(u) !! multiset(v) && Below(u, restB) && Below(v, restA)
    ensures multiset(u + restA) !! multiset(v + restB)
  {
    forall x ensures x !in multiset(u + restA) || x !in multiset(v + restB) {
      assert x in multiset(u + restA) <==> x in multiset(u) || x in restA;
      assert x in multiset(v + restB) <==> x in multiset(v) || x in restB;
      assert x in multiset(u) <==> x in u;
      assert x in multiset(v) <==> x in v;
    }
  }

  lemma TailSorted(u: seq<GroupDigest>, a: seq<GroupDigest>, i: nat)
    requires i <= |a| && Sorted(GroupLeq, a) && Sorted(GroupLeq, u) && AtMost(u, a[i..])
    ensures Sorted(GroupLeq, u + a[i..])
  {
  }

  // -------------------------------------------------------- building the index

  datatype SemanticIndex = SemanticIndex(
    groups: Index,
    counts: map<SignatureDigest, nat>,
    labels: map<SignatureDigest, set<Slice>>)

  function CountAt(counts: map<SignatureDigest, nat>, shape: SignatureDigest): nat {
    if shape in counts then counts[shape] else 0
  }

  function LabelsAt(labels: map<SignatureDigest, set<Slice>>, shape: SignatureDigest): set<Slice> {
    if shape in labels then labels[shape] else {}
  }

  /** The shape counts and shape labels agree with the groups they index. */
  ghost predicate Faithful(ix: SemanticIndex) {
    && (forall shape :: CountAt(ix.counts, shape) == ShapeCount(ix.groups, shape))
    && (forall shape, name :: name in LabelsAt(ix.labels, shape) <==> LabelHasShape(ix.groups, name, shape))
  }

  ghost function Grouped(tags: seq<Tagged>): Index {
    map name | name in Names(tags) :: Under(tags, name)
  }

  lemma {:induction false} UnderAppend(tags: seq<Tagged>, t: Tagged, name: Slice)
    ensures Under(tags + [t], name) == Under(tags, name) + (if t.name == name then [t.group] else [])
  {
    if tags == [] {
      assert tags + [t] == [t];
    } else {
      assert (tags + [t])[1..] == tags[1..] + [t];
      UnderAppend(tags[1..], t, name);
    }
  }

  lemma {:induction false} UnderEmpty(tags: seq<Tagged>, name: Slice)
    ensures Under(tags, name) == [] <==> name !in Names(tags)
  {
    if tags != [] {
      UnderEmpty(tags[1..], name);
      assert tags == [tags[0]] + tags[1..];
      assert Names(tags) == {tags[0].name} + Names(tags[1..]);
    }
  }

  lemma GroupedAppend(tags: seq<Tagged>, t: Tagged)
    ensures Grouped(tags + [t]) == Grouped(tags)[t.name := ListAt(Grouped(tags), t.name) + [t.group]]
  {
    assert Names(tags + [t]) == Names(tags) + {t.name};
    forall name | name in Names(tags + [t]) ensures Under(tags + [t], name)
      == Grouped(tags)[t.name := ListAt(Grouped(tags), t.name) + [t.group]][name]
    {
      UnderAppend(tags, t, name);
      UnderEmpty(tags, name);
    }
  }

  /** `semantic_groups`: the tagged groups collected by label, each list then sorted. */
  method SemanticGroups(tags: seq<Tagged>) returns (groups: Index)
    ensures groups == IndexOf(tags)
  {
    groups := map[];
    for i := 0 to |tags|
      invariant groups == Grouped(tags[..i])
    {
      assert tags[..i + 1] == tags[..i] + [tags[i]];
      GroupedAppend(tags[..i], tags[i]);
      groups := groups[tags[i].name := ListAt(groups, tags[i].name) + [tags[i].group]];
    }
    assert tags[..|tags|] == tags;
    groups := map name | name in groups :: Sort(GroupLeq, groups[name]);
  }

  lemma {:induction false} FlatAppend(index: Index, a: seq<Slice>, b: seq<Slice>)
    ensures Flat(index, a + b) == Flat(index, a) + Flat(index, b)
  {
    if a == [] {
      assert a + b == b;
    } else {
      assert (a + b)[1..] == a[1..] + b;
      FlatAppend(index, a[1..], b);
    }
  }

  method IterateOver(groups: Index, names: seq<Slice>) returns (flat: seq<Tagged>)
    ensures flat == Flat(groups, names)
  {
    hide ListAt;
    flat := [];
    for i := 0 to |names|
      invariant flat == Flat(groups, names[..i])
    {
      assert names[..i + 1] == names[..i] + [names[i]];
      FlatAppend(groups, names[..i], [names[i]]);
      var list := TagList(names[i], ListAt(groups, names[i]));
      assert Flat(groups, [names[i]]) == list + Flat(groups, []) == list;
      flat := flat + list;
    }
    assert names[..|names|] == names;
  }

  /** The nested iteration over labels and their groups that every index pass performs. */
  method Iterate(groups: Index) returns (flat: seq<Tagged>)
    ensures flat == FlatAll(groups)
  {
    SliceLeqIsTotal();
    var names := Enumerate(SliceLeq, groups.Keys);
    flat := IterateOver(groups, names);
  }

  lemma {:induction false} FlatMembers(index: Index, names: seq<Slice>, t: Tagged)
    ensures t in Flat(index, names) <==> t.name in names && t.group in ListAt(index, t.name)
  {
    if names != [] {
      FlatMembers(index, names[1..], t);
      var first := TagList(names[0], ListAt(index, names[0]));
      if t.name == names[0] && t.group in ListAt(index, names[0]) {
        var k :| 0 <= k < |ListAt(index, names[0])| && ListAt(index, names[0])[k] == t.group;
        assert first[k] == t;
      }
    }
  }

  ghost function LabelsIn(tags: seq<Tagged>, shape: SignatureDigest): set<Slice> {
    set t | t in tags && t.group.sourceShape == shape :: t.name
  }

  lemma LabelsInIndex(index: Index, shape: SignatureDigest, name: Slice)
    ensures name in LabelsIn(FlatAll(index), shape) <==> LabelHasShape(index, name, shape)
  {
    var names := Ascending(SliceLeq, index.Keys);
    if name in LabelsIn(FlatAll(index), shape) {
      var t :| t in FlatAll(index) && t.group.sourceShape == shape && t.name == name;
      FlatMembers(index, names, t);
    }
    if LabelHasShape(index, name, shape) {
      var k :| 0 <= k < |ListAt(index, name)| && ListAt(index, name)[k].sourceShape == shape;
      var t := Tagged(name, ListAt(index, name)[k]);
      FlatMembers(index, names, t);
    }
  }

  ghost predicate CountsOf(counts: map<SignatureDigest, nat>, tags: seq<Tagged>) {
    forall shape :: CountAt(counts, shape) == CountIf(HasShape(shape), tags)
  }

  ghost predicate LabelsOf(labels: map<SignatureDigest, set<Slice>>, tags: seq<Tagged>) {
    forall shape :: LabelsAt(labels, shape) == LabelsIn(tags, shape)
  }

  lemma CountsStep(counts: map<SignatureDigest, nat>, tags: seq<Tagged>, t: Tagged)
    requires CountsOf(counts, tags)
    ensures CountsOf(counts[t.group.sourceShape := CountAt(counts, t.group.sourceShape) + 1], tags + [t])
  {
    var grown := counts[t.group.sourceShape := CountAt(counts, t.group.sourceShape) + 1];
    forall shape ensures CountAt(grown, shape) == CountIf(HasShape(shape), tags + [t]) {
      CountIfAppend(HasShape(shape), tags, [t]);
    }
  }

  lemma LabelsStep(labels: map<SignatureDigest, set<Slice>>, tags: seq<Tagged>, t: Tagged)
    requires LabelsOf(labels, tags)
    ensures LabelsOf(labels[t.group.sourceShape := LabelsAt(labels, t.group.sourceShape) + {t.name}], tags + [t])
  {
    var grown := labels[t.group.sourceShape := LabelsAt(labels, t.group.sourceShape) + {t.name}];
    forall shape ensures LabelsAt(grown, shape) == LabelsIn(tags + [t], shape) {
      assert LabelsIn(tags + [t], shape)
          == LabelsIn(tags, shape) + (if t.group.sourceShape == shape then {t.name} else {});
    }
  }

  /** `InventorySemanticIndex::new`. */
  method IndexGroups(groups: Index) returns (ix: SemanticIndex)
    ensures ix.groups == groups && Faithful(ix)
  {
    hide CountsOf, LabelsOf, ListAt;
    var flat := Iterate(groups);
    var counts: map<SignatureDigest, nat> := map[];
    var labels: map<SignatureDigest, set<Slice>> := map[];
    NothingIndexed();
    for i := 0 to |flat|
      invariant CountsOf(counts, flat[..i]) && LabelsOf(labels, flat[..i])
    {
      var t := flat[i];
      assert flat[..i + 1] == flat[..i] + [t];
      CountsStep(counts, flat[..i], t);
      LabelsStep(labels, flat[..i], t);
      counts := counts[t.group.sourceShape := CountAt(counts, t.group.sourceShape) + 1];
      labels := labels[t.group.sourceShape := LabelsAt(labels, t.group.sourceShape) + {t.name}];
    }
    assert flat[..|flat|] == flat;
    ix := SemanticIndex(groups, counts, labels);
    IndexedFaithfully(ix);
  }

  lemma NothingIndexed()
    ensures CountsOf(map[], []) && LabelsOf(map[], [])
  {
  }

  lemma IndexedFaithfully(ix: SemanticIndex)
    requires CountsOf(ix.counts, FlatAll(ix.groups)) && LabelsOf(ix.labels, FlatAll(ix.groups))
    ensures Faithful(ix)
  {
    forall shape, name ensures name in LabelsAt(ix.labels, shape) <==> LabelHasShape(ix.groups, name, shape) {
      LabelsInIndex(ix.groups, shape, name);
      assert LabelsAt(ix.labels, shape) == LabelsIn(FlatAll(ix.groups), shape);
    }
  }

  lemma {:induction false} AbsentFromAppend(tags: seq<Tagged>, t: Tagged, other: Index)
    ensures AbsentFrom(tags + [t], other) == AbsentFrom(tags, other)
              + (if LabelHasShape(other, t.name, t.group.sourceShape) then [] else [t.group])
  {
    if tags == [] {
      assert tags + [t] == [t];
    } else {
      assert (tags + [t])[1..] == tags[1..] + [t];
      AbsentFromAppend(tags[1..], t, other);
    }
  }

  lemma FaithfulLabel(ix: SemanticIndex, name: Slice, shape: SignatureDigest)
    requires Faithful(ix)
    ensures name in LabelsAt(ix.labels, shape) <==> LabelHasShape(ix.groups, name, shape)
  {
  }

  /** `label_peers_absent_from`. */
  method LabelPeersAbsentFrom(own: Index, other: SemanticIndex) returns (peers: LabelPeers)
    requires Faithful(other)
    ensures fresh(peers) && peers.Valid() && peers.inserted == PeerCandidates(own, other.groups)
  {
    hide LabelHasShape, Faithful, LabelPeers.Valid, ListAt;
    var flat := Iterate(own);
    peers := new LabelPeers();
    for i := 0 to |flat|
      invariant fresh(peers) && peers.Valid()
      invariant peers.inserted == AbsentFrom(flat[..i], other.groups)
    {
      assert flat[..i + 1] == flat[..i] + [flat[i]];
      AbsentFromAppend(flat[..i], flat[i], other.groups);
      FaithfulLabel(other, flat[i].name, flat[i].group.sourceShape);
      if flat[i].name !in LabelsAt(other.labels, flat[i].group.sourceShape) {
        peers.Insert(flat[i].group);
      }
    }
    assert flat[..|flat|] == flat;
  }

  method Classify(digest: GroupDigest, own: SemanticIndex, other: SemanticIndex, peers: LabelPeers)
    returns (categories: set<Category>)
    requires Faithful(own) && Faithful(other) && peers.Valid()
    requires peers.inserted == PeerCandidates(other.groups, own.groups)
    ensures categories == UnmatchedCategories(digest, own.groups, other.groups)
  {
    hide ShapeCount, PeerFor, PeerCandidates, LabelHasShape, LabelPeers.Valid;
    if CountAt(own.counts, digest.sourceShape) != CountAt(other.counts, digest.sourceShape) {
      return {SourceSemantics};
    }
    var peer := peers.Peer(digest);
    match peer {
      case Some(p) => categories := ChangedCategories(digest, p) + {Labels};
      case None => categories := {SourceSemantics};
    }
  }

  // ----------------------------------------------------------------- the diff

  /** `entries` grown by `more`, one push and one count check at a time. */
  ghost predicate Extends(entries: seq<DiffEntry>, more: seq<DiffEntry>, limit: nat,
                          r: Result<seq<DiffEntry>, InventoryError>) {
    if |entries| + |more| <= limit then r == Success(entries + more)
    else r == Failure(DiagnosticCountExceeded(limit, limit + 1))
  }

  method Push(entries: seq<DiffEntry>, entry: DiffEntry, limit: nat) returns (r: Result<seq<DiffEntry>, InventoryError>)
    requires |entries| <= limit
    ensures Extends(entries, [entry], limit, r)
  {
    var grown := entries + [entry];
    if |grown| > limit {
      return Failure(DiagnosticCountExceeded(limit, |grown|));
    }
    r := Success(grown);
  }

  method PushChanged(entries: seq<DiffEntry>, name: Slice, current: seq<GroupDigest>, previous: seq<GroupDigest>,
      limit: nat)
    returns (r: Result<seq<DiffEntry>, InventoryError>)
    requires |entries| <= limit
    ensures Extends(entries, ChangedEntries(name, current, previous), limit, r)
  {
    ghost var more := ChangedEntries(name, current, previous);
    var out := entries;
    assert entries + more[..0] == entries;
    for i := 0 to Min(|current|, |previous|)
      invariant out == entries + more[..i] && |out| <= limit
    {
      r := Push(out, Changed(name, current[i].contract, previous[i].contract,
                             ChangedCategories(current[i], previous[i])), limit);
      if r.Failure? {
        return;
      }
      assert entries + more[..i + 1] == entries + more[..i] + [more[i]];
      out := r.value;
    }
    assert more[..|more|] == more;
    r := Success(out);
  }

  method PushAdded(entries: seq<DiffEntry>, name: Slice, groups: seq<GroupDigest>, own: SemanticIndex,
      other: SemanticIndex,
                   peers: LabelPeers, limit: nat)
    returns (r: Result<seq<DiffEntry>, InventoryError>)
    requires |entries| <= limit && Faithful(own) && Faithful(other) && peers.Valid()
    requires peers.inserted == PeerCandidates(other.groups, own.groups)
    ensures Extends(entries, AddedEntries(name, groups, own.groups, other.groups), limit, r)
  {
    hide Faithful, UnmatchedCategories, PeerCandidates;
    ghost var more := AddedEntries(name, groups, own.groups, other.groups);
    var out := entries;
    assert entries + more[..0] == entries;
    for i := 0 to |groups|
      invariant out == entries + more[..i] && |out| <= limit
    {
      var categories := Classify(groups[i], own, other, peers);
      r := Push(out, Added(name, categories), limit);
      if r.Failure? {
        return;
      }
      assert entries + more[..i + 1] == entries + more[..i] + [more[i]];
      out := r.value;
    }
    assert more[..|more|] == more;
    r := Success(out);
  }

  method PushRemoved(entries: seq<DiffEntry>, name: Slice, groups: seq<GroupDigest>, own: SemanticIndex,
      other: SemanticIndex,
                     peers: LabelPeers, limit: nat)
    returns (r: Result<seq<DiffEntry>, InventoryError>)
    requires |entries| <= limit && Faithful(own) && Faithful(other) && peers.Valid()
    requires peers.inserted == PeerCandidates(other.groups, own.groups)
    ensures Extends(entries, RemovedEntries(name, groups, own.groups, other.groups), limit, r)
  {
    hide Faithful, UnmatchedCategories, PeerCandidates;
    ghost var more := RemovedEntries(name, groups, own.groups, other.groups);
    var out := entries;
    assert entries + more[..0] == entries;
    for i := 0 to |groups|
      invariant out == entries + more[..i] && |out| <= limit
    {
      var categories := Classify(groups[i], own, other, peers);
      r := Push(out, Removed(name, categories), limit);
      if r.Failure? {
        return;
      }
      assert entries + more[..i + 1] == entries + more[..i] + [more[i]];
      out := r.value;
    }
    assert more[..|more|] == more;
    r := Success(out);
  }

  ghost predicate ListsSorted(index: Index) {
    forall name :: name in index ==> Sorted(GroupLeq, index[name])
  }

  method PushName(entries: seq<DiffEntry>, name: Slice, current: SemanticIndex, previous: SemanticIndex,
                  previousPeers: LabelPeers, currentPeers: LabelPeers, limit: nat)
    returns (r: Result<seq<DiffEntry>, InventoryError>)
    requires |entries| <= limit && Faithful(current) && Faithful(previous)
    requires ListsSorted(current.groups) && ListsSorted(previous.groups)
    requires previousPeers.Valid() && previousPeers.inserted == PeerCandidates(previous.groups, current.groups)
    requires currentPeers.Valid() && currentPeers.inserted == PeerCandidates(current.groups, previous.groups)
    ensures Extends(entries, NameDiff(name, current.groups, previous.groups), limit, r)
  {
    hide Faithful, UnmatchedCategories, PeerCandidates, Residue, ChangedEntries, AddedEntries, RemovedEntries;
    var a, b := ListAt(current.groups, name), ListAt(previous.groups, name);
    if a == b {
      EqualListsLeaveNothing(name, current.groups, previous.groups);
      assert entries + [] == entries;
      return Success(entries);
    }
    var u, v := MergeResiduals(a, b);
    var shared := Min(|u|, |v|);
    ghost var changed := ChangedEntries(name, u, v);
    ghost var added := AddedEntries(name, u[shared..], current.groups, previous.groups);
    ghost var removed := RemovedEntries(name, v[shared..], previous.groups, current.groups);
    assert NameDiff(name, current.groups, previous.groups) == changed + added + removed;
    var first := PushChanged(entries, name, u, v, limit);
    if first.Failure? {
      return first;
    }
    var second := PushAdded(first.value, name, u[shared..], current, previous, previousPeers, limit);
    ExtendsAppend(entries, changed, added, limit, first, second);
    if second.Failure? {
      return second;
    }
    r := PushRemoved(second.value, name, v[shared..], previous, current, currentPeers, limit);
    ExtendsAppend(entries, changed + added, removed, limit, second, r);
  }

  lemma ExtendsAppend(entries: seq<DiffEntry>, a: seq<DiffEntry>, b: seq<DiffEntry>, limit: nat,
                      middle: Result<seq<DiffEntry>, InventoryError>, r: Result<seq<DiffEntry>, InventoryError>)
    requires Extends(entries, a, limit, middle) && middle.Success? && Extends(middle.value, b, limit, r)
    ensures Extends(entries, a + b, limit, r)
  {
    assert entries + a + b == entries + (a + b);
  }

  lemma EqualListsLeaveNothing(name: Slice, current: Index, previous: Index)
    requires ListAt(current, name) == ListAt(previous, name)
    ensures NameDiff(name, current, previous) == []
  {
    var a := ListAt(current, name);
    MinusMeaning(a, multiset(a));
    assert |multiset(Residue(a, a))| == 0;
    assert Residue(a, a) == [];
  }

  lemma {:induction false} DiffOverAppend(a: seq<Slice>, b: seq<Slice>, current: Index, previous: Index)
    ensures DiffOver(a + b, current, previous) == DiffOver(a, current, previous) + DiffOver(b, current, previous)
  {
    hide NameDiff;
    if a == [] {
      assert a + b == b;
    } else {
      assert (a + b)[1..] == a[1..] + b;
      DiffOverAppend(a[1..], b, current, previous);
    }
  }

  method PushNames(names: seq<Slice>, current: SemanticIndex, previous: SemanticIndex,
                   previousPeers: LabelPeers, currentPeers: LabelPeers, limit: nat)
    returns (r: Result<seq<DiffEntry>, InventoryError>)
    requires Faithful(current) && Faithful(previous)
    requires ListsSorted(current.groups) && ListsSorted(previous.groups)
    requires previousPeers.Valid() && previousPeers.inserted == PeerCandidates(previous.groups, current.groups)
    requires currentPeers.Valid() && currentPeers.inserted == PeerCandidates(current.groups, previous.groups)
    ensures Extends([], DiffOver(names, current.groups, previous.groups), limit, r)
  {
    hide Faithful, NameDiff, PeerCandidates, ListsSorted;
    ghost var c, p := current.groups, previous.groups;
    r := Success([]);
    for i := 0 to |names|
      invariant r == Success(DiffOver(names[..i], c, p)) && |r.value| <= limit
    {
      assert names == names[..i] + ([names[i]] + names[i + 1..]) && names[..i + 1] == names[..i] + [names[i]];
      DiffOverAppend(names[..i], [names[i]] + names[i + 1..], c, p);
      DiffOverAppend(names[..i], [names[i]], c, p);
      DiffOverAppend([names[i]], names[i + 1..], c, p);
      assert DiffOver([names[i]], c, p) == NameDiff(names[i], c, p);
      r := PushName(r.value, names[i], current, previous, previousPeers, currentPeers, limit);
      if r.Failure? {
        return;
      }
    }
    assert names[..|names|] == names;
    assert [] + r.value == r.value;
  }

  lemma IndexOfIsSorted(tags: seq<Tagged>)
    ensures ListsSorted(IndexOf(tags))
  {
    GroupLeqIsTotal();
    forall name | name in Names(tags) ensures Sorted(GroupLeq, IndexOf(tags)[name]) {
      SortSorts(GroupLeq, Under(tags, name));
    }
  }

  /** The index a diff compares: the groups of an inventory by semantic label. */
  ghost function SemanticView(hash: Hash, c: Contents): Index
    requires Complete(c)
  {
    IndexOf(TaggedGroups(hash, c))
  }

  method DiffTags(currentTags: seq<Tagged>, previousTags: seq<Tagged>, limit: nat)
    returns (r: Result<seq<DiffEntry>, InventoryError>)
    ensures Extends([], DiffEntries(IndexOf(currentTags), IndexOf(previousTags)), limit, r)
  {
    hide Faithful, NameDiff, PeerCandidates, ListsSorted, IndexOf, DiffOver;
    var currentGroups := SemanticGroups(currentTags);
    var currentIndex := IndexGroups(currentGroups);
    var previousGroups := SemanticGroups(previousTags);
    var previousIndex := IndexGroups(previousGroups);
    IndexOfIsSorted(currentTags);
    IndexOfIsSorted(previousTags);
    var previousPeers := LabelPeersAbsentFrom(previousGroups, currentIndex);
    var currentPeers := LabelPeersAbsentFrom(currentGroups, previousIndex);
    SliceLeqIsTotal();
    var names := Enumerate(SliceLeq, currentGroups.Keys + previousGroups.Keys);
    r := PushNames(names, currentIndex, previousIndex, previousPeers, currentPeers, limit);
  }

  /** `diff_against`: the complete entry sequence, or the count limit when it does not fit. */
  method DiffAgainst(hash: Hash, current: SignatureInventory, previous: SignatureInventory, limit: nat)
    returns (r: Result<InventoryDiff, InventoryError>)
    ensures !Complete(current.Value()) ==> r.Failure? && FirstFailure(current.Value(), r.error)
    ensures Complete(current.Value()) && !Complete(previous.Value()) ==>
              r.Failure? && FirstFailure(previous.Value(), r.error)
    ensures Complete(current.Value()) && Complete(previous.Value()) ==>
      (var entries := DiffEntries(SemanticView(hash, current.Value()), SemanticView(hash, previous.Value()));
       if |entries| <= limit then r == Success(InventoryDiff(ContractDigest(hash, current.Value()), entries))
       else r == Failure(DiagnosticCountExceeded(limit, limit + 1)))
  {
    hide TaggedGroups, ContractDigest, IndexOf, DiffEntries;
    var currentTags := CollectTags(hash, current.Value());
    if currentTags.Failure? {
      return Failure(currentTags.error);
    }
    var previousTags := CollectTags(hash, previous.Value());
    if previousTags.Failure? {
      return Failure(previousTags.error);
    }
    var entries := DiffTags(currentTags.value, previousTags.value, limit);
    if entries.Failure? {
      return Failure(entries.error);
    }
    ghost var all := DiffEntries(IndexOf(currentTags.value), IndexOf(previousTags.value));
    assert [] + all == all;
    var digest := InventoryContractDigest(hash, current);
    r := Success(InventoryDiff(digest.value, entries.value));
  }
}
