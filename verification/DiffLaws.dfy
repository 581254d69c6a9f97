/** Laws of the contract diff: it mirrors, and it is a minimal, conserving edit script. */
module DiffLaws {
  import opened Wrappers
  import opened Orders
  import opened Digest
  import opened Inventory
  import opened InventoryDigests
  import opened Diff
  import opened DiffIdentity

  // ------------------------------------------------------------------- mirror

  function Mirror(e: DiffEntry): DiffEntry {
    match e
    case Added(n, k) => Removed(n, k)
    case Removed(n, k) => Added(n, k)
    case Changed(n, c, p, k) => Changed(n, p, c, k)
  }

  lemma MapSeqAppend<T, U>(f: T -> U, a: seq<T>, b: seq<T>)
    ensures MapSeq(f, a + b) == MapSeq(f, a) + MapSeq(f, b)
  {
  }

  lemma ChangedMirror(name: Slice, u: seq<GroupDigest>, v: seq<GroupDigest>)
    ensures MapSeq(Mirror, ChangedEntries(name, u, v)) == ChangedEntries(name, v, u)
  {
    var there, back := ChangedEntries(name, u, v), ChangedEntries(name, v, u);
    forall i | 0 <= i < |there| ensures Mirror(there[i]) == back[i] {
      assert ChangedCategories(u[i], v[i]) == ChangedCategories(v[i], u[i]);
    }
  }

  lemma UnmatchedMirror(name: Slice, groups: seq<GroupDigest>, own: Index, other: Index)
    ensures MapSeq(Mirror, AddedEntries(name, groups, own, other)) == RemovedEntries(name, groups, own, other)
    ensures MapSeq(Mirror, RemovedEntries(name, groups, own, other)) == AddedEntries(name, groups, own, other)
  {
    hide UnmatchedCategories;
    var added, removed := AddedEntries(name, groups, own, other), RemovedEntries(name, groups, own, other);
    forall i | 0 <= i < |groups| ensures Mirror(added[i]) == removed[i] && Mirror(removed[i]) == added[i] {}
  }

  lemma NameDiffMirrors(name: Slice, c: Index, p: Index)
    ensures NameDiff(name, p, c) == MapSeq(Mirror, NameDiff(name, c, p))
  {
    hide Residue, UnmatchedCategories, ListAt, ChangedEntries, AddedEntries, RemovedEntries, MapSeq;
    var u, v := Residue(ListAt(c, name), ListAt(p, name)), Residue(ListAt(p, name), ListAt(c, name));
    var shared := Min(|u|, |v|);
    var changed, added, removed :=
      ChangedEntries(name, u, v), AddedEntries(name, u[shared..], c, p), RemovedEntries(name, v[shared..], p, c);
    ChangedMirror(name, u, v);
    UnmatchedMirror(name, u[shared..], c, p);
    UnmatchedMirror(name, v[shared..], p, c);
    MapSeqAppend(Mirror, changed + added, removed);
    MapSeqAppend(Mirror, changed, added);
    OneSideEmpty(name, u, v, shared, c, p);
  }

  lemma OneSideEmpty(name: Slice, u: seq<GroupDigest>, v: seq<GroupDigest>, shared: nat, c: Index, p: Index)
    requires shared == Min(|u|, |v|)
    ensures var a, r := AddedEntries(name, v[shared..], p, c), RemovedEntries(name, u[shared..], c, p);
            a + r == r + a
  {
  }

  lemma {:induction false} DiffOverMirrors(names: seq<Slice>, c: Index, p: Index)
    ensures DiffOver(names, p, c) == MapSeq(Mirror, DiffOver(names, c, p))
  {
    hide NameDiff;
    if names != [] {
      NameDiffMirrors(names[0], c, p);
      DiffOverMirrors(names[1..], c, p);
      MapSeqAppend(Mirror, NameDiff(names[0], c, p), DiffOver(names[1..], c, p));
    }
  }

  /** Diffing the other way round gives, entry for entry and in the same order, the same diff
      with additions and removals, and current and previous digests, exchanged. */
  lemma DiffMirrors(hash: Hash, current: Contents, previous: Contents)
    requires Complete(current) && Complete(previous)
    ensures DiffEntries(SemanticView(hash, previous), SemanticView(hash, current))
         == MapSeq(Mirror, DiffEntries(SemanticView(hash, current), SemanticView(hash, previous)))
  {
    hide SemanticView, DiffOver;
    var c, p := SemanticView(hash, current), SemanticView(hash, previous);
    assert c.Keys + p.Keys == p.Keys + c.Keys;
    DiffOverMirrors(Ascending(SliceLeq, c.Keys + p.Keys), c, p);
  }

  // -------------------------------------------------------------- conservation

  function IsAdded(): DiffEntry -> bool { (e: DiffEntry) => e.Added? }
  function IsRemoved(): DiffEntry -> bool { (e: DiffEntry) => e.Removed? }

  lemma {:induction false} CountAll<T>(p: T -> bool, s: seq<T>)
    requires forall i :: 0 <= i < |s| ==> p(s[i])
    ensures CountIf(p, s) == |s|
  {
    if s != [] { CountAll(p, s[1..]); }
  }

  lemma {:induction false} CountNone<T>(p: T -> bool, s: seq<T>)
    requires forall i :: 0 <= i < |s| ==> !p(s[i])
    ensures CountIf(p, s) == 0
  {
    if s != [] { CountNone(p, s[1..]); }
  }

  lemma CountKinds(changed: seq<DiffEntry>, added: seq<DiffEntry>, removed: seq<DiffEntry>)
    requires forall i :: 0 <= i < |changed| ==> changed[i].Changed?
    requires forall i :: 0 <= i < |added| ==> added[i].Added?
    requires forall i :: 0 <= i < |removed| ==> removed[i].Removed?
    ensures CountIf(IsAdded(), changed + added + removed) == |added|
    ensures CountIf(IsRemoved(), changed + added + removed) == |removed|
  {
    CountIfAppend(IsAdded(), changed + added, removed);
    CountIfAppend(IsAdded(), changed, added);
    CountIfAppend(IsRemoved(), changed + added, removed);
    CountIfAppend(IsRemoved(), changed, added);
    CountNone(IsAdded(), changed);
    CountAll(IsAdded(), added);
    CountNone(IsAdded(), removed);
    CountNone(IsRemoved(), changed);
    CountNone(IsRemoved(), added);
    CountAll(IsRemoved(), removed);
  }

  lemma NameDiffCounts(name: Slice, c: Index, p: Index)
    ensures var d := NameDiff(name, c, p);
            var u, v := Residue(ListAt(c, name), ListAt(p, name)), Residue(ListAt(p, name), ListAt(c, name));
            && CountIf(IsAdded(), d) == |u| - Min(|u|, |v|)
            && CountIf(IsRemoved(), d) == |v| - Min(|u|, |v|)
  {
    hide Residue, ListAt, UnmatchedCategories;
    var u, v := Residue(ListAt(c, name), ListAt(p, name)), Residue(ListAt(p, name), ListAt(c, name));
    var shared := Min(|u|, |v|);
    CountKinds(ChangedEntries(name, u, v), AddedEntries(name, u[shared..], c, p), RemovedEntries(name, v[shared..], p, c));
  }

  /** Per label: additions less removals is the change in the number of groups, additions and
      removals never occur together, and there are as many entries as the larger of the two
      multiset differences. */
  lemma NameDiffConserves(name: Slice, c: Index, p: Index)
    ensures var d, a, b := NameDiff(name, c, p), ListAt(c, name), ListAt(p, name);
            && CountIf(IsAdded(), d) - CountIf(IsRemoved(), d) == |a| - |b|
            && (CountIf(IsAdded(), d) == 0 || CountIf(IsRemoved(), d) == 0)
            && |d| >= |multiset(a) - multiset(b)| && |d| >= |multiset(b) - multiset(a)|
            && (|d| == |multiset(a) - multiset(b)| || |d| == |multiset(b) - multiset(a)|)
  {
    hide Residue, ListAt, NameDiff;
    var a, b := ListAt(c, name), ListAt(p, name);
    var u, v := Residue(a, b), Residue(b, a);
    ResidueSizes(a, b);
    ResidueSizes(b, a);
    assert |multiset(u)| == |u| && |multiset(v)| == |v|;
    NameDiffCounts(name, c, p);
    NameDiffLength(name, c, p);
  }

  lemma {:induction false} DiffOverConserves(names: seq<Slice>, c: Index, p: Index)
    ensures CountIf(IsAdded(), DiffOver(names, c, p)) - CountIf(IsRemoved(), DiffOver(names, c, p))
         == |Flat(c, names)| - |Flat(p, names)|
  {
    hide NameDiff;
    if names != [] {
      var first, rest := NameDiff(names[0], c, p), DiffOver(names[1..], c, p);
      NameDiffConserves(names[0], c, p);
      DiffOverConserves(names[1..], c, p);
      CountIfAppend(IsAdded(), first, rest);
      CountIfAppend(IsRemoved(), first, rest);
    }
  }

  /** Over the whole diff, additions less removals is the change in the number of groups. */
  lemma DiffConservesGroups(hash: Hash, current: Contents, previous: Contents)
    requires Complete(current) && Complete(previous)
    ensures var d := DiffEntries(SemanticView(hash, current), SemanticView(hash, previous));
            CountIf(IsAdded(), d) - CountIf(IsRemoved(), d) == |current.groups| - |previous.groups|
  {
    hide DiffOver, IndexOf;
    var s, t := TaggedGroups(hash, current), TaggedGroups(hash, previous);
    var c, p := IndexOf(s), IndexOf(t);
    var names := Ascending(SliceLeq, c.Keys + p.Keys);
    AscendingIsDistinct(SliceLeq, c.Keys + p.Keys);
    DiffOverConserves(names, c, p);
    FlatSize(s, names, p.Keys);
    FlatSize(t, names, c.Keys);
  }

  lemma FlatSize(tags: seq<Tagged>, names: seq<Slice>, others: set<Slice>)
    requires Distinct(names) && forall n :: n in IndexOf(tags).Keys + others ==> n in names
    ensures |Flat(IndexOf(tags), names)| == |tags|
  {
    FlatIsTags(tags, names);
    assert |multiset(Flat(IndexOf(tags), names))| == |Flat(IndexOf(tags), names)|;
    assert |multiset(tags)| == |tags|;
  }

  // -------------------------------------------------- every change has a category

  ghost predicate AllDerived(hash: Hash, groups: seq<GroupDigest>) {
    forall g :: g in groups ==> g.contract == hash(GroupContractMessage(g.sourceShape, g.extraction, g.metadata))
  }

  lemma ResiduesDiffer(a: seq<GroupDigest>, b: seq<GroupDigest>, i: nat, j: nat)
    requires i < |Residue(a, b)| && j < |Residue(b, a)|
    ensures Residue(a, b)[i] != Residue(b, a)[j]
  {
    var x, y := Residue(a, b)[i], Residue(b, a)[j];
    ResidueSizes(a, b);
    ResidueSizes(b, a);
    assert x in multiset(Residue(a, b)) && y in multiset(Residue(b, a));
  }

  /** Two groups that differ at all differ in shape, extraction or metadata: the contract digest
      is a function of the three. No assumption about the hash is needed. */
  lemma DifferentGroupsHaveCategories(hash: Hash, x: GroupDigest, y: GroupDigest)
    requires AllDerived(hash, [x, y]) && x != y
    ensures ChangedCategories(x, y) != {}
  {
    assert x in [x, y] && y in [x, y];
    if x.sourceShape == y.sourceShape && x.extraction == y.extraction {
      assert DocumentMetadata in ChangedCategories(x, y);
    } else if x.sourceShape == y.sourceShape {
      assert ExtractionContext in ChangedCategories(x, y);
    } else {
      assert SourceSemantics in ChangedCategories(x, y);
    }
  }

  lemma NameDiffCategorised(hash: Hash, name: Slice, c: Index, p: Index)
    requires AllDerived(hash, ListAt(c, name)) && AllDerived(hash, ListAt(p, name))
    ensures forall e :: e in NameDiff(name, c, p) ==> e.categories != {}
  {
    hide Residue, ListAt, AllDerived, UnmatchedCategories, ChangedCategories;
    var a, b := ListAt(c, name), ListAt(p, name);
    var u, v := Residue(a, b), Residue(b, a);
    forall i | 0 <= i < Min(|u|, |v|) ensures ChangedCategories(u[i], v[i]) != {} {
      ResiduesDiffer(a, b, i, i);
      ResidueDerived(hash, a, b, i);
      ResidueDerived(hash, b, a, i);
      PairDerived(hash, u[i], v[i]);
      DifferentGroupsHaveCategories(hash, u[i], v[i]);
    }
    forall g, own, other ensures UnmatchedCategories(g, own, other) != {} { UnmatchedNonempty(g, own, other); }
  }

  lemma UnmatchedNonempty(g: GroupDigest, own: Index, other: Index)
    ensures UnmatchedCategories(g, own, other) != {}
  {
  }

  lemma ResidueDerived(hash: Hash, a: seq<GroupDigest>, b: seq<GroupDigest>, i: nat)
    requires AllDerived(hash, a) && i < |Residue(a, b)|
    ensures AllDerived(hash, [Residue(a, b)[i]])
  {
    MinusMeaning(a, multiset(b));
    assert Residue(a, b)[i] in a;
  }

  lemma PairDerived(hash: Hash, x: GroupDigest, y: GroupDigest)
    requires AllDerived(hash, [x]) && AllDerived(hash, [y])
    ensures AllDerived(hash, [x, y])
  {
  }

  lemma ListsDerived(hash: Hash, c: Contents, name: Slice)
    requires Complete(c)
    ensures AllDerived(hash, ListAt(SemanticView(hash, c), name))
  {
    var tags := TaggedGroups(hash, c);
    TaggedGroupsAreDerived(hash, c);
    if name in Names(tags) {
      var list := Sort(GroupLeq, Under(tags, name));
      forall g | g in list ensures g.contract == hash(GroupContractMessage(g.sourceShape, g.extraction, g.metadata)) {
        assert g in multiset(list) && g in multiset(Under(tags, name));
        UnderCount(tags, Tagged(name, g));
        assert Tagged(name, g) in tags;
      }
    }
  }

  lemma {:induction false} DiffOverCategorised(hash: Hash, names: seq<Slice>, c: Contents, p: Contents)
    requires Complete(c) && Complete(p)
    ensures forall e :: e in DiffOver(names, SemanticView(hash, c), SemanticView(hash, p)) ==> e.categories != {}
  {
    hide NameDiff, SemanticView;
    if names != [] {
      ListsDerived(hash, c, names[0]);
      ListsDerived(hash, p, names[0]);
      NameDiffCategorised(hash, names[0], SemanticView(hash, c), SemanticView(hash, p));
      DiffOverCategorised(hash, names[1..], c, p);
    }
  }

  /** Every entry of a diff, `Changed` ones included, names at least one category. */
  lemma EveryEntryHasACategory(hash: Hash, current: Contents, previous: Contents)
    requires Complete(current) && Complete(previous)
    ensures forall e :: e in DiffEntries(SemanticView(hash, current), SemanticView(hash, previous)) ==> e.categories != {}
  {
    hide SemanticView, DiffOver;
    var c, p := SemanticView(hash, current), SemanticView(hash, previous);
    DiffOverCategorised(hash, Ascending(SliceLeq, c.Keys + p.Keys), current, previous);
  }

  // ---------------------------------------------------------------- minimality

  /** What one diff entry does to the groups under its label. */
  datatype Edit =
    | AddGroup(g: GroupDigest)
    | RemoveGroup(g: GroupDigest)
    | ReplaceGroup(old_: GroupDigest, new_: GroupDigest)

  function Taken(e: Edit): multiset<GroupDigest> {
    match e case AddGroup(_) => multiset{} case RemoveGroup(g) => multiset{g} case ReplaceGroup(x, _) => multiset{x}
  }

  function Given(e: Edit): multiset<GroupDigest> {
    match e case AddGroup(g) => multiset{g} case RemoveGroup(_) => multiset{} case ReplaceGroup(_, y) => multiset{y}
  }

  function Apply(groups: multiset<GroupDigest>, script: seq<Edit>): multiset<GroupDigest>
    decreases |script|
  {
    if script == [] then groups else Apply(groups - Taken(script[0]) + Given(script[0]), script[1..])
  }

  lemma SubsetSize(a: multiset<GroupDigest>, b: multiset<GroupDigest>)
    requires a <= b
    ensures |a| <= |b|
  {
    assert b == a + (b - a);
  }

  /** One edit closes each multiset difference by at most one. */
  lemma OneEditClosesOne(goal: multiset<GroupDigest>, a: multiset<GroupDigest>, b: multiset<GroupDigest>,
                         x: multiset<GroupDigest>, y: multiset<GroupDigest>)
    requires b == a - x + y && |x| <= 1 && |y| <= 1
    ensures |goal - a| <= |goal - b| + 1 && |a - goal| <= |b - goal| + 1
  {
    assert goal - a <= (goal - b) + y;
    SubsetSize(goal - a, (goal - b) + y);
    assert a - goal <= (b - goal) + x;
    SubsetSize(a - goal, (b - goal) + x);
  }

  lemma {:induction false} ScriptLowerBound(goal: multiset<GroupDigest>, from: multiset<GroupDigest>, script: seq<Edit>)
    requires Apply(from, script) == goal
    ensures |goal - from| <= |script| && |from - goal| <= |script|
    decreases |script|
  {
    if script == [] {
      assert goal - from == multiset{} && from - goal == multiset{};
    } else {
      var x, y := Taken(script[0]), Given(script[0]);
      ScriptLowerBound(goal, from - x + y, script[1..]);
      OneEditClosesOne(goal, from, from - x + y, x, y);
    }
  }

  /** No edit script turning the previous groups of a label into its current ones is shorter
      than the label's diff. */
  lemma NameDiffIsMinimal(name: Slice, c: Index, p: Index, script: seq<Edit>)
    requires Apply(multiset(ListAt(p, name)), script) == multiset(ListAt(c, name))
    ensures |NameDiff(name, c, p)| <= |script|
  {
    NameDiffConserves(name, c, p);
    ScriptLowerBound(multiset(ListAt(c, name)), multiset(ListAt(p, name)), script);
  }

  /** The script a label's diff stands for: residual pairs replaced, the surplus added or removed. */
  function ScriptOf(u: seq<GroupDigest>, v: seq<GroupDigest>): (r: seq<Edit>)
    ensures |r| == if |u| >= |v| then |u| else |v|
    decreases |u| + |v|
  {
    if u == [] && v == [] then []
    else if u == [] then [RemoveGroup(v[0])] + ScriptOf([], v[1..])
    else if v == [] then [AddGroup(u[0])] + ScriptOf(u[1..], [])
    else [ReplaceGroup(v[0], u[0])] + ScriptOf(u[1..], v[1..])
  }

  lemma Rearrange(from: multiset<GroupDigest>, v: seq<GroupDigest>, u: seq<GroupDigest>)
    requires v != [] && u != [] && multiset(v) <= from
    ensures var next := from - multiset{v[0]} + multiset{u[0]};
            && multiset(v[1..]) <= next
            && next - multiset(v[1..]) + multiset(u[1..]) == from - multiset(v) + multiset(u)
  {
    assert v == [v[0]] + v[1..] && u == [u[0]] + u[1..];
    assert multiset(v) == multiset{v[0]} + multiset(v[1..]);
    assert multiset(u) == multiset{u[0]} + multiset(u[1..]);
  }

  lemma {:induction false} AddsReach(from: multiset<GroupDigest>, u: seq<GroupDigest>)
    ensures Apply(from, ScriptOf(u, [])) == from + multiset(u)
    decreases |u|
  {
    if u != [] {
      assert u == [u[0]] + u[1..];
      var rest := ScriptOf(u[1..], []);
      assert ([AddGroup(u[0])] + rest)[1..] == rest;
      AddsReach(from + multiset{u[0]}, u[1..]);
      assert from - multiset{} + multiset{u[0]} == from + multiset{u[0]};
    }
  }

  lemma RemoveOne(from: multiset<GroupDigest>, v: seq<GroupDigest>)
    requires v != [] && multiset(v) <= from
    ensures multiset(v[1..]) <= from - multiset{v[0]}
    ensures from - multiset{v[0]} - multiset(v[1..]) == from - multiset(v)
  {
    assert v == [v[0]] + v[1..];
    assert multiset(v) == multiset{v[0]} + multiset(v[1..]);
  }

  lemma {:induction false} RemovesReach(from: multiset<GroupDigest>, v: seq<GroupDigest>)
    requires multiset(v) <= from
    ensures Apply(from, ScriptOf([], v)) == from - multiset(v)
    decreases |v|
  {
    if v != [] {
      RemoveOne(from, v);
      var rest := ScriptOf([], v[1..]);
      assert ([RemoveGroup(v[0])] + rest)[1..] == rest;
      RemovesReach(from - multiset{v[0]}, v[1..]);
      assert from - multiset{v[0]} + multiset{} == from - multiset{v[0]};
    }
  }

  lemma {:induction false} ScriptReaches(from: multiset<GroupDigest>, u: seq<GroupDigest>, v: seq<GroupDigest>)
    requires multiset(v) <= from
    ensures Apply(from, ScriptOf(u, v)) == from - multiset(v) + multiset(u)
    decreases |u| + |v|
  {
    if u == [] {
      RemovesReach(from, v);
    } else if v == [] {
      AddsReach(from, u);
    } else {
      Rearrange(from, v, u);
      var rest := ScriptOf(u[1..], v[1..]);
      assert ([ReplaceGroup(v[0], u[0])] + rest)[1..] == rest;
      ScriptReaches(from - multiset{v[0]} + multiset{u[0]}, u[1..], v[1..]);
    }
  }

  /** The diff's own script is an edit script, of exactly the diff's length. */
  lemma NameDiffIsAScript(name: Slice, c: Index, p: Index)
    ensures var a, b := ListAt(c, name), ListAt(p, name);
            var script := ScriptOf(Residue(a, b), Residue(b, a));
            |script| == |NameDiff(name, c, p)| && Apply(multiset(b), script) == multiset(a)
  {
    var a, b := ListAt(c, name), ListAt(p, name);
    ResidueSizes(a, b);
    ResidueSizes(b, a);
    NameDiffLength(name, c, p);
    ScriptReaches(multiset(b), Residue(a, b), Residue(b, a));
    assert multiset(b) - (multiset(b) - multiset(a)) + (multiset(a) - multiset(b)) == multiset(a);
  }
}
