/** The diff agrees with contract identity: no entries exactly when the digests are equal. */
module DiffIdentity {
  import opened Wrappers
  import opened Orders
  import opened Digest
  import opened Inventory
  import opened InventoryDigests
  import opened Diff

  // ---------------------------------------------- an index is a multiset of tags

  lemma {:induction false} TagListCount(name: Slice, groups: seq<GroupDigest>, t: Tagged)
    ensures multiset(TagList(name, groups))[t] == if t.name == name then multiset(groups)[t.group] else 0
  {
    if groups != [] {
      var n := |groups| - 1;
      assert groups == groups[..n] + [groups[n]];
      assert TagList(name, groups) == TagList(name, groups[..n]) + [Tagged(name, groups[n])];
      TagListCount(name, groups[..n], t);
    }
  }

  lemma {:induction false} FlatCount(index: Index, names: seq<Slice>, t: Tagged)
    requires Distinct(names)
    ensures multiset(Flat(index, names))[t]
         == if t.name in names then multiset(ListAt(index, t.name))[t.group] else 0
  {
    if names != [] {
      FlatCount(index, names[1..], t);
      TagListCount(names[0], ListAt(index, names[0]), t);
      assert names == [names[0]] + names[1..];
      assert names[0] !in names[1..];
    }
  }

  lemma {:induction false} UnderCount(tags: seq<Tagged>, t: Tagged)
    ensures multiset(Under(tags, t.name))[t.group] == multiset(tags)[t]
  {
    if tags != [] {
      assert tags == [tags[0]] + tags[1..];
      UnderCount(tags[1..], t);
    }
  }

  /** Listing the index over any labels that include all of its own gives back the tags. */
  lemma FlatIsTags(tags: seq<Tagged>, names: seq<Slice>)
    requires Distinct(names) && forall n :: n in Names(tags) ==> n in names
    ensures multiset(Flat(IndexOf(tags), names)) == multiset(tags)
  {
    forall t ensures multiset(Flat(IndexOf(tags), names))[t] == multiset(tags)[t] {
      FlatCount(IndexOf(tags), names, t);
      UnderCount(tags, t);
      UnderEmpty(tags, t.name);
    }
  }

  lemma FlatAllIsTags(tags: seq<Tagged>)
    ensures multiset(FlatAll(IndexOf(tags))) == multiset(tags)
  {
    AscendingIsDistinct(SliceLeq, IndexOf(tags).Keys);
    FlatIsTags(tags, Ascending(SliceLeq, IndexOf(tags).Keys));
  }

  lemma UnderPermutation(s: seq<Tagged>, t: seq<Tagged>, name: Slice)
    requires multiset(s) == multiset(t)
    ensures multiset(Under(s, name)) == multiset(Under(t, name))
  {
    forall g ensures multiset(Under(s, name))[g] == multiset(Under(t, name))[g] {
      UnderCount(s, Tagged(name, g));
      UnderCount(t, Tagged(name, g));
    }
  }

  lemma NamesPermutation(s: seq<Tagged>, t: seq<Tagged>)
    requires multiset(s) == multiset(t)
    ensures Names(s) == Names(t)
  {
    forall x ensures x in s <==> x in t {
      assert x in s <==> x in multiset(s);
      assert x in t <==> x in multiset(t);
    }
  }

  /** Two tag sequences give the same index exactly when one rearranges the other. */
  lemma SameIndexIffSameTags(s: seq<Tagged>, t: seq<Tagged>)
    ensures IndexOf(s) == IndexOf(t) <==> multiset(s) == multiset(t)
  {
    if IndexOf(s) == IndexOf(t) {
      FlatAllIsTags(s);
      FlatAllIsTags(t);
    }
    if multiset(s) == multiset(t) {
      GroupLeqIsTotal();
      NamesPermutation(s, t);
      forall n | n in Names(s) ensures IndexOf(s)[n] == IndexOf(t)[n] {
        UnderPermutation(s, t, n);
        SortIsCanonical(GroupLeq, Under(s, n), Under(t, n));
      }
    }
  }

  // ------------------------------------------------------- no entries, same index

  lemma ResidueSizes(a: seq<GroupDigest>, b: seq<GroupDigest>)
    ensures multiset(Residue(a, b)) == multiset(a) - multiset(b)
    ensures |a| - |Residue(a, b)| == |b| - |Residue(b, a)|
  {
    MinusMeaning(a, multiset(b));
    MinusMeaning(b, multiset(a));
    var u, v, m := multiset(a) - multiset(b), multiset(b) - multiset(a), multiset(a) * multiset(b);
    assert multiset(a) == u + m && multiset(b) == v + m;
    assert |multiset(a)| == |a| && |multiset(b)| == |b|;
    assert |multiset(Residue(a, b))| == |Residue(a, b)| && |multiset(Residue(b, a))| == |Residue(b, a)|;
  }

  lemma NameDiffLength(name: Slice, c: Index, p: Index)
    ensures var u, v := Residue(ListAt(c, name), ListAt(p, name)), Residue(ListAt(p, name), ListAt(c, name));
            |NameDiff(name, c, p)| == if |u| >= |v| then |u| else |v|
  {
  }

  lemma NameDiffEmpty(name: Slice, c: Index, p: Index)
    requires ListsSorted(c) && ListsSorted(p)
    ensures NameDiff(name, c, p) == [] <==> ListAt(c, name) == ListAt(p, name)
  {
    if ListAt(c, name) == ListAt(p, name) {
      EqualListsLeaveNothing(name, c, p);
    } else {
      NameDiffLength(name, c, p);
      var a, b := ListAt(c, name), ListAt(p, name);
      if Residue(a, b) == [] && Residue(b, a) == [] {
        ResidueSizes(a, b);
        ResidueSizes(b, a);
        assert multiset(a) - multiset(b) == multiset{} && multiset(b) - multiset(a) == multiset{};
        MutualInclusion(multiset(a), multiset(b));
        GroupLeqIsTotal();
        SortedIsCanonical(GroupLeq, a, b);
      }
    }
  }

  lemma MutualInclusion(a: multiset<GroupDigest>, b: multiset<GroupDigest>)
    requires a - b == multiset{} && b - a == multiset{}
    ensures a == b
  {
  }

  lemma {:induction false} DiffOverEmpty(names: seq<Slice>, c: Index, p: Index)
    requires ListsSorted(c) && ListsSorted(p)
    ensures DiffOver(names, c, p) == [] <==> forall n :: n in names ==> ListAt(c, n) == ListAt(p, n)
  {
    hide NameDiff, ListsSorted;
    if names != [] {
      NameDiffEmpty(names[0], c, p);
      DiffOverEmpty(names[1..], c, p);
      assert names == [names[0]] + names[1..];
    }
  }

  lemma IndexListsNonempty(tags: seq<Tagged>, name: Slice)
    ensures ListAt(IndexOf(tags), name) == [] <==> name !in Names(tags)
  {
    UnderEmpty(tags, name);
  }

  /** The diff of two indexed inventories is empty exactly when they hold the same tags. */
  lemma DiffEmptyIffSameTags(s: seq<Tagged>, t: seq<Tagged>)
    ensures DiffEntries(IndexOf(s), IndexOf(t)) == [] <==> multiset(s) == multiset(t)
  {
    hide IndexOf, ListsSorted;
    var c, p := IndexOf(s), IndexOf(t);
    IndexOfIsSorted(s);
    IndexOfIsSorted(t);
    DiffOverEmpty(Ascending(SliceLeq, c.Keys + p.Keys), c, p);
    SameIndexIffSameTags(s, t);
    if DiffEntries(c, p) == [] {
      forall n ensures ListAt(c, n) == ListAt(p, n) {}
      SameListsSameIndex(s, t);
    }
  }

  lemma SameListsSameIndex(s: seq<Tagged>, t: seq<Tagged>)
    requires forall n :: ListAt(IndexOf(s), n) == ListAt(IndexOf(t), n)
    ensures IndexOf(s) == IndexOf(t)
  {
    var c, p := IndexOf(s), IndexOf(t);
    forall n ensures n in c <==> n in p {
      IndexListsNonempty(s, n);
      IndexListsNonempty(t, n);
      assert ListAt(c, n) == ListAt(p, n);
    }
    forall n | n in c ensures c[n] == p[n] {
      assert ListAt(c, n) == ListAt(p, n);
    }
  }

  // ------------------------------------------------------------ digest identity

  /** The contract digest of a group is computed from what the diff shows of it. */
  ghost predicate Derived(hash: Hash, t: Tagged) {
    t.group.contract == hash(GroupContractMessage(t.group.sourceShape, t.group.extraction, t.group.metadata))
  }

  lemma TaggedGroupsAreDerived(hash: Hash, c: Contents)
    requires Complete(c)
    ensures forall t :: t in TaggedGroups(hash, c) ==> Derived(hash, t)
  {
  }

  /** Without a hash collision, equal contract digests mean equal groups. */
  lemma ContractDetermines(hash: Hash, messages: set<seq<Byte>>, a: Tagged, b: Tagged)
    requires NoCollision(hash, messages) && Derived(hash, a) && Derived(hash, b)
    requires GroupContractMessage(a.group.sourceShape, a.group.extraction, a.group.metadata) in messages
    requires GroupContractMessage(b.group.sourceShape, b.group.extraction, b.group.metadata) in messages
    requires a.group.contract == b.group.contract
    ensures a.group == b.group
  {
    hide GroupContractMessage;
    GroupContractMessageInjective(a.group.sourceShape, a.group.extraction, a.group.metadata,
                                  b.group.sourceShape, b.group.extraction, b.group.metadata);
  }

  lemma SameTagsSameDigest(hash: Hash, c: Contents, p: Contents)
    requires Complete(c) && Complete(p) && multiset(TaggedGroups(hash, c)) == multiset(TaggedGroups(hash, p))
    ensures ContractDigest(hash, c) == ContractDigest(hash, p)
  {
    hide TaggedGroups;
    var s, t := TaggedGroups(hash, c), TaggedGroups(hash, p);
    MapSeqPermutation(NamedContract, s, t);
    NamedLeqIsTotal();
    SortIsCanonical(NamedLeq, Contracts(s), Contracts(t));
  }

  lemma SameDigestSameTags(hash: Hash, c: Contents, p: Contents)
    requires Complete(c) && Complete(p)
    requires NoCollision(hash, ContractMessages(hash, c) + ContractMessages(hash, p))
    requires ContractDigest(hash, c) == ContractDigest(hash, p)
    ensures multiset(TaggedGroups(hash, c)) == multiset(TaggedGroups(hash, p))
  {
    hide TaggedGroups, InventoryMessage, GroupContractMessage;
    var s, t := TaggedGroups(hash, c), TaggedGroups(hash, p);
    var a, b := Sort(NamedLeq, Contracts(s)), Sort(NamedLeq, Contracts(t));
    assert InventoryMessage(a) in ContractMessages(hash, c) && InventoryMessage(b) in ContractMessages(hash, p);
    InventoryMessageInjective(a, b);
    NamedLeqIsTotal();
    SortIsCanonical(NamedLeq, Contracts(s), Contracts(t));
    TaggedGroupsAreDerived(hash, c);
    TaggedGroupsAreDerived(hash, p);
    forall x, y | (x in s || x in t) && (y in s || y in t) && NamedContract(x) == NamedContract(y)
      ensures x == y
    {
      ContractDetermines(hash, ContractMessages(hash, c) + ContractMessages(hash, p), x, y);
    }
    MapSeqInjective(NamedContract, s, t);
  }

  /** An empty diff means equal contract digests, whatever the hash. */
  lemma EmptyDiffMeansSameDigest(hash: Hash, current: Contents, previous: Contents)
    requires Complete(current) && Complete(previous)
    requires DiffEntries(SemanticView(hash, current), SemanticView(hash, previous)) == []
    ensures ContractDigest(hash, current) == ContractDigest(hash, previous)
  {
    DiffEmptyIffSameTags(TaggedGroups(hash, current), TaggedGroups(hash, previous));
    SameTagsSameDigest(hash, current, previous);
  }

  /** The diff has no entries exactly when the contract digests are equal, as long as the hash
      does not collide on the messages hashed for these two inventories. */
  lemma DiffAgreesWithIdentity(hash: Hash, current: Contents, previous: Contents)
    requires Complete(current) && Complete(previous)
    requires NoCollision(hash, ContractMessages(hash, current) + ContractMessages(hash, previous))
    ensures DiffEntries(SemanticView(hash, current), SemanticView(hash, previous)) == []
       <==> ContractDigest(hash, current) == ContractDigest(hash, previous)
  {
    DiffEmptyIffSameTags(TaggedGroups(hash, current), TaggedGroups(hash, previous));
    if ContractDigest(hash, current) == ContractDigest(hash, previous) {
      SameDigestSameTags(hash, current, previous);
    } else if DiffEntries(SemanticView(hash, current), SemanticView(hash, previous)) == [] {
      SameTagsSameDigest(hash, current, previous);
    }
  }
}
