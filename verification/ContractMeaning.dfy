/** What the digests of an inventory identify, told on the inventory's own fields. */
module ContractMeaning {
  import opened Wrappers
  import opened Orders
  import opened Digest
  import opened Inventory
  import opened InventoryDigests
  import opened DiffIdentity

  /** One group: its label, the names and digests of its entries, and the two parts of its context. */
  datatype Holding = Holding(
    name: Slice,
    entries: multiset<Named>,
    extraction: Option<Slice>,
    metadata: Option<Slice>)

  ghost function EntriesOf(c: Contents, g: SignatureId): (r: seq<Named>)
    requires g in c.groups && c.groups[g].entryIds <= c.entries.Keys
  {
    var ids := Ascending(IdLeq, c.groups[g].entryIds);
    seq(|ids|, i requires 0 <= i < |ids| =>
      assert ids[i] in ids; Named(c.entries[ids[i]].id.semantic, c.entries[ids[i]].digest))
  }

  ghost function HoldingOf(c: Contents, g: SignatureId): Holding
    requires g in c.groups && c.groups[g].entryIds <= c.entries.Keys
  {
    Holding(g.semantic, multiset(EntriesOf(c, g)),
            match c.groups[g].context case Some(context) => context.extraction case None => None,
            match c.groups[g].context case Some(context) => context.metadata case None => None)
  }

  ghost function HoldingList(c: Contents, ids: seq<SignatureId>): (r: seq<Holding>)
    requires forall g :: g in ids ==> g in c.groups && c.groups[g].entryIds <= c.entries.Keys
    ensures |r| == |ids|
  {
    seq(|ids|, i requires 0 <= i < |ids| => assert ids[i] in ids; HoldingOf(c, ids[i]))
  }

  /** The groups of an inventory, as often as they occur. */
  ghost function Holdings(c: Contents): multiset<Holding>
    requires Complete(c)
  {
    multiset(HoldingList(c, Ascending(IdLeq, c.groups.Keys)))
  }

  /** Every message hashed for the contract digest of an inventory. */
  ghost function AllMessages(hash: Hash, c: Contents): set<seq<Byte>>
    requires Complete(c)
  {
    ContractMessages(hash, c) + ShapeMessages(c)
  }

  ghost function ShapeMessages(c: Contents): set<seq<Byte>>
    requires Complete(c)
  {
    set g | g in c.groups :: ShapeMessage(Shape(c.groups[g], c.entries))
  }

  // --------------------------------------------------------- group by group

  lemma ShapeIsEntries(c: Contents, g: SignatureId)
    requires g in c.groups && c.groups[g].entryIds <= c.entries.Keys
    ensures Shape(c.groups[g], c.entries) == Sort(NamedLeq, EntriesOf(c, g))
  {
    var ids := Ascending(IdLeq, c.groups[g].entryIds);
    assert NamedEntries(ids, c.entries) == EntriesOf(c, g);
  }

  /** Canonical contents are equal exactly when the entries are, as a multiset. */
  lemma SameShape(c: Contents, g: SignatureId, p: Contents, h: SignatureId)
    requires g in c.groups && c.groups[g].entryIds <= c.entries.Keys
    requires h in p.groups && p.groups[h].entryIds <= p.entries.Keys
    ensures Shape(c.groups[g], c.entries) == Shape(p.groups[h], p.entries)
       <==> multiset(EntriesOf(c, g)) == multiset(EntriesOf(p, h))
  {
    hide Shape, EntriesOf;
    ShapeIsEntries(c, g);
    ShapeIsEntries(p, h);
    NamedLeqIsTotal();
    SortIsCanonical(NamedLeq, EntriesOf(c, g), EntriesOf(p, h));
  }

  lemma SameShapeDigest(hash: Hash, c: Contents, g: SignatureId, p: Contents, h: SignatureId)
    requires Complete(c) && Complete(p) && g in c.groups && h in p.groups
    requires NoCollision(hash, ShapeMessages(c) + ShapeMessages(p))
    ensures TagAt(hash, c, g).group.sourceShape == TagAt(hash, p, h).group.sourceShape
       <==> multiset(EntriesOf(c, g)) == multiset(EntriesOf(p, h))
  {
    hide Shape, ShapeMessage, EntriesOf;
    var x, y := Shape(c.groups[g], c.entries), Shape(p.groups[h], p.entries);
    SameShape(c, g, p, h);
    assert ShapeMessage(x) in ShapeMessages(c) && ShapeMessage(y) in ShapeMessages(p);
    if ShapeMessage(x) == ShapeMessage(y) { ShapeMessageInjective(x, y); }
  }

  /** Two groups are told apart by what is digested of them exactly when they differ. */
  lemma SameTagIffSameHolding(hash: Hash, c: Contents, g: SignatureId, p: Contents, h: SignatureId)
    requires Complete(c) && Complete(p) && g in c.groups && h in p.groups
    requires NoCollision(hash, ShapeMessages(c) + ShapeMessages(p))
    ensures TagAt(hash, c, g) == TagAt(hash, p, h) <==> HoldingOf(c, g) == HoldingOf(p, h)
  {
    hide Shape, ShapeMessage, EntriesOf, GroupContractMessage, ShapeMessages;
    SameShapeDigest(hash, c, g, p, h);
  }

  // ------------------------------------------------------- the whole inventory

  lemma SameTagsIffSameHoldings(hash: Hash, c: Contents, p: Contents)
    requires Complete(c) && Complete(p) && NoCollision(hash, ShapeMessages(c) + ShapeMessages(p))
    ensures multiset(TaggedGroups(hash, c)) == multiset(TaggedGroups(hash, p)) <==> Holdings(c) == Holdings(p)
  {
    hide TagAt, HoldingOf, ShapeMessages;
    var a, b := Ascending(IdLeq, c.groups.Keys), Ascending(IdLeq, p.groups.Keys);
    var s, t, x, y := TaggedGroups(hash, c), TaggedGroups(hash, p), HoldingList(c, a), HoldingList(p, b);
    forall i, j | 0 <= i < |s| && 0 <= j < |t| ensures s[i] == t[j] <==> x[i] == y[j] {
      assert a[i] in a && b[j] in b;
      SameTagIffSameHolding(hash, c, a[i], p, b[j]);
    }
    if multiset(s) == multiset(t) { ParallelMultisets(s, t, x, y); }
    if multiset(x) == multiset(y) { ParallelMultisets(x, y, s, t); }
  }

  /** Contract identity: without a collision on the messages hashed for them, two inventories have
      one contract digest exactly when they hold the same groups, each with its label, the names and
      digests of its entries, its extraction context and its metadata. */
  lemma ContractIdentity(hash: Hash, c: Contents, p: Contents)
    requires Complete(c) && Complete(p)
    requires NoCollision(hash, AllMessages(hash, c) + AllMessages(hash, p))
    ensures ContractDigest(hash, c) == ContractDigest(hash, p) <==> Holdings(c) == Holdings(p)
  {
    hide ContractDigest, TaggedGroups, Holdings, ContractMessages, ShapeMessages;
    SubsetsDoNotCollide(hash, AllMessages(hash, c) + AllMessages(hash, p), ShapeMessages(c) + ShapeMessages(p));
    SubsetsDoNotCollide(hash, AllMessages(hash, c) + AllMessages(hash, p),
                        ContractMessages(hash, c) + ContractMessages(hash, p));
    SameTagsIffSameHoldings(hash, c, p);
    if ContractDigest(hash, c) == ContractDigest(hash, p) { SameDigestSameTags(hash, c, p); }
    if Holdings(c) == Holdings(p) { SameTagsSameDigest(hash, c, p); }
  }

  lemma SubsetsDoNotCollide(hash: Hash, messages: set<seq<Byte>>, some: set<seq<Byte>>)
    requires NoCollision(hash, messages) && some <= messages
    ensures NoCollision(hash, some)
  {
  }

  // ------------------------------------------------------- the label-free identity

  ghost function EntriesList(c: Contents, ids: seq<SignatureId>): (r: seq<multiset<Named>>)
    requires forall g :: g in ids ==> g in c.groups && c.groups[g].entryIds <= c.entries.Keys
    ensures |r| == |ids|
  {
    seq(|ids|, i requires 0 <= i < |ids| => assert ids[i] in ids; multiset(EntriesOf(c, ids[i])))
  }

  /** The entries of each group, labels and contexts left out. */
  ghost function Bodies(c: Contents): multiset<multiset<Named>>
    requires Complete(c)
  {
    multiset(EntriesList(c, Ascending(IdLeq, c.groups.Keys)))
  }

  lemma {:induction false} DigestFieldsInjective(a: seq<SignatureDigest>, b: seq<SignatureDigest>)
    requires DigestFields(a) == DigestFields(b)
    ensures a == b
  {
    assert |a| == |DigestFields(a)| && |b| == |DigestFields(b)|;
    forall i | 0 <= i < |a| ensures a[i] == b[i] {
      assert DigestFields(a)[i] == HexField(a[i]) && DigestFields(b)[i] == HexField(b[i]);
      HexInjective(a[i], b[i]);
    }
  }

  lemma ShapesMessageInjective(a: seq<SignatureDigest>, b: seq<SignatureDigest>)
    requires ShapesMessage(a) == ShapesMessage(b)
    ensures a == b
  {
    hide DigestFields;
    var x, y := [INVENTORY_DOMAIN, SOURCE_SHAPE] + DigestFields(a), [INVENTORY_DOMAIN, SOURCE_SHAPE] + DigestFields(b);
    FrameAllInjective(x, y);
    assert x[2..] == DigestFields(a) && y[2..] == DigestFields(b);
    DigestFieldsInjective(a, b);
  }

  ghost function ShapeDigests(hash: Hash, c: Contents): seq<SignatureDigest>
    requires Complete(c)
  {
    MapSeq(ShapeDigest, TaggedGroups(hash, c))
  }

  lemma ShapeDigestAt(hash: Hash, c: Contents, i: nat)
    requires Complete(c) && i < |Ascending(IdLeq, c.groups.Keys)|
    ensures Ascending(IdLeq, c.groups.Keys)[i] in c.groups
    ensures |ShapeDigests(hash, c)| == |Ascending(IdLeq, c.groups.Keys)|
    ensures ShapeDigests(hash, c)[i] == TagAt(hash, c, Ascending(IdLeq, c.groups.Keys)[i]).group.sourceShape
  {
    hide TagAt;
    var ids := Ascending(IdLeq, c.groups.Keys);
    assert ids[i] in ids;
    assert ShapeDigests(hash, c)[i] == ShapeDigest(TaggedGroups(hash, c)[i]);
  }

  ghost function BodyList(c: Contents): seq<multiset<Named>>
    requires Complete(c)
  {
    EntriesList(c, Ascending(IdLeq, c.groups.Keys))
  }

  lemma BodyMatches(hash: Hash, c: Contents, p: Contents, i: nat, j: nat)
    requires Complete(c) && Complete(p) && NoCollision(hash, ShapeMessages(c) + ShapeMessages(p))
    requires i < |BodyList(c)| && j < |BodyList(p)|
    ensures |ShapeDigests(hash, c)| == |BodyList(c)| && |ShapeDigests(hash, p)| == |BodyList(p)|
    ensures ShapeDigests(hash, c)[i] == ShapeDigests(hash, p)[j] <==> BodyList(c)[i] == BodyList(p)[j]
  {
    hide TagAt, EntriesOf, ShapeMessages, ShapeDigests;
    ShapeDigestAt(hash, c, i);
    ShapeDigestAt(hash, p, j);
    SameShapeDigest(hash, c, Ascending(IdLeq, c.groups.Keys)[i], p, Ascending(IdLeq, p.groups.Keys)[j]);
  }

  lemma BodiesListed(hash: Hash, c: Contents)
    requires Complete(c)
    ensures Bodies(c) == multiset(BodyList(c)) && |ShapeDigests(hash, c)| == |BodyList(c)|
  {
  }

  lemma SameShapesIffSameBodies(hash: Hash, c: Contents, p: Contents)
    requires Complete(c) && Complete(p) && NoCollision(hash, ShapeMessages(c) + ShapeMessages(p))
    ensures multiset(ShapeDigests(hash, c)) == multiset(ShapeDigests(hash, p)) <==> Bodies(c) == Bodies(p)
  {
    hide ShapeMessages, ShapeDigests, BodyList, Bodies;
    var s, t, x, y := ShapeDigests(hash, c), ShapeDigests(hash, p), BodyList(c), BodyList(p);
    BodiesListed(hash, c);
    BodiesListed(hash, p);
    forall i, j | 0 <= i < |x| && 0 <= j < |y| ensures s[i] == t[j] <==> x[i] == y[j] {
      BodyMatches(hash, c, p, i, j);
    }
    if multiset(s) == multiset(t) { ParallelMultisets(s, t, x, y); }
    if multiset(x) == multiset(y) { ParallelMultisets(x, y, s, t); }
  }

  /** The label-free digest is equal exactly when the groups hold the same entries, whatever their
      labels and contexts. */
  lemma SourceShapeMeaning(hash: Hash, c: Contents, p: Contents)
    requires Complete(c) && Complete(p)
    requires NoCollision(hash, ShapeMessages(c) + ShapeMessages(p))
    requires NoCollision(hash, {ShapesMessage(Sort(DigestLeq, ShapeDigests(hash, c))),
                                ShapesMessage(Sort(DigestLeq, ShapeDigests(hash, p)))})
    ensures SourceShapeIdentity(hash, c) == SourceShapeIdentity(hash, p) <==> Bodies(c) == Bodies(p)
  {
    hide TaggedGroups, Bodies, ShapeMessages, ShapesMessage, MapSeq;
    SameShapesIffSameBodies(hash, c, p);
    var a, b := Sort(DigestLeq, ShapeDigests(hash, c)), Sort(DigestLeq, ShapeDigests(hash, p));
    DigestLeqIsTotal();
    SortIsCanonical(DigestLeq, ShapeDigests(hash, c), ShapeDigests(hash, p));
    if ShapesMessage(a) == ShapesMessage(b) { ShapesMessageInjective(a, b); }
  }

  /** The layout of the label-free message: the domain, its tag, and one field a digest. */
  lemma ShapesMessageReads(digests: seq<SignatureDigest>)
    ensures exists rows :: |rows| == |digests| && (forall i :: 0 <= i < |rows| ==> rows[i] == Hex(digests[i]))
              && Unframed(ShapesMessage(digests))
                 == Some([Ascii("conkit-signature:v2:inventory"), Ascii("source_shape")] + rows)
  {
    hide FrameAll, Unframed;
    var rows: seq<seq<Byte>> := DigestFields(digests);
    FramesRead([INVENTORY_DOMAIN, SOURCE_SHAPE] + DigestFields(digests));
    forall i | 0 <= i < |rows| ensures rows[i] == Hex(digests[i]) {
      assert rows[i] == HexField(digests[i]);
    }
  }
}
