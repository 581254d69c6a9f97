/** Canonical digests of groups and inventories, and the index of groups by semantic label. */
module InventoryDigests {
  import opened Wrappers
  import opened Orders
  import opened Digest
  import opened Inventory

  // -------------------------------------------------------- ordered ingredients

  predicate SliceLeq(a: Slice, b: Slice) { BytesLeq(a, b) }

  lemma SliceLeqIsTotal()
    ensures TotalOrder(SliceLeq)
  {
    BytesLeqIsTotal();
    forall a: Slice, b: Slice | SliceLeq(a, b) && SliceLeq(b, a) ensures a == b {
      assert BytesLeq(a, b) && BytesLeq(b, a);
    }
    forall a: Slice, b: Slice, c: Slice | SliceLeq(a, b) && SliceLeq(b, c) ensures SliceLeq(a, c) {
      assert BytesLeq(a, b) && BytesLeq(b, c);
    }
  }

  /** A digest under a semantic name: an entry within a group, or a group within an inventory. */
  datatype Named = Named(name: Slice, digest: SignatureDigest)

  predicate NamedLeq(a: Named, b: Named) {
    KeyLeq([a.name, a.digest], [b.name, b.digest])
  }

  lemma NamedLeqIsTotal()
    ensures TotalOrder(NamedLeq)
  {
    KeyLeqIsTotal();
    forall a: Named, b: Named | NamedLeq(a, b) && NamedLeq(b, a) ensures a == b {
      var x: seq<seq<int>>, y: seq<seq<int>> := [a.name, a.digest], [b.name, b.digest];
      assert x == y && x[0] == y[0] && x[1] == y[1];
    }
  }

  /** Named digests compare by name, then by digest. */
  lemma NamedLeqMeans(a: Named, b: Named)
    ensures NamedLeq(a, b) <==>
              a == b || BytesBefore(a.name, b.name) || (a.name == b.name && BytesBefore(a.digest, b.digest))
  {
    var x, y: seq<seq<int>> := [a.name, a.digest], [b.name, b.digest];
    KeyLeqMeans(x, y);
    KeyLeqMeans(x[1..], y[1..]);
    BytesLeqMeans(a.name, b.name);
    BytesLeqMeans(a.digest, b.digest);
    NotBeforeItself(a.name);
    NotBeforeItself(a.digest);
  }

  predicate DigestLeq(a: SignatureDigest, b: SignatureDigest) { BytesLeq(a, b) }

  lemma DigestLeqIsTotal()
    ensures TotalOrder(DigestLeq)
  {
    BytesLeqIsTotal();
    forall a: SignatureDigest, b: SignatureDigest | DigestLeq(a, b) && DigestLeq(b, a) ensures a == b {
      assert BytesLeq(a, b) && BytesLeq(b, a);
    }
    forall a: SignatureDigest, b: SignatureDigest, c: SignatureDigest | DigestLeq(a, b) && DigestLeq(b, c)
      ensures DigestLeq(a, c)
    {
      assert BytesLeq(a, b) && BytesLeq(b, c);
    }
  }

  /** Everything the diff sees of one group. */
  datatype GroupDigest = GroupDigest(
    sourceShape: SignatureDigest,
    contract: SignatureDigest,
    extraction: Option<Slice>,
    metadata: Option<Slice>)

  /** `None` sorts before every `Some`. */
  function OptionKey(o: Option<Slice>): seq<int> {
    match o
    case None => []
    case Some(v) => [0] + v
  }

  function GroupKey(g: GroupDigest): seq<seq<int>> {
    [g.sourceShape, g.contract, OptionKey(g.extraction), OptionKey(g.metadata)]
  }

  predicate GroupLeq(a: GroupDigest, b: GroupDigest) {
    KeyLeq(GroupKey(a), GroupKey(b))
  }

  lemma OptionKeyInjective(a: Option<Slice>, b: Option<Slice>)
    requires OptionKey(a) == OptionKey(b)
    ensures a == b
  {
    if a.Some? && b.Some? {
      assert OptionKey(a)[1..] == a.value && OptionKey(b)[1..] == b.value;
    }
  }

  lemma GroupLeqIsTotal()
    ensures TotalOrder(GroupLeq)
  {
    KeyLeqIsTotal();
    forall a: GroupDigest, b: GroupDigest | GroupKey(a) == GroupKey(b) ensures a == b {
      var x, y := GroupKey(a), GroupKey(b);
      assert x[0] == y[0] && x[1] == y[1] && x[2] == y[2] && x[3] == y[3];
      OptionKeyInjective(a.extraction, b.extraction);
      OptionKeyInjective(a.metadata, b.metadata);
    }
  }

  /** An absent value comes before every present one. */
  ghost predicate OptionBefore(a: Option<Slice>, b: Option<Slice>) {
    b.Some? && (a.None? || BytesBefore(a.value, b.value))
  }

  lemma OptionKeyMeans(a: Option<Slice>, b: Option<Slice>)
    ensures BytesBefore(OptionKey(a), OptionKey(b)) <==> OptionBefore(a, b)
  {
    if a.Some? && b.Some? {
      BeforeCons(OptionKey(a), OptionKey(b));
      assert OptionKey(a)[1..] == a.value && OptionKey(b)[1..] == b.value;
    }
  }

  /** Groups compare by shape digest, contract digest, extraction context and metadata in turn. */
  lemma GroupLeqMeans(a: GroupDigest, b: GroupDigest)
    ensures GroupLeq(a, b) <==>
              if a.sourceShape != b.sourceShape then BytesBefore(a.sourceShape, b.sourceShape)
              else if a.contract != b.contract then BytesBefore(a.contract, b.contract)
              else if a.extraction != b.extraction then OptionBefore(a.extraction, b.extraction)
              else a.metadata == b.metadata || OptionBefore(a.metadata, b.metadata)
  {
    var x, y := GroupKey(a), GroupKey(b);
    KeyLeqMeans(x, y);
    KeyLeqMeans(x[1..], y[1..]);
    KeyLeqMeans(x[2..], y[2..]);
    KeyLeqMeans(x[3..], y[3..]);
    if x[2] == y[2] { OptionKeyInjective(a.extraction, b.extraction); }
    if x[3] == y[3] { OptionKeyInjective(a.metadata, b.metadata); }
    OptionKeyMeans(a.extraction, b.extraction);
    OptionKeyMeans(a.metadata, b.metadata);
  }

  // ------------------------------------------------------------ group digests

  /** Name and digest of each entry of a group, in the order of the entry ids. */
  ghost function NamedEntries(ids: seq<SignatureId>, entries: map<SignatureId, SignatureEntry>): seq<Named>
    requires forall id :: id in ids ==> id in entries
  {
    seq(|ids|, i requires 0 <= i < |ids| =>
      assert ids[i] in ids; Named(entries[ids[i]].id.semantic, entries[ids[i]].digest))
  }

  ghost predicate Resolves(group: Group, entries: map<SignatureId, SignatureEntry>) {
    forall id :: id in group.entryIds ==> id in entries
  }

  /** The canonical content of a group: its named entry digests in sorted order. */
  ghost function Shape(group: Group, entries: map<SignatureId, SignatureEntry>): seq<Named>
    requires Resolves(group, entries)
  {
    Sort(NamedLeq, NamedEntries(Ascending(IdLeq, group.entryIds), entries))
  }

  /** Two fields for each named digest: the name, then the digest in hexadecimal. */
  function NamedFields(items: seq<Named>): (r: seq<Slice>)
    ensures |r| == 2 * |items|
  {
    if items == [] then [] else [items[0].name, Hex(items[0].digest)] + NamedFields(items[1..])
  }

  function ShapeMessage(shape: seq<Named>): seq<Byte> {
    FrameAll([GROUP_DOMAIN, SOURCE_SHAPE] + NamedFields(shape))
  }

  function GroupContractMessage(sourceShape: SignatureDigest, extraction: Option<Slice>,
      metadata: Option<Slice>): seq<Byte> {
    FrameAll([GROUP_DOMAIN, CONTRACT, Hex(sourceShape)] + (OptionalFields(extraction) + OptionalFields(metadata)))
  }

  function Extraction(group: Group): Option<Slice> {
    if group.context.Some? then group.context.value.extraction else None
  }

  function Metadata(group: Group): Option<Slice> {
    if group.context.Some? then group.context.value.metadata else None
  }

  /** The digest of a group with the given canonical content and context. */
  function GroupDigestOf(hash: Hash, shape: seq<Named>, extraction: Option<Slice>,
      metadata: Option<Slice>): GroupDigest {
    var sourceShape := hash(ShapeMessage(shape));
    GroupDigest(sourceShape, hash(GroupContractMessage(sourceShape, extraction, metadata)), extraction, metadata)
  }

  ghost function DigestOf(hash: Hash, group: Group, entries: map<SignatureId, SignatureEntry>): GroupDigest
    requires Resolves(group, entries)
  {
    GroupDigestOf(hash, Shape(group, entries), Extraction(group), Metadata(group))
  }

  lemma {:induction false} NamedFieldsAppend(a: seq<Named>, b: seq<Named>)
    ensures NamedFields(a + b) == NamedFields(a) + NamedFields(b)
  {
    if a == [] {
      assert a + b == b;
    } else {
      assert (a + b)[1..] == a[1..] + b;
      NamedFieldsAppend(a[1..], b);
    }
  }

  method WriteNamed(encoder: DigestEncoder, items: seq<Named>)
    requires encoder.Valid()
    modifies encoder
    ensures encoder.Valid() && encoder.fields == old(encoder.fields) + NamedFields(items)
  {
    hide FrameAll;
    for i := 0 to |items|
      invariant encoder.Valid()
      invariant encoder.fields == old(encoder.fields) + NamedFields(items[..i])
    {
      encoder.WriteField(items[i].name);
      var rendered := HexBytes(items[i].digest);
      encoder.WriteField(rendered);
      assert items[..i + 1] == items[..i] + [items[i]];
      NamedFieldsAppend(items[..i], [items[i]]);
      assert NamedFields([items[i]]) == [items[i].name, rendered];
    }
    assert items[..|items|] == items;
  }

  ghost function FirstMissing(ids: seq<SignatureId>, entries: map<SignatureId, SignatureEntry>): Option<SignatureId> {
    if ids == [] then None
    else if ids[0] !in entries then Some(ids[0])
    else FirstMissing(ids[1..], entries)
  }

  lemma {:induction false} FirstMissingMeaning(ids: seq<SignatureId>, entries: map<SignatureId, SignatureEntry>)
    ensures FirstMissing(ids, entries).None? <==> forall id :: id in ids ==> id in entries
    ensures var m := FirstMissing(ids, entries); m.Some? ==> m.value in ids && m.value !in entries
  {
    if ids != [] { FirstMissingMeaning(ids[1..], entries); }
  }

  ghost function MissingEntry(group: Group, entries: map<SignatureId, SignatureEntry>): (r: Option<SignatureId>)
    ensures r.None? <==> Resolves(group, entries)
    ensures r.Some? ==> r.value in group.entryIds && r.value !in entries
  {
    FirstMissingMeaning(Ascending(IdLeq, group.entryIds), entries);
    FirstMissing(Ascending(IdLeq, group.entryIds), entries)
  }

  method NameEntries(ids: seq<SignatureId>, entries: map<SignatureId, SignatureEntry>)
    returns (named: Result<seq<Named>, InventoryError>)
    ensures match FirstMissing(ids, entries)
            case Some(id) => named == Failure(MissingSignatureEntry(id))
            case None => (forall id :: id in ids ==> id in entries) && named == Success(NamedEntries(ids, entries))
  {
    FirstMissingMeaning(ids, entries);
    var collected: seq<Named> := [];
    for i := 0 to |ids|
      invariant FirstMissing(ids, entries) == FirstMissing(ids[i..], entries)
      invariant |collected| == i
      invariant forall k :: 0 <= k < i ==> ids[k] in entries
      invariant collected == NamedEntries(ids[..i], entries)
    {
      assert ids[i..][0] == ids[i] && ids[i..][1..] == ids[i + 1..];
      if ids[i] !in entries {
        return Failure(MissingSignatureEntry(ids[i]));
      }
      assert ids[..i + 1] == ids[..i] + [ids[i]];
      collected := collected + [Named(entries[ids[i]].id.semantic, entries[ids[i]].digest)];
    }
    assert ids[..|ids|] == ids;
    named := Success(collected);
  }

  /** `SignatureGroup::source_shape_digest`; the first entry id without an entry is an error. */
  method SourceShapeDigest(hash: Hash, group: Group, entries: map<SignatureId, SignatureEntry>)
    returns (digest: Result<SignatureDigest, InventoryError>)
    ensures match MissingEntry(group, entries)
            case Some(id) => digest == Failure(MissingSignatureEntry(id))
            case None => digest == Success(hash(ShapeMessage(Shape(group, entries))))
  {
    IdLeqIsTotal();
    var ids := Enumerate(IdLeq, group.entryIds);
    var named := NameEntries(ids, entries);
    if named.Failure? {
      return Failure(named.error);
    }
    var sorted := Sort(NamedLeq, named.value);
    var encoder := new DigestEncoder(hash, GROUP_DOMAIN);
    encoder.WriteField(SOURCE_SHAPE);
    assert encoder.fields == [GROUP_DOMAIN, SOURCE_SHAPE];
    WriteNamed(encoder, sorted);
    var result := encoder.Finish();
    digest := Success(result);
  }

  /** `SignatureGroup::contract_digest` together with `InventoryGroupDigest::new`. */
  method GroupDigests(hash: Hash, group: Group, entries: map<SignatureId, SignatureEntry>)
    returns (digest: Result<GroupDigest, InventoryError>)
    ensures match MissingEntry(group, entries)
            case Some(id) => digest == Failure(MissingSignatureEntry(id))
            case None => digest == Success(DigestOf(hash, group, entries))
  {
    var sourceShape := SourceShapeDigest(hash, group, entries);
    if sourceShape.Failure? {
      return Failure(sourceShape.error);
    }
    var encoder := new DigestEncoder(hash, GROUP_DOMAIN);
    encoder.WriteField(CONTRACT);
    var rendered := HexBytes(sourceShape.value);
    encoder.WriteField(rendered);
    assert encoder.fields == [GROUP_DOMAIN, CONTRACT, rendered];
    encoder.WriteOptionalField(Extraction(group));
    encoder.WriteOptionalField(Metadata(group));
    assert encoder.fields
        == [GROUP_DOMAIN, CONTRACT, rendered] + (OptionalFields(Extraction(group)) + OptionalFields(Metadata(group)));
    var contract := encoder.Finish();
    digest := Success(GroupDigest(sourceShape.value, contract, Extraction(group), Metadata(group)));
  }

  // -------------------------------------------------------- inventory digests

  /** A group digest under the semantic label of its group id. */
  datatype Tagged = Tagged(name: Slice, group: GroupDigest)

  ghost predicate Complete(c: Contents) {
    forall g :: g in c.groups ==> Resolves(c.groups[g], c.entries)
  }

  ghost function TagAt(hash: Hash, c: Contents, g: SignatureId): Tagged
    requires g in c.groups && Resolves(c.groups[g], c.entries)
  {
    Tagged(g.semantic, DigestOf(hash, c.groups[g], c.entries))
  }

  ghost function Tags(hash: Hash, c: Contents, ids: seq<SignatureId>): (r: seq<Tagged>)
    requires forall g :: g in ids ==> g in c.groups && Resolves(c.groups[g], c.entries)
    ensures |r| == |ids|
  {
    seq(|ids|, i requires 0 <= i < |ids| =>
      assert ids[i] in ids;
      TagAt(hash, c, ids[i]))
  }

  /** The groups of an inventory, labelled, in the order of their ids. */
  ghost function TaggedGroups(hash: Hash, c: Contents): seq<Tagged>
    requires Complete(c)
  {
    Tags(hash, c, Ascending(IdLeq, c.groups.Keys))
  }

  function NamedContract(t: Tagged): Named {
    Named(t.name, t.group.contract)
  }

  function Contracts(tags: seq<Tagged>): seq<Named> {
    MapSeq(NamedContract, tags)
  }

  function InventoryMessage(contracts: seq<Named>): seq<Byte> {
    FrameAll([INVENTORY_DOMAIN, CONTRACT] + NamedFields(contracts))
  }

  ghost function ContractDigest(hash: Hash, c: Contents): SignatureDigest
    requires Complete(c)
  {
    hash(InventoryMessage(Sort(NamedLeq, Contracts(TaggedGroups(hash, c)))))
  }

  lemma ValidIsComplete(c: Contents)
    requires c.Valid()
    ensures Complete(c)
  {
  }

  ghost predicate FailsAt(c: Contents, g: SignatureId, error: InventoryError)
    requires g in c.groups
  {
    var missing := MissingEntry(c.groups[g], c.entries);
    missing.Some? && error == MissingSignatureEntry(missing.value)
  }

  /** The error names the least missing entry of the least group that misses one. */
  ghost predicate FirstFailure(c: Contents, error: InventoryError) {
    exists g, id :: g in c.groups && id in c.groups[g].entryIds && id !in c.entries
      && error == MissingSignatureEntry(id)
      && forall h, other :: h in c.groups && other in c.groups[h].entryIds && other !in c.entries ==>
           IdLeq(g, h) && (h == g ==> IdLeq(id, other))
  }

  lemma {:induction false} FirstMissingIsLeast(ids: seq<SignatureId>, entries: map<SignatureId, SignatureEntry>,
      id: SignatureId)
    requires Sorted(IdLeq, ids) && id in ids && id !in entries
    ensures FirstMissing(ids, entries).Some? && IdLeq(FirstMissing(ids, entries).value, id)
  {
    IdLeqIsTotal();
    if ids[0] in entries {
      assert ids == [ids[0]] + ids[1..];
      FirstMissingIsLeast(ids[1..], entries, id);
    }
  }

  /** In enumeration order, group `i` is the first to miss an entry. */
  ghost predicate FailsAtIndex(c: Contents, ids: seq<SignatureId>, i: nat, error: InventoryError) {
    && i < |ids| && ids[i] in c.groups && FailsAt(c, ids[i], error)
    && forall k :: 0 <= k < i ==> ids[k] in c.groups && Resolves(c.groups[ids[k]], c.entries)
  }

  lemma FailsHere(c: Contents, ids: seq<SignatureId>, i: nat, id: SignatureId)
    requires i < |ids| && ids[i] in c.groups && MissingEntry(c.groups[ids[i]], c.entries) == Some(id)
    requires forall k :: 0 <= k < i ==> ids[k] in c.groups && Resolves(c.groups[ids[k]], c.entries)
    ensures FailsAtIndex(c, ids, i, MissingSignatureEntry(id))
  {
    hide MissingEntry, Resolves;
  }

  lemma LeastOfGroup(group: Group, entries: map<SignatureId, SignatureEntry>, other: SignatureId)
    requires other in group.entryIds && other !in entries
    ensures MissingEntry(group, entries).Some? && IdLeq(MissingEntry(group, entries).value, other)
  {
    IdLeqIsTotal();
    AscendingIsSorted(IdLeq, group.entryIds);
    FirstMissingIsLeast(Ascending(IdLeq, group.entryIds), entries, other);
  }

  lemma LeastGroup(ids: seq<SignatureId>, i: nat, k: nat)
    requires Sorted(IdLeq, ids) && i <= k < |ids|
    ensures IdLeq(ids[i], ids[k])
  {
    IdLeqIsTotal();
  }

  lemma FailsFirst(c: Contents, ids: seq<SignatureId>, i: nat, error: InventoryError)
    requires Sorted(IdLeq, ids) && (forall g :: g in c.groups ==> g in ids)
    requires FailsAtIndex(c, ids, i, error)
    ensures FirstFailure(c, error) && !Complete(c)
  {
    hide IdLeq, Sorted;
    var g, id := ids[i], error.id;
    forall h, other | h in c.groups && other in c.groups[h].entryIds && other !in c.entries
      ensures IdLeq(g, h) && (h == g ==> IdLeq(id, other))
    {
      var k :| 0 <= k < |ids| && ids[k] == h;
      LeastGroup(ids, i, k);
      LeastOfGroup(c.groups[h], c.entries, other);
    }
  }

  method TagEach(hash: Hash, c: Contents, ids: seq<SignatureId>)
    returns (tags: Result<seq<Tagged>, InventoryError>)
    requires forall g :: g in ids ==> g in c.groups
    ensures tags.Success? ==> (forall g :: g in ids ==> Resolves(c.groups[g], c.entries))
                              && tags.value == Tags(hash, c, ids)
    ensures tags.Failure? ==> exists i: nat :: FailsAtIndex(c, ids, i, tags.error)
  {
    hide DigestOf, Resolves, FailsAtIndex, MissingEntry;
    var collected: seq<Tagged> := [];
    for i := 0 to |ids|
      invariant |collected| == i
      invariant forall k :: 0 <= k < i ==>
                  ids[k] in ids && Resolves(c.groups[ids[k]], c.entries) && collected[k] == TagAt(hash, c, ids[k])
    {
      assert ids[i] in ids;
      var digest := GroupDigests(hash, c.groups[ids[i]], c.entries);
      if digest.Failure? {
        FailsHere(c, ids, i, digest.error.id);
        return Failure(digest.error);
      }
      collected := collected + [Tagged(ids[i].semantic, digest.value)];
    }
    forall g | g in ids ensures Resolves(c.groups[g], c.entries) {
      var k :| 0 <= k < |ids| && ids[k] == g;
    }
    assert collected == Tags(hash, c, ids);
    tags := Success(collected);
  }

  /** The tagged groups, or the first missing entry met: the loop shared by every digest. */
  method CollectTags(hash: Hash, c: Contents) returns (tags: Result<seq<Tagged>, InventoryError>)
    ensures tags.Success? <==> Complete(c)
    ensures tags.Success? ==> tags.value == TaggedGroups(hash, c)
    ensures tags.Failure? ==> FirstFailure(c, tags.error)
  {
    hide Sorted, FailsAtIndex, FirstFailure, Resolves;
    IdLeqIsTotal();
    var ids := Enumerate(IdLeq, c.groups.Keys);
    tags := TagEach(hash, c, ids);
    if tags.Failure? {
      ghost var i: nat :| FailsAtIndex(c, ids, i, tags.error);
      FailsFirst(c, ids, i, tags.error);
    }
  }

  /** `SignatureInventory::contract_digest`. */
  method InventoryContractDigest(hash: Hash, inventory: SignatureInventory)
    returns (digest: Result<SignatureDigest, InventoryError>)
    ensures Complete(inventory.Value()) ==> digest == Success(ContractDigest(hash, inventory.Value()))
    ensures digest.Success? <==> Complete(inventory.Value())
    ensures digest.Failure? ==> FirstFailure(inventory.Value(), digest.error)
  {
    var tags := CollectTags(hash, inventory.Value());
    if tags.Failure? {
      return Failure(tags.error);
    }
    var contracts := Sort(NamedLeq, Contracts(tags.value));
    var encoder := new DigestEncoder(hash, INVENTORY_DOMAIN);
    encoder.WriteField(CONTRACT);
    assert encoder.fields == [INVENTORY_DOMAIN, CONTRACT];
    WriteNamed(encoder, contracts);
    var result := encoder.Finish();
    digest := Success(result);
  }

  /** Each digest in hexadecimal, one field a digest. */
  function DigestFields(digests: seq<SignatureDigest>): seq<Slice> {
    MapSeq(HexField, digests)
  }

  function HexField(digest: SignatureDigest): Slice {
    Hex(digest)
  }

  function ShapeDigest(t: Tagged): SignatureDigest {
    t.group.sourceShape
  }

  function ShapesMessage(digests: seq<SignatureDigest>): seq<Byte> {
    FrameAll([INVENTORY_DOMAIN, SOURCE_SHAPE] + DigestFields(digests))
  }

  /** The label-free identity of an inventory: its group shape digests in sorted order. */
  ghost function SourceShapeIdentity(hash: Hash, c: Contents): SignatureDigest
    requires Complete(c)
  {
    hash(ShapesMessage(Sort(DigestLeq, MapSeq(ShapeDigest, TaggedGroups(hash, c)))))
  }

  method WriteDigests(encoder: DigestEncoder, digests: seq<SignatureDigest>)
    requires encoder.Valid()
    modifies encoder
    ensures encoder.Valid() && encoder.fields == old(encoder.fields) + DigestFields(digests)
  {
    hide FrameAll;
    for i := 0 to |digests|
      invariant encoder.Valid()
      invariant encoder.fields == old(encoder.fields) + DigestFields(digests)[..i]
    {
      var rendered := HexBytes(digests[i]);
      assert HexField(digests[i]) == rendered;
      encoder.WriteField(rendered);
    }
  }

  /** `SignatureInventory::source_shape_digest`. */
  method InventorySourceShape(hash: Hash, inventory: SignatureInventory)
    returns (digest: Result<SignatureDigest, InventoryError>)
    ensures Complete(inventory.Value()) ==> digest == Success(SourceShapeIdentity(hash, inventory.Value()))
    ensures digest.Success? <==> Complete(inventory.Value())
    ensures digest.Failure? ==> digest.error.MissingSignatureEntry? && FirstFailure(inventory.Value(), digest.error)
  {
    var tags := CollectTags(hash, inventory.Value());
    if tags.Failure? {
      return Failure(tags.error);
    }
    var shapes := Sort(DigestLeq, MapSeq(ShapeDigest, tags.value));
    var encoder := new DigestEncoder(hash, INVENTORY_DOMAIN);
    encoder.WriteField(SOURCE_SHAPE);
    assert encoder.fields == [INVENTORY_DOMAIN, SOURCE_SHAPE];
    WriteDigests(encoder, shapes);
    var result := encoder.Finish();
    digest := Success(result);
  }

  // ------------------------------------------------------- the messages hashed

  /** The two families of messages whose hashes decide contract identity. */
  ghost function ContractMessages(hash: Hash, c: Contents): set<seq<Byte>>
    requires Complete(c)
  {
    {InventoryMessage(Sort(NamedLeq, Contracts(TaggedGroups(hash, c))))}
    + (set t | t in TaggedGroups(hash, c) ::
         GroupContractMessage(t.group.sourceShape, t.group.extraction, t.group.metadata))
  }

  lemma {:induction false} NamedFieldsInjective(a: seq<Named>, b: seq<Named>)
    requires NamedFields(a) == NamedFields(b)
    ensures a == b
  {
    assert |a| == |b|;
    if a != [] {
      var x, y := NamedFields(a), NamedFields(b);
      assert x[0] == y[0] && x[1] == y[1] && x[2..] == NamedFields(a[1..]) && y[2..] == NamedFields(b[1..]);
      HexInjective(a[0].digest, b[0].digest);
      NamedFieldsInjective(a[1..], b[1..]);
      assert a == [a[0]] + a[1..] && b == [b[0]] + b[1..];
    }
  }

  /** The two fields of an optional value, written out. */
  ghost predicate TaggedFields(value: Option<Slice>, fields: seq<seq<Byte>>) {
    fields == if value.Some? then [[1], value.value] else [[0]]
  }

  ghost predicate NamedRows(items: seq<Named>, fields: seq<seq<Byte>>) {
    && |fields| == 2 * |items|
    && forall i :: 0 <= i < |items| ==> fields[2 * i] == items[i].name && fields[2 * i + 1] == Hex(items[i].digest)
  }

  lemma {:induction false} NamedFieldsAt(items: seq<Named>)
    ensures NamedRows(items, NamedFields(items))
  {
    if items != [] {
      NamedFieldsAt(items[1..]);
      var rest := NamedFields(items[1..]);
      forall i | 0 < i < |items|
        ensures NamedFields(items)[2 * i] == items[i].name && NamedFields(items)[2 * i + 1] == Hex(items[i].digest)
      {
        assert rest[2 * (i - 1)] == items[1..][i - 1].name;
      }
    }
  }

  /** The layout of the four messages, field by field, as a reader of the framing sees them. */
  lemma MessagesRead(items: seq<Named>, s: SignatureDigest, e: Option<Slice>, m: Option<Slice>)
    ensures exists rows :: NamedRows(items, rows)
              && Unframed(ShapeMessage(items))
                 == Some([Ascii("conkit-signature:v2:group"), Ascii("source_shape")] + rows)
    ensures exists rows :: NamedRows(items, rows)
              && Unframed(InventoryMessage(items))
                 == Some([Ascii("conkit-signature:v2:inventory"), Ascii("contract")] + rows)
    ensures exists x, y :: TaggedFields(e, x) && TaggedFields(m, y)
              && Unframed(GroupContractMessage(s, e, m))
                 == Some([Ascii("conkit-signature:v2:group"), Ascii("contract"), Hex(s)] + x + y)
  {
    hide FrameAll, Unframed;
    var rows: seq<seq<Byte>> := NamedFields(items);
    var x: seq<seq<Byte>>, y: seq<seq<Byte>> := OptionalFields(e), OptionalFields(m);
    NamedFieldsAt(items);
    FramesRead([GROUP_DOMAIN, SOURCE_SHAPE] + NamedFields(items));
    FramesRead([INVENTORY_DOMAIN, CONTRACT] + NamedFields(items));
    FramesRead([GROUP_DOMAIN, CONTRACT, Hex(s)] + (OptionalFields(e) + OptionalFields(m)));
    assert [GROUP_DOMAIN, CONTRACT, Hex(s)] + (x + y) == [GROUP_DOMAIN, CONTRACT, Hex(s)] + x + y;
    assert TaggedFields(e, x) && TaggedFields(m, y);
  }

  /** The message hashed for an inventory determines its sorted labels and contract digests. */
  lemma InventoryMessageInjective(a: seq<Named>, b: seq<Named>)
    requires InventoryMessage(a) == InventoryMessage(b)
    ensures a == b
  {
    var x, y := [INVENTORY_DOMAIN, CONTRACT] + NamedFields(a), [INVENTORY_DOMAIN, CONTRACT] + NamedFields(b);
    FrameAllInjective(x, y);
    assert x[2..] == NamedFields(a) && y[2..] == NamedFields(b);
    NamedFieldsInjective(a, b);
  }

  /** The message hashed for a group's content determines that content. */
  lemma ShapeMessageInjective(a: seq<Named>, b: seq<Named>)
    requires ShapeMessage(a) == ShapeMessage(b)
    ensures a == b
  {
    var x, y := [GROUP_DOMAIN, SOURCE_SHAPE] + NamedFields(a), [GROUP_DOMAIN, SOURCE_SHAPE] + NamedFields(b);
    FrameAllInjective(x, y);
    assert x[2..] == NamedFields(a) && y[2..] == NamedFields(b);
    NamedFieldsInjective(a, b);
  }

  /** The message hashed for a group's contract determines its shape digest and its context. */
  lemma GroupContractMessageInjective(
      s: SignatureDigest, e: Option<Slice>, m: Option<Slice>, s': SignatureDigest, e': Option<Slice>, m': Option<Slice>)
    requires GroupContractMessage(s, e, m) == GroupContractMessage(s', e', m')
    ensures s == s' && e == e' && m == m'
  {
    var tail, tail' := OptionalFields(e) + OptionalFields(m), OptionalFields(e') + OptionalFields(m');
    var x, y := [GROUP_DOMAIN, CONTRACT, Hex(s)] + tail, [GROUP_DOMAIN, CONTRACT, Hex(s')] + tail';
    FrameAllInjective(x, y);
    assert x[2] == y[2] && x[3..] == tail && y[3..] == tail';
    HexInjective(s, s');
    OptionalFieldsInjective(e, e', OptionalFields(m), OptionalFields(m'));
    assert OptionalFields(m) + [] == OptionalFields(m) && OptionalFields(m') + [] == OptionalFields(m');
    OptionalFieldsInjective(m, m', [], []);
  }

  /** Domain separation: no message of one kind is a message of another. */
  lemma MessagesAreSeparated(canonical: Slice, shape: seq<Named>, s: SignatureDigest, e: Option<Slice>,
      m: Option<Slice>, contracts: seq<Named>)
    ensures EntryMessage(canonical) != ShapeMessage(shape)
    ensures EntryMessage(canonical) != GroupContractMessage(s, e, m)
    ensures EntryMessage(canonical) != InventoryMessage(contracts)
    ensures ShapeMessage(shape) != GroupContractMessage(s, e, m)
    ensures ShapeMessage(shape) != InventoryMessage(contracts)
    ensures GroupContractMessage(s, e, m) != InventoryMessage(contracts)
  {
    var entry: seq<Slice> := [ENTRY_DOMAIN, canonical];
    var source: seq<Slice> := [GROUP_DOMAIN, SOURCE_SHAPE] + NamedFields(shape);
    var group: seq<Slice> := [GROUP_DOMAIN, CONTRACT, Hex(s)] + (OptionalFields(e) + OptionalFields(m));
    var inventory: seq<Slice> := [INVENTORY_DOMAIN, CONTRACT] + NamedFields(contracts);
    assert entry[0] == ENTRY_DOMAIN && source[0] == group[0] == GROUP_DOMAIN && inventory[0] == INVENTORY_DOMAIN;
    assert source[1] == SOURCE_SHAPE && group[1] == CONTRACT;
    assert |INVENTORY_DOMAIN| == 29 && |ENTRY_DOMAIN| == |GROUP_DOMAIN| == 25;
    assert |SOURCE_SHAPE| == 12 && |CONTRACT| == 8;
    assert ENTRY_DOMAIN[20] == 'e' as int && GROUP_DOMAIN[20] == 'g' as int;
    FramesDiffer(entry, source);
    FramesDiffer(entry, group);
    FramesDiffer(entry, inventory);
    FramesDiffer(source, group);
    FramesDiffer(source, inventory);
    FramesDiffer(group, inventory);
  }

  lemma FramesDiffer(a: seq<Slice>, b: seq<Slice>)
    requires a != b
    ensures FrameAll(a) != FrameAll(b)
  {
    if FrameAll(a) == FrameAll(b) {
      FrameAllInjective(a, b);
    }
  }
}
