/** Comparing a source inventory with the contract inventory that describes it. */
module Compare {
  import opened Wrappers
  import opened Orders
  import opened Digest
  import opened Inventory
  import opened InventoryDigests

  datatype Diagnostic =
    | Missing(id: SignatureId)
    | Extra(id: SignatureId)
    | Mismatched(id: SignatureId, expected: SignatureDigest, actual: SignatureDigest)

  type Reports = map<SignatureId, Diagnostic>

  datatype Comparison = Comparison(
    sourceCount: nat,
    contractCount: nat,
    sourceShape: SignatureDigest,
    diagnostics: seq<Diagnostic>)

  /** An expected entry the source lacks or carries with another digest. */
  predicate Differs(source: Contents, expected: Contents, id: SignatureId) {
    id in expected.entries &&
    (id !in source.entries || source.entries[id].digest != expected.entries[id].digest)
  }

  predicate IsExtra(source: Contents, expected: Contents, id: SignatureId) {
    id in source.entries && id !in expected.entries
  }

  /** The group an extra source entry is charged to: the expected group of its structural peer. */
  function Charged(source: Contents, expected: Contents, id: SignatureId): SignatureId
    requires id in source.entries
  {
    var g := source.entries[id].groupId;
    if g in expected.entries then expected.entries[g].groupId else g
  }

  ghost function ShapeOf(hash: Hash, c: Contents, g: SignatureId): SignatureDigest
    requires g in c.groups && Resolves(c.groups[g], c.entries)
  {
    hash(ShapeMessage(Shape(c.groups[g], c.entries)))
  }

  /** What a differing entry makes its expected group report. */
  ghost function ReportFor(hash: Hash, source: Contents, expected: Contents, id: SignatureId): Diagnostic
    requires source.Valid() && expected.Valid() && id in expected.entries
  {
    var g := expected.entries[id].groupId;
    if id !in source.entries then Missing(g)
    else Mismatched(g, ShapeOf(hash, expected, g), ShapeOf(hash, source, source.entries[id].groupId))
  }

  ghost function AfterExpected(hash: Hash, source: Contents, expected: Contents, ids: seq<SignatureId>,
      reports: Reports): Reports
    requires source.Valid() && expected.Valid() && forall id :: id in ids ==> id in expected.entries
    decreases |ids|
  {
    if ids == [] then reports else
      assert ids[0] in ids;
      var g := expected.entries[ids[0]].groupId;
      AfterExpected(hash, source, expected, ids[1..],
        if g !in reports && Differs(source, expected, ids[0])
        then reports[g := ReportFor(hash, source, expected, ids[0])] else reports)
  }

  ghost function AfterExtras(source: Contents, expected: Contents, ids: seq<SignatureId>, reports: Reports): Reports
    requires forall id :: id in ids ==> id in source.entries
    decreases |ids|
  {
    if ids == [] then reports else
      assert ids[0] in ids;
      var g := Charged(source, expected, ids[0]);
      AfterExtras(source, expected, ids[1..],
        if ids[0] !in expected.entries && g !in reports then reports[g := Extra(g)] else reports)
  }

  ghost function AllReports(hash: Hash, source: Contents, expected: Contents): Reports
    requires source.Valid() && expected.Valid()
  {
    AfterExtras(source, expected, Ascending(IdLeq, source.entries.Keys),
      AfterExpected(hash, source, expected, Ascending(IdLeq, expected.entries.Keys), map[]))
  }

  function InOrder(reports: Reports, keys: seq<SignatureId>): (r: seq<Diagnostic>)
    requires forall k :: k in keys ==> k in reports
    ensures |r| == |keys|
  {
    seq(|keys|, i requires 0 <= i < |keys| => assert keys[i] in keys; reports[keys[i]])
  }

  // ------------------------------------------------------- the two loops

  lemma {:induction false} ExpectedOnlyGrows(hash: Hash, source: Contents, expected: Contents,
      ids: seq<SignatureId>, reports: Reports)
    requires source.Valid() && expected.Valid() && forall id :: id in ids ==> id in expected.entries
    ensures |AfterExpected(hash, source, expected, ids, reports)| >= |reports|
    decreases |ids|
  {
    hide ReportFor, Differs, Contents.Valid;
    if ids != [] {
      assert ids[0] in ids;
      var g := expected.entries[ids[0]].groupId;
      var next := if g !in reports && Differs(source, expected, ids[0])
                  then reports[g := ReportFor(hash, source, expected, ids[0])] else reports;
      ExpectedOnlyGrows(hash, source, expected, ids[1..], next);
    }
  }

  lemma {:induction false} ExtrasOnlyGrow(source: Contents, expected: Contents, ids: seq<SignatureId>, reports: Reports)
    requires forall id :: id in ids ==> id in source.entries
    ensures |AfterExtras(source, expected, ids, reports)| >= |reports|
    decreases |ids|
  {
    hide Charged;
    if ids != [] {
      assert ids[0] in ids;
      var g := Charged(source, expected, ids[0]);
      var next := if ids[0] !in expected.entries && g !in reports then reports[g := Extra(g)] else reports;
      ExtrasOnlyGrow(source, expected, ids[1..], next);
    }
  }

  ghost predicate WellFormed(source: Contents, expected: Contents) {
    source.Valid() && expected.Valid()
  }

  lemma ExpectedStep(hash: Hash, source: Contents, expected: Contents, ids: seq<SignatureId>, i: nat, reports: Reports)
    requires WellFormed(source, expected) && i < |ids| && forall id :: id in ids ==> id in expected.entries
    ensures ids[i] in expected.entries
    ensures var g := expected.entries[ids[i]].groupId;
            AfterExpected(hash, source, expected, ids[i..], reports)
            == AfterExpected(hash, source, expected, ids[i + 1..],
                             if g !in reports && Differs(source, expected, ids[i])
                             then reports[g := ReportFor(hash, source, expected, ids[i])] else reports)
  {
    hide Contents.Valid, ReportFor, Differs;
    assert ids[i] in ids && ids[i..][0] == ids[i] && ids[i..][1..] == ids[i + 1..];
  }

  method CheckExpected(hash: Hash, source: Contents, expected: Contents, ids: seq<SignatureId>, limit: nat)
    returns (r: Result<Reports, InventoryError>)
    requires forall id :: id in ids ==> id in expected.entries
    ensures WellFormed(source, expected) ==>
      (var all := AfterExpected(hash, source, expected, ids, map[]);
       if |all| <= limit then r == Success(all) else r == Failure(DiagnosticCountExceeded(limit, limit + 1)))
    ensures r.Success? ==> |r.value| <= limit
    ensures r.Failure? && !r.error.DiagnosticCountExceeded? ==> !WellFormed(source, expected)
  {
    hide Contents.Valid, ReportFor, AfterExpected, Differs;
    var reports: Reports := map[];
    assert ids[0..] == ids;
    for i := 0 to |ids|
      invariant WellFormed(source, expected) ==>
        AfterExpected(hash, source, expected, ids, map[]) == AfterExpected(hash, source, expected, ids[i..], reports)
      invariant |reports| <= limit
    {
      assert ids[i] in ids;
      if WellFormed(source, expected) { ExpectedStep(hash, source, expected, ids, i, reports); }
      var g := expected.entries[ids[i]].groupId;
      if g !in reports && Differs(source, expected, ids[i]) {
        var report := Report(hash, source, expected, ids[i]);
        if report.Failure? {
          return Failure(report.error);
        }
        reports := reports[g := report.value];
        if WellFormed(source, expected) {
          ExpectedOnlyGrows(hash, source, expected, ids[i + 1..], reports);
        }
        if |reports| > limit {
          return Failure(DiagnosticCountExceeded(limit, |reports|));
        }
      }
    }
    if WellFormed(source, expected) { NothingExpected(hash, source, expected, reports); }
    assert ids[|ids|..] == [];
    r := Success(reports);
  }

  lemma NothingExpected(hash: Hash, source: Contents, expected: Contents, reports: Reports)
    requires WellFormed(source, expected)
    ensures AfterExpected(hash, source, expected, [], reports) == reports
  {
  }

  lemma ValidGroups(c: Contents, id: SignatureId)
    requires c.Valid() && id in c.entries
    ensures c.entries[id].groupId in c.groups
    ensures Resolves(c.groups[c.entries[id].groupId], c.entries)
  {
  }

  method Report(hash: Hash, source: Contents, expected: Contents, id: SignatureId)
    returns (report: Result<Diagnostic, InventoryError>)
    requires id in expected.entries
    ensures WellFormed(source, expected) ==> report == Success(ReportFor(hash, source, expected, id))
    ensures report.Failure? ==> report.error.MissingSignatureGroup? || report.error.MissingSignatureEntry?
  {
    hide Shape, ShapeMessage;
    ghost var valid := WellFormed(source, expected);
    var g := expected.entries[id].groupId;
    if id !in source.entries {
      return Success(Missing(g));
    }
    var h := source.entries[id].groupId;
    if valid {
      ValidGroups(expected, id);
      ValidGroups(source, id);
    }
    if g !in expected.groups {
      return Failure(MissingSignatureGroup(g));
    }
    if h !in source.groups {
      return Failure(MissingSignatureGroup(h));
    }
    var expectedShape := SourceShapeDigest(hash, expected.groups[g], expected.entries);
    if expectedShape.Failure? {
      return Failure(expectedShape.error);
    }
    var actualShape := SourceShapeDigest(hash, source.groups[h], source.entries);
    if actualShape.Failure? {
      return Failure(actualShape.error);
    }
    report := Success(Mismatched(g, expectedShape.value, actualShape.value));
  }

  method CheckExtras(source: Contents, expected: Contents, ids: seq<SignatureId>, start: Reports, limit: nat)
    returns (r: Result<Reports, InventoryError>)
    requires |start| <= limit && forall id :: id in ids ==> id in source.entries
    ensures var all := AfterExtras(source, expected, ids, start);
            if |all| <= limit then r == Success(all) else r == Failure(DiagnosticCountExceeded(limit, limit + 1))
    ensures r.Failure? ==> r.error.DiagnosticCountExceeded?
  {
    hide Charged;
    var reports := start;
    for i := 0 to |ids|
      invariant AfterExtras(source, expected, ids, start) == AfterExtras(source, expected, ids[i..], reports)
      invariant |reports| <= limit
    {
      assert ids[i] in ids && ids[i..][0] == ids[i] && ids[i..][1..] == ids[i + 1..];
      if ids[i] !in expected.entries {
        var g := Charged(source, expected, ids[i]);
        if g !in reports {
          reports := reports[g := Extra(g)];
        }
      }
      ExtrasOnlyGrow(source, expected, ids[i + 1..], reports);
      if |reports| > limit {
        return Failure(DiagnosticCountExceeded(limit, |reports|));
      }
    }
    r := Success(reports);
  }

  /** `compare_against`: one diagnostic a reporting group, in ascending group order; typed
      missing-group and missing-entry errors arise only from malformed inventories. */
  method CompareAgainst(hash: Hash, source: SignatureInventory, expected: SignatureInventory, limit: nat)
    returns (r: Result<Comparison, InventoryError>)
    ensures WellFormed(source.Value(), expected.Value()) ==>
      (var all := AllReports(hash, source.Value(), expected.Value());
       ValidIsComplete(source.Value());
       if |all| <= limit
       then r == Success(Comparison(|source.groups|, |expected.groups|, SourceShapeIdentity(hash, source.Value()),
                                    InOrder(all, Ascending(IdLeq, all.Keys))))
       else r == Failure(DiagnosticCountExceeded(limit, limit + 1)))
    ensures r.Success? && WellFormed(source.Value(), expected.Value()) ==>
              Explains(hash, source.Value(), expected.Value(), r.value.diagnostics)
    ensures r.Failure? && !r.error.DiagnosticCountExceeded? ==> !WellFormed(source.Value(), expected.Value())
  {
    hide Contents.Valid, AfterExpected, AfterExtras, SourceShapeIdentity, Complete, Explains;
    IdLeqIsTotal();
    var s, e := source.Value(), expected.Value();
    var expectedIds := Enumerate(IdLeq, e.entries.Keys);
    var sourceIds := Enumerate(IdLeq, s.entries.Keys);
    var differing := CheckExpected(hash, s, e, expectedIds, limit);
    if WellFormed(s, e) {
      ExtrasOnlyGrow(s, e, sourceIds, AfterExpected(hash, s, e, expectedIds, map[]));
      ValidIsComplete(s);
    }
    if differing.Failure? {
      return Failure(differing.error);
    }
    var all := CheckExtras(s, e, sourceIds, differing.value, limit);
    if all.Failure? {
      return Failure(all.error);
    }
    var shape := InventorySourceShape(hash, source);
    if shape.Failure? {
      return Failure(shape.error);
    }
    var keys := Enumerate(IdLeq, all.value.Keys);
    if WellFormed(s, e) { ReportsExplain(hash, s, e); }
    r := Success(Comparison(|source.groups|, |expected.groups|, shape.value, InOrder(all.value, keys)));
  }

  // ------------------------------------------------- what the reports say

  ghost function FirstDiffering(source: Contents, expected: Contents, ids: seq<SignatureId>,
      g: SignatureId): Option<SignatureId> {
    if ids == [] then None
    else if Differs(source, expected, ids[0]) && expected.entries[ids[0]].groupId == g then Some(ids[0])
    else FirstDiffering(source, expected, ids[1..], g)
  }

  lemma {:induction false} FirstDifferingMeaning(source: Contents, expected: Contents, ids: seq<SignatureId>,
      g: SignatureId)
    ensures var first := FirstDiffering(source, expected, ids, g);
            && (first.Some? ==> first.value in ids && Differs(source, expected, first.value))
            && (first.Some? ==> expected.entries[first.value].groupId == g)
            && (first.None? <==> forall id :: id in ids && Differs(source, expected, id) ==> expected.entries[id].groupId != g)
  {
    if ids != [] {
      FirstDifferingMeaning(source, expected, ids[1..], g);
      assert ids == [ids[0]] + ids[1..];
    }
  }

  lemma {:induction false} AfterExpectedAt(hash: Hash, source: Contents, expected: Contents, ids: seq<SignatureId>,
      reports: Reports, g: SignatureId)
    requires source.Valid() && expected.Valid() && forall id :: id in ids ==> id in expected.entries
    ensures var all, first := AfterExpected(hash, source, expected, ids, reports), FirstDiffering(source, expected, ids, g);
            && (g in all <==> g in reports || first.Some?)
            && (g in reports ==> all[g] == reports[g])
            && (first.Some? ==> first.value in expected.entries)
            && (g !in reports && first.Some? ==> all[g] == ReportFor(hash, source, expected, first.value))
    decreases |ids|
  {
    hide ReportFor, Contents.Valid;
    if ids != [] {
      assert ids[0] in ids;
      var h := expected.entries[ids[0]].groupId;
      var next := if h !in reports && Differs(source, expected, ids[0])
                  then reports[h := ReportFor(hash, source, expected, ids[0])] else reports;
      AfterExpectedAt(hash, source, expected, ids[1..], next, g);
    }
  }

  ghost predicate ChargedFrom(source: Contents, expected: Contents, ids: seq<SignatureId>, g: SignatureId) {
    exists id :: id in ids && IsExtra(source, expected, id) && Charged(source, expected, id) == g
  }

  lemma {:induction false} AfterExtrasAt(source: Contents, expected: Contents, ids: seq<SignatureId>,
      reports: Reports, g: SignatureId)
    requires forall id :: id in ids ==> id in source.entries
    ensures var all := AfterExtras(source, expected, ids, reports);
            && (g in all <==> g in reports || ChargedFrom(source, expected, ids, g))
            && (g in all ==> all[g] == if g in reports then reports[g] else Extra(g))
    decreases |ids|
  {
    hide Charged;
    if ids != [] {
      assert ids[0] in ids && ids == [ids[0]] + ids[1..];
      var h := Charged(source, expected, ids[0]);
      var next := if ids[0] !in expected.entries && h !in reports then reports[h := Extra(h)] else reports;
      AfterExtrasAt(source, expected, ids[1..], next, g);
    }
  }

  ghost predicate HasDiffering(source: Contents, expected: Contents, g: SignatureId) {
    exists id :: Differs(source, expected, id) && expected.entries[id].groupId == g
  }

  ghost predicate HasExtra(source: Contents, expected: Contents, g: SignatureId) {
    exists id :: IsExtra(source, expected, id) && Charged(source, expected, id) == g
  }

  /** A group reports exactly when a differing entry belongs to it or an extra entry is charged to
      it; a differing entry decides the report, and it is the least differing one of the group. */
  lemma ReportsAreExact(hash: Hash, source: Contents, expected: Contents, g: SignatureId)
    requires source.Valid() && expected.Valid()
    ensures var all := AllReports(hash, source, expected);
            var first := FirstDiffering(source, expected, Ascending(IdLeq, expected.entries.Keys), g);
            && (g in all <==> HasDiffering(source, expected, g) || HasExtra(source, expected, g))
            && (first.Some? <==> HasDiffering(source, expected, g))
            && (first.Some? ==> first.value in expected.entries && g in all
                                && all[g] == ReportFor(hash, source, expected, first.value))
            && (first.None? && g in all ==> all[g] == Extra(g))
  {
    hide ReportFor, Charged, Contents.Valid, AfterExpected, AfterExtras;
    var ids, extras := Ascending(IdLeq, expected.entries.Keys), Ascending(IdLeq, source.entries.Keys);
    AfterExpectedAt(hash, source, expected, ids, map[], g);
    AfterExtrasAt(source, expected, extras, AfterExpected(hash, source, expected, ids, map[]), g);
    FirstDifferingMeaning(source, expected, ids, g);
    assert forall id :: Differs(source, expected, id) ==> id in ids;
    assert forall id :: IsExtra(source, expected, id) ==> id in extras;
  }

  lemma {:induction false} FirstIsLeast(source: Contents, expected: Contents, ids: seq<SignatureId>, g: SignatureId,
      id: SignatureId)
    requires Sorted(IdLeq, ids) && id in ids && Differs(source, expected, id) && expected.entries[id].groupId == g
    ensures FirstDiffering(source, expected, ids, g).Some? && IdLeq(FirstDiffering(source, expected, ids, g).value, id)
  {
    IdLeqIsTotal();
    if ids[0] != id && !(Differs(source, expected, ids[0]) && expected.entries[ids[0]].groupId == g) {
      assert ids == [ids[0]] + ids[1..];
      FirstIsLeast(source, expected, ids[1..], g, id);
    }
  }

  /** Completeness: every entry on which the two sides differ is charged to a reporting group. */
  lemma EveryDifferenceIsReported(hash: Hash, source: Contents, expected: Contents, id: SignatureId)
    requires source.Valid() && expected.Valid()
    ensures Differs(source, expected, id) ==> expected.entries[id].groupId in AllReports(hash, source, expected)
    ensures IsExtra(source, expected, id) ==> Charged(source, expected, id) in AllReports(hash, source, expected)
  {
    hide AllReports, Contents.Valid;
    if Differs(source, expected, id) {
      ReportsAreExact(hash, source, expected, expected.entries[id].groupId);
    }
    if IsExtra(source, expected, id) {
      ReportsAreExact(hash, source, expected, Charged(source, expected, id));
    }
  }

  /** The two sides hold the same entry ids with equal digests, whatever the grouping. */
  ghost predicate SameEntries(source: Contents, expected: Contents) {
    && source.entries.Keys == expected.entries.Keys
    && forall id :: id in expected.entries ==> source.entries[id].digest == expected.entries[id].digest
  }

  /** No diagnostics exactly when both sides hold the same entry ids with equal digests. */
  lemma NoReportsIffSameEntries(hash: Hash, source: Contents, expected: Contents)
    requires source.Valid() && expected.Valid()
    ensures AllReports(hash, source, expected) == map[] <==> SameEntries(source, expected)
  {
    hide AllReports, Contents.Valid, Charged;
    var all := AllReports(hash, source, expected);
    if all == map[] {
      forall id ensures !Differs(source, expected, id) && !IsExtra(source, expected, id) {
        EveryDifferenceIsReported(hash, source, expected, id);
      }
      forall id ensures id in source.entries <==> id in expected.entries {
        assert !Differs(source, expected, id) && !IsExtra(source, expected, id);
      }
      forall id | id in expected.entries ensures source.entries[id].digest == expected.entries[id].digest {
        assert !Differs(source, expected, id);
      }
    }
    if SameEntries(source, expected) {
      forall g ensures g !in all {
        ReportsAreExact(hash, source, expected, g);
      }
    }
  }

  /** The canonical content of the group an entry belongs to. */
  ghost function EntryShape(c: Contents, id: SignatureId): seq<Named>
    requires c.Valid() && id in c.entries
  {
    ValidGroups(c, id);
    Shape(c.groups[c.entries[id].groupId], c.entries)
  }

  // ------------------------------------------- the diagnostics, read one by one

  /** Expected entry `id` of group `g` is absent from the source or has another digest there. */
  ghost predicate DiffersIn(source: Contents, expected: Contents, g: SignatureId, id: SignatureId) {
    && id in expected.entries && expected.entries[id].groupId == g
    && (id in source.entries ==> source.entries[id].digest != expected.entries[id].digest)
  }

  ghost predicate LeastDiffering(source: Contents, expected: Contents, g: SignatureId, id: SignatureId) {
    && DiffersIn(source, expected, g, id)
    && forall other :: DiffersIn(source, expected, g, other) ==> other == id || IdBefore(id, other)
  }

  /** A source entry that is not expected counts against the expected group of the entry its own
      group is named after, or else against its own group. */
  ghost predicate ExtraFor(source: Contents, expected: Contents, g: SignatureId, id: SignatureId) {
    && id in source.entries && id !in expected.entries
    && var h := source.entries[id].groupId;
       if h in expected.entries then g == expected.entries[h].groupId else g == h
  }

  /** What one diagnostic says. A mismatch shows the contract's shape digest as expected and the
      source's as actual. */
  ghost predicate Explained(hash: Hash, source: Contents, expected: Contents, d: Diagnostic)
    requires source.Valid() && expected.Valid()
  {
    match d
    case Missing(g) => exists id :: LeastDiffering(source, expected, g, id) && id !in source.entries
    case Mismatched(g, wanted, found) =>
      exists id :: id in expected.entries && id in source.entries && LeastDiffering(source, expected, g, id)
        && wanted == hash(ShapeMessage(EntryShape(expected, id)))
        && found == hash(ShapeMessage(EntryShape(source, id)))
    case Extra(g) =>
      && (forall id :: !DiffersIn(source, expected, g, id))
      && exists id :: ExtraFor(source, expected, g, id)
  }

  /** One diagnostic, in id order, for exactly the groups with a differing or an extra entry. */
  ghost predicate Explains(hash: Hash, source: Contents, expected: Contents, ds: seq<Diagnostic>)
    requires source.Valid() && expected.Valid()
  {
    && (forall i, j :: 0 <= i < j < |ds| ==> IdBefore(ds[i].id, ds[j].id))
    && (forall i :: 0 <= i < |ds| ==> Explained(hash, source, expected, ds[i]))
    && (forall g, id :: DiffersIn(source, expected, g, id) || ExtraFor(source, expected, g, id) ==>
          exists i :: 0 <= i < |ds| && ds[i].id == g)
  }

  lemma DiffersMeans(source: Contents, expected: Contents, g: SignatureId, id: SignatureId)
    ensures DiffersIn(source, expected, g, id) <==> Differs(source, expected, id) && expected.entries[id].groupId == g
    ensures ExtraFor(source, expected, g, id) <==> IsExtra(source, expected, id) && Charged(source, expected, id) == g
  {
  }

  lemma FirstBefore(source: Contents, expected: Contents, g: SignatureId, first: SignatureId, other: SignatureId)
    requires FirstDiffering(source, expected, Ascending(IdLeq, expected.entries.Keys), g) == Some(first)
    requires DiffersIn(source, expected, g, other)
    ensures other == first || IdBefore(first, other)
  {
    hide IdLeq, BytesBefore, Sorted, TotalOrder;
    var ids := Ascending(IdLeq, expected.entries.Keys);
    IdLeqIsTotal();
    AscendingIsSorted(IdLeq, expected.entries.Keys);
    assert other in ids;
    FirstIsLeast(source, expected, ids, g, other);
    IdLeqMeans(first, other);
  }

  lemma FirstIsLeastDiffering(source: Contents, expected: Contents, g: SignatureId)
    ensures match FirstDiffering(source, expected, Ascending(IdLeq, expected.entries.Keys), g)
            case Some(id) => LeastDiffering(source, expected, g, id)
            case None => forall id :: !DiffersIn(source, expected, g, id)
  {
    hide IdLeq, DiffersIn, Differs, IdBefore;
    var ids := Ascending(IdLeq, expected.entries.Keys);
    FirstDifferingMeaning(source, expected, ids, g);
    match FirstDiffering(source, expected, ids, g) {
      case Some(first) =>
        DiffersMeans(source, expected, g, first);
        forall other | DiffersIn(source, expected, g, other) ensures other == first || IdBefore(first, other) {
          FirstBefore(source, expected, g, first, other);
        }
      case None =>
        forall id ensures !DiffersIn(source, expected, g, id) {
          DiffersMeans(source, expected, g, id);
          if DiffersIn(source, expected, g, id) { InDiffering(source, expected, g, id); }
        }
    }
  }

  lemma InDiffering(source: Contents, expected: Contents, g: SignatureId, id: SignatureId)
    requires DiffersIn(source, expected, g, id)
    ensures id in expected.entries
  {
  }

  lemma ReportExplained(hash: Hash, source: Contents, expected: Contents, g: SignatureId)
    requires source.Valid() && expected.Valid() && g in AllReports(hash, source, expected)
    ensures AllReports(hash, source, expected)[g].id == g
    ensures Explained(hash, source, expected, AllReports(hash, source, expected)[g])
  {
    hide AllReports, Contents.Valid, Charged, Shape, ShapeMessage, LeastDiffering, DiffersIn, ExtraFor, Differs;
    ReportsAreExact(hash, source, expected, g);
    FirstIsLeastDiffering(source, expected, g);
    match FirstDiffering(source, expected, Ascending(IdLeq, expected.entries.Keys), g) {
      case Some(id) =>
        GroupOfLeast(source, expected, g, id);
        ValidGroups(expected, id);
        if id in source.entries { ValidGroups(source, id); }
      case None =>
        var id :| id in source.entries && IsExtra(source, expected, id) && Charged(source, expected, id) == g;
        DiffersMeans(source, expected, g, id);
    }
  }

  lemma GroupOfLeast(source: Contents, expected: Contents, g: SignatureId, id: SignatureId)
    requires LeastDiffering(source, expected, g, id)
    ensures id in expected.entries && expected.entries[id].groupId == g
  {
  }

  lemma ReportsExplain(hash: Hash, source: Contents, expected: Contents)
    requires source.Valid() && expected.Valid()
    ensures var all := AllReports(hash, source, expected);
            Explains(hash, source, expected, InOrder(all, Ascending(IdLeq, all.Keys)))
  {
    hide AllReports, Contents.Valid, Charged, DiffersIn, ExtraFor, IsExtra, Differs, Explained, IdLeq, BytesBefore;
    var all := AllReports(hash, source, expected);
    var keys := Ascending(IdLeq, all.Keys);
    var ds := InOrder(all, keys);
    IdLeqIsTotal();
    AscendingIsSorted(IdLeq, all.Keys);
    AscendingIsDistinct(IdLeq, all.Keys);
    forall i | 0 <= i < |ds| ensures ds[i].id == keys[i] && Explained(hash, source, expected, ds[i]) {
      assert keys[i] in keys;
      ReportExplained(hash, source, expected, keys[i]);
    }
    forall i, j | 0 <= i < j < |ds| ensures IdBefore(ds[i].id, ds[j].id) {
      IdLeqMeans(keys[i], keys[j]);
    }
    forall g, id | DiffersIn(source, expected, g, id) || ExtraFor(source, expected, g, id)
      ensures exists i :: 0 <= i < |ds| && ds[i].id == g
    {
      DiffersMeans(source, expected, g, id);
      EveryDifferenceIsReported(hash, source, expected, id);
      assert g in keys;
      var i :| 0 <= i < |keys| && keys[i] == g;
      assert ds[i].id == g;
    }
  }

  /** No other entry of the group of `id` bears its semantic name. */
  ghost predicate NameIsUnique(c: Contents, id: SignatureId)
    requires c.Valid() && id in c.entries
  {
    ValidGroups(c, id);
    forall other :: other in c.groups[c.entries[id].groupId].entryIds && other.semantic == id.semantic ==> (other == id)
  }

  /** Exactly when a reported mismatch shows two different digests: when the two groups differ in
      content, the hash not colliding on it. */
  lemma MismatchIsExact(hash: Hash, source: Contents, expected: Contents, id: SignatureId)
    requires source.Valid() && expected.Valid() && Differs(source, expected, id) && id in source.entries
    requires NoCollision(hash, {ShapeMessage(EntryShape(expected, id)), ShapeMessage(EntryShape(source, id))})
    ensures var report := ReportFor(hash, source, expected, id);
            report.Mismatched?
            && (report.expected != report.actual <==> EntryShape(expected, id) != EntryShape(source, id))
  {
    hide ShapeMessage, Shape, Contents.Valid;
    var a, b := EntryShape(expected, id), EntryShape(source, id);
    ValidGroups(expected, id);
    ValidGroups(source, id);
    if ShapeMessage(a) == ShapeMessage(b) {
      ShapeMessageInjective(a, b);
    }
  }

  /** Where the semantic names of the source group's entries are distinct the contents do differ. */
  lemma MismatchShowsDifference(hash: Hash, source: Contents, expected: Contents, id: SignatureId)
    requires source.Valid() && expected.Valid() && Differs(source, expected, id) && id in source.entries
    requires NameIsUnique(source, id)
    requires NoCollision(hash, {ShapeMessage(EntryShape(expected, id)), ShapeMessage(EntryShape(source, id))})
    ensures var report := ReportFor(hash, source, expected, id);
            report.Mismatched? && report.expected != report.actual
  {
    hide ShapeMessage, Shape, Contents.Valid;
    var named := Named(id.semantic, expected.entries[id].digest);
    ValidGroups(source, id);
    ShapeHolds(expected, expected.entries[id].groupId, id);
    if named in EntryShape(source, id) {
      var other := ShapeWitness(source, source.entries[id].groupId, named);
    }
    MismatchIsExact(hash, source, expected, id);
  }

  /** Entries that carry their group's document scope never share a semantic name within it. */
  lemma ScopesMakeNamesUnique(c: Contents, id: SignatureId)
    requires c.Valid() && c.ScopesAgree() && id in c.entries
    ensures NameIsUnique(c, id)
  {
    ValidGroups(c, id);
    var g := c.entries[id].groupId;
    forall other | other in c.groups[g].entryIds && other.semantic == id.semantic ensures other == id {
      assert c.entries[other].groupId == g && ScopeOf(other) == ScopeOf(g) == ScopeOf(id);
      assert other.value == ScopeOf(other).value + other.semantic && id.value == ScopeOf(id).value + id.semantic;
    }
  }

  /** For inventories whose entries carry their group's document scope, as all built by the parsers
      do, a reported mismatch always shows two different digests. */
  lemma ScopedMismatchShowsDifference(hash: Hash, source: Contents, expected: Contents, id: SignatureId)
    requires source.Valid() && expected.Valid() && Differs(source, expected, id) && id in source.entries
    requires source.ScopesAgree()
    requires NoCollision(hash, {ShapeMessage(EntryShape(expected, id)), ShapeMessage(EntryShape(source, id))})
    ensures var report := ReportFor(hash, source, expected, id);
            report.Mismatched? && report.expected != report.actual
  {
    ScopesMakeNamesUnique(source, id);
    MismatchShowsDifference(hash, source, expected, id);
  }

  /** An inventory of one group with two entries. */
  function TwoEntries(g: SignatureId, x: SignatureId, d: SignatureDigest, y: SignatureId, e: SignatureDigest): Contents {
    Contents(map[x := SignatureEntry(x, g, d), y := SignatureEntry(y, g, e)], map[g := Group({x, y}, None)])
  }

  lemma TwoEntriesValid(g: SignatureId, x: SignatureId, d: SignatureDigest, y: SignatureId, e: SignatureDigest)
    requires x != y
    ensures TwoEntries(g, x, d, y, e).Valid()
  {
  }

  lemma PairAscending(x: SignatureId, y: SignatureId)
    requires x != y
    ensures Ascending(IdLeq, {x, y}) == [x, y] || Ascending(IdLeq, {x, y}) == [y, x]
  {
    hide IdLeq, Ascending;
    var ids := Ascending(IdLeq, {x, y});
    AscendingIsDistinct(IdLeq, {x, y});
    assert |ids| == 2 && ids[0] in ids && ids[1] in ids && ids[0] != ids[1];
  }

  lemma TwoNamed(x: SignatureId, y: SignatureId, entries: map<SignatureId, SignatureEntry>, ids: seq<SignatureId>)
    requires x in entries && y in entries && (ids == [x, y] || ids == [y, x])
    requires entries[x].id == x && entries[y].id == y
    ensures multiset(NamedEntries(ids, entries))
         == multiset{Named(x.semantic, entries[x].digest), Named(y.semantic, entries[y].digest)}
  {
    var a, b := Named(x.semantic, entries[x].digest), Named(y.semantic, entries[y].digest);
    var named := NamedEntries(ids, entries);
    assert named == if ids == [x, y] then [a, b] else [b, a];
  }

  lemma TwoEntriesShape(g: SignatureId, x: SignatureId, d: SignatureDigest, y: SignatureId, e: SignatureDigest)
    requires x != y
    ensures TwoEntries(g, x, d, y, e).Valid()
    ensures multiset(EntryShape(TwoEntries(g, x, d, y, e), x)) == multiset{Named(x.semantic, d), Named(y.semantic, e)}
  {
    hide Contents.Valid, Sort, NamedEntries, Ascending;
    TwoEntriesValid(g, x, d, y, e);
    var c := TwoEntries(g, x, d, y, e);
    ValidGroups(c, x);
    PairAscending(x, y);
    TwoNamed(x, y, c.entries, Ascending(IdLeq, {x, y}));
  }

  /** The condition is needed: two entries of one semantic name with their digests swapped differ
      on both ids, yet the mismatch shows one digest twice, for every hash. */
  lemma SwappedDigestsShowNothing(hash: Hash, g: SignatureId, x: SignatureId, y: SignatureId,
      d: SignatureDigest, e: SignatureDigest)
    requires x != y && x.semantic == y.semantic && d != e
    ensures var source, expected := TwoEntries(g, x, e, y, d), TwoEntries(g, x, d, y, e);
            && source.Valid() && expected.Valid()
            && Differs(source, expected, x) && Differs(source, expected, y)
            && ReportFor(hash, source, expected, x).Mismatched?
            && ReportFor(hash, source, expected, x).expected == ReportFor(hash, source, expected, x).actual
  {
    hide Shape, ShapeMessage, Contents.Valid;
    var source, expected := TwoEntries(g, x, e, y, d), TwoEntries(g, x, d, y, e);
    TwoEntriesShape(g, x, e, y, d);
    TwoEntriesShape(g, x, d, y, e);
    ValidGroups(expected, x);
    ValidGroups(source, x);
    SameContentSameShape(source, expected, x);
  }

  lemma SameContentSameShape(a: Contents, b: Contents, id: SignatureId)
    requires a.Valid() && b.Valid() && id in a.entries && id in b.entries
    requires multiset(EntryShape(a, id)) == multiset(EntryShape(b, id))
    ensures EntryShape(a, id) == EntryShape(b, id)
  {
    hide Contents.Valid, NamedEntries;
    ValidGroups(a, id);
    ValidGroups(b, id);
    var x := NamedEntries(Ascending(IdLeq, a.groups[a.entries[id].groupId].entryIds), a.entries);
    var y := NamedEntries(Ascending(IdLeq, b.groups[b.entries[id].groupId].entryIds), b.entries);
    NamedLeqIsTotal();
    SortIsCanonical(NamedLeq, x, y);
  }

  lemma ShapeHolds(c: Contents, g: SignatureId, id: SignatureId)
    requires c.Valid() && id in c.entries && c.entries[id].groupId == g
    ensures Named(id.semantic, c.entries[id].digest) in Shape(c.groups[g], c.entries)
  {
    hide Contents.Valid;
    ValidGroups(c, id);
    ValidMember(c, id);
    var ids := Ascending(IdLeq, c.groups[g].entryIds);
    var named := NamedEntries(ids, c.entries);
    assert id in ids;
    var k :| 0 <= k < |ids| && ids[k] == id;
    assert named[k] in multiset(named) && named[k] in multiset(Shape(c.groups[g], c.entries));
  }

  lemma ValidMember(c: Contents, id: SignatureId)
    requires c.Valid() && id in c.entries
    ensures c.entries[id].groupId in c.groups && id in c.groups[c.entries[id].groupId].entryIds && c.entries[id].id == id
  {
  }

  lemma ShapeWitness(c: Contents, g: SignatureId, named: Named) returns (id: SignatureId)
    requires c.Valid() && g in c.groups && named in Shape(c.groups[g], c.entries)
    ensures id in c.groups[g].entryIds && id in c.entries
    ensures named == Named(id.semantic, c.entries[id].digest)
  {
    hide Contents.Valid;
    ValidIsComplete(c);
    var ids := Ascending(IdLeq, c.groups[g].entryIds);
    var list := NamedEntries(ids, c.entries);
    assert named in multiset(Shape(c.groups[g], c.entries)) && named in multiset(list);
    var k :| 0 <= k < |list| && list[k] == named;
    assert ids[k] in ids;
    id := ids[k];
    ValidMember(c, id);
  }
}
