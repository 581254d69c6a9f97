/** Total orders, sorting and ordered enumeration of sets: what `Ord`, `slice::sort` and
    the iteration order of `BTreeMap`/`BTreeSet` contribute to the modelled code. */
module Orders {

  ghost predicate TotalOrder<T(!new)>(leq: (T, T) -> bool) {
    && (forall x :: leq(x, x))
    && (forall x, y :: leq(x, y) && leq(y, x) ==> x == y)
    && (forall x, y, z :: leq(x, y) && leq(y, z) ==> leq(x, z))
    && (forall x, y :: leq(x, y) || leq(y, x))
  }

  predicate Sorted<T>(leq: (T, T) -> bool, s: seq<T>) {
    forall i, j :: 0 <= i < j < |s| ==> leq(s[i], s[j])
  }

  // ---------------------------------------------------------------- sorting

  /** Places `x` before the first element it does not exceed. */
  function Place<T>(leq: (T, T) -> bool, x: T, s: seq<T>): (r: seq<T>)
    ensures multiset(r) == multiset{x} + multiset(s)
  {
    if s == [] then [x]
    else if leq(x, s[0]) then [x] + s
    else
      assert s == [s[0]] + s[1..];
      [s[0]] + Place(leq, x, s[1..])
  }

  lemma {:induction false} PlaceKeepsSorted<T(!new)>(leq: (T, T) -> bool, x: T, s: seq<T>)
    requires TotalOrder(leq) && Sorted(leq, s)
    ensures Sorted(leq, Place(leq, x, s))
  {
    if s != [] && !leq(x, s[0]) {
      PlaceKeepsSorted(leq, x, s[1..]);
      var rest := Place(leq, x, s[1..]);
      forall k | 0 <= k < |rest| ensures leq(s[0], rest[k]) {
        assert rest[k] in multiset(rest);
        assert rest[k] == x || rest[k] in s[1..];
      }
    }
  }

  function Sort<T>(leq: (T, T) -> bool, s: seq<T>): (r: seq<T>)
    ensures multiset(r) == multiset(s)
    ensures |r| == |s|
  {
    if s == [] then []
    else
      assert s == [s[0]] + s[1..];
      var r := Place(leq, s[0], Sort(leq, s[1..]));
      assert |multiset(r)| == |r| && |multiset(s)| == |s|;
      r
  }

  lemma {:induction false} SortSorts<T(!new)>(leq: (T, T) -> bool, s: seq<T>)
    requires TotalOrder(leq)
    ensures Sorted(leq, Sort(leq, s))
  {
    if s != [] {
      SortSorts(leq, s[1..]);
      PlaceKeepsSorted(leq, s[0], Sort(leq, s[1..]));
    }
  }

  lemma SameLeast<T(!new)>(leq: (T, T) -> bool, a: seq<T>, b: seq<T>)
    requires TotalOrder(leq) && Sorted(leq, a) && Sorted(leq, b)
    requires multiset(a) == multiset(b) && a != []
    ensures b != [] && a[0] == b[0]
  {
    assert a[0] in multiset(b);
    assert b[0] in multiset(a);
    assert leq(a[0], b[0]) && leq(b[0], a[0]);
  }

  lemma SortedTail<T(!new)>(leq: (T, T) -> bool, s: seq<T>)
    requires s != [] && Sorted(leq, s)
    ensures Sorted(leq, s[1..])
  {
  }

  lemma TailMultiset<T>(s: seq<T>)
    requires s != []
    ensures multiset(s[1..]) == multiset(s) - multiset{s[0]}
  {
    assert s == [s[0]] + s[1..];
  }

  lemma SameSize<T>(a: seq<T>, b: seq<T>)
    requires multiset(a) == multiset(b)
    ensures |a| == |b|
  {
    assert |multiset(a)| == |a| && |multiset(b)| == |b|;
  }

  /** A sorted sequence is determined by its multiset: sorting canonicalises. */
  lemma {:induction false} SortedIsCanonical<T(!new)>(leq: (T, T) -> bool, a: seq<T>, b: seq<T>)
    requires TotalOrder(leq) && Sorted(leq, a) && Sorted(leq, b)
    requires multiset(a) == multiset(b)
    ensures a == b
    decreases |a|
  {
    hide TotalOrder, Sorted;
    SameSize(a, b);
    if a != [] {
      SameLeast(leq, a, b);
      SortedTail(leq, a);
      SortedTail(leq, b);
      TailMultiset(a);
      TailMultiset(b);
      SortedIsCanonical(leq, a[1..], b[1..]);
      assert a == [a[0]] + a[1..] && b == [b[0]] + b[1..];
    }
  }

  lemma SortIsCanonical<T(!new)>(leq: (T, T) -> bool, a: seq<T>, b: seq<T>)
    requires TotalOrder(leq)
    ensures Sort(leq, a) == Sort(leq, b) <==> multiset(a) == multiset(b)
  {
    SortSorts(leq, a);
    SortSorts(leq, b);
    if multiset(a) == multiset(b) {
      SortedIsCanonical(leq, Sort(leq, a), Sort(leq, b));
    }
  }

  // ------------------------------------------------- ordered set enumeration

  /** The elements of `s` in ascending order, each once: how a B-tree iterates. */
  ghost function Ascending<T(!new)>(leq: (T, T) -> bool, s: set<T>): (r: seq<T>)
    ensures multiset(r) == multiset(s)
    ensures forall x :: x in r <==> x in s
    ensures |r| == |s|
  {
    if s == {} then [] else
      var x :| x in s;
      var r := Place(leq, x, Ascending(leq, s - {x}));
      assert multiset(s) == multiset{x} + multiset(s - {x});
      assert forall y :: y in r <==> y in multiset(r);
      assert |multiset(r)| == |r| && |multiset(s)| == |s|;
      r
  }

  lemma {:induction false} AscendingIsSorted<T(!new)>(leq: (T, T) -> bool, s: set<T>)
    requires TotalOrder(leq)
    ensures Sorted(leq, Ascending(leq, s))
    decreases s
  {
    if s != {} {
      var x :| x in s && Ascending(leq, s) == Place(leq, x, Ascending(leq, s - {x}));
      AscendingIsSorted(leq, s - {x});
      PlaceKeepsSorted(leq, x, Ascending(leq, s - {x}));
    }
  }

  predicate Distinct<T(==)>(s: seq<T>) {
    forall i, j :: 0 <= i < j < |s| ==> s[i] != s[j]
  }

  lemma {:induction false} MultisetOfSetIsDistinct<T>(r: seq<T>, s: set<T>)
    requires multiset(r) == multiset(s)
    ensures Distinct(r)
  {
    forall i, j | 0 <= i < j < |r| ensures r[i] != r[j] {
      assert r == r[..j] + ([r[j]] + r[j + 1..]);
      assert multiset(r)[r[j]] == multiset(r[..j])[r[j]] + 1 + multiset(r[j + 1..])[r[j]];
      assert r[i] == r[..j][i] && r[i] in multiset(r[..j]);
    }
  }

  lemma AscendingIsDistinct<T(!new)>(leq: (T, T) -> bool, s: set<T>)
    ensures Distinct(Ascending(leq, s))
  {
    MultisetOfSetIsDistinct(Ascending(leq, s), s);
  }

  /** Any sorted, duplicate-free listing of a set is its ascending enumeration. */
  lemma AscendingIsUnique<T(!new)>(leq: (T, T) -> bool, s: set<T>, r: seq<T>)
    requires TotalOrder(leq) && Sorted(leq, r) && multiset(r) == multiset(s)
    ensures r == Ascending(leq, s)
  {
    AscendingIsSorted(leq, s);
    SortedIsCanonical(leq, r, Ascending(leq, s));
  }

  /** Walks a set in ascending order, the way a B-tree iterator does. */
  method Enumerate<T(==, !new)>(leq: (T, T) -> bool, s: set<T>) returns (r: seq<T>)
    requires TotalOrder(leq)
    ensures r == Ascending(leq, s)
    ensures Sorted(leq, r) && Distinct(r)
  {
    var left := s;
    r := [];
    while left != {}
      invariant left <= s
      invariant Sorted(leq, r)
      invariant multiset(r) == multiset(s - left)
      decreases left
    {
      var x :| x in left;
      PlaceKeepsSorted(leq, x, r);
      r := Place(leq, x, r);
      assert multiset(s - (left - {x})) == multiset{x} + multiset(s - left);
      left := left - {x};
    }
    assert s - left == s;
    AscendingIsUnique(leq, s, r);
    MultisetOfSetIsDistinct(r, s);
  }

  // ------------------------------------------------------ lexicographic order

  /** Lexicographic comparison of sequences, a proper prefix first. */
  predicate LexBy<T(==)>(leq: (T, T) -> bool, a: seq<T>, b: seq<T>) {
    || a == []
    || (b != [] && if a[0] == b[0] then LexBy(leq, a[1..], b[1..]) else leq(a[0], b[0]))
  }

  lemma {:induction false} LexReflexive<T(!new)>(leq: (T, T) -> bool, a: seq<T>)
    ensures LexBy(leq, a, a)
  {
    if a != [] { LexReflexive(leq, a[1..]); }
  }

  lemma {:induction false} LexAntisymmetric<T(!new)>(leq: (T, T) -> bool, a: seq<T>, b: seq<T>)
    requires TotalOrder(leq) && LexBy(leq, a, b) && LexBy(leq, b, a)
    ensures a == b
  {
    if a != [] && b != [] {
      LexAntisymmetric(leq, a[1..], b[1..]);
      assert a == [a[0]] + a[1..] && b == [b[0]] + b[1..];
    }
  }

  lemma {:induction false} LexTransitive<T(!new)>(leq: (T, T) -> bool, a: seq<T>, b: seq<T>, c: seq<T>)
    requires TotalOrder(leq) && LexBy(leq, a, b) && LexBy(leq, b, c)
    ensures LexBy(leq, a, c)
  {
    if a != [] {
      if a[0] == b[0] == c[0] {
        LexTransitive(leq, a[1..], b[1..], c[1..]);
      }
    }
  }

  lemma {:induction false} LexConnected<T(!new)>(leq: (T, T) -> bool, a: seq<T>, b: seq<T>)
    requires TotalOrder(leq)
    ensures LexBy(leq, a, b) || LexBy(leq, b, a)
  {
    if a != [] && b != [] && a[0] == b[0] {
      LexConnected(leq, a[1..], b[1..]);
    }
  }

  predicate IntLeq(a: int, b: int) { a <= b }

  /** The order of byte strings: `str` and `[u8]` compare byte by byte. */
  predicate BytesLeq(a: seq<int>, b: seq<int>) { LexBy(IntLeq, a, b) }

  /** The order of derived `Ord` on records: fields in turn, each a byte string. */
  predicate KeyLeq(a: seq<seq<int>>, b: seq<seq<int>>) { LexBy(BytesLeq, a, b) }

  lemma BytesLeqIsTotal()
    ensures TotalOrder(BytesLeq)
  {
    forall a: seq<int> ensures BytesLeq(a, a) { LexReflexive(IntLeq, a); }
    forall a: seq<int>, b: seq<int> | BytesLeq(a, b) && BytesLeq(b, a) ensures a == b {
      LexAntisymmetric(IntLeq, a, b);
    }
    forall a: seq<int>, b: seq<int>, c: seq<int> | BytesLeq(a, b) && BytesLeq(b, c)
      ensures BytesLeq(a, c)
    {
      LexTransitive(IntLeq, a, b, c);
    }
    forall a: seq<int>, b: seq<int> ensures BytesLeq(a, b) || BytesLeq(b, a) {
      LexConnected(IntLeq, a, b);
    }
  }

  lemma KeyLeqIsTotal()
    ensures TotalOrder(KeyLeq)
  {
    BytesLeqIsTotal();
    forall a: seq<seq<int>> ensures KeyLeq(a, a) { LexReflexive(BytesLeq, a); }
    forall a: seq<seq<int>>, b: seq<seq<int>> | KeyLeq(a, b) && KeyLeq(b, a) ensures a == b {
      LexAntisymmetric(BytesLeq, a, b);
    }
    forall a: seq<seq<int>>, b: seq<seq<int>>, c: seq<seq<int>> | KeyLeq(a, b) && KeyLeq(b, c)
      ensures KeyLeq(a, c)
    {
      LexTransitive(BytesLeq, a, b, c);
    }
    forall a: seq<seq<int>>, b: seq<seq<int>> ensures KeyLeq(a, b) || KeyLeq(b, a) {
      LexConnected(BytesLeq, a, b);
    }
  }

  // ------------------------------------------------------- what the orders say

  /** A proper prefix of the other, or smaller at the first byte that differs. */
  ghost predicate BytesBefore(a: seq<int>, b: seq<int>) {
    a < b || exists k: nat :: k < |a| && k < |b| && a[..k] == b[..k] && a[k] < b[k]
  }

  lemma LaterDifference(a: seq<int>, b: seq<int>, k: nat)
    requires a != [] && b != [] && a[0] == b[0] && k < |a[1..]| && k < |b[1..]|
    requires a[1..][..k] == b[1..][..k] && a[1..][k] < b[1..][k]
    ensures BytesBefore(a, b)
  {
    assert a[..k + 1] == [a[0]] + a[1..][..k] && b[..k + 1] == [b[0]] + b[1..][..k];
    assert a[k + 1] < b[k + 1];
  }

  lemma EarlierDifference(a: seq<int>, b: seq<int>, k: nat)
    requires a != [] && b != [] && a[0] == b[0] && k < |a| && k < |b| && a[..k] == b[..k] && a[k] < b[k]
    ensures BytesBefore(a[1..], b[1..])
  {
    assert a[1..][..k - 1] == a[..k][1..] && b[1..][..k - 1] == b[..k][1..];
    assert a[1..][k - 1] < b[1..][k - 1];
  }

  lemma BeforeCons(a: seq<int>, b: seq<int>)
    requires a != [] && b != []
    ensures BytesBefore(a, b) <==> if a[0] == b[0] then BytesBefore(a[1..], b[1..]) else a[0] < b[0]
  {
    if a[0] == b[0] {
      assert a == [a[0]] + a[1..] && b == [b[0]] + b[1..];
      if k: nat :| k < |a| && k < |b| && a[..k] == b[..k] && a[k] < b[k] { EarlierDifference(a, b, k); }
      if k: nat :| k < |a[1..]| && k < |b[1..]| && a[1..][..k] == b[1..][..k] && a[1..][k] < b[1..][k] {
        LaterDifference(a, b, k);
      }
    } else {
      forall k: nat | 0 < k < |a| && k < |b| ensures a[..k] != b[..k] {
        assert a[..k][0] == a[0] && b[..k][0] == b[0];
      }
      if a[0] < b[0] { assert a[..0] == b[..0]; }
    }
  }

  /** Byte strings compare at their first difference, a proper prefix first. */
  lemma {:induction false} BytesLeqMeans(a: seq<int>, b: seq<int>)
    ensures BytesLeq(a, b) <==> a == b || BytesBefore(a, b)
  {
    if a != [] && b != [] {
      BeforeCons(a, b);
      assert a == [a[0]] + a[1..] && b == [b[0]] + b[1..];
      BytesLeqMeans(a[1..], b[1..]);
    }
  }

  lemma NotBeforeItself(a: seq<int>)
    ensures !BytesBefore(a, a)
  {
  }

  /** Records compare by their first field that differs. */
  lemma KeyLeqMeans(a: seq<seq<int>>, b: seq<seq<int>>)
    requires a != [] && b != []
    ensures KeyLeq(a, b) <==> if a[0] == b[0] then KeyLeq(a[1..], b[1..]) else BytesBefore(a[0], b[0])
  {
    BytesLeqMeans(a[0], b[0]);
  }

  // ------------------------------------------------------- counting and mapping

  function CountIf<T>(p: T -> bool, s: seq<T>): nat {
    if s == [] then 0 else (if p(s[0]) then 1 else 0) + CountIf(p, s[1..])
  }

  lemma {:induction false} CountIfAppend<T>(p: T -> bool, a: seq<T>, b: seq<T>)
    ensures CountIf(p, a + b) == CountIf(p, a) + CountIf(p, b)
  {
    if a == [] {
      assert a + b == b;
    } else {
      assert (a + b)[1..] == a[1..] + b;
      CountIfAppend(p, a[1..], b);
    }
  }

  lemma RemoveAt<T>(p: T -> bool, b: seq<T>, k: nat) returns (rest: seq<T>)
    requires k < |b|
    ensures multiset(b) == multiset(rest) + multiset{b[k]}
    ensures CountIf(p, b) == CountIf(p, rest) + (if p(b[k]) then 1 else 0)
  {
    rest := b[..k] + b[k + 1..];
    var tail := [b[k]] + b[k + 1..];
    assert b == b[..k] + tail && tail[1..] == b[k + 1..];
    CountIfAppend(p, b[..k], b[k + 1..]);
    CountIfAppend(p, b[..k], tail);
  }

  /** Counting does not see the order of the elements. */
  lemma {:induction false} CountIfPermutation<T>(p: T -> bool, a: seq<T>, b: seq<T>)
    requires multiset(a) == multiset(b)
    ensures CountIf(p, a) == CountIf(p, b)
  {
    if a == [] {
      assert |multiset(b)| == 0;
    } else {
      assert a == [a[0]] + a[1..];
      assert a[0] in multiset(b);
      var k :| 0 <= k < |b| && b[k] == a[0];
      var rest := RemoveAt(p, b, k);
      assert multiset(rest) == multiset(b) - multiset{a[0]} == multiset(a[1..]);
      CountIfPermutation(p, a[1..], rest);
    }
  }

  lemma {:induction false} CountIfUpdate<T>(p: T -> bool, s: seq<T>, i: nat, x: T)
    requires i < |s|
    ensures CountIf(p, s[i := x]) + (if p(s[i]) then 1 else 0)
         == CountIf(p, s) + (if p(x) then 1 else 0)
  {
    if i > 0 {
      assert s[i := x][1..] == s[1..][i - 1 := x];
      CountIfUpdate(p, s[1..], i - 1, x);
    } else {
      assert s[i := x][1..] == s[1..];
    }
  }

  lemma {:induction false} CountIfPositive<T>(p: T -> bool, s: seq<T>, i: nat)
    requires i < |s| && p(s[i])
    ensures CountIf(p, s) >= 1
  {
    if i > 0 { CountIfPositive(p, s[1..], i - 1); }
  }

  lemma {:induction false} CountIfWitness<T>(p: T -> bool, s: seq<T>) returns (i: nat)
    requires CountIf(p, s) >= 1
    ensures i < |s| && p(s[i])
  {
    if p(s[0]) {
      i := 0;
    } else {
      var j := CountIfWitness(p, s[1..]);
      i := j + 1;
    }
  }

  function MapSeq<T, U>(f: T -> U, s: seq<T>): (r: seq<U>)
    ensures |r| == |s|
  {
    seq(|s|, i requires 0 <= i < |s| => f(s[i]))
  }

  lemma MapSeqCons<T, U>(f: T -> U, s: seq<T>)
    requires s != []
    ensures MapSeq(f, s) == [f(s[0])] + MapSeq(f, s[1..])
  {
  }

  lemma MapSeqRemove<T, U>(f: T -> U, s: seq<T>, x: T) returns (rest: seq<T>)
    requires x in s
    ensures |rest| == |s| - 1
    ensures multiset(s) == multiset(rest) + multiset{x}
    ensures multiset(MapSeq(f, s)) == multiset(MapSeq(f, rest)) + multiset{f(x)}
  {
    var k :| 0 <= k < |s| && s[k] == x;
    rest := s[..k] + s[k + 1..];
    assert s == s[..k] + [s[k]] + s[k + 1..];
    var r := MapSeq(f, s);
    assert r == r[..k] + [r[k]] + r[k + 1..];
    assert MapSeq(f, rest) == r[..k] + r[k + 1..];
  }

  /** Mapping carries a rearrangement to a rearrangement. */
  lemma {:induction false} MapSeqPermutation<T, U>(f: T -> U, a: seq<T>, b: seq<T>)
    requires multiset(a) == multiset(b)
    ensures multiset(MapSeq(f, a)) == multiset(MapSeq(f, b))
    decreases |a|
  {
    hide MapSeq;
    if a == [] {
      assert |multiset(b)| == 0;
    } else {
      assert a[0] in multiset(b);
      var x := MapSeqRemove(f, a, a[0]);
      var y := MapSeqRemove(f, b, a[0]);
      assert multiset(x) == multiset(a) - multiset{a[0]} == multiset(y);
      MapSeqPermutation(f, x, y);
    }
  }

  lemma {:induction false} MapSeqCounts<T, U>(f: T -> U, s: seq<T>, x: T)
    requires forall y :: y in s && f(y) == f(x) ==> y == x
    ensures multiset(MapSeq(f, s))[f(x)] == multiset(s)[x]
  {
    if s != [] {
      assert s == [s[0]] + s[1..];
      MapSeqCons(f, s);
      MapSeqCounts(f, s[1..], x);
    }
  }

  /** A map that is injective on what occurs loses nothing: equal images, equal multisets. */
  lemma MapSeqInjective<T, U>(f: T -> U, a: seq<T>, b: seq<T>)
    requires forall x, y :: (x in a || x in b) && (y in a || y in b) && f(x) == f(y) ==> x == y
    requires multiset(MapSeq(f, a)) == multiset(MapSeq(f, b))
    ensures multiset(a) == multiset(b)
  {
    forall x ensures multiset(a)[x] == multiset(b)[x] {
      if x in a || x in b {
        MapSeqCounts(f, a, x);
        MapSeqCounts(f, b, x);
      }
    }
  }

  function Without<T>(s: seq<T>, k: nat): (r: seq<T>)
    requires k < |s|
    ensures |r| == |s| - 1
  {
    s[..k] + s[k + 1..]
  }

  lemma WithoutMultiset<T>(s: seq<T>, k: nat)
    requires k < |s|
    ensures multiset(s) == multiset(Without(s, k)) + multiset{s[k]}
  {
    assert s == s[..k] + [s[k]] + s[k + 1..];
  }

  lemma WithoutAt<T>(s: seq<T>, k: nat, j: nat)
    requires k < |s| && j < |s| - 1
    ensures Without(s, k)[j] == s[if j < k then j else j + 1]
  {
  }

  /** Two pairs of parallel lists: where elements of the second pair are equal whenever those of the
      first are, the second pair rearranges if the first does. */
  lemma {:induction false} ParallelMultisets<T, U>(s: seq<T>, t: seq<T>, x: seq<U>, y: seq<U>)
    requires |s| == |x| && |t| == |y| && multiset(s) == multiset(t)
    requires forall i, j :: 0 <= i < |s| && 0 <= j < |t| && s[i] == t[j] ==> x[i] == y[j]
    ensures multiset(x) == multiset(y)
    decreases |s|
  {
    hide Without;
    SameSize(s, t);
    if s != [] {
      assert s[0] in multiset(t);
      var k :| 0 <= k < |t| && t[k] == s[0];
      WithoutMultiset(s, 0);
      WithoutMultiset(x, 0);
      WithoutMultiset(t, k);
      WithoutMultiset(y, k);
      ParallelRest(s, t, x, y, k);
      assert multiset(Without(s, 0)) == multiset(s) - multiset{s[0]} == multiset(Without(t, k));
      ParallelMultisets(Without(s, 0), Without(t, k), Without(x, 0), Without(y, k));
    }
  }

  lemma ParallelRest<T, U>(s: seq<T>, t: seq<T>, x: seq<U>, y: seq<U>, k: nat)
    requires |s| == |x| && |t| == |y| && s != [] && k < |t|
    requires forall i, j :: 0 <= i < |s| && 0 <= j < |t| && s[i] == t[j] ==> x[i] == y[j]
    ensures forall i, j :: 0 <= i < |s| - 1 && 0 <= j < |t| - 1 && Without(s, 0)[i] == Without(t, k)[j] ==>
              Without(x, 0)[i] == Without(y, k)[j]
  {
    hide Without;
    forall i, j | 0 <= i < |s| - 1 && 0 <= j < |t| - 1 && Without(s, 0)[i] == Without(t, k)[j]
      ensures Without(x, 0)[i] == Without(y, k)[j]
    {
      WithoutAt(s, 0, i);
      WithoutAt(x, 0, i);
      WithoutAt(t, k, j);
      WithoutAt(y, k, j);
    }
  }
}
