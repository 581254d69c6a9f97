/** Partial unions of finite maps, independent of the order in which they are taken. */
module Unions {

  /** The two maps agree wherever both are defined. */
  ghost predicate Compatible<K, V>(a: map<K, V>, b: map<K, V>) {
    forall k :: k in a && k in b ==> a[k] == b[k]
  }

  ghost predicate AllCompatible<K, V>(maps: set<map<K, V>>) {
    forall a, b :: a in maps && b in maps ==> Compatible(a, b)
  }

  ghost predicate UnionAt<K, V>(u: map<K, V>, maps: set<map<K, V>>, k: K) {
    && (k in u <==> exists m :: m in maps && k in m)
    && (forall m :: m in maps && k in m ==> u[k] == m[k])
  }

  /** `u` holds exactly the pairs of the given maps. */
  ghost predicate IsUnion<K(!new), V>(u: map<K, V>, maps: set<map<K, V>>) {
    forall k :: UnionAt(u, maps, k)
  }

  ghost predicate FoldSucceeds<K, V>(acc: map<K, V>, maps: seq<map<K, V>>)
    decreases |maps|
  {
    maps == [] || (Compatible(acc, maps[0]) && FoldSucceeds(acc + maps[0], maps[1..]))
  }

  ghost function Fold<K, V>(acc: map<K, V>, maps: seq<map<K, V>>): map<K, V>
    decreases |maps|
  {
    if maps == [] then acc else Fold(acc + maps[0], maps[1..])
  }

  ghost function Members<T>(s: seq<T>): set<T> {
    set x | x in s
  }

  lemma MembersSplit<T>(s: seq<T>)
    requires s != []
    ensures Members(s) == {s[0]} + Members(s[1..])
  {
  }

  lemma AbsorbOne<K, V>(acc: map<K, V>, first: map<K, V>, rest: set<map<K, V>>)
    requires Compatible(acc, first)
    ensures AllCompatible({acc} + ({first} + rest)) <==> AllCompatible({acc + first} + rest)
  {
  }

  lemma {:induction false} FoldMeaning<K(!new), V>(acc: map<K, V>, maps: seq<map<K, V>>)
    ensures FoldSucceeds(acc, maps) <==> AllCompatible({acc} + Members(maps))
    ensures FoldSucceeds(acc, maps) ==> IsUnion(Fold(acc, maps), {acc} + Members(maps))
    decreases |maps|
  {
    if maps == [] {
      assert {acc} + Members(maps) == {acc};
      forall k ensures UnionAt(acc, {acc}, k) {}
    } else {
      MembersSplit(maps);
      var first, rest := maps[0], Members(maps[1..]);
      if Compatible(acc, first) {
        FoldMeaning(acc + first, maps[1..]);
        AbsorbOne(acc, first, rest);
        if FoldSucceeds(acc, maps) {
          AbsorbUnion(Fold(acc, maps), acc, first, rest);
        }
      } else {
        assert acc in {acc} + ({first} + rest) && first in {acc} + ({first} + rest);
      }
    }
  }

  lemma AbsorbUnion<K(!new), V>(u: map<K, V>, acc: map<K, V>, first: map<K, V>, rest: set<map<K, V>>)
    requires Compatible(acc, first) && IsUnion(u, {acc + first} + rest)
    ensures IsUnion(u, {acc} + ({first} + rest))
  {
    forall k ensures UnionAt(u, {acc} + ({first} + rest), k) {
      AbsorbUnionAt(u, acc, first, rest, k);
    }
  }

  lemma AbsorbUnionAt<K, V>(u: map<K, V>, acc: map<K, V>, first: map<K, V>, rest: set<map<K, V>>, k: K)
    requires Compatible(acc, first) && UnionAt(u, {acc + first} + rest, k)
    ensures UnionAt(u, {acc} + ({first} + rest), k)
  {
  }

  lemma UnionIsUnique<K(!new), V>(u: map<K, V>, v: map<K, V>, maps: set<map<K, V>>)
    requires IsUnion(u, maps) && IsUnion(v, maps)
    ensures u == v
  {
    forall k ensures k in u <==> k in v {
      assert UnionAt(u, maps, k) && UnionAt(v, maps, k);
    }
    forall k | k in u ensures u[k] == v[k] {
      assert UnionAt(u, maps, k) && UnionAt(v, maps, k);
      var m :| m in maps && k in m;
    }
  }

  lemma EmptyAdds<K(!new), V>(maps: set<map<K, V>>)
    ensures AllCompatible({map[]} + maps) <==> AllCompatible(maps)
    ensures forall u :: IsUnion(u, {map[]} + maps) ==> IsUnion(u, maps)
  {
    var all := {map[]} + maps;
    assert forall m :: m in maps ==> m in all;
    forall u | IsUnion(u, all) ensures IsUnion(u, maps) {
      forall k ensures UnionAt(u, maps, k) {
        assert UnionAt(u, all, k);
        if k in u {
          var m :| m in all && k in m;
          assert m in maps;
        }
      }
    }
  }
}
