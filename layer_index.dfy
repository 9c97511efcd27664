/** The layer index: the stored ids of one layer, ordered by their `order`
    field, a missing order counting as 9999, with equal orders kept in store
    order (the sort of the source is stable). */
module LayerIndex {
  import opened Content

  /** `v.order ?? 9999`, the sort key. */
  function OrderKey(e: Entry): int {
    e.order.GetOr(FallbackOrder)
  }

  /** `.filter(([_, v]) => v.layer === layerNum)`: a missing layer matches no
      layer number. */
  function InLayer(s: Store, n: int): Store {
    if s == [] then []
    else if s[0].1.layer == Some(n) then [s[0]] + InLayer(s[1..], n)
    else InLayer(s[1..], n)
  }

  /** The filter keeps exactly the entries of layer `n`. */
  lemma {:induction false} InLayerMembers(s: Store, n: int)
    ensures forall p :: p in InLayer(s, n) <==> p in s && p.1.layer == Some(n)
  {
    if s != [] {
      InLayerMembers(s[1..], n);
      assert forall p :: p in s <==> p == s[0] || p in s[1..];
    }
  }

  ghost predicate SortedByOrder(t: Store) {
    forall i, j :: 0 <= i < j < |t| ==> OrderKey(t[i].1) <= OrderKey(t[j].1)
  }

  /** Places `p` after every element of `t` whose key is not larger than its
      own, so that among equal keys the one inserted last comes last. */
  function Insert(p: (string, Entry), t: Store): Store {
    if t == [] then [p]
    else if OrderKey(p.1) < OrderKey(t[0].1) then [p] + t
    else [t[0]] + Insert(p, t[1..])
  }

  lemma {:induction false} InsertMultiset(p: (string, Entry), t: Store)
    ensures multiset(Insert(p, t)) == multiset(t) + multiset{p}
  {
    if t != [] && OrderKey(t[0].1) <= OrderKey(p.1) {
      InsertMultiset(p, t[1..]);
      assert t == [t[0]] + t[1..];
    }
  }

  lemma SortedTail(t: Store)
    requires t != [] && SortedByOrder(t)
    ensures SortedByOrder(t[1..])
    ensures forall y :: y in t[1..] ==> OrderKey(t[0].1) <= OrderKey(y.1)
  {
    var tail := t[1..];
    forall a, b | 0 <= a < b < |tail| ensures OrderKey(tail[a].1) <= OrderKey(tail[b].1) {
      assert tail[a] == t[a + 1] && tail[b] == t[b + 1];
    }
    forall y | y in tail ensures OrderKey(t[0].1) <= OrderKey(y.1) {
      var k :| 0 <= k < |tail| && tail[k] == y;
      assert t[k + 1] == y;
    }
  }

  lemma SortedCons(x: (string, Entry), t: Store)
    requires SortedByOrder(t)
    requires forall y :: y in t ==> OrderKey(x.1) <= OrderKey(y.1)
    ensures SortedByOrder([x] + t)
  {
    var r := [x] + t;
    forall i, j | 0 <= i < j < |r| ensures OrderKey(r[i].1) <= OrderKey(r[j].1) {
      assert r[j] == t[j - 1];
      if i > 0 {
        assert r[i] == t[i - 1];
      }
    }
  }

  lemma {:induction false} InsertSorted(p: (string, Entry), t: Store)
    requires SortedByOrder(t)
    ensures SortedByOrder(Insert(p, t))
  {
    if t != [] {
      SortedTail(t);
      if OrderKey(p.1) < OrderKey(t[0].1) {
        SortedCons(p, t);
      } else {
        InsertSorted(p, t[1..]);
        InsertMultiset(p, t[1..]);
        var rest := Insert(p, t[1..]);
        forall y | y in rest ensures OrderKey(t[0].1) <= OrderKey(y.1) {
          assert y in multiset(t[1..]) + multiset{p};
        }
        SortedCons(t[0], rest);
      }
    }
  }

  /** `.sort((a, b) => key(a) - key(b))` as a stable insertion sort. */
  function SortByOrder(t: Store): Store {
    if t == [] then [] else Insert(t[|t| - 1], SortByOrder(t[..|t| - 1]))
  }

  /** The sort orders by key and only rearranges. */
  lemma {:induction false} SortByOrderSpec(t: Store)
    ensures SortedByOrder(SortByOrder(t))
    ensures multiset(SortByOrder(t)) == multiset(t)
  {
    if t != [] {
      var init := t[..|t| - 1];
      assert t == init + [t[|t| - 1]];
      SortByOrderSpec(init);
      InsertSorted(t[|t| - 1], SortByOrder(init));
      InsertMultiset(t[|t| - 1], SortByOrder(init));
    }
  }

  /** The entries of layer `n`, in layer-index order. */
  function LayerEntries(s: Store, n: int): Store {
    SortByOrder(InLayer(s, n))
  }

  /** `.map(([k]) => k)`. */
  function Ids(t: Store): seq<string> {
    seq(|t|, i requires 0 <= i < |t| => t[i].0)
  }

  /** `getIdsInLayer(n)`. */
  function IdsInLayer(s: Store, n: int): seq<string> {
    Ids(LayerEntries(s, n))
  }

  /** The position of `id` in the store (`|s|` when it is not there). */
  function Pos(s: Store, id: string): (r: nat)
    ensures r <= |s|
  {
    if s == [] then 0 else if s[0].0 == id then 0 else 1 + Pos(s[1..], id)
  }

  /** Along `t`, the store positions of the ids strictly increase. */
  ghost predicate InStoreOrder(s: Store, t: Store) {
    forall i, j :: 0 <= i < j < |t| ==> Pos(s, t[i].0) < Pos(s, t[j].0)
  }

  /** Along `t`, entries with the same sort key are in store order. */
  ghost predicate StableIn(s: Store, t: Store) {
    forall i, j :: 0 <= i < j < |t| && OrderKey(t[i].1) == OrderKey(t[j].1) ==>
      Pos(s, t[i].0) < Pos(s, t[j].0)
  }

  lemma UniqueTail(s: Store)
    requires s != [] && UniqueIds(s)
    ensures UniqueIds(s[1..])
    ensures forall p :: p in s[1..] ==> p.0 != s[0].0
  {
    forall a, b | 0 <= a < b < |s[1..]| ensures s[1..][a].0 != s[1..][b].0 {
      assert s[1..][a] == s[a + 1] && s[1..][b] == s[b + 1];
    }
    forall p | p in s[1..] ensures p.0 != s[0].0 {
      var k :| 0 <= k < |s[1..]| && s[1..][k] == p;
      assert s[k + 1] == p;
    }
  }

  lemma SameIdSameEntry(s: Store, x: (string, Entry), y: (string, Entry))
    requires UniqueIds(s) && x in s && y in s
    ensures x.0 == y.0 ==> x == y
  {
    var a :| 0 <= a < |s| && s[a] == x;
    var b :| 0 <= b < |s| && s[b] == y;
  }

  /** Filtering keeps the store order of the surviving entries. */
  lemma {:induction false} InLayerInStoreOrder(s: Store, n: int)
    requires UniqueIds(s)
    ensures InStoreOrder(s, InLayer(s, n))
  {
    if s != [] {
      UniqueTail(s);
      InLayerInStoreOrder(s[1..], n);
      InLayerMembers(s[1..], n);
      var rest := InLayer(s[1..], n);
      assert forall i :: 0 <= i < |rest| ==> Pos(s, rest[i].0) == 1 + Pos(s[1..], rest[i].0) by {
        forall i | 0 <= i < |rest| ensures Pos(s, rest[i].0) == 1 + Pos(s[1..], rest[i].0) {
          assert rest[i] in s[1..];
        }
      }
      if s[0].1.layer == Some(n) {
        var r := [s[0]] + rest;
        forall i, j | 0 <= i < j < |r| ensures Pos(s, r[i].0) < Pos(s, r[j].0) {
          if i > 0 {
            assert r[i] == rest[i - 1] && r[j] == rest[j - 1];
          } else {
            assert r[j] == rest[j - 1];
          }
        }
      }
    }
  }

  lemma StableTail(s: Store, t: Store)
    requires t != [] && StableIn(s, t)
    ensures StableIn(s, t[1..])
    ensures forall y :: y in t[1..] && OrderKey(y.1) == OrderKey(t[0].1) ==> Pos(s, t[0].0) < Pos(s, y.0)
  {
    var tail := t[1..];
    forall a, b | 0 <= a < b < |tail| && OrderKey(tail[a].1) == OrderKey(tail[b].1)
      ensures Pos(s, tail[a].0) < Pos(s, tail[b].0)
    {
      assert tail[a] == t[a + 1] && tail[b] == t[b + 1];
    }
    forall y | y in tail && OrderKey(y.1) == OrderKey(t[0].1) ensures Pos(s, t[0].0) < Pos(s, y.0) {
      var k :| 0 <= k < |tail| && tail[k] == y;
      assert t[k + 1] == y;
    }
  }

  lemma StableCons(s: Store, x: (string, Entry), t: Store)
    requires StableIn(s, t)
    requires forall y :: y in t && OrderKey(y.1) == OrderKey(x.1) ==> Pos(s, x.0) < Pos(s, y.0)
    ensures StableIn(s, [x] + t)
  {
    var r := [x] + t;
    forall i, j | 0 <= i < j < |r| && OrderKey(r[i].1) == OrderKey(r[j].1)
      ensures Pos(s, r[i].0) < Pos(s, r[j].0)
    {
      assert r[j] == t[j - 1];
      if i > 0 {
        assert r[i] == t[i - 1];
      }
    }
  }

  /** Inserting an entry that comes after everything already sorted, in store
      order, keeps equal keys in store order. */
  lemma {:induction false} InsertStable(s: Store, p: (string, Entry), t: Store)
    requires SortedByOrder(t) && StableIn(s, t)
    requires forall x :: x in t ==> Pos(s, x.0) < Pos(s, p.0)
    ensures StableIn(s, Insert(p, t))
  {
    if t != [] {
      SortedTail(t);
      StableTail(s, t);
      if OrderKey(p.1) < OrderKey(t[0].1) {
        StableCons(s, p, t);
      } else {
        InsertStable(s, p, t[1..]);
        InsertMultiset(p, t[1..]);
        var rest := Insert(p, t[1..]);
        forall y | y in rest && OrderKey(y.1) == OrderKey(t[0].1) ensures Pos(s, t[0].0) < Pos(s, y.0) {
          assert y in multiset(t[1..]) + multiset{p};
        }
        StableCons(s, t[0], rest);
      }
    }
  }

  /** Sorting a sequence that is in store order leaves equal keys in store
      order. */
  lemma {:induction false} SortStable(s: Store, t: Store)
    requires InStoreOrder(s, t)
    ensures StableIn(s, SortByOrder(t))
  {
    if t != [] {
      var init := t[..|t| - 1];
      var last := t[|t| - 1];
      assert InStoreOrder(s, init) by {
        forall i, j | 0 <= i < j < |init| ensures Pos(s, init[i].0) < Pos(s, init[j].0) {
          assert init[i] == t[i] && init[j] == t[j];
        }
      }
      SortStable(s, init);
      SortByOrderSpec(init);
      var sorted := SortByOrder(init);
      forall x | x in sorted ensures Pos(s, x.0) < Pos(s, last.0) {
        assert x in multiset(init);
        var k :| 0 <= k < |init| && init[k] == x;
        assert t[k] == x;
      }
      InsertStable(s, last, sorted);
    }
  }

  /** The layer index holds exactly the stored ids whose layer is `n`. */
  lemma IdsInLayerMembers(s: Store, n: int, id: string)
    ensures id in IdsInLayer(s, n) <==>
      exists i :: 0 <= i < |s| && s[i].0 == id && s[i].1.layer == Some(n)
  {
    var t := LayerEntries(s, n);
    var r := IdsInLayer(s, n);
    InLayerMembers(s, n);
    SortByOrderSpec(InLayer(s, n));
    if id in r {
      var k :| 0 <= k < |r| && r[k] == id;
      assert t[k] in multiset(InLayer(s, n));
      assert t[k] in s;
      var i :| 0 <= i < |s| && s[i] == t[k];
    }
    if exists i :: 0 <= i < |s| && s[i].0 == id && s[i].1.layer == Some(n) {
      var i :| 0 <= i < |s| && s[i].0 == id && s[i].1.layer == Some(n);
      assert s[i] in multiset(InLayer(s, n));
      assert s[i] in multiset(t);
      var k :| 0 <= k < |t| && t[k] == s[i];
      assert r[k] == id;
    }
  }

  /** In the sorted entries of a layer, equal orders keep store order. */
  lemma LayerEntriesStable(s: Store, n: int)
    requires UniqueIds(s)
    ensures StableIn(s, LayerEntries(s, n))
  {
    InLayerInStoreOrder(s, n);
    SortStable(s, InLayer(s, n));
  }

  /** Each stored id of the layer appears in the layer index once. */
  lemma IdsInLayerDistinct(s: Store, n: int)
    requires UniqueIds(s)
    ensures forall i, j :: 0 <= i < j < |IdsInLayer(s, n)| ==>
      IdsInLayer(s, n)[i] != IdsInLayer(s, n)[j]
  {
    var t := LayerEntries(s, n);
    LayerEntriesStable(s, n);
    InLayerMembers(s, n);
    SortByOrderSpec(InLayer(s, n));
    forall k | 0 <= k < |t| ensures t[k] in s {
      assert t[k] in multiset(InLayer(s, n));
    }
    forall i, j | 0 <= i < j < |t| ensures t[i].0 != t[j].0 {
      SameIdSameEntry(s, t[i], t[j]);
    }
  }

  /** The layer index lists its ids by non-decreasing order, a missing order
      counting as 9999, and ids of equal order in store order. */
  lemma IdsInLayerOrdered(s: Store, n: int)
    requires UniqueIds(s)
    ensures forall i, j :: 0 <= i < j < |IdsInLayer(s, n)| ==>
      OrderKey(GetEntry(s, IdsInLayer(s, n)[i])) <= OrderKey(GetEntry(s, IdsInLayer(s, n)[j]))
    ensures forall i, j ::
      0 <= i < j < |IdsInLayer(s, n)| &&
      OrderKey(GetEntry(s, IdsInLayer(s, n)[i])) == OrderKey(GetEntry(s, IdsInLayer(s, n)[j]))
      ==> Pos(s, IdsInLayer(s, n)[i]) < Pos(s, IdsInLayer(s, n)[j])
  {
    var t := LayerEntries(s, n);
    var r := IdsInLayer(s, n);
    LayerEntriesStable(s, n);
    InLayerMembers(s, n);
    SortByOrderSpec(InLayer(s, n));
    forall k | 0 <= k < |t| ensures GetEntry(s, r[k]) == t[k].1 {
      assert t[k] in multiset(InLayer(s, n));
      var a :| 0 <= a < |s| && s[a] == t[k];
      GetEntryStored(s, a);
    }
  }

  /** Positions in the store: the id at index `i` of a store with unique keys
      has position `i`. */
  lemma {:induction false} PosOfStored(s: Store, i: nat)
    requires UniqueIds(s) && i < |s|
    ensures Pos(s, s[i].0) == i
  {
    if i > 0 {
      UniqueTail(s);
      assert s[i] == s[1..][i - 1];
      PosOfStored(s[1..], i - 1);
    }
  }
}
