/** Assignments of entries to windows as partial injections between two keyed lists,
    and the counting argument behind greedy matching. */
module Assignment {

  /** f pairs entry indices with window indices of the same key, and no window twice. */
  ghost predicate Pairing<K(!new)>(entryKeys: seq<K>, windowKeys: seq<K>, f: map<nat, nat>) {
    && (forall i :: i in f ==> i < |entryKeys| && f[i] < |windowKeys| && entryKeys[i] == windowKeys[f[i]])
    && Injective(f)
  }

  ghost predicate Injective(f: map<nat, nat>) {
    forall i, i' :: i in f && i' in f && f[i] == f[i'] ==> i == i'
  }

  /** No unpaired entry has an unpaired window of its key left. */
  ghost predicate Maximal<K(!new)>(entryKeys: seq<K>, windowKeys: seq<K>, f: map<nat, nat>) {
    forall i: nat, j: nat :: i < |entryKeys| && j < |windowKeys| && entryKeys[i] == windowKeys[j] ==>
      i in f || j in f.Values
  }

  lemma AddPair<K(!new)>(entryKeys: seq<K>, windowKeys: seq<K>, f: map<nat, nat>, i: nat, j: nat)
    requires Pairing(entryKeys, windowKeys, f) && i !in f && j !in f.Values
    requires i < |entryKeys| && j < |windowKeys| && entryKeys[i] == windowKeys[j]
    ensures Pairing(entryKeys, windowKeys, f[i := j]) && f[i := j].Values == f.Values + {j}
  {
    var f' := f[i := j];
    forall k | k in f.Values ensures k in f'.Values {
      var x :| x in f && f[x] == k;
      assert f'[x] == k;
    }
    assert f'[i] == j;
  }

  ghost function Image(f: map<nat, nat>, s: set<nat>): set<nat>
    requires s <= f.Keys
  {
    set i | i in s :: f[i]
  }

  lemma {:induction false} ImageSize(f: map<nat, nat>, s: set<nat>)
    requires s <= f.Keys && Injective(f)
    ensures |Image(f, s)| == |s|
    decreases s
  {
    if s != {} {
      var i :| i in s;
      ImageSize(f, s - {i});
      assert Image(f, s) == Image(f, s - {i}) + {f[i]};
    }
  }

  lemma {:induction false} SubsetSize(s: set<nat>, t: set<nat>)
    requires s <= t
    ensures |s| <= |t| && (|s| == |t| ==> s == t)
  {
    assert t == s + (t - s);
  }

  /** Every entry of key k is paired by f. */
  ghost predicate Full<K(!new)>(entryKeys: seq<K>, f: map<nat, nat>, k: K) {
    forall i: nat :: i < |entryKeys| && entryKeys[i] == k ==> i in f
  }

  /** The pairs of f whose key still has an unpaired entry. */
  ghost function Short<K(!new)>(entryKeys: seq<K>, f: map<nat, nat>, g: map<nat, nat>): set<nat>
    requires forall i :: i in g ==> i < |entryKeys|
  {
    set i | i in g && !Full(entryKeys, f, entryKeys[i])
  }

  /** Under such a key, every window another pairing uses is used by f too. */
  lemma ShortKeysLackWindows<K(!new)>(entryKeys: seq<K>, windowKeys: seq<K>, f: map<nat, nat>, g: map<nat, nat>, j: nat)
    requires Pairing(entryKeys, windowKeys, f) && Maximal(entryKeys, windowKeys, f)
    requires Pairing(entryKeys, windowKeys, g)
    requires j in Image(g, Short(entryKeys, f, g))
    ensures j in Image(f, Short(entryKeys, f, f))
  {
    var i :| i in Short(entryKeys, f, g) && g[i] == j;
    var lost: nat :| lost < |entryKeys| && entryKeys[lost] == entryKeys[i] && lost !in f;
    assert j in f.Values;
    var i' :| i' in f && f[i'] == j;
    assert i' in Short(entryKeys, f, f);
  }

  /** A maximal pairing is a maximum one: pairs only compete within a key, and within a key a maximal
      pairing has run out of entries or of windows. */
  lemma MaximalIsMaximum<K(!new)>(entryKeys: seq<K>, windowKeys: seq<K>, f: map<nat, nat>, g: map<nat, nat>)
    requires Pairing(entryKeys, windowKeys, f) && Maximal(entryKeys, windowKeys, f)
    requires Pairing(entryKeys, windowKeys, g)
    ensures |g| <= |f|
  {
    var g2, f2 := Short(entryKeys, f, g), Short(entryKeys, f, f);
    assert g.Keys - g2 <= f.Keys - f2;
    forall j | j in Image(g, g2) ensures j in Image(f, f2) {
      ShortKeysLackWindows(entryKeys, windowKeys, f, g, j);
    }
    hide *;
    CountByCover(f, g, f2, g2);
  }

  lemma CountByCover(f: map<nat, nat>, g: map<nat, nat>, f2: set<nat>, g2: set<nat>)
    requires Injective(f) && Injective(g) && f2 <= f.Keys && g2 <= g.Keys
    requires g.Keys - g2 <= f.Keys - f2 && Image(g, g2) <= Image(f, f2)
    ensures |g| <= |f|
  {
    hide *;
    SubsetSize(g.Keys - g2, f.Keys - f2);
    ImageSize(g, g2);
    ImageSize(f, f2);
    SubsetSize(Image(g, g2), Image(f, f2));
    assert g.Keys == (g.Keys - g2) + g2;
    assert f.Keys == (f.Keys - f2) + f2;
  }

  // ---- multisets of keys ----

  ghost function Positions<K(!new)>(keys: seq<K>, k: K): set<nat> {
    set i: nat | i < |keys| && keys[i] == k
  }

  lemma {:induction false} PositionCount<K(!new)>(keys: seq<K>, k: K)
    ensures |Positions(keys, k)| == multiset(keys)[k]
    decreases |keys|
  {
    if keys == [] {
      assert Positions(keys, k) == {};
    } else {
      var n := |keys| - 1;
      var init := keys[..n];
      PositionCount(init, k);
      assert keys == init + [keys[n]];
      assert Positions(keys, k) == if keys[n] == k then Positions(init, k) + {n} else Positions(init, k);
    }
  }

  /** When the windows include the entries' keys as a multiset, a maximal pairing misses no entry. */
  lemma InclusionPairsAll<K(!new)>(entryKeys: seq<K>, windowKeys: seq<K>, f: map<nat, nat>)
    requires Pairing(entryKeys, windowKeys, f) && Maximal(entryKeys, windowKeys, f)
    requires multiset(entryKeys) <= multiset(windowKeys)
    ensures forall i: nat :: i < |entryKeys| ==> i in f
  {
    forall i: nat | i < |entryKeys| ensures i in f {
      if i !in f {
        var k := entryKeys[i];
        assert multiset(entryKeys)[k] <= multiset(windowKeys)[k];
        var mine := Positions(entryKeys, k) * f.Keys;
        assert Positions(windowKeys, k) <= Image(f, mine);
        ImageSize(f, mine);
        SubsetSize(Positions(windowKeys, k), Image(f, mine));
        SubsetSize(mine, Positions(entryKeys, k));
        assert i in Positions(entryKeys, k) && i !in mine;
        PositionCount(entryKeys, k);
        PositionCount(windowKeys, k);
      }
    }
  }
}
