// Voxel keys and their sorted distinct list, as np.unique gives it over the rows of an integer
// array (scripts/localization/restricted_fov/tools/build_pcd_map.py, scripts/map/downsample_pcd.py).

module VoxelKeys {

  datatype Key = Key(x: int, y: int, z: int)

  // Rows compare by the first coordinate that differs.
  predicate Less(a: Key, b: Key) {
    a.x < b.x || (a.x == b.x && (a.y < b.y || (a.y == b.y && a.z < b.z)))
  }

  ghost predicate IsSorted(s: seq<Key>) {
    forall i, j :: 0 <= i < j < |s| ==> Less(s[i], s[j])
  }

  // In such a list the first coordinates never fall, where they are equal the second ones do not, and
  // where those are too the third ones rise.
  lemma SortedIs(s: seq<Key>)
    ensures IsSorted(s) <==> forall i, j :: 0 <= i < j < |s| ==>
                               && s[i].x <= s[j].x && (s[i].x == s[j].x ==> s[i].y <= s[j].y)
                               && (s[i].x == s[j].x && s[i].y == s[j].y ==> s[i].z < s[j].z)
  {
  }

  function First(keys: seq<Key>, k: Key): (at: nat)
    requires k in keys
    ensures at < |keys| && keys[at] == k && forall i :: 0 <= i < at ==> keys[i] != k
  {
    if keys[0] == k then 0 else 1 + First(keys[1..], k)
  }

  // How often k occurs.
  function Count(keys: seq<Key>, k: Key): (n: nat)
    ensures n > 0 <==> k in keys
  {
    if keys == [] then 0
    else
      var m := |keys| - 1;
      assert k in keys <==> k in keys[..m] || keys[m] == k;
      Count(keys[..m], k) + if keys[m] == k then 1 else 0
  }

  lemma {:induction false} CountIs(keys: seq<Key>, k: Key)
    ensures Count(keys, k) == |set i | 0 <= i < |keys| && keys[i] == k|
  {
    if keys != [] {
      var m := |keys| - 1;
      CountIs(keys[..m], k);
      var before := set i | 0 <= i < m && keys[..m][i] == k;
      assert (set i | 0 <= i < |keys| && keys[i] == k) == before + if keys[m] == k then {m} else {};
    }
  }

  // distinct lists the keys in order, once each, and index where each comes first.
  ghost predicate IsUnique(keys: seq<Key>, distinct: seq<Key>, index: seq<nat>) {
    && IsSorted(distinct) && |index| == |distinct|
    && (forall k :: k in distinct <==> k in keys)
    && (forall j :: 0 <= j < |distinct| ==> distinct[j] in keys && index[j] == First(keys, distinct[j]))
  }

  lemma FirstOfConcat(a: seq<Key>, b: seq<Key>, k: Key)
    requires k in a + b
    ensures First(a + b, k) == if k in a then First(a, k) else |a| + First(b, k)
  {
    var at := First(a + b, k);
    if k in a {
      var i := First(a, k);
      assert (a + b)[i] == k;
      assert forall j :: 0 <= j < i ==> (a + b)[j] == a[j];
    } else {
      var i := First(b, k);
      assert (a + b)[|a| + i] == k;
      assert forall j :: 0 <= j < |a| ==> a[j] in a;
      assert forall j :: |a| <= j < |a| + i ==> (a + b)[j] == b[j - |a|];
    }
  }

  lemma FirstInSorted(s: seq<Key>, i: nat)
    requires IsSorted(s) && i < |s|
    ensures First(s, s[i]) == i
  {
    var at := First(s, s[i]);
    assert at < i ==> Less(s[at], s[i]);
  }

  lemma {:induction false} CountOfConcat(a: seq<Key>, b: seq<Key>, k: Key)
    ensures Count(a + b, k) == Count(a, k) + Count(b, k)
  {
    if b == [] {
      assert a + b == a;
    } else {
      var m := |b| - 1;
      assert (a + b)[..|a| + m] == a + b[..m];
      CountOfConcat(a, b[..m], k);
    }
  }

  lemma {:induction false} CountInSorted(s: seq<Key>, k: Key)
    requires IsSorted(s)
    ensures Count(s, k) <= 1
  {
    if s != [] {
      var m := |s| - 1;
      CountInSorted(s[..m], k);
      assert forall i :: 0 <= i < m ==> Less(s[..m][i], s[m]);
    }
  }

  // A sorted list is determined by its elements.
  lemma {:induction false} SortedUnique(a: seq<Key>, b: seq<Key>)
    requires IsSorted(a) && IsSorted(b) && forall k :: k in a <==> k in b
    ensures a == b
    decreases |a|
  {
    assert forall i :: 0 <= i < |a| ==> a[i] in a;
    assert forall i :: 0 <= i < |b| ==> b[i] in b;
    if a == [] || b == [] {
    } else {
      var m, n := |a| - 1, |b| - 1;
      LastNotLess(a, b);
      LastNotLess(b, a);
      forall k
        ensures k in a[..m] <==> k in b[..n]
      {
        assert k in a[..m] <==> k in a && k != a[m];
        assert k in b[..n] <==> k in b && k != b[n];
      }
      SortedUnique(a[..m], b[..n]);
      assert a == a[..m] + [a[m]] && b == b[..n] + [b[n]];
    }
  }

  lemma LastNotLess(a: seq<Key>, b: seq<Key>)
    requires a != [] && b != [] && IsSorted(b) && a[|a| - 1] in b
    ensures a[|a| - 1] == b[|b| - 1] || Less(a[|a| - 1], b[|b| - 1])
  {
  }

  method Unique(keys: seq<Key>) returns (distinct: seq<Key>, index: seq<nat>)
    ensures IsUnique(keys, distinct, index)
  {
    distinct, index := [], [];
    assert keys[..0] == [];
    for n := 0 to |keys|
      invariant IsUnique(keys[..n], distinct, index)
    {
      var k := keys[n];
      assert keys[..n + 1] == keys[..n] + [k];
      var i := 0;
      while i < |distinct| && Less(distinct[i], k)
        invariant 0 <= i <= |distinct|
        invariant forall j :: 0 <= j < i ==> Less(distinct[j], k)
      {
        i := i + 1;
      }
      FirstsKept(keys[..n], k, distinct);
      if i == |distinct| || distinct[i] != k {
        InsertKey(keys[..n], k, distinct, index, i);
        distinct, index := distinct[..i] + [k] + distinct[i..], index[..i] + [n] + index[i..];
      }
    }
    assert keys[..|keys|] == keys;
  }

  // One more key does not move where the earlier ones come first.
  lemma FirstsKept(keys: seq<Key>, k: Key, distinct: seq<Key>)
    requires forall j :: 0 <= j < |distinct| ==> distinct[j] in keys
    ensures forall j :: 0 <= j < |distinct| ==>
              distinct[j] in keys + [k] && First(keys + [k], distinct[j]) == First(keys, distinct[j])
  {
    forall j | 0 <= j < |distinct|
      ensures First(keys + [k], distinct[j]) == First(keys, distinct[j])
    {
      FirstOfConcat(keys, [k], distinct[j]);
    }
  }

  lemma InsertKey(keys: seq<Key>, k: Key, distinct: seq<Key>, index: seq<nat>, i: nat)
    requires IsUnique(keys, distinct, index) && i <= |distinct|
    requires forall j :: 0 <= j < i ==> Less(distinct[j], k)
    requires i < |distinct| ==> Less(k, distinct[i])
    ensures IsUnique(keys + [k], distinct[..i] + [k] + distinct[i..], index[..i] + [|keys|] + index[i..])
  {
    var d, x := distinct[..i] + [k] + distinct[i..], index[..i] + [|keys|] + index[i..];
    assert distinct == distinct[..i] + distinct[i..];
    InsertSorted(distinct, k, i);
    FirstsKept(keys, k, distinct);
    FirstOfConcat(keys, [k], k);
    hide Less, IsSorted, First;
    assert forall y :: y in d <==> y in distinct[..i] || y == k || y in distinct[i..];
    FirstsInserted(keys + [k], distinct, index, k, |keys|, i);
  }

  lemma FirstsInserted(keys: seq<Key>, distinct: seq<Key>, index: seq<nat>, k: Key, at: nat, i: nat)
    requires |index| == |distinct| && i <= |distinct| && k in keys && First(keys, k) == at
    requires forall j :: 0 <= j < |distinct| ==> distinct[j] in keys && index[j] == First(keys, distinct[j])
    ensures var d, x := distinct[..i] + [k] + distinct[i..], index[..i] + [at] + index[i..];
            forall j :: 0 <= j < |d| ==> d[j] in keys && x[j] == First(keys, d[j])
  {
    hide First;
    var d, x := distinct[..i] + [k] + distinct[i..], index[..i] + [at] + index[i..];
    forall j | 0 <= j < |d|
      ensures d[j] in keys && x[j] == First(keys, d[j])
    {
      if j < i {
        assert d[j] == distinct[j] && x[j] == index[j];
      } else if j > i {
        assert d[j] == distinct[j - 1] && x[j] == index[j - 1];
      } else {
        assert d[j] == k && x[j] == at;
      }
    }
  }

  lemma InsertSorted(s: seq<Key>, k: Key, i: nat)
    requires IsSorted(s) && i <= |s|
    requires forall j :: 0 <= j < i ==> Less(s[j], k)
    requires i < |s| ==> Less(k, s[i])
    ensures IsSorted(s[..i] + [k] + s[i..]) && k !in s
  {
    forall j | i <= j < |s|
      ensures Less(k, s[j])
    {
      if i < j { Transitive(k, s[i], s[j]); }
    }
    hide Less;
    Irreflexive(k);
  }

  lemma Transitive(a: Key, b: Key, c: Key)
    requires Less(a, b) && Less(b, c)
    ensures Less(a, c)
  {
  }

  lemma Irreflexive(a: Key)
    ensures !Less(a, a)
  {
  }

  // ---- how many different keys there are ----

  ghost function Elements(s: seq<Key>): set<Key> {
    set k | k in s
  }

  lemma LastElement(s: seq<Key>)
    requires s != []
    ensures Elements(s) == Elements(s[..|s| - 1]) + {s[|s| - 1]}
  {
    assert s == s[..|s| - 1] + [s[|s| - 1]];
  }

  lemma LastIsNew(s: seq<Key>)
    requires s != [] && IsSorted(s)
    ensures s[|s| - 1] !in Elements(s[..|s| - 1]) && IsSorted(s[..|s| - 1])
  {
    var m := |s| - 1;
    assert forall i :: 0 <= i < m ==> Less(s[..m][i], s[m]);
  }

  lemma OneMore(e: set<Key>, k: Key)
    ensures |e + {k}| == |e| + if k in e then 0 else 1
  {
    if k in e { assert e + {k} == e; }
  }

  lemma {:induction false} ElementsBound(s: seq<Key>)
    ensures |Elements(s)| <= |s|
    ensures IsSorted(s) ==> |Elements(s)| == |s|
  {
    if s == [] {
      assert Elements(s) == {};
    } else {
      ElementsBound(s[..|s| - 1]);
      LastElement(s);
      if IsSorted(s) { LastIsNew(s); }
      hide Elements, IsSorted;
      OneMore(Elements(s[..|s| - 1]), s[|s| - 1]);
    }
  }

  lemma {:induction false} RepeatShrinks(s: seq<Key>, i: nat, j: nat)
    requires i < j < |s| && s[i] == s[j]
    ensures |Elements(s)| < |s|
  {
    hide IsSorted;
    var m := |s| - 1;
    ElementsBound(s[..m]);
    LastElement(s);
    OneMore(Elements(s[..m]), s[m]);
    if j < m {
      RepeatShrinks(s[..m], i, j);
    } else {
      assert s[..m][i] == s[m];
    }
  }

  // As many keys as different ones: none repeats.
  lemma AllDifferent(keys: seq<Key>, distinct: seq<Key>, i: nat, j: nat)
    requires IsSorted(distinct) && (forall k :: k in distinct <==> k in keys) && |keys| == |distinct| && i < j < |keys|
    ensures keys[i] != keys[j]
  {
    ElementsBound(distinct);
    assert Elements(distinct) == Elements(keys);
    if keys[i] == keys[j] {
      RepeatShrinks(keys, i, j);
    }
  }
}
