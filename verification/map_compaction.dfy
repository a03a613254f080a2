// Incremental deduplication of a stream of clouds by voxel
// (scripts/localization/restricted_fov/tools/build_pcd_map.py).

module MapCompaction {
  import opened VoxelKeys

  // One cloud's points: their voxel keys and their values, in step.
  datatype Cloud<V> = Cloud(keys: seq<Key>, vals: seq<V>)

  type WholeCloud<V> = c: Cloud<V> | |c.keys| == |c.vals| witness Cloud([], [])

  function Concat<T>(parts: seq<seq<T>>): seq<T> {
    if parts == [] then [] else Concat(parts[..|parts| - 1]) + parts[|parts| - 1]
  }

  ghost function StreamKeys<V>(clouds: seq<WholeCloud<V>>): seq<Key> {
    if clouds == [] then [] else StreamKeys(clouds[..|clouds| - 1]) + clouds[|clouds| - 1].keys
  }

  ghost function StreamVals<V>(clouds: seq<WholeCloud<V>>): (s: seq<V>)
    ensures |s| == |StreamKeys(clouds)|
  {
    if clouds == [] then [] else StreamVals(clouds[..|clouds| - 1]) + clouds[|clouds| - 1].vals
  }

  // Each occupied voxel once, in key order, with the value of its first point.
  ghost predicate IsDeduped<V>(keys: seq<Key>, vals: seq<V>, keptKeys: seq<Key>, keptVals: seq<V>) {
    && |keys| == |vals| && |keptKeys| == |keptVals| && IsSorted(keptKeys)
    && (forall k :: k in keptKeys <==> k in keys)
    && (forall i :: 0 <= i < |keptKeys| ==> keptKeys[i] in keys && keptVals[i] == vals[First(keys, keptKeys[i])])
  }

  // That determines the map.
  lemma DedupedUnique<V>(keys: seq<Key>, vals: seq<V>, k1: seq<Key>, v1: seq<V>, k2: seq<Key>, v2: seq<V>)
    requires IsDeduped(keys, vals, k1, v1) && IsDeduped(keys, vals, k2, v2)
    ensures k1 == k2 && v1 == v2
  {
    SortedUnique(k1, k2);
  }

  // Deduplicating what was kept together with more points is deduplicating all of them.
  lemma DedupedAbsorbs<V>(keys: seq<Key>, vals: seq<V>, kept: seq<Key>, keptVals: seq<V>, more: seq<Key>,
                          moreVals: seq<V>, outKeys: seq<Key>, outVals: seq<V>)
    requires IsDeduped(keys, vals, kept, keptVals) && |more| == |moreVals|
    requires IsDeduped(kept + more, keptVals + moreVals, outKeys, outVals)
    ensures IsDeduped(keys + more, vals + moreVals, outKeys, outVals)
  {
    forall k
      ensures k in keys + more <==> k in kept + more
    {
      assert k in keys + more <==> k in keys || k in more;
      assert k in kept + more <==> k in kept || k in more;
    }
    forall i | 0 <= i < |outKeys|
      ensures outKeys[i] in keys + more && outVals[i] == (vals + moreVals)[First(keys + more, outKeys[i])]
    {
      var k := outKeys[i];
      assert k in outKeys;
      FirstOfConcat(keys, more, k);
      FirstOfConcat(kept, more, k);
      if k in kept {
        FirstInSorted(kept, First(kept, k));
        assert keptVals[First(kept, k)] == vals[First(keys, k)];
      }
    }
  }

  // The values at the positions np.unique returned.
  function Gather<V>(vals: seq<V>, index: seq<nat>): (r: seq<V>)
    requires forall j :: 0 <= j < |index| ==> index[j] < |vals|
    ensures |r| == |index| && forall j :: 0 <= j < |index| ==> r[j] == vals[index[j]]
  {
    seq(|index|, j requires 0 <= j < |index| => vals[index[j]])
  }

  // The first n points of the stream were compacted and the rest waits in the lists.
  ghost predicate Represents<V>(keys: seq<Key>, vals: seq<V>, n: nat, keysAcc: seq<seq<Key>>, valsAcc: seq<seq<V>>,
                                keptKeys: seq<Key>, keptVals: seq<V>) {
    && n <= |keys| == |vals|
    && keys == keys[..n] + Concat(keysAcc) && vals == vals[..n] + Concat(valsAcc)
    && IsDeduped(keys[..n], vals[..n], keptKeys, keptVals)
  }

  lemma Grown<T>(parts: seq<seq<T>>, part: seq<T>, s: seq<T>, n: nat)
    requires n <= |s| && s == s[..n] + Concat(parts)
    ensures (s + part)[..n] == s[..n] && s + part == s[..n] + Concat(parts + [part])
  {
    assert (parts + [part])[..|parts|] == parts;
    assert s[..n] + (Concat(parts) + part) == s[..n] + Concat(parts) + part;
  }

  lemma RepresentsMore<V>(keys: seq<Key>, vals: seq<V>, n: nat, keysAcc: seq<seq<Key>>, valsAcc: seq<seq<V>>,
                          keptKeys: seq<Key>, keptVals: seq<V>, cloud: WholeCloud<V>)
    requires Represents(keys, vals, n, keysAcc, valsAcc, keptKeys, keptVals)
    ensures Represents(keys + cloud.keys, vals + cloud.vals, n, keysAcc + [cloud.keys], valsAcc + [cloud.vals],
                       keptKeys, keptVals)
  {
    hide IsDeduped;
    Grown(keysAcc, cloud.keys, keys, n);
    Grown(valsAcc, cloud.vals, vals, n);
  }

  lemma RepresentsAll<V>(keys: seq<Key>, vals: seq<V>, n: nat, keysAcc: seq<seq<Key>>, valsAcc: seq<seq<V>>,
                         keptKeys: seq<Key>, keptVals: seq<V>, outKeys: seq<Key>, outVals: seq<V>)
    requires Represents(keys, vals, n, keysAcc, valsAcc, keptKeys, keptVals)
    requires IsDeduped(keptKeys + Concat(keysAcc), keptVals + Concat(valsAcc), outKeys, outVals)
    ensures IsDeduped(keys, vals, outKeys, outVals)
    ensures Represents(keys, vals, |keys|, [], [], outKeys, outVals)
  {
    KeptLengths(keys[..n], vals[..n], keptKeys, keptVals);
    assert |Concat(keysAcc)| == |Concat(valsAcc)|;
    DedupedAbsorbs(keys[..n], vals[..n], keptKeys, keptVals, Concat(keysAcc), Concat(valsAcc), outKeys, outVals);
    hide IsDeduped;
    assert keys[..|keys|] == keys && vals[..|vals|] == vals && keys + [] == keys && vals + [] == vals;
  }

  lemma KeptLengths<V>(keys: seq<Key>, vals: seq<V>, keptKeys: seq<Key>, keptVals: seq<V>)
    requires IsDeduped(keys, vals, keptKeys, keptVals)
    ensures |keptKeys| == |keptVals| && |keys| == |vals|
  {
  }

  lemma NothingWaits<V>(keys: seq<Key>, vals: seq<V>, n: nat, keptKeys: seq<Key>, keptVals: seq<V>)
    requires Represents(keys, vals, n, [], [], keptKeys, keptVals)
    ensures IsDeduped(keys, vals, keptKeys, keptVals)
  {
    hide IsDeduped;
    assert keys == keys[..n] && vals == vals[..n];
  }

  lemma RepresentsNothing<V>()
    ensures Represents<V>([], [], 0, [], [], [], [])
  {
  }

  lemma Gathered<V>(keys: seq<Key>, vals: seq<V>, distinct: seq<Key>, index: seq<nat>)
    requires |keys| == |vals| && IsUnique(keys, distinct, index)
    ensures forall j :: 0 <= j < |index| ==> index[j] < |keys|
    ensures IsDeduped(keys, vals, Gather(keys, index), Gather(vals, index))
  {
    assert Gather(keys, index) == distinct;
  }

  class Accumulator<V> {
    var keysAcc: seq<seq<Key>>
    var valsAcc: seq<seq<V>>
    var keptKeys: seq<Key>
    var keptVals: seq<V>

    // All points so far in stream order, and how many of them were compacted.
    ghost var streamKeys: seq<Key>
    ghost var streamVals: seq<V>
    ghost var compacted: nat

    ghost predicate Valid()
      reads this
    {
      && Represents(streamKeys, streamVals, compacted, keysAcc, valsAcc, keptKeys, keptVals)
      && |keysAcc| == |valsAcc|
    }

    constructor ()
      ensures Valid() && streamKeys == [] && streamVals == []
    {
      RepresentsNothing<V>();
      keysAcc, valsAcc, keptKeys, keptVals := [], [], [], [];
      streamKeys, streamVals, compacted := [], [], 0;
    }

    method Append(cloud: WholeCloud<V>)
      requires Valid()
      modifies this
      ensures Valid()
      ensures streamKeys == old(streamKeys) + cloud.keys && streamVals == old(streamVals) + cloud.vals
      ensures keptKeys == old(keptKeys) && keptVals == old(keptVals)
    {
      RepresentsMore(streamKeys, streamVals, compacted, keysAcc, valsAcc, keptKeys, keptVals, cloud);
      hide Represents;
      keysAcc, valsAcc := keysAcc + [cloud.keys], valsAcc + [cloud.vals];
      streamKeys, streamVals := streamKeys + cloud.keys, streamVals + cloud.vals;
    }

    // Afterwards the kept points are the whole stream deduplicated, whenever it was compacted before.
    method Compact()
      requires Valid()
      modifies this
      ensures Valid() && streamKeys == old(streamKeys) && streamVals == old(streamVals)
      ensures IsDeduped(streamKeys, streamVals, keptKeys, keptVals)
    {
      if keysAcc == [] {
        assert valsAcc == [];
        NothingWaits(streamKeys, streamVals, compacted, keptKeys, keptVals);
        return;
      }
      Lengths();
      hide Represents, IsDeduped, IsUnique;
      var keys, vals := keptKeys + Concat(keysAcc), keptVals + Concat(valsAcc);
      var distinct, index := Unique(keys);
      Gathered(keys, vals, distinct, index);
      RepresentsAll(streamKeys, streamVals, compacted, keysAcc, valsAcc, keptKeys, keptVals,
                    Gather(keys, index), Gather(vals, index));
      keptKeys, keptVals := Gather(keys, index), Gather(vals, index);
      keysAcc, valsAcc := [], [];
      compacted := |streamKeys|;
    }

    lemma Lengths()
      requires Valid()
      ensures |keptKeys + Concat(keysAcc)| == |keptVals + Concat(valsAcc)|
    {
      KeptLengths(streamKeys[..compacted], streamVals[..compacted], keptKeys, keptVals);
      hide IsDeduped;
      assert |streamKeys| == compacted + |Concat(keysAcc)| && |streamVals| == compacted + |Concat(valsAcc)|;
    }
  }

  // The accumulation loop. when says after how many used clouds it compacts; the program's is
  // used % 100 == 0.
  method BuildMap<V>(clouds: seq<WholeCloud<V>>, when: nat -> bool) returns (keptKeys: seq<Key>, keptVals: seq<V>)
    ensures IsDeduped(StreamKeys(clouds), StreamVals(clouds), keptKeys, keptVals)
  {
    hide IsDeduped;
    var acc := new Accumulator<V>();
    var used := 0;
    for i := 0 to |clouds|
      invariant fresh(acc) && acc.Valid()
      invariant acc.streamKeys == StreamKeys(clouds[..i]) && acc.streamVals == StreamVals(clouds[..i])
    {
      assert clouds[..i + 1][..i] == clouds[..i];
      assert clouds[..i + 1][i] == clouds[i];
      if clouds[i].keys != [] {
        acc.Append(clouds[i]);
        used := used + 1;
        if when(used) {
          acc.Compact();
        }
      }
    }
    acc.Compact();
    assert clouds[..|clouds|] == clouds;
    keptKeys, keptVals := acc.keptKeys, acc.keptVals;
  }
}
