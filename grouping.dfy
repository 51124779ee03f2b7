/** `df.groupby(column).size().reset_index(name="Count")`: one row per distinct
    non-missing key with the number of rows carrying it. Missing keys are
    dropped, as `groupby` does by default. */
module Grouping {
  import opened Wrappers
  import opened Sorting

  /** One row of a group-size table: a key and its `Count`. */
  datatype Group<K> = Group(key: K, count: nat)

  /** Number of rows whose key is `k`. */
  function CountOf<K(==)>(keys: seq<Option<K>>, k: K): nat {
    if keys == [] then 0
    else (if keys[0] == Some(k) then 1 else 0) + CountOf(keys[1..], k)
  }

  /** Number of rows whose key is not missing. */
  function PresentCount<K>(keys: seq<Option<K>>): nat {
    if keys == [] then 0
    else (if keys[0].Some? then 1 else 0) + PresentCount(keys[1..])
  }

  /** Number of rows whose key is one of `ks`. */
  function CountWhere<K(==)>(keys: seq<Option<K>>, ks: seq<K>): nat {
    if keys == [] then 0
    else (if keys[0].Some? && keys[0].value in ks then 1 else 0) + CountWhere(keys[1..], ks)
  }

  /** Sum of the group counts of the keys `ks`. */
  function SumCounts<K(==)>(keys: seq<Option<K>>, ks: seq<K>): nat {
    if ks == [] then 0 else CountOf(keys, ks[0]) + SumCounts(keys, ks[1..])
  }

  function KeysOf<K>(gs: seq<Group<K>>): (ks: seq<K>)
    ensures |ks| == |gs| && forall i :: 0 <= i < |gs| ==> ks[i] == gs[i].key
  {
    seq(|gs|, i requires 0 <= i < |gs| => gs[i].key)
  }

  /** Sum of the `Count` column. */
  function Total<K>(gs: seq<Group<K>>): nat {
    if gs == [] then 0 else gs[0].count + Total(gs[1..])
  }

  /** `gs` is a group-size table of `keys`: each distinct non-missing key once,
      no other key, each with the number of rows carrying it. */
  ghost predicate IsGroupTable<K>(keys: seq<Option<K>>, gs: seq<Group<K>>) {
    && Distinct(KeysOf(gs))
    && (forall k :: k in KeysOf(gs) ==> Some(k) in keys)
    && (forall i :: 0 <= i < |keys| && keys[i].Some? ==> keys[i].value in KeysOf(gs))
    && (forall i :: 0 <= i < |gs| ==> gs[i].count == CountOf(keys, gs[i].key))
  }

  /** The distinct non-missing keys. */
  function DistinctPresent<K(==)>(keys: seq<Option<K>>): (ks: seq<K>)
    ensures Distinct(ks)
    ensures forall k :: k in ks ==> Some(k) in keys
    ensures forall i :: 0 <= i < |keys| && keys[i].Some? ==> keys[i].value in ks
  {
    if keys == [] then []
    else
      var rest := DistinctPresent(keys[1..]);
      assert keys == [keys[0]] + keys[1..];
      match keys[0]
      case None => rest
      case Some(k) =>
        if k in rest then rest
        else
          DistinctCons(k, rest);
          [k] + rest
  }

  /** A group that exists has at least one row. */
  lemma {:induction false} CountOfPositive<K>(keys: seq<Option<K>>, k: K)
    requires Some(k) in keys
    ensures CountOf(keys, k) >= 1
  {
    if keys[0] != Some(k) {
      assert Some(k) in keys[1..];
      CountOfPositive(keys[1..], k);
    }
  }

  /** `groupby(...).size()`: the group-size table of `keys`, every count at least one. */
  function GroupSizes<K(==)>(keys: seq<Option<K>>): (gs: seq<Group<K>>)
    ensures IsGroupTable(keys, gs)
    ensures forall i :: 0 <= i < |gs| ==> gs[i].count >= 1
  {
    var ks := DistinctPresent(keys);
    var gs := seq(|ks|, i requires 0 <= i < |ks| => Group(ks[i], CountOf(keys, ks[i])));
    assert KeysOf(gs) == ks;
    assert forall i :: 0 <= i < |gs| ==> gs[i].count >= 1 by {
      forall i | 0 <= i < |gs| ensures gs[i].count >= 1 {
        assert ks[i] in ks;
        CountOfPositive(keys, ks[i]);
      }
    }
    gs
  }

  lemma {:induction false} SumCountsCons<K>(x: Option<K>, keys: seq<Option<K>>, ks: seq<K>)
    requires Distinct(ks)
    ensures SumCounts([x] + keys, ks) == SumCounts(keys, ks) + (if x.Some? && x.value in ks then 1 else 0)
  {
    if ks != [] {
      assert ([x] + keys)[1..] == keys;
      assert ks[0] !in ks[1..];
      assert Distinct(ks[1..]);
      SumCountsCons(x, keys, ks[1..]);
      assert x.Some? && x.value in ks ==> x.value == ks[0] || x.value in ks[1..];
    }
  }

  lemma {:induction false} SumCountsIsCountWhere<K>(keys: seq<Option<K>>, ks: seq<K>)
    requires Distinct(ks)
    ensures SumCounts(keys, ks) == CountWhere(keys, ks)
  {
    if keys == [] {
      SumCountsOfNoRows(keys, ks);
    } else {
      assert keys == [keys[0]] + keys[1..];
      SumCountsCons(keys[0], keys[1..], ks);
      SumCountsIsCountWhere(keys[1..], ks);
    }
  }

  lemma {:induction false} SumCountsOfNoRows<K>(keys: seq<Option<K>>, ks: seq<K>)
    requires keys == []
    ensures SumCounts(keys, ks) == 0
  {
    if ks != [] { SumCountsOfNoRows(keys, ks[1..]); }
  }

  lemma {:induction false} CountWhereCovering<K>(keys: seq<Option<K>>, ks: seq<K>)
    requires forall k :: Some(k) in keys ==> k in ks
    ensures CountWhere(keys, ks) == PresentCount(keys)
  {
    if keys != [] {
      assert keys == [keys[0]] + keys[1..];
      CountWhereCovering(keys[1..], ks);
    }
  }

  lemma {:induction false} TotalIsSumCounts<K>(keys: seq<Option<K>>, gs: seq<Group<K>>)
    requires forall i :: 0 <= i < |gs| ==> gs[i].count == CountOf(keys, gs[i].key)
    ensures Total(gs) == SumCounts(keys, KeysOf(gs))
  {
    if gs != [] {
      assert KeysOf(gs)[1..] == KeysOf(gs[1..]);
      TotalIsSumCounts(keys, gs[1..]);
    }
  }

  /** The counts of a group-size table partition the rows that have a key. */
  lemma GroupTableTotal<K>(keys: seq<Option<K>>, gs: seq<Group<K>>)
    requires IsGroupTable(keys, gs)
    ensures Total(gs) == PresentCount(keys)
  {
    TotalIsSumCounts(keys, gs);
    SumCountsIsCountWhere(keys, KeysOf(gs));
    CountWhereCovering(keys, KeysOf(gs));
  }

  /** Rows with distinct keys are distinct rows. */
  lemma DistinctKeysDistinctGroups<K>(gs: seq<Group<K>>)
    requires Distinct(KeysOf(gs))
    ensures Distinct(gs)
  {
    forall i, j | 0 <= i < j < |gs| ensures gs[i] != gs[j] {
      assert KeysOf(gs)[i] != KeysOf(gs)[j];
    }
  }

  /** Reordering the rows of a group-size table (as `sort_values` does) gives a
      group-size table of the same keys. */
  lemma GroupTablePermutation<K>(keys: seq<Option<K>>, gs: seq<Group<K>>, rs: seq<Group<K>>)
    requires IsGroupTable(keys, gs)
    requires multiset(rs) == multiset(gs) && Distinct(rs)
    ensures IsGroupTable(keys, rs)
  {
    PermutationMembers(rs, gs);
    forall i | 0 <= i < |rs| ensures rs[i].count == CountOf(keys, rs[i].key) {
      assert rs[i] in rs;
      var j :| 0 <= j < |gs| && gs[j] == rs[i];
    }
    forall i, j | 0 <= i < j < |rs| ensures KeysOf(rs)[i] != KeysOf(rs)[j] {
      assert rs[i] != rs[j];
    }
    forall k | k in KeysOf(rs) ensures Some(k) in keys {
      var i :| 0 <= i < |rs| && rs[i].key == k;
      assert rs[i] in rs;
      var j :| 0 <= j < |gs| && gs[j] == rs[i];
      assert KeysOf(gs)[j] == k;
    }
    forall n | 0 <= n < |keys| && keys[n].Some? ensures keys[n].value in KeysOf(rs) {
      var k := keys[n].value;
      var j :| 0 <= j < |gs| && gs[j].key == k;
      assert gs[j] in gs;
      var i :| 0 <= i < |rs| && rs[i] == gs[j];
      assert KeysOf(rs)[i] == k;
    }
  }
}
