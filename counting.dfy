/**
 * The counts of a hash table's slots as values, `exportToMap`'s fold of
 * those slots into an `unordered_map<string, size_t>`, and the merge of
 * several tables into one map. A map is a Dafny `map`; a key it does not
 * hold reads as 0, as `map[key]` does for `operator[]`.
 */
module Counting {

  /** The slots of a table: the key and the count of every slot, `""`
      marking an empty slot. */
  datatype Slots = Slots(keys: seq<string>, values: seq<nat>) {
    predicate Ok() {
      |keys| == |values|
    }
  }

  /** `map[x]` read without inserting: 0 when `x` is absent. */
  function Get(m: map<string, nat>, x: string): nat {
    if x in m then m[x] else 0
  }

  /** What one slot adds to the count of `x`. */
  function Share(key: string, value: nat, x: string): nat {
    if key != "" && key == x then value else 0
  }

  /** The count the first `n` slots hold for `x`: the values of the
      occupied slots whose key is `x`, added up. */
  function CountUpTo(t: Slots, x: string, n: nat): nat
    requires t.Ok() && n <= |t.keys|
  {
    if n == 0 then 0 else CountUpTo(t, x, n - 1) + Share(t.keys[n - 1], t.values[n - 1], x)
  }

  /** Rewriting slot `p` changes the count by the change in that slot's
      share. */
  lemma {:induction false} CountUpToUpdate(t: Slots, p: nat, key: string, value: nat, x: string, n: nat)
    requires t.Ok() && p < |t.keys| && n <= |t.keys|
    ensures Slots(t.keys[p := key], t.values[p := value]).Ok()
    ensures CountUpTo(Slots(t.keys[p := key], t.values[p := value]), x, n)
              + (if p < n then Share(t.keys[p], t.values[p], x) else 0)
         == CountUpTo(t, x, n) + (if p < n then Share(key, value, x) else 0)
  {
    if n > 0 {
      CountUpToUpdate(t, p, key, value, x, n - 1);
    }
  }

  /** The count all slots hold for `x`. */
  function Count(t: Slots, x: string): nat
    requires t.Ok()
  {
    CountUpTo(t, x, |t.keys|)
  }

  /** When slot `q` alone holds `x`, the count of `x` is that slot's value. */
  lemma {:induction false} CountUpToSingle(t: Slots, x: string, q: nat, n: nat)
    requires t.Ok() && q < |t.keys| && t.keys[q] == x != "" && n <= |t.keys|
    requires forall p :: 0 <= p < |t.keys| && p != q ==> t.keys[p] != x
    ensures CountUpTo(t, x, n) == if q < n then t.values[q] else 0
  {
    if n > 0 {
      CountUpToSingle(t, x, q, n - 1);
    }
  }

  /** A key no slot holds has count 0. */
  lemma {:induction false} CountUpToAbsent(t: Slots, x: string, n: nat)
    requires t.Ok() && n <= |t.keys|
    requires forall p :: 0 <= p < n ==> t.keys[p] != x
    ensures CountUpTo(t, x, n) == 0
  {
    if n > 0 {
      CountUpToAbsent(t, x, n - 1);
    }
  }

  /** The loop of `exportToMap` over the first `n` slots: every occupied
      slot adds its count to its key's entry. */
  function ExportUpTo(m: map<string, nat>, t: Slots, n: nat): map<string, nat>
    requires t.Ok() && n <= |t.keys|
  {
    if n == 0 then m
    else
      var m' := ExportUpTo(m, t, n - 1);
      var key := t.keys[n - 1];
      if key != "" then m'[key := Get(m', key) + t.values[n - 1]] else m'
  }

  /** `exportToMap` into `m`. */
  function Export(m: map<string, nat>, t: Slots): map<string, nat>
    requires t.Ok()
  {
    ExportUpTo(m, t, |t.keys|)
  }

  lemma {:induction false} ExportUpToGet(m: map<string, nat>, t: Slots, n: nat, x: string)
    requires t.Ok() && n <= |t.keys|
    ensures Get(ExportUpTo(m, t, n), x) == Get(m, x) + CountUpTo(t, x, n)
  {
    if n > 0 {
      ExportUpToGet(m, t, n - 1, x);
    }
  }

  /** Exporting adds the table's count of `x` to the entry of `x`. */
  lemma ExportGet(m: map<string, nat>, t: Slots, x: string)
    requires t.Ok()
    ensures Get(Export(m, t), x) == Get(m, x) + Count(t, x)
  {
    ExportUpToGet(m, t, |t.keys|, x);
  }

  /** `x` is the key of one of the first `n` slots. */
  predicate StoredUpTo(t: Slots, x: string, n: nat)
    requires n <= |t.keys|
  {
    x != "" && exists i :: 0 <= i < n && t.keys[i] == x
  }

  lemma {:induction false} ExportUpToKeys(m: map<string, nat>, t: Slots, n: nat, x: string)
    requires t.Ok() && n <= |t.keys|
    ensures x in ExportUpTo(m, t, n) <==> x in m || StoredUpTo(t, x, n)
  {
    if n > 0 {
      ExportUpToKeys(m, t, n - 1, x);
      if StoredUpTo(t, x, n) && !StoredUpTo(t, x, n - 1) {
        assert t.keys[n - 1] == x;
      }
    }
  }

  /** Exporting adds exactly the table's stored keys; empty slots add
      nothing and no entry is removed. */
  lemma ExportKeys(m: map<string, nat>, t: Slots, x: string)
    requires t.Ok()
    ensures x in Export(m, t) <==> x in m || StoredUpTo(t, x, |t.keys|)
  {
    ExportUpToKeys(m, t, |t.keys|, x);
  }

  /** Every table in the list is well formed. */
  predicate AllOk(ts: seq<Slots>) {
    forall i :: 0 <= i < |ts| ==> ts[i].Ok()
  }

  /** `mergeResults` over the first `n` tables: the map starts empty and
      each table is exported into it in turn. */
  function Merge(ts: seq<Slots>, n: nat): map<string, nat>
    requires AllOk(ts) && n <= |ts|
  {
    if n == 0 then map[] else Export(Merge(ts, n - 1), ts[n - 1])
  }

  /** The count of `x` over the first `n` tables. */
  function Total(ts: seq<Slots>, x: string, n: nat): nat
    requires AllOk(ts) && n <= |ts|
  {
    if n == 0 then 0 else Total(ts, x, n - 1) + Count(ts[n - 1], x)
  }

  /** The merged map holds, for every key, its count summed over the
      tables. */
  lemma {:induction false} MergeGet(ts: seq<Slots>, n: nat, x: string)
    requires AllOk(ts) && n <= |ts|
    ensures Get(Merge(ts, n), x) == Total(ts, x, n)
  {
    if n > 0 {
      MergeGet(ts, n - 1, x);
      ExportGet(Merge(ts, n - 1), ts[n - 1], x);
    }
  }

  /** `x` is stored in one of the first `n` tables. */
  predicate StoredInSome(ts: seq<Slots>, x: string, n: nat)
    requires n <= |ts|
  {
    exists i :: 0 <= i < n && StoredUpTo(ts[i], x, |ts[i].keys|)
  }

  /** The merged map holds exactly the keys stored in some table. */
  lemma {:induction false} MergeKeys(ts: seq<Slots>, n: nat, x: string)
    requires AllOk(ts) && n <= |ts|
    ensures x in Merge(ts, n) <==> StoredInSome(ts, x, n)
  {
    if n > 0 {
      MergeKeys(ts, n - 1, x);
      ExportKeys(Merge(ts, n - 1), ts[n - 1], x);
      if StoredInSome(ts, x, n) && !StoredInSome(ts, x, n - 1) {
        assert StoredUpTo(ts[n - 1], x, |ts[n - 1].keys|);
      }
    }
  }

  /** Replacing one table changes the total by the change in that table. */
  lemma {:induction false} TotalUpdate(ts: seq<Slots>, id: nat, t: Slots, x: string, n: nat)
    requires AllOk(ts) && t.Ok() && id < |ts| && n <= |ts|
    ensures AllOk(ts[id := t])
    ensures Total(ts[id := t], x, n) + (if id < n then Count(ts[id], x) else 0)
         == Total(ts, x, n) + (if id < n then Count(t, x) else 0)
  {
    if n > 0 {
      TotalUpdate(ts, id, t, x, n - 1);
    }
  }

  /** Every slot is empty. */
  predicate Blank(t: Slots) {
    forall p :: 0 <= p < |t.keys| ==> t.keys[p] == ""
  }

  /** Every occupied slot counts at least 1. */
  predicate Positive(t: Slots)
    requires t.Ok()
  {
    forall p :: 0 <= p < |t.keys| && t.keys[p] != "" ==> t.values[p] >= 1
  }

  lemma {:induction false} BlankCountUpTo(t: Slots, x: string, n: nat)
    requires t.Ok() && Blank(t) && n <= |t.keys|
    ensures CountUpTo(t, x, n) == 0
  {
    if n > 0 {
      BlankCountUpTo(t, x, n - 1);
    }
  }

  /** Tables whose slots are all empty count nothing. */
  lemma {:induction false} BlankTotal(ts: seq<Slots>, x: string, n: nat)
    requires AllOk(ts) && n <= |ts| && forall i :: 0 <= i < n ==> Blank(ts[i])
    ensures Total(ts, x, n) == 0
  {
    if n > 0 {
      BlankTotal(ts, x, n - 1);
      BlankCountUpTo(ts[n - 1], x, |ts[n - 1].keys|);
    }
  }

  /** In a table whose occupied slots count at least 1, a key has a
      positive count exactly when it is stored. */
  lemma {:induction false} CountUpToPositive(t: Slots, x: string, n: nat)
    requires t.Ok() && Positive(t) && n <= |t.keys|
    ensures CountUpTo(t, x, n) > 0 <==> StoredUpTo(t, x, n)
  {
    if n > 0 {
      CountUpToPositive(t, x, n - 1);
      if StoredUpTo(t, x, n) && !StoredUpTo(t, x, n - 1) {
        assert t.keys[n - 1] == x;
      }
    }
  }

  lemma {:induction false} TotalPositive(ts: seq<Slots>, x: string, n: nat)
    requires AllOk(ts) && n <= |ts| && forall i :: 0 <= i < n ==> Positive(ts[i])
    ensures Total(ts, x, n) > 0 <==> StoredInSome(ts, x, n)
  {
    if n > 0 {
      TotalPositive(ts, x, n - 1);
      CountUpToPositive(ts[n - 1], x, |ts[n - 1].keys|);
      if StoredInSome(ts, x, n) && !StoredInSome(ts, x, n - 1) {
        assert StoredUpTo(ts[n - 1], x, |ts[n - 1].keys|);
      }
    }
  }

  /** When every occupied slot counts at least 1, the merged map holds
      exactly the non-empty keys with a positive total, and no entry 0. */
  lemma MergeKeysPositive(ts: seq<Slots>, n: nat, x: string)
    requires AllOk(ts) && n <= |ts| && forall i :: 0 <= i < n ==> Positive(ts[i])
    ensures x in Merge(ts, n) <==> x != "" && Get(Merge(ts, n), x) > 0
  {
    MergeKeys(ts, n, x);
    MergeGet(ts, n, x);
    TotalPositive(ts, x, n);
  }
}
