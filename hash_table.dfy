/**
 * `QuadraticHashTable`: an open-addressing table of k-mer counts over two
 * parallel arrays, `keys` and `values`, where the key `""` marks an empty
 * slot. A key is looked for at the probe slots `hash(kmer, i) % tableSize`
 * for `i = 0 .. maxSteps`; there is no deletion. The bit-level `hash<32>`
 * is a parameter of the table.
 */
module HashTable {
  import opened Counting

  datatype Option<T> = None | Some(value: T)

  /** The parameters a table is built with. */
  datatype Shape = Shape(size: nat, maxSteps: nat, hash: (string, nat) -> nat)

  /** Probe `i` of key `x`: `hash(x, i) % tableSize`. */
  function Slot(P: Shape, x: string, i: nat): (p: nat)
    requires P.size > 0
    ensures p < P.size
  {
    P.hash(x, i) % P.size
  }

  /** The first probe from `i` on whose slot is empty or holds `x`, the
      one `insert` stops at; None when probes `i` to `maxSteps` all hold
      other keys. */
  function FirstProbe(P: Shape, ks: seq<string>, x: string, i: nat): Option<nat>
    requires P.size == |ks| > 0
    decreases P.maxSteps + 1 - i
  {
    if i > P.maxSteps then None
    else
      var p := Slot(P, x, i);
      if ks[p] == "" || ks[p] == x then Some(i) else FirstProbe(P, ks, x, i + 1)
  }

  /** Probe `i` of `x` lands on a slot holding another key. */
  predicate Collides(P: Shape, ks: seq<string>, x: string, i: nat)
    requires P.size == |ks| > 0
  {
    var p := Slot(P, x, i);
    ks[p] != "" && ks[p] != x
  }

  /** Insert gives up only when every probe it makes collides, and
      otherwise stops at the first probe that does not. */
  lemma {:induction false} FirstProbeSpec(P: Shape, ks: seq<string>, x: string, i: nat)
    requires P.size == |ks| > 0
    ensures match FirstProbe(P, ks, x, i)
              case None =>
                forall j :: i <= j <= P.maxSteps ==> Collides(P, ks, x, j)
              case Some(j) =>
                && i <= j <= P.maxSteps
                && !Collides(P, ks, x, j)
                && forall j' :: i <= j' < j ==> Collides(P, ks, x, j')
    decreases P.maxSteps + 1 - i
  {
    if i <= P.maxSteps && Collides(P, ks, x, i) {
      FirstProbeSpec(P, ks, x, i + 1);
    }
  }

  /** Every probe of `x`, `0` to `maxSteps`, lands on a slot holding
      another key: `insert(x)` gives up. */
  predicate Rejects(P: Shape, ks: seq<string>, x: string) {
    P.size == |ks| > 0 && forall j :: 0 <= j <= P.maxSteps ==> Collides(P, ks, x, j)
  }

  /** Insert's probing finds no slot exactly when the table rejects the
      key. */
  lemma RejectsIff(P: Shape, ks: seq<string>, x: string)
    requires P.size == |ks| > 0
    ensures Rejects(P, ks, x) <==> FirstProbe(P, ks, x, 0) == None
  {
    FirstProbeSpec(P, ks, x, 0);
  }

  /** `ks'` follows `ks` by inserts: a slot once taken keeps its key. */
  predicate Keeps(ks: seq<string>, ks': seq<string>) {
    |ks| == |ks'| && forall p :: 0 <= p < |ks| && ks[p] != "" ==> ks'[p] == ks[p]
  }

  lemma KeepsTrans(a: seq<string>, b: seq<string>, c: seq<string>)
    requires Keeps(a, b) && Keeps(b, c)
    ensures Keeps(a, c)
  {
  }

  /** Slots are never freed, so a key a table rejects stays rejected. */
  lemma RejectsKept(P: Shape, ks: seq<string>, ks': seq<string>, x: string)
    requires Rejects(P, ks, x) && Keeps(ks, ks')
    ensures Rejects(P, ks', x)
  {
    forall j | 0 <= j <= P.maxSteps
      ensures Collides(P, ks', x, j)
    {
      assert Collides(P, ks, x, j);
    }
  }

  /** Keys rejected before inserts stay rejected after them. */
  lemma RejectsAllKept(P: Shape, ks: seq<string>, ks': seq<string>, xs: seq<string>)
    requires Keeps(ks, ks') && forall i :: 0 <= i < |xs| ==> Rejects(P, ks, xs[i])
    ensures forall i :: 0 <= i < |xs| ==> Rejects(P, ks', xs[i])
  {
    forall i | 0 <= i < |xs|
      ensures Rejects(P, ks', xs[i])
    {
      RejectsKept(P, ks, ks', xs[i]);
    }
  }

  /** A table rejects a key only when its first probe holds another,
      non-empty key. */
  lemma RejectsOther(P: Shape, ks: seq<string>, x: string)
    requires Rejects(P, ks, x)
    ensures var p := Slot(P, x, 0); ks[p] != "" && ks[p] != x
  {
    assert Collides(P, ks, x, 0);
  }

  /** The number of occupied slots among the first `n`. */
  function Occupied(ks: seq<string>, n: nat): (r: nat)
    requires n <= |ks|
    ensures r <= n
  {
    if n == 0 then 0 else Occupied(ks, n - 1) + (if ks[n - 1] != "" then 1 else 0)
  }

  lemma {:induction false} OccupiedClaim(ks: seq<string>, p: nat, x: string, n: nat)
    requires p < |ks| && ks[p] == "" && x != "" && n <= |ks|
    ensures Occupied(ks[p := x], n) == Occupied(ks, n) + (if p < n then 1 else 0)
  {
    if n > 0 {
      OccupiedClaim(ks, p, x, n - 1);
    }
  }

  lemma {:induction false} OccupiedNone(ks: seq<string>, n: nat)
    requires n <= |ks| && forall p :: 0 <= p < |ks| ==> ks[p] == ""
    ensures Occupied(ks, n) == 0
  {
    if n > 0 {
      OccupiedNone(ks, n - 1);
    }
  }

  /** The key in slot `p` was placed at its probe `j`, and its probes before
      `j` land on slots holding other keys. */
  ghost predicate Placed(P: Shape, ks: seq<string>, p: nat, j: nat)
    requires P.size == |ks| > 0 && p < |ks|
  {
    && j <= P.maxSteps
    && Slot(P, ks[p], j) == p
    && forall i :: 0 <= i < j ==> Collides(P, ks, ks[p], i)
  }

  /** The table's invariant: an occupied slot counts at least 1, a key
      occupies at most one slot, `occupied` is the number of occupied
      slots, and every key sits where insert's probing puts it. `probe[p]`
      is the probe at which the key of slot `p` was placed. */
  ghost predicate Inv(P: Shape, ks: seq<string>, vs: seq<nat>, probe: seq<nat>, occupied: nat) {
    && P.size == |ks| == |vs| == |probe|
    && (forall p :: 0 <= p < |ks| && ks[p] != "" ==> vs[p] >= 1)
    && (forall p, q :: 0 <= p < q < |ks| && ks[p] != "" ==> ks[p] != ks[q])
    && occupied == Occupied(ks, |ks|)
    && occupied <= P.size
    && (forall p :: 0 <= p < |ks| && ks[p] != "" ==> Placed(P, ks, p, probe[p]))
  }

  /** A fresh table satisfies the invariant. */
  lemma EmptyInv(P: Shape, ks: seq<string>, vs: seq<nat>, probe: seq<nat>)
    requires P.size == |ks| == |vs| == |probe|
    requires forall p :: 0 <= p < |ks| ==> ks[p] == "" && vs[p] == 0
    ensures Inv(P, ks, vs, probe, 0)
  {
    OccupiedNone(ks, |ks|);
  }

  /** Probing for `x` from `i` stops at probe `j` when the probes before
      `j` collide and probe `j` lands on `x` itself. */
  lemma {:induction false} FirstProbeReaches(P: Shape, ks: seq<string>, x: string, i: nat, j: nat)
    requires P.size == |ks| > 0 && i <= j <= P.maxSteps && ks[Slot(P, x, j)] == x
    requires forall i' :: i <= i' < j ==> Collides(P, ks, x, i')
    ensures FirstProbe(P, ks, x, i) == Some(j)
    decreases j - i
  {
    if i < j {
      assert Collides(P, ks, x, i);
      FirstProbeReaches(P, ks, x, i + 1, j);
    }
  }

  /** Insert's probing for a stored key stops at the slot holding it. */
  lemma FindsStored(P: Shape, ks: seq<string>, vs: seq<nat>, probe: seq<nat>, n: nat, q: nat)
    requires Inv(P, ks, vs, probe, n) && P.size > 0 && q < |ks| && ks[q] != ""
    ensures FirstProbe(P, ks, ks[q], 0) == Some(probe[q])
    ensures Slot(P, ks[q], probe[q]) == q
  {
    assert Placed(P, ks, q, probe[q]);
    FirstProbeReaches(P, ks, ks[q], 0, probe[q]);
  }

  /** When insert's probing for `x` stops at an empty slot, `x` is not in
      the table. */
  lemma AbsentWhenEmptyFound(P: Shape, ks: seq<string>, vs: seq<nat>, probe: seq<nat>, n: nat,
                             x: string, j: nat)
    requires Inv(P, ks, vs, probe, n) && P.size > 0 && x != ""
    requires FirstProbe(P, ks, x, 0) == Some(j) && ks[Slot(P, x, j)] == ""
    ensures forall q :: 0 <= q < |ks| ==> ks[q] != x
  {
    forall q | 0 <= q < |ks| && ks[q] != ""
      ensures ks[q] != x
    {
      FindsStored(P, ks, vs, probe, n, q);
    }
  }

  /** In a table that keeps the invariant, the count of a stored key is
      the value of its one slot, at least 1, and a key no slot holds has
      count 0. */
  lemma CountOfKey(P: Shape, ks: seq<string>, vs: seq<nat>, probe: seq<nat>, n: nat, x: string)
    requires Inv(P, ks, vs, probe, n)
    ensures forall q :: 0 <= q < |ks| && ks[q] == x != "" ==> Count(Slots(ks, vs), x) == vs[q] >= 1
    ensures (forall q :: 0 <= q < |ks| ==> ks[q] != x) ==> Count(Slots(ks, vs), x) == 0
  {
    forall q | 0 <= q < |ks| && ks[q] == x != ""
      ensures Count(Slots(ks, vs), x) == vs[q]
    {
      CountUpToSingle(Slots(ks, vs), x, q, |ks|);
    }
    if forall q :: 0 <= q < |ks| ==> ks[q] != x {
      CountUpToAbsent(Slots(ks, vs), x, |ks|);
    }
  }

  /** Claiming the empty slot of probe `j` for a new key `x`, with count 1,
      keeps the invariant. */
  lemma ClaimInv(P: Shape, ks: seq<string>, vs: seq<nat>, probe: seq<nat>, n: nat, x: string, j: nat)
    requires Inv(P, ks, vs, probe, n) && P.size > 0 && x != ""
    requires FirstProbe(P, ks, x, 0) == Some(j) && ks[Slot(P, x, j)] == ""
    ensures var p := Slot(P, x, j);
            Inv(P, ks[p := x], vs[p := 1], probe[p := j], n + 1)
  {
    var p := Slot(P, x, j);
    var ks' := ks[p := x];
    FirstProbeSpec(P, ks, x, 0);
    AbsentWhenEmptyFound(P, ks, vs, probe, n, x, j);
    OccupiedClaim(ks, p, x, |ks|);
    assert n + 1 <= P.size by {
      assert Occupied(ks', |ks'|) <= |ks'|;
    }
    forall i | 0 <= i < j
      ensures Collides(P, ks', x, i)
    {
      assert Collides(P, ks, x, i);
    }
    assert Placed(P, ks', p, j);
    forall q | 0 <= q < |ks'| && ks'[q] != "" && q != p
      ensures Placed(P, ks', q, probe[q])
    {
      assert Placed(P, ks, q, probe[q]);
      forall i | 0 <= i < probe[q]
        ensures Collides(P, ks', ks[q], i)
      {
        assert Collides(P, ks, ks[q], i);
      }
    }
  }

  /** Inserting `""` sets the count of the empty slot it stops at to 1, and
      the slot stays empty. */
  lemma BlankInv(P: Shape, ks: seq<string>, vs: seq<nat>, probe: seq<nat>, n: nat, p: nat)
    requires Inv(P, ks, vs, probe, n) && p < |ks| && ks[p] == ""
    ensures Inv(P, ks[p := ""], vs[p := 1], probe, n)
  {
    assert ks[p := ""] == ks;
  }

  /** Adding one to the count of the slot already holding `x` keeps the
      invariant. */
  lemma BumpInv(P: Shape, ks: seq<string>, vs: seq<nat>, probe: seq<nat>, n: nat, p: nat)
    requires Inv(P, ks, vs, probe, n) && p < |ks| && ks[p] != ""
    ensures Inv(P, ks, vs[p := vs[p] + 1], probe, n)
  {
  }

  /** Writing `kmer` into a slot that is empty or holds it, with that
      slot's count plus one, adds one to the count of `kmer` alone; writing
      `""` changes no count. */
  lemma CountAfterWrite(t: Slots, p: nat, kmer: string, value: nat)
    requires t.Ok() && p < |t.keys|
    requires t.keys[p] == "" || t.keys[p] == kmer
    requires value == Share(t.keys[p], t.values[p], kmer) + 1
    ensures Slots(t.keys[p := kmer], t.values[p := value]).Ok()
    ensures forall x :: Count(Slots(t.keys[p := kmer], t.values[p := value]), x)
                     == Count(t, x) + (if x == kmer != "" then 1 else 0)
  {
    forall x
      ensures Count(Slots(t.keys[p := kmer], t.values[p := value]), x)
           == Count(t, x) + (if x == kmer != "" then 1 else 0)
    {
      CountUpToUpdate(t, p, kmer, value, x, |t.keys|);
    }
  }

  class QuadraticHashTable {
    const keys: array<string>
    const values: array<nat>
    const tableSize: nat
    var numElements: nat
    const maxSteps: nat
    const hash: (string, nat) -> nat
    /** For every occupied slot, the probe at which its key was placed. */
    ghost var probe: seq<nat>
    /** How many times `""` was inserted: each adds one to `numElements`
        without occupying a slot. */
    ghost var blanks: nat

    function Params(): Shape {
      Shape(tableSize, maxSteps, hash)
    }

    /** The table's invariant; while no `""` was inserted, an empty slot
        also counts 0. */
    ghost predicate Valid()
      reads this, keys, values
    {
      && blanks <= numElements && Inv(Params(), keys[..], values[..], probe, numElements - blanks)
      && (blanks == 0 ==> forall p :: 0 <= p < keys.Length && keys[p] == "" ==> p < values.Length && values[p] == 0)
    }

    /** The slots, as values. */
    ghost function Contents(): (t: Slots)
      reads this, keys, values
      ensures Valid() ==> t.Ok() && Positive(t)
    {
      Slots(keys[..], values[..])
    }

    /** `QuadraticHashTable(size = 1009, maxSteps = 5)`: `size` empty slots
        and no element. */
    constructor (hash: (string, nat) -> nat, size: nat := 1009, maxSteps: nat := 5)
      ensures Valid() && fresh(keys) && fresh(values)
      ensures tableSize == size && this.maxSteps == maxSteps && this.hash == hash
      ensures numElements == 0
      ensures forall i :: 0 <= i < size ==> keys[i] == "" && values[i] == 0
    {
      tableSize, this.maxSteps, this.hash := size, maxSteps, hash;
      numElements := 0;
      keys := new string[size];
      values := new nat[size];
      probe := seq(size, _ => 0);
      blanks := 0;
      new;
      for i := 0 to size
        invariant forall p :: 0 <= p < i ==> keys[p] == "" && values[p] == 0
        invariant |probe| == size && numElements == 0 && blanks == 0
      {
        keys[i] := "";
        values[i] := 0;
      }
      EmptyInv(Params(), keys[..], values[..], probe);
    }

    /** `insert`: probes the slots of `kmer` in turn; at an empty slot the
        key is stored with count 1 and `numElements` grows, at the slot
        holding `kmer` its count grows; after `maxSteps + 1` collisions the
        insert fails and nothing changes. */
    method Insert(kmer: string) returns (ok: bool)
      requires Valid() && tableSize > 0
      modifies this, keys, values
      ensures Valid()
      ensures match FirstProbe(Params(), old(keys[..]), kmer, 0)
                case None =>
                  && !ok
                  && keys[..] == old(keys[..]) && values[..] == old(values[..])
                  && numElements == old(numElements)
                case Some(j) =>
                  var p := Slot(Params(), kmer, j);
                  && ok
                  && (old(keys[p]) == "" ==>
                        && keys[..] == old(keys[..])[p := kmer]
                        && values[..] == old(values[..])[p := 1]
                        && numElements == old(numElements) + 1)
                  && (old(keys[p]) != "" ==>
                        && keys[..] == old(keys[..])
                        && values[..] == old(values[..])[p := old(values[p]) + 1]
                        && numElements == old(numElements))
      ensures forall x :: Count(Contents(), x) == Count(old(Contents()), x) + (if ok && x == kmer != "" then 1 else 0)
      ensures ok <==> !Rejects(Params(), old(keys[..]), kmer)
      ensures Keeps(old(keys[..]), keys[..])
    {
      RejectsIff(Params(), keys[..], kmer);
      var i := 0;
      while true
        invariant i <= maxSteps
        invariant unchanged(this) && unchanged(keys) && unchanged(values)
        invariant FirstProbe(Params(), keys[..], kmer, 0) == FirstProbe(Params(), keys[..], kmer, i)
        decreases maxSteps - i
      {
        var hashPos := hash(kmer, i) % tableSize;
        if keys[hashPos] == "" {
          Claim(hashPos, kmer, i);
          return true;
        }
        if keys[hashPos] == kmer {
          Bump(hashPos, kmer);
          return true;
        }
        i := i + 1;
        if i > maxSteps {
          return false;
        }
      }
    }

    /** The first branch of `insert`: the empty slot at probe `j` takes
        `kmer` with count 1. */
    method Claim(p: nat, kmer: string, ghost j: nat)
      requires Valid() && tableSize > 0
      requires FirstProbe(Params(), keys[..], kmer, 0) == Some(j)
      requires p == Slot(Params(), kmer, j) && keys[p] == ""
      modifies this, keys, values
      ensures Valid()
      ensures keys[..] == old(keys[..])[p := kmer] && values[..] == old(values[..])[p := 1]
      ensures numElements == old(numElements) + 1
      ensures forall x :: Count(Contents(), x) == Count(old(Contents()), x) + (if x == kmer != "" then 1 else 0)
    {
      ghost var t := Contents();
      if kmer == "" {
        BlankInv(Params(), t.keys, t.values, probe, numElements - blanks, p);
      } else {
        ClaimInv(Params(), t.keys, t.values, probe, numElements - blanks, kmer, j);
      }
      CountAfterWrite(t, p, kmer, 1);
      keys[p] := kmer;
      values[p] := 1;
      numElements := numElements + 1;
      if kmer == "" {
        blanks := blanks + 1;
      } else {
        probe := probe[p := j];
      }
      assert keys[..] == t.keys[p := kmer] && values[..] == t.values[p := 1];
    }

    /** The second branch of `insert`: the slot holding `kmer` counts one
        more. */
    method Bump(p: nat, kmer: string)
      requires Valid() && p < tableSize && kmer != "" && keys[p] == kmer
      modifies values
      ensures Valid()
      ensures values[..] == old(values[..])[p := old(values[p]) + 1]
      ensures forall x :: Count(Contents(), x) == Count(old(Contents()), x) + (if x == kmer != "" then 1 else 0)
    {
      ghost var t := Contents();
      BumpInv(Params(), t.keys, t.values, probe, numElements - blanks, p);
      CountAfterWrite(t, p, kmer, t.values[p] + 1);
      values[p] := values[p] + 1;
      assert keys[..] == t.keys == t.keys[p := kmer] && values[..] == t.values[p := t.values[p] + 1];
    }

    /** The loop of a worker over one block: inserts each k-mer, in order.
        Every non-empty k-mer counts once more, except those whose insert
        gave up, which `failed` lists: each of them is rejected by the
        table, which keeps every key it held. */
    method InsertAll(kmers: seq<string>) returns (ghost failed: seq<string>)
      requires Valid() && tableSize > 0
      modifies this, keys, values
      ensures Valid()
      ensures multiset(failed) <= multiset(kmers)
      ensures forall x :: x != "" ==>
                Count(Contents(), x) + multiset(failed)[x] == Count(old(Contents()), x) + multiset(kmers)[x]
      ensures Keeps(old(keys[..]), keys[..])
      ensures forall i :: 0 <= i < |failed| ==> Rejects(Params(), keys[..], failed[i])
    {
      ghost var t0 := Contents();
      failed := [];
      for j := 0 to |kmers|
        invariant Valid()
        invariant multiset(failed) <= multiset(kmers[..j])
        invariant forall x :: x != "" ==>
                    Count(Contents(), x) + multiset(failed)[x] == Count(t0, x) + multiset(kmers[..j])[x]
        invariant Keeps(t0.keys, keys[..])
        invariant forall i :: 0 <= i < |failed| ==> Rejects(Params(), keys[..], failed[i])
      {
        ghost var before := keys[..];
        failed := InsertNext(kmers[j], failed);
        assert kmers[..j + 1] == kmers[..j] + [kmers[j]];
        KeepsTrans(t0.keys, before, keys[..]);
      }
      assert kmers[..|kmers|] == kmers;
    }

    /** One turn of `InsertAll`'s loop: `insert(kmer)`, with `failed`
        listing the k-mers whose insert gave up so far. */
    method InsertNext(kmer: string, ghost failed: seq<string>) returns (ghost failed': seq<string>)
      requires Valid() && tableSize > 0
      requires forall i :: 0 <= i < |failed| ==> Rejects(Params(), keys[..], failed[i])
      modifies this, keys, values
      ensures Valid() && Keeps(old(keys[..]), keys[..])
      ensures failed' == failed || failed' == failed + [kmer]
      ensures forall x :: x != "" ==>
                Count(Contents(), x) + multiset(failed')[x]
                == Count(old(Contents()), x) + multiset(failed)[x] + multiset{kmer}[x]
      ensures forall i :: 0 <= i < |failed'| ==> Rejects(Params(), keys[..], failed'[i])
    {
      ghost var before := keys[..];
      var ok := Insert(kmer);
      failed' := if ok then failed else failed + [kmer];
      RejectsAllKept(Params(), before, keys[..], failed');
    }

    /** `exportToMap`: adds every stored key's count to its entry of `m`,
        skipping empty slots; the table does not change. */
    method ExportToMap(m: map<string, nat>) returns (m': map<string, nat>)
      requires Valid()
      ensures m' == Export(m, Contents())
      ensures forall x :: Get(m', x) == Get(m, x) + Count(Contents(), x)
      ensures forall x :: x in m' <==> x in m || StoredUpTo(Contents(), x, tableSize)
    {
      m' := m;
      for i := 0 to tableSize
        invariant m' == ExportUpTo(m, Contents(), i)
      {
        if keys[i] != "" {
          m' := m'[keys[i] := Get(m', keys[i]) + values[i]];
        }
      }
      forall x
        ensures Get(m', x) == Get(m, x) + Count(Contents(), x)
        ensures x in m' <==> x in m || StoredUpTo(Contents(), x, tableSize)
      {
        ExportGet(m, Contents(), x);
        ExportKeys(m, Contents(), x);
      }
    }
  }
}
