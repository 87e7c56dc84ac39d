/**
 * `Hasher`: one `QuadraticHashTable` per worker, a shared queue of k-mer
 * blocks, and the merge of the workers' tables into one map. The workers
 * run as threads in the C++ program; here their combined effect is modelled
 * one block at a time, a schedule saying which worker pops each block.
 */
module Hashing {
  import opened Counting
  import opened HashTable
  import opened DataStructs
  import opened Pipeline
  import opened Strings

  /** The k-mers of a list of blocks, block after block. */
  ghost function BlockKmers(blocks: seq<KmerBlock>): seq<string>
    reads blocks
  {
    if |blocks| == 0 then [] else BlockKmers(blocks[..|blocks| - 1]) + blocks[|blocks| - 1].kmers
  }

  lemma {:induction false} BlockKmersCons(blocks: seq<KmerBlock>)
    requires |blocks| > 0
    ensures BlockKmers(blocks) == blocks[0].kmers + BlockKmers(blocks[1..])
    decreases |blocks|
  {
    if |blocks| > 1 {
      var n := |blocks| - 1;
      assert blocks[..n][1..] == blocks[1..][..n - 1];
      BlockKmersCons(blocks[..n]);
    }
  }

  /** Blocks that hold the k-mers of a list of super-mers hold, together,
      the k-mers of all of them, in order. */
  lemma {:induction false} BlockKmersOfSuperMers(blocks: seq<KmerBlock>, superMers: seq<string>, k: nat)
    requires HoldKmersOf(blocks, superMers, k)
    ensures BlockKmers(blocks) == KmersOfAll(superMers, k)
    decreases |blocks|
  {
    if |blocks| > 0 {
      var n := |blocks| - 1;
      assert HoldKmersOf(blocks[..n], superMers[..n], k);
      BlockKmersOfSuperMers(blocks[..n], superMers[..n], k);
    }
  }

  /** The queue `pushSuperMersToQueue` fills from the super-mers `main`
      collects holds exactly the k-mers of the bundles, in order. */
  lemma QueueHoldsKmers(blocks: seq<KmerBlock>, texts: seq<string>, m: nat, k: nat)
    requires 1 <= k && m <= k
    requires HoldKmersOf(blocks, SuperMersOfAll(texts, m, k), k)
    ensures BlockKmers(blocks) == KmersOfEach(texts, k)
  {
    BlockKmersOfSuperMers(blocks, SuperMersOfAll(texts, m, k), k);
    SuperMersOfAllKmers(texts, m, k);
  }

  /** The slots of a list of tables, as values. */
  ghost function SnapshotsOf(tables: seq<QuadraticHashTable>): (ts: seq<Slots>)
    reads set t | t in tables, set t | t in tables :: t.keys, set t | t in tables :: t.values
    ensures |ts| == |tables|
    ensures forall i :: 0 <= i < |tables| ==> ts[i] == tables[i].Contents()
  {
    if |tables| == 0 then [] else SnapshotsOf(tables[..|tables| - 1]) + [tables[|tables| - 1].Contents()]
  }

  /** Every non-empty k-mer of `done` is counted in the tables `ts` on top
      of what `ts0` counted, except those listed in `failed`. */
  ghost predicate Accounted(ts0: seq<Slots>, ts: seq<Slots>, done: seq<string>, failed: seq<string>)
    requires AllOk(ts0) && AllOk(ts) && |ts0| == |ts|
  {
    && multiset(failed) <= multiset(done)
    && forall x :: x != "" ==>
         Total(ts, x, |ts|) + multiset(failed)[x] == Total(ts0, x, |ts0|) + multiset(done)[x]
  }

  /** Processing a block in table `id` accounts for the block's k-mers. */
  lemma AccountBlock(ts0: seq<Slots>, ts: seq<Slots>, done: seq<string>, failed: seq<string>,
                     id: nat, t: Slots, kmers: seq<string>, f: seq<string>)
    requires AllOk(ts0) && AllOk(ts) && |ts0| == |ts| && Accounted(ts0, ts, done, failed)
    requires t.Ok() && id < |ts| && multiset(f) <= multiset(kmers)
    requires forall x :: x != "" ==> Count(t, x) + multiset(f)[x] == Count(ts[id], x) + multiset(kmers)[x]
    ensures AllOk(ts[id := t]) && Accounted(ts0, ts[id := t], done + kmers, failed + f)
  {
    TotalUpdate(ts, id, t, "", |ts|);
    forall x | x != ""
      ensures Total(ts[id := t], x, |ts|) + multiset(failed + f)[x] == Total(ts0, x, |ts0|) + multiset(done + kmers)[x]
    {
      TotalUpdate(ts, id, t, x, |ts|);
    }
  }

  /** What the merged map holds, key by key. */
  lemma MergeFacts(ts: seq<Slots>, n: nat)
    requires AllOk(ts) && n <= |ts| && forall i :: 0 <= i < n ==> Positive(ts[i])
    ensures forall x :: Get(Merge(ts, n), x) == Total(ts, x, n)
    ensures forall x :: x in Merge(ts, n) <==> StoredInSome(ts, x, n)
    ensures forall x :: x in Merge(ts, n) <==> x != "" && Get(Merge(ts, n), x) > 0
  {
    forall x
      ensures Get(Merge(ts, n), x) == Total(ts, x, n)
      ensures x in Merge(ts, n) <==> StoredInSome(ts, x, n)
      ensures x in Merge(ts, n) <==> x != "" && Get(Merge(ts, n), x) > 0
    {
      MergeGet(ts, n, x);
      MergeKeys(ts, n, x);
      MergeKeysPositive(ts, n, x);
    }
  }

  /** The parameters of each table. */
  function ShapesOf(tables: seq<QuadraticHashTable>): (ps: seq<Shape>)
    ensures |ps| == |tables| && forall w :: 0 <= w < |tables| ==> ps[w] == tables[w].Params()
  {
    seq(|tables|, w requires 0 <= w < |tables| => tables[w].Params())
  }

  /** `n` tables built with the same parameters. */
  function Copies(P: Shape, n: nat): (ps: seq<Shape>)
    ensures |ps| == n && forall w :: 0 <= w < n ==> ps[w] == P
  {
    seq(n, _ => P)
  }

  /** Every k-mer of `failed` is rejected by some table of `ts`, probed
      with that table's parameters `ps`. */
  ghost predicate AllRejected(ps: seq<Shape>, ts: seq<Slots>, failed: seq<string>) {
    forall i :: 0 <= i < |failed| ==>
      exists w :: 0 <= w < |ps| && w < |ts| && Rejects(ps[w], ts[w].keys, failed[i])
  }

  /** Table `id` kept its keys and rejects the k-mers `f`; the other
      tables did not change. Every k-mer that failed is still rejected. */
  lemma RejectedStep(ps: seq<Shape>, ts: seq<Slots>, failed: seq<string>, id: nat, t: Slots, f: seq<string>)
    requires id < |ts| && |ps| == |ts| && AllRejected(ps, ts, failed)
    requires Keeps(ts[id].keys, t.keys)
    requires forall i :: 0 <= i < |f| ==> Rejects(ps[id], t.keys, f[i])
    ensures AllRejected(ps, ts[id := t], failed + f)
  {
    var ts' := ts[id := t];
    forall i | 0 <= i < |failed + f|
      ensures exists w :: 0 <= w < |ps| && w < |ts'| && Rejects(ps[w], ts'[w].keys, (failed + f)[i])
    {
      if i < |failed| {
        var w :| 0 <= w < |ps| && w < |ts| && Rejects(ps[w], ts[w].keys, failed[i]);
        if w == id {
          RejectsKept(ps[w], ts[w].keys, t.keys, failed[i]);
        }
        assert Rejects(ps[w], ts'[w].keys, (failed + f)[i]);
      } else {
        assert Rejects(ps[id], ts'[id].keys, (failed + f)[i]);
      }
    }
  }

  /** One table per worker, each well formed, no two sharing a table or
      an array, all of them in `repr`. */
  ghost predicate Fleet(tables: seq<QuadraticHashTable>, repr: set<object>)
    reads repr
  {
    && (forall j :: 0 <= j < |tables| ==>
          && tables[j] in repr && tables[j].keys in repr && tables[j].values in repr
          && tables[j].Valid())
    && (forall j, j' :: 0 <= j < j' < |tables| ==>
          && tables[j] != tables[j'] && tables[j].keys != tables[j'].keys
          && tables[j].values != tables[j'].values)
  }

  /** A table outside the fleet, with arrays outside it, joins it. */
  lemma FleetSnoc(tables: seq<QuadraticHashTable>, repr: set<object>, t: QuadraticHashTable)
    requires Fleet(tables, repr) && t.Valid() && {t, t.keys, t.values} !! repr
    ensures Fleet(tables + [t], repr + {t, t.keys, t.values})
  {
  }

  /** The loop of the `Hasher` constructor: `threads` new tables, each
      empty, with `tableSize` slots and `maxSteps` probes. */
  method NewTables(threads: nat, tableSize: nat, maxSteps: nat, hash: (string, nat) -> nat)
    returns (tables: seq<QuadraticHashTable>, ghost repr: set<object>)
    ensures |tables| == threads && fresh(repr) && Fleet(tables, repr)
    ensures forall j :: 0 <= j < threads ==>
              && fresh(tables[j]) && fresh(tables[j].keys) && fresh(tables[j].values)
              && Blank(tables[j].Contents())
              && tables[j].tableSize == tableSize && tables[j].maxSteps == maxSteps
              && tables[j].hash == hash && tables[j].numElements == 0
  {
    tables := [];
    repr := {};
    for i := 0 to threads
      invariant |tables| == i && fresh(repr) && Fleet(tables, repr)
      invariant forall j :: 0 <= j < i ==>
                  && fresh(tables[j]) && fresh(tables[j].keys) && fresh(tables[j].values)
                  && Blank(tables[j].Contents())
                  && tables[j].tableSize == tableSize && tables[j].maxSteps == maxSteps
                  && tables[j].hash == hash && tables[j].numElements == 0
    {
      var t := new QuadraticHashTable(hash, tableSize, maxSteps);
      FleetSnoc(tables, repr, t);
      tables := tables + [t];
      repr := repr + {t, t.keys, t.values};
    }
  }

  class Hasher {
    const inputQueue: KmerQueue
    const numThreads: nat
    var workComplete: bool
    const threadTables: seq<QuadraticHashTable>
    var globalMap: map<string, nat>
    /** The workers' tables and their arrays. */
    ghost const Repr: set<object>

    ghost predicate Valid()
      reads Repr
    {
      && {this, inputQueue} !! Repr && |threadTables| == numThreads
      && Fleet(threadTables, Repr)
    }

    /** The workers' tables, as values. */
    ghost function Snapshots(): (ts: seq<Slots>)
      requires Valid()
      reads Repr
      ensures |ts| == numThreads
      ensures AllOk(ts) && forall i :: 0 <= i < |ts| ==> Positive(ts[i])
    {
      SnapshotsOf(threadTables)
    }

    /** `Hasher(queue, threads, tableSize, maxSteps)`: `threads` new empty
        tables of `tableSize` slots and `maxSteps` probes, the queue shared
        with the producer, the work not yet complete. */
    constructor (queue: KmerQueue, threads: nat, tableSize: nat, maxSteps: nat, hash: (string, nat) -> nat)
      ensures Valid() && fresh(Repr)
      ensures inputQueue == queue && numThreads == threads && !workComplete && globalMap == map[]
      ensures forall i :: 0 <= i < threads ==>
                && fresh(threadTables[i]) && fresh(threadTables[i].keys) && fresh(threadTables[i].values)
                && threadTables[i].tableSize == tableSize && threadTables[i].maxSteps == maxSteps
                && threadTables[i].hash == hash && threadTables[i].numElements == 0
      ensures forall x :: Total(Snapshots(), x, threads) == 0
    {
      var tables;
      ghost var repr;
      tables, repr := NewTables(threads, tableSize, maxSteps, hash);
      inputQueue := queue;
      numThreads := threads;
      workComplete := false;
      threadTables := tables;
      globalMap := map[];
      Repr := repr;
      new;
      forall x
        ensures Total(Snapshots(), x, threads) == 0
      {
        BlankTotal(Snapshots(), x, threads);
      }
    }

    /** The body of `worker` for one popped block: each of its k-mers is
        inserted, in order, into the worker's own table and no other.
        `failed` lists the k-mers whose insert gave up. */
    method ProcessBlock(threadId: nat, kmers: seq<string>) returns (ghost failed: seq<string>)
      requires Valid() && threadId < numThreads && threadTables[threadId].tableSize > 0
      modifies threadTables[threadId], threadTables[threadId].keys, threadTables[threadId].values
      ensures Valid()
      ensures Snapshots() == old(Snapshots())[threadId := Snapshots()[threadId]]
      ensures multiset(failed) <= multiset(kmers)
      ensures forall x :: x != "" ==>
                Count(Snapshots()[threadId], x) + multiset(failed)[x]
                == Count(old(Snapshots())[threadId], x) + multiset(kmers)[x]
      ensures Keeps(old(Snapshots())[threadId].keys, Snapshots()[threadId].keys)
      ensures forall i :: 0 <= i < |failed| ==>
                Rejects(threadTables[threadId].Params(), Snapshots()[threadId].keys, failed[i])
    {
      var table := threadTables[threadId];
      failed := table.InsertAll(kmers);
      forall i | 0 <= i < numThreads && i != threadId
        ensures threadTables[i].Valid() && threadTables[i].Contents() == old(threadTables[i].Contents())
      {
        assert threadTables[i] != table && threadTables[i].keys != table.keys && threadTables[i].values != table.values;
      }
    }

    /** The workers together, until the queue is empty: `schedule[j]` is
        the worker that pops the `j`-th block, whatever the interleaving of
        the threads. The tables gain, in total, the k-mers of all the
        blocks, less those whose insert gave up, which `failed` lists. */
    method DrainQueue(schedule: seq<nat>) returns (ghost failed: seq<string>)
      requires Valid() && |schedule| == |inputQueue.items|
      requires forall j :: 0 <= j < |schedule| ==>
                 schedule[j] < numThreads && threadTables[schedule[j]].tableSize > 0
      modifies inputQueue, Repr
      ensures Valid() && inputQueue.items == []
      ensures multiset(failed) <= multiset(old(BlockKmers(inputQueue.items)))
      ensures forall x :: x != "" ==>
                Total(Snapshots(), x, numThreads) + multiset(failed)[x]
                == old(Total(Snapshots(), x, numThreads)) + multiset(old(BlockKmers(inputQueue.items)))[x]
      ensures AllRejected(ShapesOf(threadTables), Snapshots(), failed)
    {
      ghost var all := BlockKmers(inputQueue.items);
      ghost var t0 := Snapshots();
      ghost var cur := t0;
      ghost var done: seq<string> := [];
      failed := [];
      var j := 0;
      while inputQueue.items != []
        invariant Valid() && cur == Snapshots()
        invariant j + |inputQueue.items| == |schedule|
        invariant all == done + BlockKmers(inputQueue.items)
        invariant AllOk(cur) && |cur| == |t0| && Accounted(t0, cur, done, failed)
        invariant AllRejected(ShapesOf(threadTables), cur, failed)
        decreases |inputQueue.items|
      {
        ghost var rest := BlockKmers(inputQueue.items);
        ghost var kmers, f := WorkerStep(schedule[j]);
        AccountBlock(t0, cur, done, failed, schedule[j], Snapshots()[schedule[j]], kmers, f);
        RejectedStep(ShapesOf(threadTables), cur, failed, schedule[j], Snapshots()[schedule[j]], f);
        cur := Snapshots();
        AppendAssoc(done, kmers, BlockKmers(inputQueue.items));
        done := done + kmers;
        failed := failed + f;
        j := j + 1;
      }
      assert BlockKmers(inputQueue.items) == [];
      assert done == all;
    }

    /** One turn of `worker`'s loop when the queue is not empty: the oldest
        block is popped and its k-mers are inserted into the worker's own
        table. */
    method WorkerStep(threadId: nat) returns (ghost kmers: seq<string>, ghost failed: seq<string>)
      requires Valid() && inputQueue.items != []
      requires threadId < numThreads && threadTables[threadId].tableSize > 0
      modifies inputQueue, threadTables[threadId], threadTables[threadId].keys, threadTables[threadId].values
      ensures Valid() && inputQueue.items == old(inputQueue.items)[1..]
      ensures old(BlockKmers(inputQueue.items)) == kmers + BlockKmers(inputQueue.items)
      ensures Snapshots() == old(Snapshots())[threadId := Snapshots()[threadId]]
      ensures multiset(failed) <= multiset(kmers)
      ensures forall x :: x != "" ==>
                Count(Snapshots()[threadId], x) + multiset(failed)[x]
                == Count(old(Snapshots())[threadId], x) + multiset(kmers)[x]
      ensures Keeps(old(Snapshots())[threadId].keys, Snapshots()[threadId].keys)
      ensures forall i :: 0 <= i < |failed| ==>
                Rejects(threadTables[threadId].Params(), Snapshots()[threadId].keys, failed[i])
    {
      var block := TakeBlock();
      kmers := block.kmers;
      ghost var rest := BlockKmers(inputQueue.items);
      failed := ProcessBlock(threadId, block.kmers);
      assert BlockKmers(inputQueue.items) == rest;
    }

    /** `front` and `pop` under the queue's lock: the oldest block leaves
        the queue; the tables do not change. */
    method TakeBlock() returns (block: KmerBlock)
      requires Valid() && inputQueue.items != []
      modifies inputQueue
      ensures Valid() && Snapshots() == old(Snapshots())
      ensures inputQueue.items == old(inputQueue.items)[1..]
      ensures old(BlockKmers(inputQueue.items)) == block.kmers + BlockKmers(inputQueue.items)
    {
      BlockKmersCons(inputQueue.items);
      block := inputQueue.Pop();
    }

    /** `signalComplete`: no more blocks will come. */
    method SignalComplete()
      requires Valid()
      modifies this
      ensures Valid() && Snapshots() == old(Snapshots())
      ensures workComplete
      ensures globalMap == old(globalMap)
    {
      workComplete := true;
    }

    /** `mergeResults`: the map is cleared and every table is exported into
        it in turn. The map holds, for each key, its count summed over the
        tables, and exactly the stored keys; since the map is cleared first
        the result depends only on the tables, so merging again gives the
        same map. The tables do not change. */
    method MergeResults()
      requires Valid()
      modifies this
      ensures Valid() && Snapshots() == old(Snapshots()) && workComplete == old(workComplete)
      ensures globalMap == Merge(Snapshots(), numThreads)
    {
      var m := ExportAll();
      globalMap := m;
    }

    /** The body of `mergeResults`: clears the map, then exports every
        table, in order, into it. */
    method ExportAll() returns (m': map<string, nat>)
      requires Valid()
      ensures m' == Merge(Snapshots(), numThreads)
    {
      ghost var ts := Snapshots();
      m' := map[];
      for i := 0 to numThreads
        invariant m' == Merge(ts, i)
      {
        m' := threadTables[i].ExportToMap(m');
      }
    }

    /** `getResults`: the merged map; nothing changes. */
    method GetResults() returns (results: map<string, nat>)
      ensures results == globalMap
    {
      results := globalMap;
    }
  }

  /** The counting stage of the program up to the join: a `Hasher` over
      the queue, its workers draining the queue in the order `schedule`
      gives, and the completion signal. The tables, which start empty, hold
      every non-empty k-mer of the blocks once per occurrence, except for
      the inserts that gave up. */
  method RunWorkers(queue: KmerQueue, threads: nat, tableSize: nat, maxSteps: nat,
                    hash: (string, nat) -> nat, schedule: seq<nat>)
    returns (hasher: Hasher, ghost failed: seq<string>)
    requires |schedule| == |queue.items| && (tableSize > 0 || queue.items == [])
    requires forall j :: 0 <= j < |schedule| ==> schedule[j] < threads
    modifies queue
    ensures fresh(hasher) && hasher.Valid() && hasher.workComplete
    ensures hasher.inputQueue == queue && hasher.numThreads == threads && queue.items == []
    ensures multiset(failed) <= multiset(old(BlockKmers(queue.items)))
    ensures forall x :: x != "" ==>
              Total(hasher.Snapshots(), x, threads) + multiset(failed)[x] == multiset(old(BlockKmers(queue.items)))[x]
    ensures ShapesOf(hasher.threadTables) == Copies(Shape(tableSize, maxSteps, hash), threads)
    ensures AllRejected(ShapesOf(hasher.threadTables), hasher.Snapshots(), failed)
  {
    ghost var blocks := BlockKmers(queue.items);
    hasher := new Hasher(queue, threads, tableSize, maxSteps, hash);
    assert ShapesOf(hasher.threadTables) == Copies(Shape(tableSize, maxSteps, hash), threads);
    ghost var t0 := hasher.Snapshots();
    assert forall x :: Total(t0, x, threads) == 0;
    failed := hasher.DrainQueue(schedule);
    ghost var ts := hasher.Snapshots();
    assert forall x :: x != "" ==> Total(ts, x, threads) + multiset(failed)[x] == multiset(blocks)[x];
    hasher.SignalComplete();
  }

  /** The counting stage of the program, run alone: the workers as in
      `RunWorkers`, then the merge. `tables` are the workers' tables at
      the end. Every non-empty k-mer of the blocks is counted once per
      occurrence, except for the inserts that gave up, which `failed`
      lists; each of those k-mers found every one of its probes taken by
      other keys in some table. So a k-mer that no table rejects is counted
      exactly, whatever worker took which block, and a k-mer fails only
      when some other k-mer is counted. */
  method CountKmers(queue: KmerQueue, threads: nat, tableSize: nat, maxSteps: nat,
                    hash: (string, nat) -> nat, schedule: seq<nat>)
    returns (results: map<string, nat>, ghost failed: seq<string>, ghost tables: seq<Slots>)
    requires |schedule| == |queue.items| && (tableSize > 0 || queue.items == [])
    requires forall j :: 0 <= j < |schedule| ==> schedule[j] < threads
    modifies queue
    ensures queue.items == []
    ensures |tables| == threads && AllOk(tables) && results == Merge(tables, threads)
    ensures multiset(failed) <= multiset(old(BlockKmers(queue.items)))
    ensures forall x :: x != "" ==> Get(results, x) + multiset(failed)[x] == multiset(old(BlockKmers(queue.items)))[x]
    ensures forall x :: x in results <==> x != "" && Get(results, x) > 0
    ensures AllRejected(Copies(Shape(tableSize, maxSteps, hash), threads), tables, failed)
    ensures forall x :: x != "" && (forall w :: 0 <= w < threads ==> !Rejects(Shape(tableSize, maxSteps, hash), tables[w].keys, x))
              ==> Get(results, x) == multiset(old(BlockKmers(queue.items)))[x]
    ensures forall i :: 0 <= i < |failed| ==> exists y :: y in results && y != failed[i]
    ensures failed == [] ==> forall x :: x != "" ==> Get(results, x) == multiset(old(BlockKmers(queue.items)))[x]
    ensures old(queue.items) == [] ==> results == map[]
  {
    ghost var blocks := BlockKmers(queue.items);
    var hasher;
    hasher, failed := RunWorkers(queue, threads, tableSize, maxSteps, hash, schedule);
    tables := hasher.Snapshots();
    hasher.MergeResults();
    results := hasher.GetResults();
    ResultFacts(Copies(Shape(tableSize, maxSteps, hash), threads), tables, threads, blocks, failed, results);
  }

  /** What the merged map says once the queue is drained into tables that
      started empty. */
  lemma ResultFacts(ps: seq<Shape>, ts: seq<Slots>, n: nat, blocks: seq<string>,
                    failed: seq<string>, results: map<string, nat>)
    requires AllOk(ts) && |ts| == n && |ps| == n
    requires forall i :: 0 <= i < n ==> Positive(ts[i])
    requires results == Merge(ts, n) && multiset(failed) <= multiset(blocks)
    requires forall x :: x != "" ==> Total(ts, x, n) + multiset(failed)[x] == multiset(blocks)[x]
    requires AllRejected(ps, ts, failed)
    ensures forall x :: x != "" ==> Get(results, x) + multiset(failed)[x] == multiset(blocks)[x]
    ensures forall x :: x in results <==> x != "" && Get(results, x) > 0
    ensures forall x :: x != "" && (forall w :: 0 <= w < n ==> !Rejects(ps[w], ts[w].keys, x))
              ==> Get(results, x) == multiset(blocks)[x]
    ensures forall i :: 0 <= i < |failed| ==> exists y :: y in results && y != failed[i]
    ensures failed == [] ==> forall x :: x != "" ==> Get(results, x) == multiset(blocks)[x]
    ensures blocks == [] ==> results == map[]
  {
    MergeFacts(ts, n);
    forall x | x != "" && (forall w :: 0 <= w < n ==> !Rejects(ps[w], ts[w].keys, x))
      ensures Get(results, x) == multiset(blocks)[x]
    {
      forall i | 0 <= i < |failed|
        ensures failed[i] != x
      {
        var w :| 0 <= w < |ps| && w < |ts| && Rejects(ps[w], ts[w].keys, failed[i]);
      }
      assert x !in failed;
    }
    forall i | 0 <= i < |failed|
      ensures exists y :: y in results && y != failed[i]
    {
      var w :| 0 <= w < |ps| && w < |ts| && Rejects(ps[w], ts[w].keys, failed[i]);
      RejectsOther(ps[w], ts[w].keys, failed[i]);
      var y := ts[w].keys[Slot(ps[w], failed[i], 0)];
      assert StoredUpTo(ts[w], y, |ts[w].keys|);
      assert StoredInSome(ts, y, n);
    }
    if blocks == [] {
      forall x
        ensures x !in results
      {
        if x != "" {
          assert Get(results, x) + multiset(failed)[x] == multiset(blocks)[x];
        }
      }
    }
  }
}
