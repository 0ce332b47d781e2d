/** Signature mode's candidate search: the bucket width chosen from the
    threshold, the locality-sensitive hash index, stored into only after it
    has been queried, and the loop that turns each new signature into
    comparison tasks against the earlier ones it collides with. */
module Lsh {

  import opened Basics

  // ---------------------------------------------------------------------
  // Bucket width

  /** `get_bucket_width`: the L2 bucket width for a threshold percentage,
      a step function from 140 down to 25. */
  function BucketWidth(threshold: U8): (w: nat)
    ensures 25 <= w <= 140
    ensures w == 140 <==> threshold < 10
    ensures w == 25 <==> threshold >= 95
    ensures 40 <= threshold < 60 ==> w == 100
  {
    if threshold < 10 then 140
    else if threshold < 20 then 130
    else if threshold < 30 then 120
    else if threshold < 40 then 110
    else if threshold < 50 then 100
    else if threshold < 60 then 100
    else if threshold < 70 then 80
    else if threshold < 80 then 70
    else if threshold < 90 then 60
    else if threshold < 95 then 30
    else 25
  }

  /** The same step function as a table: (upper bound, width) rows in
      increasing bound order, with 25 above the last bound. */
  const WidthSteps: seq<(nat, nat)> :=
    [(10, 140), (20, 130), (30, 120), (40, 110), (50, 100), (60, 100), (70, 80), (80, 70), (90, 60), (95, 30)]
  const WidthAbove: nat := 25

  /** The width of the first row whose bound lies above `t`, or `last`. */
  function StepLookup(steps: seq<(nat, nat)>, t: nat, last: nat): nat
    decreases |steps|
  {
    if |steps| == 0 then last
    else if t < steps[0].0 then steps[0].1
    else StepLookup(steps[1..], t, last)
  }

  /** Each row's width is at least the next row's, and the last row's is
      at least `last`. */
  predicate Descending(steps: seq<(nat, nat)>, last: nat) {
    && (forall i :: 0 <= i < |steps| - 1 ==> steps[i].1 >= steps[i + 1].1)
    && (|steps| > 0 ==> steps[|steps| - 1].1 >= last)
  }

  /** `get_bucket_width` is the table lookup. */
  lemma BucketWidthIsTable(t: U8)
    ensures BucketWidth(t) == StepLookup(WidthSteps, t, WidthAbove)
  {
  }

  /** A lookup in a descending table is at most its first width. */
  lemma {:induction false} StepLookupAtMostFirst(steps: seq<(nat, nat)>, t: nat, last: nat)
    requires Descending(steps, last) && |steps| > 0
    ensures StepLookup(steps, t, last) <= steps[0].1
    decreases |steps|
  {
    if t >= steps[0].0 && |steps| > 1 {
      assert Descending(steps[1..], last);
      StepLookupAtMostFirst(steps[1..], t, last);
    }
  }

  /** A lookup in a descending table never grows with the threshold. */
  lemma {:induction false} StepLookupMonotone(steps: seq<(nat, nat)>, last: nat, t1: nat, t2: nat)
    requires Descending(steps, last) && t1 <= t2
    ensures StepLookup(steps, t1, last) >= StepLookup(steps, t2, last)
    decreases |steps|
  {
    if |steps| > 0 {
      if t1 < steps[0].0 {
        if t2 >= steps[0].0 && |steps| > 1 {
          assert Descending(steps[1..], last);
          StepLookupAtMostFirst(steps[1..], t2, last);
        }
      } else {
        assert Descending(steps[1..], last);
        StepLookupMonotone(steps[1..], last, t1, t2);
      }
    }
  }

  /** A higher threshold never gets a wider bucket. */
  lemma BucketWidthMonotone(t1: U8, t2: U8)
    requires t1 <= t2
    ensures BucketWidth(t1) >= BucketWidth(t2)
  {
    BucketWidthIsTable(t1);
    BucketWidthIsTable(t2);
    WidthStepsDescending();
    StepLookupMonotone(WidthSteps, WidthAbove, t1, t2);
  }

  /** The width table descends. */
  lemma WidthStepsDescending()
    ensures Descending(WidthSteps, WidthAbove)
  {
  }

  // ---------------------------------------------------------------------
  // The hash index

  /** The number of hash tables the index is built with. */
  const HashTables: nat := 20

  /** A signature as the index sees it: its values, each converted exactly
      from `i8` to `f32`. */
  type Vector = seq<int>

  /** A bucket key: one table's hash of a vector. */
  type Key = seq<int>

  /** The ids stored under `key`, none if the key has no bucket. */
  function BucketOf(table: map<Key, seq<nat>>, key: Key): seq<nat> {
    if key in table then table[key] else []
  }

  /** Id `j` is filed under `key`. */
  predicate Filed(table: map<Key, seq<nat>>, key: Key, j: nat) {
    j in BucketOf(table, key)
  }

  /** `table`, the `t`-th hash table, holds under each key exactly the ids
      of the stored vectors that hash to that key. */
  ghost predicate TableHolds(hash: (nat, Vector) -> Key, t: nat, table: map<Key, seq<nat>>, stored: seq<Vector>) {
    forall key: Key, j: nat :: Filed(table, key, j) <==> j < |stored| && hash(t, stored[j]) == key
  }

  /** Filing the next id under the new vector's key keeps a table exact. */
  lemma PutKeepsTable(hash: (nat, Vector) -> Key, t: nat, table: map<Key, seq<nat>>, stored: seq<Vector>, v: Vector)
    requires TableHolds(hash, t, table, stored)
    ensures TableHolds(hash, t, table[hash(t, v) := BucketOf(table, hash(t, v)) + [|stored|]], stored + [v])
  {
    var stored' := stored + [v];
    var table' := table[hash(t, v) := BucketOf(table, hash(t, v)) + [|stored|]];
    forall key: Key, j: nat
      ensures Filed(table', key, j) <==> j < |stored'| && hash(t, stored'[j]) == key
    {
      assert Filed(table, key, j) <==> j < |stored| && hash(t, stored[j]) == key;
      if key == hash(t, v) {
        assert BucketOf(table', key) == BucketOf(table, key) + [|stored|];
      } else {
        assert BucketOf(table', key) == BucketOf(table, key);
      }
      if j < |stored| {
        assert stored'[j] == stored[j];
      } else if j == |stored| {
        assert stored'[j] == v;
      }
    }
  }

  /** An empty table is exact for no stored vectors. */
  lemma EmptyTableHolds(hash: (nat, Vector) -> Key, t: nat)
    ensures TableHolds(hash, t, map[], [])
  {
    forall key: Key, j: nat
      ensures !Filed(map[], key, j)
    {
      assert BucketOf(map[], key) == [];
    }
  }

  /** Two vectors share a bucket in some table. */
  ghost predicate Collide(hash: (nat, Vector) -> Key, tables: nat, a: Vector, b: Vector) {
    exists t :: 0 <= t < tables && hash(t, a) == hash(t, b)
  }

  /** The index with its hash function left abstract: one map from key to
      ids per table. Ids are handed out 0, 1, 2, … in the order vectors are
      stored. */
  class LshIndex {
    const tables: nat
    const hash: (nat, Vector) -> Key
    var buckets: seq<map<Key, seq<nat>>>
    /** How many vectors are stored: the next id. */
    var count: nat
    /** The stored vectors, in store order; only their ids are kept. */
    ghost var stored: seq<Vector>

    ghost predicate Valid()
      reads this
    {
      && |buckets| == tables
      && count == |stored|
      && forall t :: 0 <= t < tables ==> TableHolds(hash, t, buckets[t], stored)
    }

    constructor (tables: nat, hash: (nat, Vector) -> Key)
      ensures Valid()
      ensures this.tables == tables && this.hash == hash && stored == []
    {
      this.tables := tables;
      this.hash := hash;
      buckets := seq(tables, t => map[]);
      count := 0;
      stored := [];
      new;
      forall t | 0 <= t < tables
        ensures TableHolds(hash, t, buckets[t], stored)
      {
        EmptyTableHolds(hash, t);
      }
    }

    /** The ids whose vector collides with `v` in some table. */
    ghost function Candidates(v: Vector): set<nat>
      reads this
    {
      set j | 0 <= j < |stored| && Collide(hash, tables, stored[j], v)
    }

    /** `query_bucket_ids`: the union, over the tables, of the bucket `v`
        hashes to: exactly the stored ids colliding with `v`. */
    method QueryBucketIds(v: Vector) returns (ids: set<nat>)
      requires Valid()
      ensures ids == Candidates(v)
      ensures forall j :: j in ids ==> j < |stored|
    {
      ids := {};
      var t := 0;
      while t < tables
        invariant 0 <= t <= tables
        invariant ids == set j | 0 <= j < |stored| && exists u :: 0 <= u < t && hash(u, stored[j]) == hash(u, v)
      {
        var key := hash(t, v);
        ghost var before := ids;
        var bucket := BucketOf(buckets[t], key);
        ids := ids + set j | j in bucket;
        QueryStep(t, v, before, bucket, ids);
        t := t + 1;
      }
    }

    /** One table's bucket joins the ids collected so far. */
    lemma QueryStep(t: nat, v: Vector, before: set<nat>, bucket: seq<nat>, after: set<nat>)
      requires Valid() && t < tables
      requires bucket == BucketOf(buckets[t], hash(t, v))
      requires before == set j | 0 <= j < |stored| && exists u :: 0 <= u < t && hash(u, stored[j]) == hash(u, v)
      requires after == before + set j | j in bucket
      ensures after == set j | 0 <= j < |stored| && exists u :: 0 <= u < t + 1 && hash(u, stored[j]) == hash(u, v)
    {
      assert TableHolds(hash, t, buckets[t], stored);
      forall j | j in after
        ensures 0 <= j < |stored| && exists u :: 0 <= u < t + 1 && hash(u, stored[j]) == hash(u, v)
      {
        if j !in before {
          assert Filed(buckets[t], hash(t, v), j);
          assert j < |stored| && hash(t, stored[j]) == hash(t, v);
        }
      }
      forall j | 0 <= j < |stored| && (exists u :: 0 <= u < t + 1 && hash(u, stored[j]) == hash(u, v))
        ensures j in after
      {
        if j !in before {
          assert hash(t, stored[j]) == hash(t, v);
          assert Filed(buckets[t], hash(t, v), j);
        }
      }
    }

    /** `store_vec`: files `v` under its key in every table and returns its
        id, the number of vectors stored before it. */
    method StoreVec(v: Vector) returns (id: nat)
      requires Valid()
      modifies this
      ensures Valid()
      ensures id == |old(stored)| && stored == old(stored) + [v]
    {
      id := count;
      ghost var stored' := stored + [v];
      var t := 0;
      while t < tables
        invariant 0 <= t <= tables && |buckets| == tables
        invariant stored == old(stored) && count == id == |stored|
        invariant forall u :: 0 <= u < t ==> TableHolds(hash, u, buckets[u], stored')
        invariant forall u :: t <= u < tables ==> TableHolds(hash, u, buckets[u], stored)
      {
        var key := hash(t, v);
        PutKeepsTable(hash, t, buckets[t], stored, v);
        buckets := buckets[t := buckets[t][key := BucketOf(buckets[t], key) + [id]]];
        t := t + 1;
      }
      stored := stored';
      count := count + 1;
    }
  }

  // ---------------------------------------------------------------------
  // The indexing loop

  /** A received signature: the file's path and its signature values. */
  datatype SignatureToCompare = SignatureToCompare(path: string, signature: Vector)

  /** An entry of `images`: the id the index gave the signature, and the
      signature. */
  type ImageRef = (nat, SignatureToCompare)

  /** Every entry of `images` sits at the position of its id. */
  ghost predicate IdIndexed(images: seq<ImageRef>) {
    forall k :: 0 <= k < |images| ==> images[k].0 == k
  }

  /** A comparison task between two entries of `images`. */
  datatype SigTask = SigTask(index1: ImageRef, index2: ImageRef)

  /** The tasks sent for one new entry `ipair`: one against every id of
      `results`, in the set's (unspecified) iteration order. */
  method SendTasks(ipair: ImageRef, images: seq<ImageRef>, results: set<nat>) returns (sent: seq<SigTask>)
    requires IdIndexed(images)
    requires forall j :: j in results ==> j < |images|
    ensures forall s :: s in sent <==> exists j :: j in results && s == SigTask(ipair, images[j])
    ensures Distinct(sent)
    ensures forall k :: 0 <= k < |sent| ==> sent[k].index1 == ipair
  {
    sent := [];
    ghost var done: set<nat> := {};
    var remaining := results;
    ghost var ids: seq<nat> := [];
    while remaining != {}
      invariant remaining <= results && done == results - remaining
      invariant |ids| == |sent| && (forall k :: 0 <= k < |sent| ==> ids[k] in done && sent[k] == SigTask(ipair, images[ids[k]]))
      invariant forall j :: j in done ==> j in ids
      invariant Distinct(ids)
      invariant forall k :: 0 <= k < |sent| ==> sent[k].index1 == ipair
      decreases remaining
    {
      var index2 :| index2 in remaining;
      remaining := remaining - {index2};
      sent := sent + [SigTask(ipair, images[index2])];
      ids := ids + [index2];
      done := done + {index2};
    }
    forall s | s in sent
      ensures exists j :: j in results && s == SigTask(ipair, images[j])
    {
      var k :| 0 <= k < |sent| && sent[k] == s;
      assert ids[k] in results;
    }
    forall j | j in results
      ensures SigTask(ipair, images[j]) in sent
    {
      assert j in done;
      var k :| 0 <= k < |ids| && ids[k] == j;
      assert sent[k] == SigTask(ipair, images[j]);
    }
    DistinctIds(sent, images, ids);
  }

  /** Tasks that name distinct entries of an id-indexed `images` are distinct. */
  lemma DistinctIds(sent: seq<SigTask>, images: seq<ImageRef>, ids: seq<nat>)
    requires IdIndexed(images)
    requires |ids| == |sent| && forall k :: 0 <= k < |ids| ==> ids[k] < |images| && sent[k].index2 == images[ids[k]]
    requires Distinct(ids)
    ensures Distinct(sent)
  {
  }

  /** What the loop has sent after the first `n` signatures: each task pairs
      a later arrival with an earlier one, both as recorded in `images`;
      an earlier and a later signature are paired exactly when they collide
      in some table; no task repeats; and tasks come in arrival order of
      their newer signature. */
  ghost predicate TasksFor(received: seq<SignatureToCompare>, hash: (nat, Vector) -> Key, tasks: seq<SigTask>, n: nat)
    requires n <= |received|
  {
    && (forall s :: s in tasks ==>
         (s.index2.0 < s.index1.0 < n
          && s.index1 == (s.index1.0, received[s.index1.0]) && s.index2 == (s.index2.0, received[s.index2.0])))
    && (forall k, j :: 0 <= j < k < n ==>
         (SigTask((k, received[k]), (j, received[j])) in tasks
          <==> Collide(hash, HashTables, received[j].signature, received[k].signature)))
    && Distinct(tasks)
    && (forall a, b :: 0 <= a < b < |tasks| ==> tasks[a].index1.0 <= tasks[b].index1.0)
  }

  /** The indexing thread's loop: for each received signature it first
      queries the index, then stores the signature, records it in `images`
      under the id it got back, and sends one task against every earlier
      entry the query found. A signature is never paired with itself, and
      every task names entries already in `images`. */
  method IndexSignatures(received: seq<SignatureToCompare>, hash: (nat, Vector) -> Key)
    returns (images: seq<ImageRef>, tasks: seq<SigTask>)
    ensures |images| == |received| && forall k :: 0 <= k < |received| ==> images[k] == (k, received[k])
    ensures forall s :: s in tasks ==>
      s.index2.0 < s.index1.0 < |images| && s.index1 == images[s.index1.0] && s.index2 == images[s.index2.0]
    ensures forall k, j :: 0 <= j < k < |received| ==>
      (SigTask(images[k], images[j]) in tasks <==> Collide(hash, HashTables, received[j].signature, received[k].signature))
    ensures Distinct(tasks)
    ensures forall a, b :: 0 <= a < b < |tasks| ==> tasks[a].index1.0 <= tasks[b].index1.0
  {
    var lsh := new LshIndex(HashTables, hash);
    images := [];
    tasks := [];
    var i := 0;
    while i < |received|
      invariant 0 <= i <= |received|
      invariant lsh.Valid() && lsh.tables == HashTables && lsh.hash == hash
      invariant |lsh.stored| == i && forall k :: 0 <= k < i ==> lsh.stored[k] == received[k].signature
      invariant |images| == i && forall k :: 0 <= k < i ==> images[k] == (k, received[k])
      invariant TasksFor(received, hash, tasks, i)
    {
      var image := received[i];
      var signature := image.signature;
      var results := lsh.QueryBucketIds(signature);
      var index1 := lsh.StoreVec(signature);
      var ipair := (index1, image);
      images := images + [ipair];
      var sent := SendTasks(ipair, images, results);
      IndexStep(received, hash, images, tasks, i, results, sent);
      tasks := tasks + sent;
      i := i + 1;
    }
  }

  /** One turn of the indexing loop keeps `TasksFor`. */
  lemma IndexStep(received: seq<SignatureToCompare>, hash: (nat, Vector) -> Key, images: seq<ImageRef>,
                  tasks: seq<SigTask>, i: nat, results: set<nat>, sent: seq<SigTask>)
    requires i < |received| && TasksFor(received, hash, tasks, i)
    requires |images| == i + 1 && forall k :: 0 <= k <= i ==> images[k] == (k, received[k])
    requires results == set j | 0 <= j < i && Collide(hash, HashTables, received[j].signature, received[i].signature)
    requires forall s :: s in sent <==> exists j :: j in results && s == SigTask(images[i], images[j])
    requires Distinct(sent)
    requires forall k :: 0 <= k < |sent| ==> sent[k].index1 == images[i]
    ensures TasksFor(received, hash, tasks + sent, i + 1)
  {
    var all := tasks + sent;
    forall s | s in all
      ensures s.index2.0 < s.index1.0 < i + 1
      ensures s.index1 == (s.index1.0, received[s.index1.0]) && s.index2 == (s.index2.0, received[s.index2.0])
    {
      if s !in tasks {
        var j :| j in results && s == SigTask(images[i], images[j]);
      }
    }
    forall k, j | 0 <= j < k < i + 1
      ensures SigTask((k, received[k]), (j, received[j])) in all
              <==> Collide(hash, HashTables, received[j].signature, received[k].signature)
    {
      var s := SigTask((k, received[k]), (j, received[j]));
      if k < i {
        assert s !in sent;
      } else {
        assert s !in tasks;
        assert images[i] == (k, received[k]) && images[j] == (j, received[j]);
        if Collide(hash, HashTables, received[j].signature, received[k].signature) {
          assert j in results;
        }
      }
    }
    forall a, b | 0 <= a < b < |all|
      ensures all[a] != all[b] && all[a].index1.0 <= all[b].index1.0
    {
      if a < |tasks| && b >= |tasks| {
        assert all[a] in tasks && all[b] == sent[b - |tasks|];
      } else if a >= |tasks| {
        assert all[a] == sent[a - |tasks|] && all[b] == sent[b - |tasks|];
      }
    }
  }
}
