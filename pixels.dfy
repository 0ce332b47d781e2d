/** Pixel mode's task master: every decoded image whose path is new gets the
    next dense index, a comparison task against each earlier image, and a
    place in the bundle; an image whose path is already known is skipped. */
module Pixels {
  import opened Shared

  /** A decoded and resized image; its pixels are opaque here. */
  datatype ImageToCompare = ImageToCompare(path: string, image: seq<int>)

  /** The images of `imageMap` carry distinct paths. */
  predicate DistinctPaths(imageMap: seq<ImageToCompare>) {
    forall a, b :: 0 <= a < b < |imageMap| ==> imageMap[a].path != imageMap[b].path
  }

  /** Some image of `imageMap` has path `p`. */
  predicate HasPath(imageMap: seq<ImageToCompare>, p: string) {
    exists k :: 0 <= k < |imageMap| && imageMap[k].path == p
  }

  /** `nameMap` maps each stored path to its position in `imageMap`, and
      holds no other path. */
  ghost predicate Indexed(imageMap: seq<ImageToCompare>, nameMap: map<string, nat>) {
    && (forall k :: 0 <= k < |imageMap| ==> imageMap[k].path in nameMap && nameMap[imageMap[k].path] == k)
    && (forall p :: p in nameMap ==> nameMap[p] < |imageMap| && imageMap[nameMap[p]].path == p)
  }

  /** An indexed bundle stores each path once, `nameMap`'s values are
      exactly the positions 0 .. |imageMap| - 1, and its keys are exactly
      the stored paths. */
  lemma IndexedFacts(imageMap: seq<ImageToCompare>, nameMap: map<string, nat>)
    requires Indexed(imageMap, nameMap)
    ensures DistinctPaths(imageMap)
    ensures forall v: nat :: v in nameMap.Values <==> v < |imageMap|
    ensures forall p :: p in nameMap <==> HasPath(imageMap, p)
  {
    forall a, b | 0 <= a < b < |imageMap|
      ensures imageMap[a].path != imageMap[b].path
    {
      assert nameMap[imageMap[a].path] == a && nameMap[imageMap[b].path] == b;
    }
    forall k | 0 <= k < |imageMap|
      ensures k in nameMap.Values
    {
      assert nameMap[imageMap[k].path] == k;
    }
    forall p | HasPath(imageMap, p)
      ensures p in nameMap
    {
      var k :| 0 <= k < |imageMap| && imageMap[k].path == p;
    }
  }

  /** Storing an image with a new path at the end keeps the bundle indexed. */
  lemma IndexedAppend(imageMap: seq<ImageToCompare>, nameMap: map<string, nat>, image: ImageToCompare)
    requires Indexed(imageMap, nameMap) && image.path !in nameMap
    ensures Indexed(imageMap + [image], nameMap[image.path := |imageMap|])
  {
    var imageMap' := imageMap + [image];
    forall k | 0 <= k < |imageMap|
      ensures imageMap'[k].path != image.path
    {
      assert imageMap[k].path in nameMap;
    }
  }

  /** The tasks for a new image with index `n`: (n, 0), (n, 1), …, (n, n - 1). */
  function TasksAgainstEarlier(n: nat): (r: seq<CompareTask>)
    ensures |r| == n
    ensures forall k :: 0 <= k < n ==> r[k] == CompareTask(n, k)
  {
    seq(n, k requires 0 <= k < n => CompareTask(n, k))
  }

  /** The shared bundle: the accepted images in index order and the index
      of each path. */
  class ImageBundle {
    var imageMap: seq<ImageToCompare>
    var nameMap: map<string, nat>

    ghost predicate Valid()
      reads this
    {
      Indexed(imageMap, nameMap)
    }

    constructor ()
      ensures Valid() && imageMap == [] && nameMap == map[]
    {
      imageMap := [];
      nameMap := map[];
    }

    /** One step of the task master for a received image. A path already
        in the bundle is skipped and nothing changes. Otherwise the image
        gets index `n = |imageMap|`, the tasks (n, 0) … (n, n - 1) are sent
        in that order, and then the path is mapped to `n` and the image
        appended. */
    method Accept(image: ImageToCompare) returns (tasks: seq<CompareTask>)
      requires Valid()
      modifies this
      ensures Valid()
      ensures old(image.path in nameMap) ==> tasks == [] && imageMap == old(imageMap) && nameMap == old(nameMap)
      ensures old(image.path !in nameMap) ==>
        && tasks == TasksAgainstEarlier(old(|imageMap|))
        && imageMap == old(imageMap) + [image]
        && nameMap == old(nameMap)[image.path := old(|imageMap|)]
    {
      if image.path in nameMap {
        return [];
      }
      var index1 := |imageMap|;
      tasks := [];
      var index2 := 0;
      while index2 < |imageMap|
        invariant 0 <= index2 <= |imageMap|
        invariant tasks == TasksAgainstEarlier(index1)[..index2]
      {
        tasks := tasks + [CompareTask(index1, index2)];
        index2 := index2 + 1;
      }
      assert TasksAgainstEarlier(index1)[..index1] == TasksAgainstEarlier(index1);
      IndexedAppend(imageMap, nameMap, image);
      nameMap := nameMap[image.path := index1];
      imageMap := imageMap + [image];
    }
  }

  /** The images the task master keeps, in arrival order: each path's first
      arrival. */
  function Dedup(received: seq<ImageToCompare>): (r: seq<ImageToCompare>)
    decreases |received|
  {
    if |received| == 0 then []
    else
      var kept := Dedup(received[..|received| - 1]);
      var last := received[|received| - 1];
      if HasPath(kept, last.path) then kept else kept + [last]
  }

  /** Every task the task master sends for `m` accepted images, in order:
      the tasks of index 0, then of index 1, and so on. */
  function AllTasks(m: nat): seq<CompareTask>
  {
    if m == 0 then [] else AllTasks(m - 1) + TasksAgainstEarlier(m - 1)
  }

  /** The task-master thread over the images in the order it receives
      them: the bundle it ends with keeps each path's first arrival, and it
      sends every pair of accepted indices once, newer index first. */
  method TaskMaster(received: seq<ImageToCompare>)
    returns (imageMap: seq<ImageToCompare>, nameMap: map<string, nat>, tasks: seq<CompareTask>)
    ensures imageMap == Dedup(received)
    ensures Indexed(imageMap, nameMap)
    ensures tasks == AllTasks(|imageMap|)
  {
    var bundle := new ImageBundle();
    tasks := [];
    var i := 0;
    while i < |received|
      invariant 0 <= i <= |received|
      invariant bundle.Valid()
      invariant bundle.imageMap == Dedup(received[..i])
      invariant tasks == AllTasks(|bundle.imageMap|)
    {
      var image := received[i];
      assert received[..i + 1][..i] == received[..i];
      IndexedFacts(bundle.imageMap, bundle.nameMap);
      var sent := bundle.Accept(image);
      tasks := tasks + sent;
      i := i + 1;
    }
    assert received[..|received|] == received;
    imageMap := bundle.imageMap;
    nameMap := bundle.nameMap;
  }

  // ---------------------------------------------------------------------
  // Properties of the task master's output

  /** Exactly the paths received are kept, each once. */
  lemma {:induction false} DedupPaths(received: seq<ImageToCompare>)
    ensures DistinctPaths(Dedup(received))
    ensures forall p :: HasPath(Dedup(received), p) <==> HasPath(received, p)
    decreases |received|
  {
    if |received| > 0 {
      var init := received[..|received| - 1];
      DedupPaths(init);
      forall p
        ensures HasPath(Dedup(received), p) <==> HasPath(received, p)
      {
        HasPathSnoc(init, received[|received| - 1], p);
        assert init + [received[|received| - 1]] == received;
        HasPathSnoc(Dedup(init), received[|received| - 1], p);
      }
    }
  }

  /** The image at `i` is the first to arrive with its path. */
  predicate FirstArrival(received: seq<ImageToCompare>, i: nat)
    requires i < |received|
  {
    forall j :: 0 <= j < i ==> received[j].path != received[i].path
  }

  /** Some image at a first arrival of its path is `img`. */
  predicate KeptFirst(received: seq<ImageToCompare>, img: ImageToCompare) {
    exists i: nat :: i < |received| && received[i] == img && FirstArrival(received, i)
  }

  /** The task master keeps exactly the first arrival of each path. */
  lemma {:induction false} DedupFirstArrivals(received: seq<ImageToCompare>)
    ensures forall img :: img in Dedup(received) <==> KeptFirst(received, img)
    decreases |received|
  {
    if |received| > 0 {
      var init := received[..|received| - 1];
      var last := received[|received| - 1];
      DedupFirstArrivals(init);
      DedupPaths(init);
      assert HasPath(Dedup(init), last.path) <==> HasPath(init, last.path);
      forall img
        ensures img in Dedup(received) <==> KeptFirst(received, img)
      {
        KeptFirstSnoc(received, img);
      }
    }
  }

  /** One more arrival is a first arrival exactly when its path is new. */
  lemma KeptFirstSnoc(received: seq<ImageToCompare>, img: ImageToCompare)
    requires |received| > 0
    ensures var init := received[..|received| - 1]; var last := received[|received| - 1];
      KeptFirst(received, img) <==> KeptFirst(init, img) || (img == last && !HasPath(init, last.path))
  {
    var n := |received| - 1;
    var init := received[..n];
    var last := received[n];
    assert FirstArrival(received, n) <==> !HasPath(init, last.path) by {
      if !FirstArrival(received, n) {
        var j :| 0 <= j < n && received[j].path == last.path;
        assert init[j] == received[j];
      }
      if HasPath(init, last.path) {
        var j :| 0 <= j < n && init[j].path == last.path;
        assert received[j] == init[j];
      }
    }
    if KeptFirst(init, img) {
      var i: nat :| i < n && init[i] == img && FirstArrival(init, i);
      assert received[i] == img;
      assert FirstArrival(received, i);
    }
    if KeptFirst(received, img) {
      var i: nat :| i < |received| && received[i] == img && FirstArrival(received, i);
      if i < n {
        assert init[i] == img;
        assert FirstArrival(init, i);
      }
    }
    if img == last && !HasPath(init, last.path) {
      assert received[n] == img && FirstArrival(received, n);
    }
  }

  /** A path occurs in a sequence with one more image at the end iff it
      occurs before or is that image's path. */
  lemma HasPathSnoc(imageMap: seq<ImageToCompare>, image: ImageToCompare, p: string)
    ensures HasPath(imageMap + [image], p) <==> HasPath(imageMap, p) || image.path == p
  {
    var longer := imageMap + [image];
    if HasPath(imageMap, p) {
      var k :| 0 <= k < |imageMap| && imageMap[k].path == p;
      assert longer[k] == imageMap[k];
    }
    if image.path == p {
      assert longer[|imageMap|] == image;
    }
    if HasPath(longer, p) {
      var k :| 0 <= k < |longer| && longer[k].path == p;
      if k < |imageMap| {
        assert imageMap[k] == longer[k];
      }
    }
  }

  /** `m` accepted images give m(m - 1)/2 tasks. */
  lemma {:induction false} AllTasksCount(m: nat)
    ensures 2 * |AllTasks(m)| == m * (m - 1)
  {
    if m > 0 {
      AllTasksCount(m - 1);
      assert m * (m - 1) == (m - 1) * (m - 2) + 2 * (m - 1);
    }
  }

  /** The tasks are exactly the pairs of accepted indices, newer first. */
  lemma {:induction false} AllTasksMembers(m: nat)
    ensures forall a: nat, b: nat :: CompareTask(a, b) in AllTasks(m) <==> b < a < m
  {
    if m > 0 {
      AllTasksMembers(m - 1);
      forall a: nat, b: nat
        ensures CompareTask(a, b) in AllTasks(m) <==> b < a < m
      {
        if a == m - 1 && b < a {
          assert TasksAgainstEarlier(m - 1)[b] == CompareTask(a, b);
        }
      }
    }
  }

  /** No task is sent twice. */
  lemma {:induction false} AllTasksDistinct(m: nat)
    ensures forall i, j :: 0 <= i < j < |AllTasks(m)| ==> AllTasks(m)[i] != AllTasks(m)[j]
  {
    if m > 0 {
      AllTasksDistinct(m - 1);
      AllTasksMembers(m - 1);
      var init := AllTasks(m - 1);
      var all := AllTasks(m);
      forall i, j | 0 <= i < j < |all|
        ensures all[i] != all[j]
      {
        if i < |init| && j >= |init| {
          assert all[i] == init[i] && init[i] in init;
          assert all[j] == TasksAgainstEarlier(m - 1)[j - |init|];
        } else if i >= |init| {
          assert all[i] == TasksAgainstEarlier(m - 1)[i - |init|];
          assert all[j] == TasksAgainstEarlier(m - 1)[j - |init|];
        } else {
          assert all[i] == init[i] && all[j] == init[j];
        }
      }
    }
  }
}
