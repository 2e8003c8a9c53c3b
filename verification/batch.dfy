/**
 The batch runner, `ImageSearch.optimize_images`. For each candidate file, in
 order, it records the path in the store and then re-encodes the image in
 place, counting successes and failures; no failure stops the batch. The
 image codec is left abstract: whether re-encoding a path succeeds is the
 oracle `optimizes`, and whether recording it meets an engine error is the
 oracle `insertFails`.
 */
module BatchRunner {
  import opened ProcessedStore
  import opened FileScanner

  /** A call the runner makes on its collaborators. */
  datatype Call =
    | InsertCall(path: Path)              // `Database.insert_path(path)`
    | OptimizeCall(path: Path, ok: bool, recorded: bool)
      // `ImageHandler(path).optimize()`: whether it succeeded, and whether
      // the store held `path` at the moment of the attempt

  /** How many of `files` re-encode without error. */
  function Successes(files: seq<Path>, optimizes: Path -> bool): (n: nat)
    ensures n <= |files|
  {
    if files == [] then 0
    else Successes(files[..|files| - 1], optimizes) + (if optimizes(files[|files| - 1]) then 1 else 0)
  }

  /** How many of `files` raise while being re-encoded. */
  function Failures(files: seq<Path>, optimizes: Path -> bool): (n: nat)
    ensures n <= |files|
  {
    if files == [] then 0
    else Failures(files[..|files| - 1], optimizes) + (if optimizes(files[|files| - 1]) then 0 else 1)
  }

  /** Every file has exactly one outcome. */
  lemma {:induction false} OutcomesPartition(files: seq<Path>, optimizes: Path -> bool)
    ensures Successes(files, optimizes) + Failures(files, optimizes) == |files|
  {
    if files != [] {
      OutcomesPartition(files[..|files| - 1], optimizes);
    }
  }

  /** `ImageSearch.optimize_images`: returns the success and failure counts,
      together with the store after the batch and the calls made, in order.
      Each file is offered to the store before its re-encoding is attempted,
      so a file that fails to re-encode is recorded all the same. */
  method OptimizeImages(files: seq<Path>, s: Store, insertFails: Path -> bool, optimizes: Path -> bool)
    returns (success: nat, failed: nat, s': Store, calls: seq<Call>)
    ensures success + failed == |files|
    ensures success == Successes(files, optimizes)
    ensures failed == Failures(files, optimizes)
    ensures s.paths <= s'.paths
    ensures forall p :: p in s'.paths <==> p in s.paths || (p in files && !insertFails(p))
    ensures |calls| == 2 * |files|
    ensures forall i :: 0 <= i < |files| ==>
              && calls[2 * i] == InsertCall(files[i])
              && calls[2 * i + 1].OptimizeCall?
              && calls[2 * i + 1].path == files[i]
              && calls[2 * i + 1].ok == optimizes(files[i])
              && (calls[2 * i + 1].recorded <==> files[i] in s.paths || !insertFails(files[i]))
  {
    success, failed, s', calls := 0, 0, s, [];
    for i := 0 to |files|
      invariant success == Successes(files[..i], optimizes)
      invariant failed == Failures(files[..i], optimizes)
      invariant s.paths <= s'.paths
      invariant forall p :: p in s'.paths <==> p in s.paths || (p in files[..i] && !insertFails(p))
      invariant |calls| == 2 * i
      invariant forall k :: 0 <= k < i ==>
                  && calls[2 * k] == InsertCall(files[k])
                  && calls[2 * k + 1].OptimizeCall?
                  && calls[2 * k + 1].path == files[k]
                  && calls[2 * k + 1].ok == optimizes(files[k])
                  && (calls[2 * k + 1].recorded <==> files[k] in s.paths || !insertFails(files[k]))
    {
      var file := files[i];
      assert files[..i + 1] == files[..i] + [file];
      assert files[..i + 1][..i] == files[..i];
      s' := InsertPath(s', file, insertFails(file));
      var recorded := file in s'.paths;
      var ok := optimizes(file);
      calls := calls + [InsertCall(file), OptimizeCall(file, ok, recorded)];
      if ok {
        success := success + 1;
      } else {
        failed := failed + 1;
      }
    }
    assert files[..|files|] == files;
    OutcomesPartition(files, optimizes);
  }

  /** A scan in either mode followed by its batch, in which no insert meets an
      engine error, and then a fast scan over the same walk: the second scan
      finds nothing, because every listed file was either recorded by the
      batch or already answered "exists" before it. */
  method RerunFindsNothing(walk: seq<WalkEntry>, s: Store, lookupFails: Path -> bool,
                           insertFails: Path -> bool, optimizes: Path -> bool, bulk: bool)
    returns (first: seq<Path>, s': Store, second: seq<Path>)
    requires forall i, j :: 0 <= i < |walk| && 0 <= j < |walk[i].files| ==>
               !insertFails(FullPath(walk[i].dir, walk[i].files[j]))
    ensures first == Selected(WalkPaths(walk), s, lookupFails, bulk)
    ensures forall p :: p in s'.paths <==> p in s.paths || p in first
    ensures second == NewOnly(WalkPaths(walk), s', lookupFails)
    ensures second == []
  {
    first := FindFiles(walk, s, lookupFails, bulk);
    var success, failed, calls;
    success, failed, s', calls := OptimizeImages(first, s, insertFails, optimizes);
    second := FindFiles(walk, s', lookupFails, false);
    forall p | p in first
      ensures p in s'.paths
    {
      assert p in WalkPaths(walk);
      WalkPathsOnlyWalked(walk, p);
    }
    forall p | p in WalkPaths(walk)
      ensures AlreadyExists(s', p, lookupFails(p))
    {
      WalkPathsOnlyWalked(walk, p);
      if !bulk {
        NewOnlyMembership(WalkPaths(walk), s, lookupFails, p);
      }
    }
    NothingNewIff(WalkPaths(walk), s', lookupFails);
  }

  /** A fast scan, its batch with no insert meeting an engine error, and a second fast
      scan over the same walk whose lookups may err differently
      (`lookupFails2`). The second scan finds exactly the walked files the
      store did not hold whose first lookup erred and whose second did not:
      a lookup error skips a file only until a lookup of it succeeds. */
  method RerunAfterLookupErrors(walk: seq<WalkEntry>, s: Store, lookupFails: Path -> bool,
                                lookupFails2: Path -> bool, insertFails: Path -> bool, optimizes: Path -> bool)
    returns (first: seq<Path>, s': Store, second: seq<Path>)
    requires forall i, j :: 0 <= i < |walk| && 0 <= j < |walk[i].files| ==>
               !insertFails(FullPath(walk[i].dir, walk[i].files[j]))
    ensures first == NewOnly(WalkPaths(walk), s, lookupFails)
    ensures forall p :: p in s'.paths <==> p in s.paths || p in first
    ensures second == NewOnly(WalkPaths(walk), s', lookupFails2)
    ensures forall p :: p in second <==>
              Walked(walk, p) && p !in s.paths && lookupFails(p) && !lookupFails2(p)
  {
    first := FindFiles(walk, s, lookupFails, false);
    var success, failed, calls;
    success, failed, s', calls := OptimizeImages(first, s, insertFails, optimizes);
    second := FindFiles(walk, s', lookupFails2, false);
    forall p | p in first
      ensures p in s'.paths
    {
      assert p in WalkPaths(walk);
      WalkPathsOnlyWalked(walk, p);
    }
    forall p
      ensures p in second <==> Walked(walk, p) && p !in s.paths && lookupFails(p) && !lookupFails2(p)
    {
      WalkPathsMembership(walk, p);
      NewOnlyMembership(WalkPaths(walk), s, lookupFails, p);
      NewOnlyMembership(WalkPaths(walk), s', lookupFails2, p);
      if p in WalkPaths(walk) {
        WalkPathsOnlyWalked(walk, p);
      }
    }
  }
}
