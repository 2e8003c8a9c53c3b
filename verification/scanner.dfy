/**
 The file scanner, `ImageSearch.find_files`. The directory traversal itself
 is not modelled: its output is given as the sequence of directories it
 reports, in the order it reports them. For each listed file the scanner
 forms `dir + "/" + name` and keeps it in bulk mode always, in fast mode
 only when the store does not already hold it.
 */
module FileScanner {
  import opened ProcessedStore

  /** One directory reported by the traversal: its path and the names of the
      non-directory entries directly inside it (regular files, symbolic links,
      FIFOs, sockets, ...). Sub-directory names are not kept, since the scanner
      never reads them. */
  datatype WalkEntry = WalkEntry(dir: Path, files: seq<string>)

  /** The path the scanner forms for the file `name` listed under `dir`. */
  function FullPath(dir: Path, name: string): (p: Path)
    ensures |p| == |dir| + 1 + |name|
    ensures p[..|dir|] == dir && p[|dir|] == '/' && p[|dir| + 1..] == name
  {
    dir + "/" + name
  }

  /** The full paths of one directory's files, in listing order. */
  function DirPaths(e: WalkEntry): (ps: seq<Path>)
    ensures |ps| == |e.files|
    ensures forall j :: 0 <= j < |ps| ==> ps[j] == FullPath(e.dir, e.files[j])
  {
    seq(|e.files|, j requires 0 <= j < |e.files| => FullPath(e.dir, e.files[j]))
  }

  /** How many files the walk lists, over all its directories. */
  function FileCount(walk: seq<WalkEntry>): nat
  {
    if walk == [] then 0 else FileCount(walk[..|walk| - 1]) + |walk[|walk| - 1].files|
  }

  /** Every file the walk lists, as a full path, directory after directory:
      the reference for what bulk mode returns. */
  function WalkPaths(walk: seq<WalkEntry>): (ps: seq<Path>)
    ensures |ps| == FileCount(walk)
  {
    if walk == [] then [] else WalkPaths(walk[..|walk| - 1]) + DirPaths(walk[|walk| - 1])
  }

  /** `p` is the full path of some file the walk lists. */
  ghost predicate Walked(walk: seq<WalkEntry>, p: Path)
  {
    exists i, j :: 0 <= i < |walk| && 0 <= j < |walk[i].files| && p == FullPath(walk[i].dir, walk[i].files[j])
  }

  /** The paths of `ps` the store does not already hold, in their order in
      `ps`: the reference for what fast mode returns. */
  function NewOnly(ps: seq<Path>, s: Store, lookupFails: Path -> bool): (r: seq<Path>)
    ensures |r| <= |ps|
    ensures forall p :: p in r ==> p in ps && !AlreadyExists(s, p, lookupFails(p))
  {
    if ps == [] then []
    else
      var p := ps[|ps| - 1];
      NewOnly(ps[..|ps| - 1], s, lookupFails) + (if AlreadyExists(s, p, lookupFails(p)) then [] else [p])
  }

  /** What the scanner keeps of `ps` in the given mode. */
  function Selected(ps: seq<Path>, s: Store, lookupFails: Path -> bool, bulk: bool): seq<Path>
  {
    if bulk then ps else NewOnly(ps, s, lookupFails)
  }

  /** `idx` lists, in increasing order, positions of `b` whose elements
      spell out `a`: `a` is a subsequence of `b`. */
  ghost predicate Embeds(a: seq<Path>, b: seq<Path>, idx: seq<nat>)
  {
    && |idx| == |a|
    && (forall k :: 0 <= k < |idx| ==> idx[k] < |b| && a[k] == b[idx[k]])
    && (forall k, l :: 0 <= k < l < |idx| ==> idx[k] < idx[l])
  }

  /** The inner loop of `ImageSearch.find_files`: the files of one directory,
      each kept in bulk mode, and in fast mode only when not seen before. */
  method ScanDirectory(entry: WalkEntry, s: Store, lookupFails: Path -> bool, bulk: bool)
    returns (kept: seq<Path>)
    ensures bulk ==> kept == DirPaths(entry)
    ensures !bulk ==> kept == NewOnly(DirPaths(entry), s, lookupFails)
  {
    kept := [];
    for j := 0 to |entry.files|
      invariant kept == Selected(DirPaths(entry)[..j], s, lookupFails, bulk)
    {
      var fullPath := FullPath(entry.dir, entry.files[j]);
      var seen := AlreadyExists(s, fullPath, lookupFails(fullPath));
      ghost var before := DirPaths(entry)[..j];
      assert DirPaths(entry)[..j + 1] == before + [fullPath];
      assert (before + [fullPath])[..j] == before;
      if bulk || !seen {
        kept := kept + [fullPath];
      }
    }
    assert DirPaths(entry)[..|entry.files|] == DirPaths(entry);
  }

  /** `ImageSearch.find_files`: the outer loop over the directories the walk
      reports, skipping those without files. */
  method FindFiles(walk: seq<WalkEntry>, s: Store, lookupFails: Path -> bool, bulk: bool)
    returns (found: seq<Path>)
    ensures bulk ==> found == WalkPaths(walk)
    ensures !bulk ==> found == NewOnly(WalkPaths(walk), s, lookupFails)
  {
    found := [];
    for i := 0 to |walk|
      invariant found == Selected(WalkPaths(walk[..i]), s, lookupFails, bulk)
    {
      var entry := walk[i];
      assert walk[..i + 1][..i] == walk[..i];
      assert WalkPaths(walk[..i + 1]) == WalkPaths(walk[..i]) + DirPaths(entry);
      SelectedAppend(WalkPaths(walk[..i]), DirPaths(entry), s, lookupFails, bulk);
      if |entry.files| != 0 {
        var kept := ScanDirectory(entry, s, lookupFails, bulk);
        found := found + kept;
      } else {
        assert DirPaths(entry) == [];
      }
    }
    assert walk[..|walk|] == walk;
  }

  /** The walk's paths split along any split of the walk. */
  lemma {:induction false} WalkPathsAppend(a: seq<WalkEntry>, b: seq<WalkEntry>)
    ensures WalkPaths(a + b) == WalkPaths(a) + WalkPaths(b)
    decreases |b|
  {
    if b == [] {
      assert a + b == a;
    } else {
      var b' := b[..|b| - 1];
      assert (a + b)[..|a + b| - 1] == a + b';
      WalkPathsAppend(a, b');
    }
  }

  /** The fast-mode filter works path by path, so it splits along any split
      of its input. */
  lemma {:induction false} NewOnlyAppend(a: seq<Path>, b: seq<Path>, s: Store, lookupFails: Path -> bool)
    ensures NewOnly(a + b, s, lookupFails) == NewOnly(a, s, lookupFails) + NewOnly(b, s, lookupFails)
    decreases |b|
  {
    if b == [] {
      assert a + b == a;
    } else {
      var b' := b[..|b| - 1];
      assert (a + b)[..|a + b| - 1] == a + b';
      NewOnlyAppend(a, b', s, lookupFails);
    }
  }

  lemma SelectedAppend(a: seq<Path>, b: seq<Path>, s: Store, lookupFails: Path -> bool, bulk: bool)
    ensures Selected(a + b, s, lookupFails, bulk) == Selected(a, s, lookupFails, bulk) + Selected(b, s, lookupFails, bulk)
  {
    if !bulk {
      NewOnlyAppend(a, b, s, lookupFails);
    }
  }

  /** Bulk mode returns one entry per listed file, in walk order: the `j`-th
      file of the `i`-th directory sits right after all files of the earlier
      directories. Together with the length of `WalkPaths` this places every
      listed file at exactly one position. */
  lemma {:induction false} WalkPathsAt(walk: seq<WalkEntry>, i: nat, j: nat)
    requires i < |walk| && j < |walk[i].files|
    ensures FileCount(walk[..i]) + j < |WalkPaths(walk)|
    ensures WalkPaths(walk)[FileCount(walk[..i]) + j] == FullPath(walk[i].dir, walk[i].files[j])
  {
    var n := |walk| - 1;
    var init := walk[..n];
    assert WalkPaths(walk) == WalkPaths(init) + DirPaths(walk[n]);
    if i == n {
      assert walk[..i] == init;
    } else {
      assert init[..i] == walk[..i];
      assert init[i] == walk[i];
      WalkPathsAt(init, i, j);
    }
  }

  /** Bulk mode returns nothing but listed files. */
  lemma {:induction false} WalkPathsOnlyWalked(walk: seq<WalkEntry>, p: Path)
    requires p in WalkPaths(walk)
    ensures Walked(walk, p)
  {
    var n := |walk| - 1;
    var init := walk[..n];
    assert WalkPaths(walk) == WalkPaths(init) + DirPaths(walk[n]);
    if p in WalkPaths(init) {
      WalkPathsOnlyWalked(init, p);
      var i, j :| 0 <= i < |init| && 0 <= j < |init[i].files| && p == FullPath(init[i].dir, init[i].files[j]);
      assert walk[i] == init[i];
    } else {
      var j :| 0 <= j < |DirPaths(walk[n])| && DirPaths(walk[n])[j] == p;
      assert p == FullPath(walk[n].dir, walk[n].files[j]);
    }
  }

  /** Bulk mode returns exactly the listed files. */
  lemma WalkPathsMembership(walk: seq<WalkEntry>, p: Path)
    ensures p in WalkPaths(walk) <==> Walked(walk, p)
  {
    if p in WalkPaths(walk) {
      WalkPathsOnlyWalked(walk, p);
    }
    if Walked(walk, p) {
      var i, j :| 0 <= i < |walk| && 0 <= j < |walk[i].files| && p == FullPath(walk[i].dir, walk[i].files[j]);
      WalkPathsAt(walk, i, j);
    }
  }

  /** A directory without files contributes nothing, wherever the walk
      reports it. */
  lemma EmptyDirectoryContributesNothing(before: seq<WalkEntry>, dir: Path, after: seq<WalkEntry>)
    ensures WalkPaths(before + [WalkEntry(dir, [])] + after) == WalkPaths(before + after)
  {
    var e := WalkEntry(dir, []);
    WalkPathsAppend(before + [e], after);
    WalkPathsAppend(before, [e]);
    WalkPathsAppend(before, after);
    assert [e][..0] == [];
  }

  /** The fast-mode filter keeps a path exactly when it is in the input and
      the store's lookup answers "not there". */
  lemma {:induction false} NewOnlyMembership(ps: seq<Path>, s: Store, lookupFails: Path -> bool, p: Path)
    ensures p in NewOnly(ps, s, lookupFails) <==> p in ps && !AlreadyExists(s, p, lookupFails(p))
  {
    if ps != [] {
      var init := ps[..|ps| - 1];
      assert ps == init + [ps[|ps| - 1]];
      NewOnlyMembership(init, s, lookupFails, p);
    }
  }

  /** The fast-mode filter is the subsequence of its input made of exactly the
      positions whose path the store does not hold: same relative order, and
      every such position is taken. */
  lemma {:induction false} NewOnlyPositions(ps: seq<Path>, s: Store, lookupFails: Path -> bool)
    returns (idx: seq<nat>)
    ensures Embeds(NewOnly(ps, s, lookupFails), ps, idx)
    ensures forall k :: 0 <= k < |ps| ==> (k in idx <==> !AlreadyExists(s, ps[k], lookupFails(ps[k])))
  {
    if ps == [] {
      idx := [];
    } else {
      var n := |ps| - 1;
      var init := ps[..n];
      assert ps == init + [ps[n]];
      var idx0 := NewOnlyPositions(init, s, lookupFails);
      var r0 := NewOnly(init, s, lookupFails);
      if AlreadyExists(s, ps[n], lookupFails(ps[n])) {
        idx := idx0;
        assert NewOnly(ps, s, lookupFails) == r0;
        EmbedsSkip(r0, init, idx0, ps[n]);
      } else {
        idx := idx0 + [n];
        assert NewOnly(ps, s, lookupFails) == r0 + [ps[n]];
        EmbedsTake(r0, init, idx0, ps[n]);
      }
      assert forall k :: 0 <= k < n ==> ps[k] == init[k];
      assert forall k :: 0 <= k < |idx0| ==> idx0[k] < n;
    }
  }

  /** An embedding survives appending a path the subsequence skips. */
  lemma EmbedsSkip(a: seq<Path>, b: seq<Path>, idx: seq<nat>, x: Path)
    requires Embeds(a, b, idx)
    ensures Embeds(a, b + [x], idx)
  {
    forall k | 0 <= k < |idx|
      ensures (b + [x])[idx[k]] == b[idx[k]]
    {
    }
  }

  /** An embedding extends by a path appended to both sequences. */
  lemma EmbedsTake(a: seq<Path>, b: seq<Path>, idx: seq<nat>, x: Path)
    requires Embeds(a, b, idx)
    ensures Embeds(a + [x], b + [x], idx + [|b|])
  {
    EmbedsSkip(a, b, idx, x);
  }

  /** Fast mode returns a subsequence of what bulk mode returns over the same
      walk: the bulk entries whose lookup answers "not there". */
  lemma FastIsSubsequenceOfBulk(walk: seq<WalkEntry>, s: Store, lookupFails: Path -> bool)
    returns (idx: seq<nat>)
    ensures Embeds(Selected(WalkPaths(walk), s, lookupFails, false), Selected(WalkPaths(walk), s, lookupFails, true), idx)
  {
    idx := NewOnlyPositions(WalkPaths(walk), s, lookupFails);
  }

  /** A listed file whose lookup errors is kept in bulk mode and skipped in
      fast mode. */
  lemma LookupErrorSkipsOnlyInFast(walk: seq<WalkEntry>, s: Store, lookupFails: Path -> bool, p: Path)
    requires Walked(walk, p) && lookupFails(p)
    ensures p in Selected(WalkPaths(walk), s, lookupFails, true)
    ensures p !in Selected(WalkPaths(walk), s, lookupFails, false)
  {
    WalkPathsMembership(walk, p);
    NewOnlyMembership(WalkPaths(walk), s, lookupFails, p);
  }

  /** The fast-mode filter returns nothing exactly when the store answers
      "exists" for every input path. */
  lemma NothingNewIff(ps: seq<Path>, s: Store, lookupFails: Path -> bool)
    ensures NewOnly(ps, s, lookupFails) == [] <==> forall p :: p in ps ==> AlreadyExists(s, p, lookupFails(p))
  {
    if NewOnly(ps, s, lookupFails) != [] {
      var p := NewOnly(ps, s, lookupFails)[0];
      NewOnlyMembership(ps, s, lookupFails, p);
    }
    if exists p :: p in ps && !AlreadyExists(s, p, lookupFails(p)) {
      var p :| p in ps && !AlreadyExists(s, p, lookupFails(p));
      NewOnlyMembership(ps, s, lookupFails, p);
    }
  }

  /** A store whose lookup errors on every listed file makes fast mode find
      nothing. */
  lemma FailingLookupFindsNothing(walk: seq<WalkEntry>, s: Store, lookupFails: Path -> bool)
    requires forall i, j :: 0 <= i < |walk| && 0 <= j < |walk[i].files| ==> lookupFails(FullPath(walk[i].dir, walk[i].files[j]))
    ensures NewOnly(WalkPaths(walk), s, lookupFails) == []
  {
    forall p | p in WalkPaths(walk)
      ensures AlreadyExists(s, p, lookupFails(p))
    {
      WalkPathsOnlyWalked(walk, p);
    }
    NothingNewIff(WalkPaths(walk), s, lookupFails);
  }

  /** A tree holding `a.jpg` and `c.jpg` and an empty sub-directory, with
      `a.jpg` already recorded: bulk mode returns both files, fast mode only
      `c.jpg`. */
  lemma ScanExample()
    ensures WalkPaths([WalkEntry("t", ["a.jpg", "c.jpg"]), WalkEntry("t/empty", [])]) == ["t/a.jpg", "t/c.jpg"]
    ensures NewOnly(["t/a.jpg", "t/c.jpg"], Store({"t/a.jpg"}), p => false) == ["t/c.jpg"]
  {
    var walk := [WalkEntry("t", ["a.jpg", "c.jpg"]), WalkEntry("t/empty", [])];
    assert walk[..1] == [walk[0]];
    assert walk[..1][..0] == [];
    assert FullPath("t", "a.jpg") == "t/a.jpg";
    assert FullPath("t", "c.jpg") == "t/c.jpg";
    assert DirPaths(walk[0]) == ["t/a.jpg", "t/c.jpg"];
    var ps := ["t/a.jpg", "t/c.jpg"];
    assert ps[..1] == ["t/a.jpg"];
    assert ps[..1][..0] == [];
    assert "t/c.jpg" != "t/a.jpg" by {
      assert "t/c.jpg"[2] != "t/a.jpg"[2];
    }
  }
}
