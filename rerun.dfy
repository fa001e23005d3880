/**
  Running the walk again over the filesystem a successful walk left behind
  finds every output directory in place: it changes nothing and lists the
  same pairs.
*/
module WalkRerun {
  import opened Wrappers
  import opened Fs
  import opened Templates
  import opened Listing
  import opened WalkProofs
  import opened WalkListing

  /** No exclude strictly below `dir` lies on the way to `d`. */
  ghost predicate Uncut(dir: Path, excludes: seq<Path>, d: Path)
  {
    forall x | x in excludes && dir < x :: !(x <= d)
  }

  /** Every directory of the input tree outside the excluded subtrees has its output directory. */
  ghost predicate Mirrored(fs: FileSystem, dir: Path, outDir: Path, excludes: seq<Path>)
  {
    forall d | IsDir(fs, d) && dir <= d && Uncut(dir, excludes, d) :: IsDir(fs, Rebase(dir, outDir, d))
  }

  /** Every node below `dir` is reached from `dir` through directory listings. */
  ghost predicate Reachable(fs: FileSystem, dir: Path)
  {
    forall d | d in fs && dir <= d :: OnPath(fs, dir, d)
  }

  lemma ValidReachable(fs: FileSystem, dir: Path)
    requires ValidFs(fs)
    ensures Reachable(fs, dir)
  {
    forall d | d in fs && dir <= d ensures OnPath(fs, dir, d) {
      ValidOnPath(fs, dir, d);
    }
  }

  lemma ReachableAgree(fs: FileSystem, fs': FileSystem, dir: Path)
    requires Reachable(fs, dir) && AgreeUnder(fs, fs', dir)
    ensures Reachable(fs', dir)
  {
    forall d | d in fs' && dir <= d ensures OnPath(fs', dir, d) {
      assert Agree(fs, fs', d);
      assert OnPath(fs, dir, d);
      forall q | dir <= q < d ensures IsDir(fs', q) && d[|q|] in fs'[q].names {
        assert Agree(fs, fs', q);
      }
    }
  }

  lemma ReachableChild(fs: FileSystem, dir: Path, n: string)
    requires Reachable(fs, dir)
    ensures Reachable(fs, dir + [n])
  {
    forall d | d in fs && dir + [n] <= d ensures OnPath(fs, dir + [n], d) {
      assert dir <= dir + [n];
      assert OnPath(fs, dir, d);
    }
  }

  /** Rebasing from `dir + [n]` onto `outDir + [n]` is rebasing from `dir` onto `outDir`. */
  lemma RebaseStep(dir: Path, outDir: Path, n: string, p: Path)
    requires dir + [n] <= p
    ensures Rebase(dir + [n], outDir + [n], p) == Rebase(dir, outDir, p)
  {
    assert p[..|dir| + 1] == dir + [n];
    assert p[..|dir|] == dir;
    assert p[|dir|..] == [n] + p[|dir| + 1..];
    assert outDir + [n] + p[|dir| + 1..] == outDir + ([n] + p[|dir| + 1..]);
  }

  /** An unexcluded child inherits its parent's mirrored output tree. */
  lemma MirroredChild(fs: FileSystem, dir: Path, outDir: Path, excludes: seq<Path>, n: string)
    requires Mirrored(fs, dir, outDir, excludes) && dir + [n] !in excludes
    ensures Mirrored(fs, dir + [n], outDir + [n], excludes)
  {
    var child := dir + [n];
    forall d | IsDir(fs, d) && child <= d && Uncut(child, excludes, d)
      ensures IsDir(fs, Rebase(child, outDir + [n], d))
    {
      assert dir <= child;
      forall x | x in excludes && dir < x ensures !(x <= d) {
        if x <= d {
          PrefixesComparable(x, child, d);
          PrefixOfChild(x, dir, n);
        }
      }
      assert Uncut(dir, excludes, d);
      RebaseStep(dir, outDir, n, d);
    }
  }

  /** A mirrored tree stays mirrored while its input subtree stays put and nothing is lost. */
  lemma MirroredGrows(fs: FileSystem, fs': FileSystem, dir: Path, outDir: Path, excludes: seq<Path>)
    requires Mirrored(fs, dir, outDir, excludes) && AgreeUnder(fs, fs', dir) && Grows(fs, fs')
    ensures Mirrored(fs', dir, outDir, excludes)
  {
    forall d | IsDir(fs', d) && dir <= d && Uncut(dir, excludes, d)
      ensures IsDir(fs', Rebase(dir, outDir, d))
    {
      assert Agree(fs, fs', d);
      var o := Rebase(dir, outDir, d);
      assert IsDir(fs, o);
      assert Extends(fs[o], fs'[o]);
    }
  }

  /**
    After a successful walk with literal excludes, every directory of the
    input tree outside the excluded subtrees has its output directory.
  */
  lemma {:induction false} WalkMirrors(fs: FileSystem, glob: Globber, dir: Path, outDir: Path,
                                       globs: seq<Path>, excludes: seq<Path>)
    requires !Related(dir, outDir) && Reachable(fs, dir)
    requires ExpandsTo(fs, glob, dir, outDir, globs, excludes)
    requires Literal(glob, excludes)
    ensures var w := Walk(fs, glob, dir, outDir, globs);
      w.result.Ok? ==> Mirrored(w.fs, dir, outDir, excludes)
    decreases Under(fs, dir), 1
  {
    var w := Walk(fs, glob, dir, outDir, globs);
    if IsDir(fs, dir) && w.result.Ok? {
      WalkUnfold(fs, glob, dir, outDir, globs);
      var fs1 := MkdirAll(fs, outDir, fs[dir].mode).value;
      OnlyAboveFramed(fs, fs1, outDir);
      UnderFramed(fs, fs1, dir, outDir);
      assert CombinedGlob(glob, fs1, globs) == Ok(excludes) && Present(fs1, excludes);
      WalkEntriesMirrors(fs, fs1, glob, dir, outDir, excludes, fs[dir].names);
      UnderFramed(fs, w.fs, dir, outDir);
      assert Extends(fs1[outDir], w.fs[outDir]);
      forall d | IsDir(w.fs, d) && dir <= d && Uncut(dir, excludes, d)
        ensures IsDir(w.fs, Rebase(dir, outDir, d))
      {
        assert Agree(fs, w.fs, d);
        MirroredAt(fs, w.fs, dir, outDir, excludes, d);
      }
    }
  }

  /** One directory of the walked tree: the root's output is made, a deeper one is its child's. */
  lemma MirroredAt(fs: FileSystem, wfs: FileSystem, dir: Path, outDir: Path, excludes: seq<Path>, d: Path)
    requires IsDir(fs, dir) && IsDir(wfs, outDir) && IsDir(fs, d) && dir <= d && Uncut(dir, excludes, d)
    requires OnPath(fs, dir, d) && Agree(fs, wfs, d)
    requires forall n | n in fs[dir].names && dir + [n] !in excludes && IsDir(fs, dir + [n]) ::
      Mirrored(wfs, dir + [n], outDir + [n], excludes)
    ensures IsDir(wfs, Rebase(dir, outDir, d))
  {
    if d == dir {
      assert d[|dir|..] == [];
      assert outDir + [] == outDir;
    } else {
      var n := d[|dir|];
      var child := dir + [n];
      assert child <= d by {
        assert d[..|dir|] == dir;
        assert d[..|dir| + 1] == child;
      }
      assert dir < child && dir < d;
      assert n in fs[dir].names;
      if child != d {
        assert child < d;
      }
      assert IsDir(fs, child);
      assert Mirrored(wfs, child, outDir + [n], excludes);
      assert Uncut(child, excludes, d);
      RebaseStep(dir, outDir, n, d);
    }
  }

  lemma {:induction false} WalkEntriesMirrors(fs0: FileSystem, fs: FileSystem, glob: Globber, dir: Path, outDir: Path,
                                              excludes: seq<Path>, names: seq<string>)
    requires dir in fs0 && AgreeUnder(fs0, fs, dir) && !Related(dir, outDir) && Reachable(fs0, dir)
    requires Literal(glob, excludes) && Present(fs, excludes)
    ensures dir in fs
    ensures var w := WalkEntries(fs, glob, dir, outDir, excludes, EntriesOf(fs0, dir, names));
      w.result.Ok? ==>
        forall n | n in names && dir + [n] !in excludes && IsDir(fs0, dir + [n]) ::
          Mirrored(w.fs, dir + [n], outDir + [n], excludes)
    decreases Under(fs, dir), 0, |names|
  {
    assert Agree(fs0, fs, dir);
    if names != [] {
      var n := names[0];
      var entries := EntriesOf(fs0, dir, names);
      assert entries[1..] == EntriesOf(fs0, dir, names[1..]);
      var child := dir + [n];
      var outChild := outDir + [n];
      AgreeUnderChild(fs0, fs, dir, n);
      assert Agree(fs0, fs, child);
      var w := WalkEntries(fs, glob, dir, outDir, excludes, entries);
      if child in excludes || !IsDir(fs0, child) {
        WalkEntriesMirrors(fs0, fs, glob, dir, outDir, excludes, names[1..]);
      } else {
        UnderShrinks(fs, dir, n);
        ChildUnrelated(dir, outDir, n);
        Redescend(fs, glob, child, outChild, excludes);
        ReachableAgree(fs0, fs, dir);
        ReachableChild(fs, dir, n);
        WalkMirrors(fs, glob, child, outChild, excludes, excludes);
        var sub := Walk(fs, glob, child, outChild, excludes);
        PresentGrows(fs, sub.fs, excludes);
        FramedWiden(fs, sub.fs, outDir, n);
        UnderFramed(fs, sub.fs, dir, outDir);
        AgreeUnderTrans(fs0, fs, sub.fs, dir);
        if sub.result.Ok? {
          WalkEntriesMirrors(fs0, sub.fs, glob, dir, outDir, excludes, names[1..]);
          var rest := WalkEntries(sub.fs, glob, dir, outDir, excludes, entries[1..]);
          if rest.result.Ok? {
            RelatedUnder(dir, outDir, child);
            assert dir <= child;
            UnderFramed(sub.fs, rest.fs, child, outDir);
            MirroredGrows(sub.fs, rest.fs, child, outChild, excludes);
          }
        }
      }
    }
  }

  /**
    Over a mirrored tree with literal excludes, the walk succeeds and
    changes nothing: every output directory it would make is there.
  */
  lemma {:induction false} WalkStill(fs: FileSystem, glob: Globber, dir: Path, outDir: Path,
                                     globs: seq<Path>, excludes: seq<Path>)
    requires !Related(dir, outDir) && IsDir(fs, dir) && Mirrored(fs, dir, outDir, excludes)
    requires ExpandsTo(fs, glob, dir, outDir, globs, excludes)
    requires Literal(glob, excludes)
    ensures Walk(fs, glob, dir, outDir, globs) == Walked(fs, Walk(fs, glob, dir, outDir, globs).result)
    ensures Walk(fs, glob, dir, outDir, globs).result.Ok?
    decreases Under(fs, dir), 1
  {
    assert dir[|dir|..] == [];
    assert Uncut(dir, excludes, dir);
    assert outDir + [] == outDir;
    assert Rebase(dir, outDir, dir) == outDir;
    assert IsDir(fs, outDir);
    WalkUnfold(fs, glob, dir, outDir, globs);
    assert CombinedGlob(glob, fs, globs) == Ok(excludes) && Present(fs, excludes);
    WalkEntriesStill(fs, glob, dir, outDir, excludes, fs[dir].names);
  }

  lemma {:induction false} WalkEntriesStill(fs: FileSystem, glob: Globber, dir: Path, outDir: Path,
                                            excludes: seq<Path>, names: seq<string>)
    requires dir in fs && !Related(dir, outDir) && Mirrored(fs, dir, outDir, excludes)
    requires Literal(glob, excludes) && Present(fs, excludes)
    ensures var w := WalkEntries(fs, glob, dir, outDir, excludes, EntriesOf(fs, dir, names));
      w.fs == fs && w.result.Ok?
    decreases Under(fs, dir), 0, |names|
  {
    if names != [] {
      var n := names[0];
      var entries := EntriesOf(fs, dir, names);
      assert entries[1..] == EntriesOf(fs, dir, names[1..]);
      var child := dir + [n];
      WalkEntriesStill(fs, glob, dir, outDir, excludes, names[1..]);
      if child !in excludes && IsDir(fs, child) {
        UnderShrinks(fs, dir, n);
        ChildUnrelated(dir, outDir, n);
        Redescend(fs, glob, child, outDir + [n], excludes);
        MirroredChild(fs, dir, outDir, excludes, n);
        WalkStill(fs, glob, child, outDir + [n], excludes, excludes);
      }
    }
  }

  /**
    The walk is idempotent: on a tree, with literal excludes, walking again
    over what a successful walk left behind succeeds, changes nothing and
    lists the same pairs, provided the patterns expand to the same excludes
    both times.
  */
  lemma WalkIdempotent(fs: FileSystem, glob: Globber, dir: Path, outDir: Path,
                       globs: seq<Path>, excludes: seq<Path>)
    requires ValidFs(fs) && !Related(dir, outDir)
    requires ExpandsTo(fs, glob, dir, outDir, globs, excludes)
    requires ExpandsTo(Walk(fs, glob, dir, outDir, globs).fs, glob, dir, outDir, globs, excludes)
    requires Literal(glob, excludes)
    ensures var w := Walk(fs, glob, dir, outDir, globs);
      w.result.Ok? ==> Walk(w.fs, glob, dir, outDir, globs) == w
  {
    var w := Walk(fs, glob, dir, outDir, globs);
    if w.result.Ok? {
      ValidReachable(fs, dir);
      WalkMirrors(fs, glob, dir, outDir, globs, excludes);
      WalkLists(fs, glob, dir, outDir, globs, excludes);
      UnderFramed(fs, w.fs, dir, outDir);
      assert Agree(fs, w.fs, dir);
      WalkStill(w.fs, glob, dir, outDir, globs, excludes);
      WalkLists(w.fs, glob, dir, outDir, globs, excludes);
      FilesAgree(fs, w.fs, dir, excludes);
    }
  }

  /**
    Exclude patterns that are literal paths of the tree give an idempotent
    walk: they expand to themselves on the first walk and on the second.
  */
  lemma WalkIdempotentLiteral(fs: FileSystem, glob: Globber, dir: Path, outDir: Path, excludes: seq<Path>)
    requires ValidFs(fs) && !Related(dir, outDir)
    requires Literal(glob, excludes) && Present(fs, excludes)
    ensures var w := Walk(fs, glob, dir, outDir, excludes);
      w.result.Ok? ==> Walk(w.fs, glob, dir, outDir, excludes) == w
  {
    var w := Walk(fs, glob, dir, outDir, excludes);
    Redescend(fs, glob, dir, outDir, excludes);
    PresentGrows(fs, w.fs, excludes);
    Redescend(w.fs, glob, dir, outDir, excludes);
    WalkIdempotent(fs, glob, dir, outDir, excludes, excludes);
  }
}
