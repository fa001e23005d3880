/**
  What the directory walk lists: exactly the reference listing of the input
  tree, each input path paired with the same path rebased onto the output
  directory.
*/
module WalkListing {
  import opened Wrappers
  import opened Fs
  import opened Templates
  import opened Listing
  import opened WalkProofs

  /** Every path of `ps` exists in `fs`. */
  ghost predicate Present(fs: FileSystem, ps: seq<Path>)
  {
    forall p | p in ps :: p in fs
  }

  /**
    Every exclude is a literal path: expanded as a pattern in a state of the
    filesystem that holds it, it yields just itself, as `afero.Glob` does for
    a name without pattern characters.  The walk hands its expanded excludes
    down as the next level's patterns, so this is what makes every level
    below the first exclude the same paths.
  */
  ghost predicate Literal(glob: Globber, excludes: seq<Path>)
  {
    forall fs: FileSystem, p | p in excludes && p in fs :: glob(fs, p) == Ok([p])
  }

  /**
    Where the walk of `dir` expands its patterns, once `outDir` is made, they
    give `excludes`, and every one of these exists there.  When the walk
    fails before that point there is nothing to say.
  */
  ghost predicate ExpandsTo(fs: FileSystem, glob: Globber, dir: Path, outDir: Path,
                            globs: seq<Path>, excludes: seq<Path>)
  {
    (IsDir(fs, dir) && MkdirAll(fs, outDir, fs[dir].mode).Ok?) ==>
      var fs1 := MkdirAll(fs, outDir, fs[dir].mode).value;
      CombinedGlob(glob, fs1, globs) == Ok(excludes) && Present(fs1, excludes)
  }

  /** How `afero.Glob` expands a name without pattern characters: to itself when it exists, else to nothing. */
  function ExactGlob(fs: FileSystem, p: Path): Result<seq<Path>, Error>
  {
    if p in fs then Ok([p]) else Ok([])
  }

  /** The output path for `p` below `dir`: the same segments below `outDir`. */
  function Rebase(dir: Path, outDir: Path, p: Path): Path
  {
    if dir <= p then outDir + p[|dir|..] else p
  }

  function RebaseAll(dir: Path, outDir: Path, ps: seq<Path>): seq<Path>
  {
    seq(|ps|, i requires 0 <= i < |ps| => Rebase(dir, outDir, ps[i]))
  }

  lemma {:induction false} CombinedGlobLiteral(glob: Globber, fs: FileSystem, ps: seq<Path>)
    requires forall p | p in ps :: glob(fs, p) == Ok([p])
    ensures CombinedGlob(glob, fs, ps) == Ok(ps)
    decreases |ps|
  {
    if ps != [] {
      CombinedGlobLiteral(glob, fs, ps[1..]);
      assert [ps[0]] + ps[1..] == ps;
    }
  }

  /** Literal excludes, expanded again in a state that holds them, are the same excludes. */
  lemma LiteralExpands(glob: Globber, fs: FileSystem, excludes: seq<Path>)
    requires Literal(glob, excludes) && Present(fs, excludes)
    ensures CombinedGlob(glob, fs, excludes) == Ok(excludes)
  {
    CombinedGlobLiteral(glob, fs, excludes);
  }

  lemma PresentGrows(fs: FileSystem, fs': FileSystem, ps: seq<Path>)
    requires Present(fs, ps) && Grows(fs, fs')
    ensures Present(fs', ps)
  {
  }

  /**
    A sub-walk that is handed literal excludes, all of which exist, expands
    them to themselves.
  */
  lemma Redescend(fs: FileSystem, glob: Globber, dir: Path, outDir: Path, excludes: seq<Path>)
    requires Literal(glob, excludes) && Present(fs, excludes)
    ensures ExpandsTo(fs, glob, dir, outDir, excludes, excludes)
  {
    if IsDir(fs, dir) && MkdirAll(fs, outDir, fs[dir].mode).Ok? {
      var fs1 := MkdirAll(fs, outDir, fs[dir].mode).value;
      PresentGrows(fs, fs1, excludes);
      LiteralExpands(glob, fs1, excludes);
    }
  }

  /**
    Patterns that name existing paths, expanded the way `afero.Glob` expands
    a name without pattern characters, meet the hypotheses of the listing
    lemmas below, whatever paths they name.
  */
  lemma ExactExcludes(fs: FileSystem, dir: Path, outDir: Path, excludes: seq<Path>)
    requires Present(fs, excludes)
    ensures Literal(ExactGlob, excludes)
    ensures ExpandsTo(fs, ExactGlob, dir, outDir, excludes, excludes)
  {
    Redescend(fs, ExactGlob, dir, outDir, excludes);
  }

  lemma RebaseConcat(dir: Path, outDir: Path, a: seq<Path>, b: seq<Path>)
    ensures RebaseAll(dir, outDir, a + b) == RebaseAll(dir, outDir, a) + RebaseAll(dir, outDir, b)
  {
  }

  /** Rebasing from a child directory onto the matching output child is rebasing from the parent. */
  lemma RebaseChild(dir: Path, outDir: Path, n: string, ps: seq<Path>)
    requires forall p | p in ps :: dir + [n] < p
    ensures RebaseAll(dir + [n], outDir + [n], ps) == RebaseAll(dir, outDir, ps)
  {
    forall i | 0 <= i < |ps|
      ensures Rebase(dir + [n], outDir + [n], ps[i]) == Rebase(dir, outDir, ps[i])
    {
      var p := ps[i];
      assert p in ps;
      assert p[..|dir| + 1] == dir + [n];
      assert p[..|dir|] == dir;
      assert p[|dir|..] == [n] + p[|dir| + 1..];
      assert outDir + [n] + p[|dir| + 1..] == outDir + ([n] + p[|dir| + 1..]);
    }
  }

  /**
    When the first-level patterns expand to `excludes` where the walk expands
    them, and `excludes` are literal paths, a successful walk lists
    the input files of the tree at `dir` in listing order, skipping the
    excluded subtrees, and pairs each with its path below `outDir`.
  */
  lemma {:induction false} WalkLists(fs: FileSystem, glob: Globber, dir: Path, outDir: Path,
                                     globs: seq<Path>, excludes: seq<Path>)
    requires !Related(dir, outDir)
    requires ExpandsTo(fs, glob, dir, outDir, globs, excludes)
    requires Literal(glob, excludes)
    ensures var w := Walk(fs, glob, dir, outDir, globs);
      w.result.Ok? ==>
        && IsDir(fs, dir)
        && w.result.value.inFiles == Files(fs, dir, excludes)
        && w.result.value.outFiles == RebaseAll(dir, outDir, Files(fs, dir, excludes))
    decreases Under(fs, dir), 1
  {
    if IsDir(fs, dir) {
      WalkUnfold(fs, glob, dir, outDir, globs);
      var m := MkdirAll(fs, outDir, fs[dir].mode);
      if m.Ok? {
        var fs1 := m.value;
        OnlyAboveFramed(fs, fs1, outDir);
        UnderFramed(fs, fs1, dir, outDir);
        assert CombinedGlob(glob, fs1, globs) == Ok(excludes) && Present(fs1, excludes);
        WalkEntriesLists(fs, fs1, glob, dir, outDir, excludes, fs[dir].names);
      }
    }
  }

  lemma {:induction false} WalkEntriesLists(fs0: FileSystem, fs: FileSystem, glob: Globber, dir: Path, outDir: Path,
                                            excludes: seq<Path>, names: seq<string>)
    requires dir in fs0 && AgreeUnder(fs0, fs, dir) && !Related(dir, outDir)
    requires Literal(glob, excludes) && Present(fs, excludes)
    ensures dir in fs
    ensures var w := WalkEntries(fs, glob, dir, outDir, excludes, EntriesOf(fs0, dir, names));
      w.result.Ok? ==>
        && w.result.value.inFiles == FilesOf(fs0, dir, excludes, names)
        && w.result.value.outFiles == RebaseAll(dir, outDir, FilesOf(fs0, dir, excludes, names))
    decreases Under(fs, dir), 0, |names|
  {
    assert Agree(fs0, fs, dir);
    if names != [] {
      var n := names[0];
      var entries := EntriesOf(fs0, dir, names);
      assert entries[1..] == EntriesOf(fs0, dir, names[1..]);
      var child := dir + [n];
      var outChild := outDir + [n];
      AgreeUnderChild(fs0, fs, dir, n);
      assert Agree(fs0, fs, child);
      var rest := FilesOf(fs0, dir, excludes, names[1..]);
      if child in excludes {
        WalkEntriesLists(fs0, fs, glob, dir, outDir, excludes, names[1..]);
      } else if IsDir(fs0, child) {
        UnderShrinks(fs, dir, n);
        UnderShrinks(fs0, dir, n);
        ChildUnrelated(dir, outDir, n);
        Redescend(fs, glob, child, outChild, excludes);
        WalkLists(fs, glob, child, outChild, excludes, excludes);
        var sub := Walk(fs, glob, child, outChild, excludes);
        PresentGrows(fs, sub.fs, excludes);
        FilesAgree(fs0, fs, child, excludes);
        FramedWiden(fs, sub.fs, outDir, n);
        UnderFramed(fs, sub.fs, dir, outDir);
        AgreeUnderTrans(fs0, fs, sub.fs, dir);
        if sub.result.Ok? {
          WalkEntriesLists(fs0, sub.fs, glob, dir, outDir, excludes, names[1..]);
          var head := Files(fs0, child, excludes);
          FilesShape(fs0, child, excludes);
          RebaseChild(dir, outDir, n, head);
          RebaseConcat(dir, outDir, head, rest);
        }
      } else {
        WalkEntriesLists(fs0, fs, glob, dir, outDir, excludes, names[1..]);
        assert child[|dir|..] == [n];
        RebaseConcat(dir, outDir, [child], rest);
      }
    }
  }

  /**
    With no exclude patterns, a successful walk of a well-formed tree lists
    every file below `dir` exactly once and nothing else.
  */
  lemma WalkListsTree(fs: FileSystem, glob: Globber, dir: Path, outDir: Path)
    requires ValidFs(fs) && !Related(dir, outDir)
    ensures var w := Walk(fs, glob, dir, outDir, []);
      w.result.Ok? ==>
        && (set p | p in w.result.value.inFiles) == FilesUnder(fs, dir)
        && NoDup(w.result.value.inFiles)
        && |w.result.value.inFiles| == |FilesUnder(fs, dir)|
        && w.result.value.outFiles == RebaseAll(dir, outDir, w.result.value.inFiles)
  {
    WalkLists(fs, glob, dir, outDir, [], []);
    var w := Walk(fs, glob, dir, outDir, []);
    if w.result.Ok? {
      FilesOfTree(fs, dir);
    }
  }

  /**
    Whatever the globs do, a successful walk pairs every listed input path,
    which lies strictly below `dir`, with the same path rebased onto `outDir`.
  */
  lemma {:induction false} WalkPairs(fs: FileSystem, glob: Globber, dir: Path, outDir: Path, globs: seq<Path>)
    requires !Related(dir, outDir)
    ensures var w := Walk(fs, glob, dir, outDir, globs);
      w.result.Ok? ==>
        && (forall p | p in w.result.value.inFiles :: dir < p)
        && w.result.value.outFiles == RebaseAll(dir, outDir, w.result.value.inFiles)
    decreases Under(fs, dir), 1
  {
    if IsDir(fs, dir) {
      WalkUnfold(fs, glob, dir, outDir, globs);
      var m := MkdirAll(fs, outDir, fs[dir].mode);
      if m.Ok? {
        var g := CombinedGlob(glob, m.value, globs);
        if g.Ok? {
          WalkEntriesPairs(m.value, glob, dir, outDir, g.value, EntriesOf(fs, dir, fs[dir].names));
        }
      }
    }
  }

  lemma {:induction false} WalkEntriesPairs(fs: FileSystem, glob: Globber, dir: Path, outDir: Path,
                                            excludes: seq<Path>, entries: seq<Entry>)
    requires dir in fs && !Related(dir, outDir)
    ensures var w := WalkEntries(fs, glob, dir, outDir, excludes, entries);
      w.result.Ok? ==>
        && (forall p | p in w.result.value.inFiles :: dir < p)
        && w.result.value.outFiles == RebaseAll(dir, outDir, w.result.value.inFiles)
    decreases Under(fs, dir), 0, |entries|
  {
    if entries != [] {
      var n := entries[0].name;
      var child := dir + [n];
      if child in excludes {
        WalkEntriesPairs(fs, glob, dir, outDir, excludes, entries[1..]);
      } else if entries[0].isDir {
        UnderShrinks(fs, dir, n);
        WalkEntriesSubdir(fs, glob, dir, outDir, excludes, entries);
        WalkPairs(fs, glob, child, outDir + [n], excludes);
        var sub := Walk(fs, glob, child, outDir + [n], excludes);
        if sub.result.Ok? {
          WalkEntriesPairs(sub.fs, glob, dir, outDir, excludes, entries[1..]);
          var rest := WalkEntries(sub.fs, glob, dir, outDir, excludes, entries[1..]);
          if rest.result.Ok? {
            var ins := sub.result.value.inFiles;
            RebaseChild(dir, outDir, n, ins);
            RebaseConcat(dir, outDir, ins, rest.result.value.inFiles);
            forall p | p in ins ensures dir < p {
              assert dir <= child;
            }
          }
        }
      } else {
        WalkEntriesPairs(fs, glob, dir, outDir, excludes, entries[1..]);
        var rest := WalkEntries(fs, glob, dir, outDir, excludes, entries[1..]);
        if rest.result.Ok? {
          assert child[|dir|..] == [n];
          RebaseConcat(dir, outDir, [child], rest.result.value.inFiles);
        }
      }
    }
  }

  /**
    A successful walk with literal excludes lists each file of the tree once,
    leaves out every excluded path with its whole subtree, and lists no
    directory.
  */
  lemma WalkExcludes(fs: FileSystem, glob: Globber, dir: Path, outDir: Path, globs: seq<Path>, excludes: seq<Path>)
    requires ValidFs(fs) && !Related(dir, outDir)
    requires ExpandsTo(fs, glob, dir, outDir, globs, excludes)
    requires Literal(glob, excludes)
    ensures var w := Walk(fs, glob, dir, outDir, globs);
      w.result.Ok? ==>
        && (set p | p in w.result.value.inFiles) == Kept(fs, dir, excludes)
        && NoDup(w.result.value.inFiles)
        && forall p | p in w.result.value.inFiles :: p !in excludes && IsFile(fs, p)
  {
    WalkLists(fs, glob, dir, outDir, globs, excludes);
    if Walk(fs, glob, dir, outDir, globs).result.Ok? {
      FilesExcluded(fs, dir, excludes);
    }
  }
}
