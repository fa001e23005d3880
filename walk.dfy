/** Properties of the directory walk (`walkDir`) and of the exclude expansion. */
module WalkProofs {
  import opened Wrappers
  import opened Fs
  import opened Templates

  /** The walk keeps the filesystem a tree. */
  lemma {:induction false} WalkKeepsValid(fs: FileSystem, glob: Globber, dir: Path, outDir: Path, globs: seq<Path>)
    requires ValidFs(fs) && !Related(dir, outDir)
    ensures ValidFs(Walk(fs, glob, dir, outDir, globs).fs)
    decreases Under(fs, dir), 1
  {
    if IsDir(fs, dir) {
      MkdirAllKeepsValid(fs, outDir, fs[dir].mode);
      var m := MkdirAll(fs, outDir, fs[dir].mode);
      if m.Ok? {
        var fs1 := m.value;
        OnlyAboveFramed(fs, fs1, outDir);
        UnderFramed(fs, fs1, dir, outDir);
        assert Agree(fs, fs1, dir);
        var g := CombinedGlob(glob, fs1, globs);
        if g.Ok? {
          WalkEntriesKeepsValid(fs1, glob, dir, outDir, g.value, EntriesOf(fs, dir, fs[dir].names));
        }
      }
    }
  }

  lemma {:induction false} WalkEntriesKeepsValid(fs: FileSystem, glob: Globber, dir: Path, outDir: Path,
                                                 excludes: seq<Path>, entries: seq<Entry>)
    requires ValidFs(fs) && dir in fs && !Related(dir, outDir)
    ensures ValidFs(WalkEntries(fs, glob, dir, outDir, excludes, entries).fs)
    decreases Under(fs, dir), 0, |entries|
  {
    if entries != [] {
      var name := entries[0].name;
      if dir + [name] in excludes {
        WalkEntriesKeepsValid(fs, glob, dir, outDir, excludes, entries[1..]);
      } else if entries[0].isDir {
        UnderShrinks(fs, dir, name);
        ChildUnrelated(dir, outDir, name);
        WalkKeepsValid(fs, glob, dir + [name], outDir + [name], excludes);
        var sub := Walk(fs, glob, dir + [name], outDir + [name], excludes);
        if sub.result.Ok? {
          FramedWiden(fs, sub.fs, outDir, name);
          UnderFramed(fs, sub.fs, dir, outDir);
          assert Agree(fs, sub.fs, dir);
          WalkEntriesKeepsValid(sub.fs, glob, dir, outDir, excludes, entries[1..]);
        }
      } else {
        WalkEntriesKeepsValid(fs, glob, dir, outDir, excludes, entries[1..]);
      }
    }
  }

  // One step of the walk, as the imperative loop takes it.

  /** With `dir` a directory, `outDir` made and the globs expanded, the walk is the loop over the listing. */
  lemma WalkUnfold(fs: FileSystem, glob: Globber, dir: Path, outDir: Path, globs: seq<Path>)
    requires !Related(dir, outDir) && IsDir(fs, dir)
    ensures var m := MkdirAll(fs, outDir, fs[dir].mode);
      && (m.Err? ==> Walk(fs, glob, dir, outDir, globs) == Walked(fs, Err(m.error)))
      && (m.Ok? ==> dir in m.value && Under(m.value, dir) == Under(fs, dir))
      && (m.Ok? && CombinedGlob(glob, m.value, globs).Err? ==>
            Walk(fs, glob, dir, outDir, globs) == Walked(m.value, Err(CombinedGlob(glob, m.value, globs).error)))
      && (m.Ok? && CombinedGlob(glob, m.value, globs).Ok? ==>
            Walk(fs, glob, dir, outDir, globs)
            == WalkEntries(m.value, glob, dir, outDir, CombinedGlob(glob, m.value, globs).value,
                           EntriesOf(fs, dir, fs[dir].names)))
  {
    var m := MkdirAll(fs, outDir, fs[dir].mode);
    if m.Ok? {
      OnlyAboveFramed(fs, m.value, outDir);
      UnderFramed(fs, m.value, dir, outDir);
      assert Agree(fs, m.value, dir);
    }
  }

  lemma PrependAssoc(a: Lists, b: Lists, w: Walked)
    ensures Prepend(a, Prepend(b, w)) == Prepend(Lists(a.inFiles + b.inFiles, a.outFiles + b.outFiles), w)
  {
    if w.result.Ok? {
      var l := w.result.value;
      assert a.inFiles + (b.inFiles + l.inFiles) == (a.inFiles + b.inFiles) + l.inFiles;
      assert a.outFiles + (b.outFiles + l.outFiles) == (a.outFiles + b.outFiles) + l.outFiles;
    }
  }

  /** An excluded entry is skipped; a file entry contributes its own pair. */
  lemma WalkEntriesHead(fs: FileSystem, glob: Globber, dir: Path, outDir: Path, excludes: seq<Path>, entries: seq<Entry>)
    requires dir in fs && !Related(dir, outDir) && entries != [] && !entries[0].isDir
    ensures var name := entries[0].name;
      WalkEntries(fs, glob, dir, outDir, excludes, entries)
      == if dir + [name] in excludes then WalkEntries(fs, glob, dir, outDir, excludes, entries[1..])
         else Prepend(Lists([dir + [name]], [outDir + [name]]), WalkEntries(fs, glob, dir, outDir, excludes, entries[1..]))
  {
  }

  /** A directory entry contributes its whole sub-walk, or ends the loop with its error. */
  lemma WalkEntriesSubdir(fs: FileSystem, glob: Globber, dir: Path, outDir: Path, excludes: seq<Path>, entries: seq<Entry>)
    requires dir in fs && !Related(dir, outDir) && entries != [] && entries[0].isDir
    requires dir + [entries[0].name] !in excludes
    ensures !Related(dir + [entries[0].name], outDir + [entries[0].name])
    ensures var name := entries[0].name;
      var sub := Walk(fs, glob, dir + [name], outDir + [name], excludes);
      && dir in sub.fs && Under(sub.fs, dir) == Under(fs, dir)
      && (sub.result.Err? ==> WalkEntries(fs, glob, dir, outDir, excludes, entries) == sub)
      && (sub.result.Ok? ==>
            WalkEntries(fs, glob, dir, outDir, excludes, entries)
            == Prepend(sub.result.value, WalkEntries(sub.fs, glob, dir, outDir, excludes, entries[1..])))
  {
    var name := entries[0].name;
    ChildUnrelated(dir, outDir, name);
    var sub := Walk(fs, glob, dir + [name], outDir + [name], excludes);
    FramedWiden(fs, sub.fs, outDir, name);
    UnderFramed(fs, sub.fs, dir, outDir);
    assert Agree(fs, sub.fs, dir);
  }

  /**
    The loop invariant of the imperative walk: what is accumulated so far,
    followed by the walk of the remaining entries, is the walk of them all.
  */
  ghost predicate LoopInv(fs1: FileSystem, fs: FileSystem, glob: Globber, dir: Path, outDir: Path,
                          excludes: seq<Path>, entries: seq<Entry>, i: nat, acc: Lists)
  {
    && i <= |entries| && dir in fs1 && dir in fs && !Related(dir, outDir)
    && WalkEntries(fs1, glob, dir, outDir, excludes, entries)
       == Prepend(acc, WalkEntries(fs, glob, dir, outDir, excludes, entries[i..]))
  }

  lemma LoopStart(fs1: FileSystem, glob: Globber, dir: Path, outDir: Path, excludes: seq<Path>, entries: seq<Entry>)
    requires dir in fs1 && !Related(dir, outDir)
    ensures LoopInv(fs1, fs1, glob, dir, outDir, excludes, entries, 0, Lists([], []))
  {
    assert entries[0..] == entries;
    var w := WalkEntries(fs1, glob, dir, outDir, excludes, entries);
    if w.result.Ok? {
      assert [] + w.result.value.inFiles == w.result.value.inFiles;
      assert [] + w.result.value.outFiles == w.result.value.outFiles;
    }
  }

  lemma LoopEnd(fs1: FileSystem, fs: FileSystem, glob: Globber, dir: Path, outDir: Path,
                excludes: seq<Path>, entries: seq<Entry>, acc: Lists)
    requires LoopInv(fs1, fs, glob, dir, outDir, excludes, entries, |entries|, acc)
    ensures WalkEntries(fs1, glob, dir, outDir, excludes, entries) == Walked(fs, Ok(acc))
  {
    assert entries[|entries|..] == [];
    assert acc.inFiles + [] == acc.inFiles && acc.outFiles + [] == acc.outFiles;
  }

  /** An excluded entry, or a plain file, moves the loop on without touching the filesystem. */
  lemma LoopFlat(fs1: FileSystem, fs: FileSystem, glob: Globber, dir: Path, outDir: Path,
                 excludes: seq<Path>, entries: seq<Entry>, i: nat, acc: Lists)
    requires LoopInv(fs1, fs, glob, dir, outDir, excludes, entries, i, acc) && i < |entries|
    requires dir + [entries[i].name] in excludes || !entries[i].isDir
    ensures var name := entries[i].name;
      LoopInv(fs1, fs, glob, dir, outDir, excludes, entries, i + 1,
              if dir + [name] in excludes then acc
              else Lists(acc.inFiles + [dir + [name]], acc.outFiles + [outDir + [name]]))
  {
    var rest := entries[i..];
    assert rest[0] == entries[i] && rest[1..] == entries[i + 1..];
    var name := entries[i].name;
    if dir + [name] !in excludes {
      PrependAssoc(acc, Lists([dir + [name]], [outDir + [name]]),
                   WalkEntries(fs, glob, dir, outDir, excludes, entries[i + 1..]));
    }
  }

  /** A directory entry: its sub-walk either ends the loop with an error or is spliced in. */
  lemma LoopSubdir(fs1: FileSystem, fs: FileSystem, glob: Globber, dir: Path, outDir: Path,
                   excludes: seq<Path>, entries: seq<Entry>, i: nat, acc: Lists, sub: Walked)
    requires LoopInv(fs1, fs, glob, dir, outDir, excludes, entries, i, acc) && i < |entries|
    requires dir + [entries[i].name] !in excludes && entries[i].isDir
    requires !Related(dir + [entries[i].name], outDir + [entries[i].name])
    requires sub == Walk(fs, glob, dir + [entries[i].name], outDir + [entries[i].name], excludes)
    ensures Under(sub.fs, dir) == Under(fs, dir)
    ensures sub.result.Err? ==> WalkEntries(fs1, glob, dir, outDir, excludes, entries) == sub
    ensures sub.result.Ok? ==>
      LoopInv(fs1, sub.fs, glob, dir, outDir, excludes, entries, i + 1,
              Lists(acc.inFiles + sub.result.value.inFiles, acc.outFiles + sub.result.value.outFiles))
  {
    var rest := entries[i..];
    assert rest[0] == entries[i] && rest[1..] == entries[i + 1..];
    WalkEntriesSubdir(fs, glob, dir, outDir, excludes, rest);
    if sub.result.Ok? {
      PrependAssoc(acc, sub.result.value, WalkEntries(sub.fs, glob, dir, outDir, excludes, entries[i + 1..]));
    }
  }

  // How the walk fails, and what it leaves behind.

  /**
    The walk fails without touching the filesystem when `dir` is not a
    directory or when the output directory cannot be made, which on a tree
    is exactly when a file lies on the way to it; once the output directory
    is made it stays, whatever fails later.
  */
  lemma WalkOutcome(fs: FileSystem, glob: Globber, dir: Path, outDir: Path, globs: seq<Path>)
    requires ValidFs(fs) && !Related(dir, outDir)
    ensures var w := Walk(fs, glob, dir, outDir, globs);
      && (dir !in fs ==> w == Walked(fs, Err(NotExist(dir))))
      && (IsFile(fs, dir) ==> w == Walked(fs, Err(NotADirectory(dir))))
      && (IsDir(fs, dir) && (exists q :: q <= outDir && IsFile(fs, q)) ==>
            w.fs == fs && w.result.Err? && w.result.error.NotADirectory?)
      && (IsDir(fs, dir) && (forall q | q <= outDir :: !IsFile(fs, q)) ==> IsDir(w.fs, outDir))
      && (IsDir(fs, dir) && fs[dir].names == [] && w.result.Ok? ==> w.result.value == Lists([], []))
  {
    if IsDir(fs, dir) {
      var m := MkdirAll(fs, outDir, fs[dir].mode);
      MkdirAllFails(fs, outDir, fs[dir].mode);
      MkdirAllError(fs, outDir, fs[dir].mode);
      WalkUnfold(fs, glob, dir, outDir, globs);
      if m.Ok? {
        var fs1 := m.value;
        var g := CombinedGlob(glob, fs1, globs);
        if g.Ok? {
          var w := WalkEntries(fs1, glob, dir, outDir, g.value, EntriesOf(fs, dir, fs[dir].names));
          assert Extends(fs1[outDir], w.fs[outDir]);
        }
      }
    }
  }

  /** `MkdirAll` reports a file in the way as "not a directory". */
  lemma {:induction false} MkdirAllError(fs: FileSystem, p: Path, mode: Mode)
    ensures MkdirAll(fs, p, mode).Err? ==> MkdirAll(fs, p, mode).error.NotADirectory?
    decreases |p|
  {
    if p !in fs && p != [] {
      MkdirAllError(fs, Parent(p), mode);
    }
  }

  /**
    Every output path a successful walk lists has its parent directory in
    place afterwards: the walk makes the whole output tree it names.
  */
  lemma {:induction false} WalkOutDirs(fs: FileSystem, glob: Globber, dir: Path, outDir: Path, globs: seq<Path>)
    requires !Related(dir, outDir)
    ensures var w := Walk(fs, glob, dir, outDir, globs);
      w.result.Ok? ==> forall o | o in w.result.value.outFiles :: o != [] && IsDir(w.fs, Parent(o))
    decreases Under(fs, dir), 1
  {
    if IsDir(fs, dir) {
      WalkUnfold(fs, glob, dir, outDir, globs);
      var m := MkdirAll(fs, outDir, fs[dir].mode);
      if m.Ok? {
        var g := CombinedGlob(glob, m.value, globs);
        if g.Ok? {
          WalkEntriesOutDirs(m.value, glob, dir, outDir, g.value, EntriesOf(fs, dir, fs[dir].names));
        }
      }
    }
  }

  lemma {:induction false} WalkEntriesOutDirs(fs: FileSystem, glob: Globber, dir: Path, outDir: Path,
                                              excludes: seq<Path>, entries: seq<Entry>)
    requires dir in fs && !Related(dir, outDir) && IsDir(fs, outDir)
    ensures var w := WalkEntries(fs, glob, dir, outDir, excludes, entries);
      w.result.Ok? ==> forall o | o in w.result.value.outFiles :: o != [] && IsDir(w.fs, Parent(o))
    decreases Under(fs, dir), 0, |entries|
  {
    if entries != [] {
      var name := entries[0].name;
      var w := WalkEntries(fs, glob, dir, outDir, excludes, entries);
      if dir + [name] in excludes {
        WalkEntriesOutDirs(fs, glob, dir, outDir, excludes, entries[1..]);
      } else if entries[0].isDir {
        UnderShrinks(fs, dir, name);
        WalkEntriesSubdir(fs, glob, dir, outDir, excludes, entries);
        WalkOutDirs(fs, glob, dir + [name], outDir + [name], excludes);
        var sub := Walk(fs, glob, dir + [name], outDir + [name], excludes);
        if sub.result.Ok? {
          assert Extends(fs[outDir], sub.fs[outDir]);
          WalkEntriesOutDirs(sub.fs, glob, dir, outDir, excludes, entries[1..]);
          var rest := WalkEntries(sub.fs, glob, dir, outDir, excludes, entries[1..]);
          if rest.result.Ok? {
            forall o | o in sub.result.value.outFiles ensures o != [] && IsDir(rest.fs, Parent(o)) {
              assert Extends(sub.fs[Parent(o)], rest.fs[Parent(o)]);
            }
          }
        }
      } else {
        WalkEntriesOutDirs(fs, glob, dir, outDir, excludes, entries[1..]);
        var rest := WalkEntries(fs, glob, dir, outDir, excludes, entries[1..]);
        assert Parent(outDir + [name]) == outDir;
        assert Extends(fs[outDir], rest.fs[outDir]);
      }
    }
  }
}
