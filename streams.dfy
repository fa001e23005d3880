/** Properties of `openOutFile`: what it creates or truncates, and that nothing else changes. */
module StreamProofs {
  import opened Wrappers
  import opened Fs
  import opened Templates

  /** `q` is the directory that lists `p`. */
  predicate IsParentOf(q: Path, p: Path)
  {
    p != [] && q == Parent(p)
  }

  /**
    Opening "-" touches nothing; a failed open touches nothing; a successful
    open leaves `p` an empty file (its mode kept when it existed, 0644 when
    created), adds `p` to its parent's listing when it is new, and leaves
    every other node as it was.
  */
  lemma OpenForWriteEffect(fs: FileSystem, p: Path)
    ensures p == Dash ==> OpenForWrite(fs, p) == Opened(fs, Ok(Stdout))
    ensures OpenForWrite(fs, p).result.Err? ==> OpenForWrite(fs, p).fs == fs
    ensures p != Dash ==>
      (OpenForWrite(fs, p).result.Ok? <==> IsFile(fs, p) || (p !in fs && p != [] && IsDir(fs, Parent(p))))
    ensures var o := OpenForWrite(fs, p);
      p != Dash && o.result.Ok? ==>
        && o.result.value == FileWriter(p)
        && o.fs.Keys == fs.Keys + {p}
        && o.fs[p] == File(if p in fs then fs[p].mode else CreateMode, "")
        && (forall q | q in fs && q != p && !(p !in fs && IsParentOf(q, p)) :: o.fs[q] == fs[q])
        && (p !in fs ==> o.fs[Parent(p)] == fs[Parent(p)].(names := fs[Parent(p)].names + [Last(p)]))
  {
    if p != Dash && p !in fs && p != [] && IsDir(fs, Parent(p)) {
      AddChildShape(fs, p, File(CreateMode, ""));
    }
  }

  /** Opening an output keeps the filesystem a tree. */
  lemma OpenForWriteKeepsValid(fs: FileSystem, p: Path)
    requires ValidFs(fs)
    ensures ValidFs(OpenForWrite(fs, p).fs)
  {
    if p != Dash {
      if IsFile(fs, p) {
        TruncateKeepsValid(fs, p);
      } else if p !in fs && p != [] && IsDir(fs, Parent(p)) {
        AddChildKeepsValid(fs, p, File(CreateMode, ""));
      }
    }
  }

  lemma TruncateKeepsValid(fs: FileSystem, p: Path)
    requires ValidFs(fs) && IsFile(fs, p)
    ensures ValidFs(fs[p := File(fs[p].mode, "")])
  {
    var fs2 := fs[p := File(fs[p].mode, "")];
    assert SameDirs(fs, fs2);
    SameDirsKeepListed(fs, fs2);
    SameDirsKeepChildren(fs, fs2);
  }

  /** Replacing files by files, with the same paths and directories, keeps the tree. */
  ghost predicate SameDirs(fs: FileSystem, fs2: FileSystem)
  {
    && fs2.Keys == fs.Keys
    && forall q | q in fs :: fs[q].Dir? == fs2[q].Dir? && (fs[q].Dir? ==> fs2[q] == fs[q])
  }

  lemma SameDirsKeepListed(fs: FileSystem, fs2: FileSystem)
    requires SameDirs(fs, fs2) && forall q | q in fs && q != [] :: ListedByParent(fs, q)
    ensures forall q | q in fs2 && q != [] :: ListedByParent(fs2, q)
  {
    forall q | q in fs2 && q != [] ensures ListedByParent(fs2, q) {
      assert ListedByParent(fs, q);
      assert Parent(q) in fs;
    }
  }

  lemma SameDirsKeepChildren(fs: FileSystem, fs2: FileSystem)
    requires SameDirs(fs, fs2) && forall q | IsDir(fs, q) :: ChildrenExist(fs, q)
    ensures forall q | IsDir(fs2, q) :: ChildrenExist(fs2, q)
  {
    forall q | IsDir(fs2, q) ensures ChildrenExist(fs2, q) {
      assert ChildrenExist(fs, q);
    }
  }
}
