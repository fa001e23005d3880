/**
  A reference definition of what the directory walk lists: the files of a
  tree in depth-first listing order, skipping every entry whose path is
  excluded together with everything below it.  It creates nothing and
  expands no globs; the walk is proved to list exactly this.
*/
module Listing {
  import opened Fs

  ghost function Files(fs: FileSystem, dir: Path, excludes: seq<Path>): seq<Path>
    requires dir in fs
    decreases Under(fs, dir), 1
  {
    if fs[dir].File? then [] else FilesOf(fs, dir, excludes, fs[dir].names)
  }

  /** The files below the entries `names` of `dir`, one entry after the other. */
  ghost function FilesOf(fs: FileSystem, dir: Path, excludes: seq<Path>, names: seq<string>): seq<Path>
    requires dir in fs
    decreases Under(fs, dir), 0, |names|
  {
    if names == [] then []
    else
      var child := dir + [names[0]];
      UnderShrinks(fs, dir, names[0]);
      (if child in excludes then []
       else if IsDir(fs, child) then Files(fs, child, excludes)
       else [child])
      + FilesOf(fs, dir, excludes, names[1..])
  }

  /** Every file strictly below `dir`. */
  ghost function FilesUnder(fs: FileSystem, dir: Path): set<Path>
  {
    set p | p in fs && dir < p && fs[p].File?
  }

  /** The listing depends on the subtree at `dir` alone. */
  lemma {:induction false} FilesAgree(fs: FileSystem, fs': FileSystem, dir: Path, excludes: seq<Path>)
    requires dir in fs && AgreeUnder(fs, fs', dir)
    ensures dir in fs' && Files(fs', dir, excludes) == Files(fs, dir, excludes)
    decreases Under(fs, dir), 1
  {
    assert Agree(fs, fs', dir);
    if fs[dir].Dir? {
      FilesOfAgree(fs, fs', dir, excludes, fs[dir].names);
    }
  }

  lemma {:induction false} FilesOfAgree(fs: FileSystem, fs': FileSystem, dir: Path, excludes: seq<Path>, names: seq<string>)
    requires dir in fs && AgreeUnder(fs, fs', dir)
    ensures dir in fs' && FilesOf(fs', dir, excludes, names) == FilesOf(fs, dir, excludes, names)
    decreases Under(fs, dir), 0, |names|
  {
    assert Agree(fs, fs', dir);
    if names != [] {
      var child := dir + [names[0]];
      AgreeUnderChild(fs, fs', dir, names[0]);
      assert Agree(fs, fs', child);
      if child !in excludes && IsDir(fs, child) {
        UnderShrinks(fs, dir, names[0]);
        FilesAgree(fs, fs', child, excludes);
      }
      FilesOfAgree(fs, fs', dir, excludes, names[1..]);
    }
  }

  /** What every listed path is: strictly below `dir`, below the listed name, not a directory, not excluded. */
  ghost predicate ListedBelow(fs: FileSystem, dir: Path, excludes: seq<Path>, names: seq<string>, p: Path)
  {
    && dir < p && p[|dir|] in names
    && !IsDir(fs, p) && p !in excludes
    && forall x | x in excludes && dir < x :: !(x <= p)
  }

  lemma {:induction false} FilesShape(fs: FileSystem, dir: Path, excludes: seq<Path>)
    requires dir in fs
    ensures forall p | p in Files(fs, dir, excludes) :: fs[dir].Dir? && ListedBelow(fs, dir, excludes, fs[dir].names, p)
    decreases Under(fs, dir), 1
  {
    if fs[dir].Dir? {
      FilesOfShape(fs, dir, excludes, fs[dir].names);
    }
  }

  lemma {:induction false} FilesOfShape(fs: FileSystem, dir: Path, excludes: seq<Path>, names: seq<string>)
    requires dir in fs
    ensures forall p | p in FilesOf(fs, dir, excludes, names) :: ListedBelow(fs, dir, excludes, names, p)
    decreases Under(fs, dir), 0, |names|
  {
    if names != [] {
      var child := dir + [names[0]];
      UnderShrinks(fs, dir, names[0]);
      FilesOfShape(fs, dir, excludes, names[1..]);
      var head := if child in excludes then []
                  else if IsDir(fs, child) then Files(fs, child, excludes)
                  else [child];
      forall p | p in head ensures ListedBelow(fs, dir, excludes, names, p) {
        ChildHeadShape(fs, dir, excludes, names, p);
      }
      forall p | p in FilesOf(fs, dir, excludes, names[1..]) ensures ListedBelow(fs, dir, excludes, names, p) {
        assert ListedBelow(fs, dir, excludes, names[1..], p);
      }
    }
  }

  lemma {:induction false} ChildHeadShape(fs: FileSystem, dir: Path, excludes: seq<Path>, names: seq<string>, p: Path)
    requires dir in fs && names != []
    requires var child := dir + [names[0]];
      child !in excludes &&
      ((IsDir(fs, child) && p in Files(fs, child, excludes)) || (!IsDir(fs, child) && p == child))
    ensures ListedBelow(fs, dir, excludes, names, p)
    decreases Under(fs, dir), 0, 0
  {
    var child := dir + [names[0]];
    if IsDir(fs, child) {
      UnderShrinks(fs, dir, names[0]);
      FilesShape(fs, child, excludes);
      assert ListedBelow(fs, child, excludes, fs[child].names, p);
      assert p[..|child|] == child;
      assert p[|dir|] == names[0];
      forall x | x in excludes && dir < x ensures !(x <= p) {
        if x <= p {
          PrefixesComparable(x, child, p);
          if x <= child {
            PrefixOfChild(x, dir, names[0]);
          }
        }
      }
    } else {
      forall x | x in excludes && dir < x ensures !(x <= p) {
        PrefixOfChild(x, dir, names[0]);
      }
    }
  }

  // With nothing excluded, a tree's listing holds each of its files exactly once.

  lemma {:induction false} FilesExist(fs: FileSystem, dir: Path, excludes: seq<Path>)
    requires ValidFs(fs) && dir in fs
    ensures forall p | p in Files(fs, dir, excludes) :: IsFile(fs, p)
    decreases Under(fs, dir), 1
  {
    if fs[dir].Dir? {
      FilesOfExist(fs, dir, excludes, fs[dir].names);
    }
  }

  lemma {:induction false} FilesOfExist(fs: FileSystem, dir: Path, excludes: seq<Path>, names: seq<string>)
    requires ValidFs(fs) && IsDir(fs, dir) && forall n | n in names :: n in fs[dir].names
    ensures forall p | p in FilesOf(fs, dir, excludes, names) :: IsFile(fs, p)
    decreases Under(fs, dir), 0, |names|
  {
    if names != [] {
      var child := dir + [names[0]];
      assert ChildrenExist(fs, dir);
      assert child in fs;
      if child !in excludes && IsDir(fs, child) {
        UnderShrinks(fs, dir, names[0]);
        FilesExist(fs, child, excludes);
      }
      FilesOfExist(fs, dir, excludes, names[1..]);
    }
  }

  /** Every directory from `dir` down to `p` lists the next segment of `p`. */
  ghost predicate OnPath(fs: FileSystem, dir: Path, p: Path)
  {
    forall q | dir <= q < p :: IsDir(fs, q) && p[|q|] in fs[q].names
  }

  lemma ValidOnPath(fs: FileSystem, dir: Path, p: Path)
    requires ValidFs(fs) && p in fs
    ensures OnPath(fs, dir, p)
  {
    forall q | dir <= q < p ensures IsDir(fs, q) && p[|q|] in fs[q].names {
      AncestorListed(fs, p, q);
    }
  }

  /** Every file below `dir` that no exclude strictly below `dir` covers is listed. */
  lemma {:induction false} FilesComplete(fs: FileSystem, dir: Path, excludes: seq<Path>, p: Path)
    requires OnPath(fs, dir, p) && IsFile(fs, p) && dir < p
    requires forall x | x in excludes && dir < x :: !(x <= p)
    ensures p in Files(fs, dir, excludes)
    decreases |p| - |dir|
  {
    var names := fs[dir].names;
    var n := p[|dir|];
    var child := dir + [n];
    assert child <= p by {
      assert p[..|dir|] == dir;
      assert p[..|dir| + 1] == child;
    }
    assert dir < child;
    if child != p {
      assert IsDir(fs, child);
      forall x | x in excludes && child < x ensures !(x <= p) {
        assert dir < x;
      }
      FilesComplete(fs, child, excludes, p);
    }
    FilesOfContains(fs, dir, excludes, names, n, p);
  }

  /** A path contributed by entry `n` is in the listing of any `names` holding `n`. */
  lemma {:induction false} FilesOfContains(fs: FileSystem, dir: Path, excludes: seq<Path>, names: seq<string>,
                                           n: string, p: Path)
    requires dir in fs && n in names
    requires var child := dir + [n];
      child !in excludes &&
      ((IsDir(fs, child) && p in Files(fs, child, excludes)) || (!IsDir(fs, child) && p == child))
    ensures p in FilesOf(fs, dir, excludes, names)
    decreases |names|
  {
    if names[0] != n {
      FilesOfContains(fs, dir, excludes, names[1..], n, p);
    }
  }

  /** Every directory lists each name once. */
  ghost predicate ListingsNoDup(fs: FileSystem)
  {
    forall p | IsDir(fs, p) :: NoDup(fs[p].names)
  }

  lemma ValidListingsNoDup(fs: FileSystem)
    requires ValidFs(fs)
    ensures ListingsNoDup(fs)
  {
    forall p | IsDir(fs, p) ensures NoDup(fs[p].names) {
      assert ChildrenExist(fs, p);
    }
  }

  lemma {:induction false} FilesNoDup(fs: FileSystem, dir: Path, excludes: seq<Path>)
    requires ListingsNoDup(fs) && dir in fs
    ensures NoDup(Files(fs, dir, excludes))
    decreases Under(fs, dir), 1
  {
    if fs[dir].Dir? {
      FilesOfNoDup(fs, dir, excludes, fs[dir].names);
    }
  }

  /** Everything the first entry contributes lies below that entry. */
  lemma HeadSegment(fs: FileSystem, dir: Path, excludes: seq<Path>, names: seq<string>, p: Path)
    requires dir in fs && names != []
    requires var child := dir + [names[0]];
      child !in excludes &&
      ((IsDir(fs, child) && p in Files(fs, child, excludes)) || (!IsDir(fs, child) && p == child))
    ensures |dir| < |p| && p[|dir|] == names[0]
  {
    var child := dir + [names[0]];
    if IsDir(fs, child) {
      FilesShape(fs, child, excludes);
      assert ListedBelow(fs, child, excludes, fs[child].names, p);
      assert p[..|child|] == child;
    }
  }

  lemma {:induction false} FilesOfNoDup(fs: FileSystem, dir: Path, excludes: seq<Path>, names: seq<string>)
    requires ListingsNoDup(fs) && dir in fs && NoDup(names)
    ensures NoDup(FilesOf(fs, dir, excludes, names))
    decreases Under(fs, dir), 0, |names|
  {
    if names != [] {
      var child := dir + [names[0]];
      UnderShrinks(fs, dir, names[0]);
      var head := if child in excludes then []
                  else if IsDir(fs, child) then Files(fs, child, excludes)
                  else [child];
      var tail := FilesOf(fs, dir, excludes, names[1..]);
      if child !in excludes && IsDir(fs, child) {
        FilesNoDup(fs, child, excludes);
      }
      NoDupTail(names);
      FilesOfNoDup(fs, dir, excludes, names[1..]);
      FilesOfShape(fs, dir, excludes, names[1..]);
      forall p | p in head ensures |dir| < |p| && p[|dir|] == names[0] {
        HeadSegment(fs, dir, excludes, names, p);
      }
      forall p | p in tail ensures p[|dir|] in names[1..] {
        assert ListedBelow(fs, dir, excludes, names[1..], p);
      }
      NoDupConcat(head, tail);
    }
  }

  /** The rest of a duplicate-free sequence is duplicate-free and lacks its head. */
  lemma NoDupTail<T>(s: seq<T>)
    requires s != [] && NoDup(s)
    ensures NoDup(s[1..]) && s[0] !in s[1..]
  {
    var rest := s[1..];
    forall i, j | 0 <= i < j < |rest| ensures rest[i] != rest[j] {
      assert rest[i] == s[i + 1] && rest[j] == s[j + 1];
    }
    forall k | 0 <= k < |rest| ensures rest[k] != s[0] {
      assert rest[k] == s[k + 1];
    }
  }

  lemma NoDupConcat<T>(a: seq<T>, b: seq<T>)
    requires NoDup(a) && NoDup(b) && forall x | x in a :: x !in b
    ensures NoDup(a + b)
  {
    var c := a + b;
    forall i, j | 0 <= i < j < |c| ensures c[i] != c[j] {
      if i < |a| && j >= |a| {
        assert c[i] in a && c[j] == b[j - |a|];
      } else if i >= |a| {
        assert c[i] == b[i - |a|] && c[j] == b[j - |a|];
      }
    }
  }

  lemma {:induction false} NoDupCard<T>(s: seq<T>)
    requires NoDup(s)
    ensures |set x | x in s| == |s|
  {
    if s != [] {
      NoDupTail(s);
      NoDupCard(s[1..]);
      assert (set x | x in s) == {s[0]} + (set x | x in s[1..]);
    }
  }

  /**
    With nothing excluded, the listing of a directory holds every file below
    it exactly once, and nothing else: its length is the number of files in
    the tree.
  */
  lemma FilesOfTree(fs: FileSystem, dir: Path)
    requires ValidFs(fs) && IsDir(fs, dir)
    ensures (set p | p in Files(fs, dir, [])) == FilesUnder(fs, dir)
    ensures NoDup(Files(fs, dir, []))
    ensures |Files(fs, dir, [])| == |FilesUnder(fs, dir)|
  {
    var listed := Files(fs, dir, []);
    FilesExist(fs, dir, []);
    FilesShape(fs, dir, []);
    forall p | p in FilesUnder(fs, dir) ensures p in listed {
      ValidOnPath(fs, dir, p);
      FilesComplete(fs, dir, [], p);
    }
    forall p | p in listed ensures p in FilesUnder(fs, dir) {
      assert ListedBelow(fs, dir, [], fs[dir].names, p);
    }
    ValidListingsNoDup(fs);
    FilesNoDup(fs, dir, []);
    NoDupCard(listed);
  }

  /** The files below `dir` that no exclude strictly below `dir` lies on the way to. */
  ghost function Kept(fs: FileSystem, dir: Path, excludes: seq<Path>): set<Path>
  {
    set p | p in FilesUnder(fs, dir) && forall x | x in excludes && dir < x :: !(x <= p)
  }

  /**
    The listing with excludes holds, once each, exactly the files below
    `dir` outside every excluded subtree; no excluded path and no directory
    is listed.
  */
  lemma FilesExcluded(fs: FileSystem, dir: Path, excludes: seq<Path>)
    requires ValidFs(fs) && IsDir(fs, dir)
    ensures (set p | p in Files(fs, dir, excludes)) == Kept(fs, dir, excludes)
    ensures NoDup(Files(fs, dir, excludes))
    ensures forall p | p in Files(fs, dir, excludes) :: p !in excludes && IsFile(fs, p)
  {
    var listed := Files(fs, dir, excludes);
    FilesExist(fs, dir, excludes);
    FilesShape(fs, dir, excludes);
    forall p | p in Kept(fs, dir, excludes) ensures p in listed {
      ValidOnPath(fs, dir, p);
      FilesComplete(fs, dir, excludes, p);
    }
    forall p | p in listed ensures p in Kept(fs, dir, excludes) && p !in excludes {
      assert ListedBelow(fs, dir, excludes, fs[dir].names, p);
    }
    ValidListingsNoDup(fs);
    FilesNoDup(fs, dir, excludes);
  }
}
