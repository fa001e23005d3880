/**
  An abstract, in-memory model of the filesystem interface the template
  gatherer works against (`Stat`, `ReadDir`, `MkdirAll`, `OpenFile`).

  A path is a sequence of segments: joining a directory with an entry name
  appends the name, and every path is already clean, so Go's
  `filepath.Join`/`filepath.Clean` need no separate model.  The empty path is
  the working directory (`"."`).
*/
module Fs {
  import opened Wrappers

  type Path = seq<string>

  /** Permission bits, kept abstract. */
  type Mode = nat

  /** The permission `openOutFile` passes when it creates a file (0644). */
  const CreateMode: Mode := 420

  /** A directory lists its entries in `names`, in listing order. */
  datatype Node =
    | File(mode: Mode, contents: string)
    | Dir(mode: Mode, names: seq<string>)

  type FileSystem = map<Path, Node>

  /** The errors the filesystem reports, each naming the path concerned. */
  datatype Error =
    | NotExist(path: Path)
    | NotADirectory(path: Path)
    | IsADirectory(path: Path)
    | BadPattern(path: Path)
    | OpenFailed(path: Path, cause: Error)
    | ReadFailed(path: Path, cause: Error)
    | LoadFailed(path: Path)
    | TargetFailed(path: Path)
    | IndexOutOfRange(index: nat, length: nat)

  /** One entry of a directory listing, as the walk uses it. */
  datatype Entry = Entry(name: string, isDir: bool)

  function Parent(p: Path): Path
    requires p != []
  {
    p[..|p| - 1]
  }

  function Last(p: Path): string
    requires p != []
  {
    p[|p| - 1]
  }

  /** Two paths are related when one lies on the other's path from the root. */
  predicate Related(p: Path, q: Path)
  {
    p <= q || q <= p
  }

  predicate IsDir(fs: FileSystem, p: Path)
  {
    p in fs && fs[p].Dir?
  }

  predicate IsFile(fs: FileSystem, p: Path)
  {
    p in fs && fs[p].File?
  }

  ghost predicate NoDup<T>(s: seq<T>)
  {
    forall i, j | 0 <= i < j < |s| :: s[i] != s[j]
  }

  /** A non-root node is listed by its parent directory. */
  ghost predicate ListedByParent(fs: FileSystem, p: Path)
    requires p != []
  {
    IsDir(fs, Parent(p)) && Last(p) in fs[Parent(p)].names
  }

  /** A directory lists each of its children once, and every listed child exists. */
  ghost predicate ChildrenExist(fs: FileSystem, p: Path)
    requires IsDir(fs, p)
  {
    NoDup(fs[p].names) && forall n | n in fs[p].names :: p + [n] in fs
  }

  /** A filesystem shaped like a tree rooted at the working directory. */
  ghost predicate ValidFs(fs: FileSystem)
  {
    && IsDir(fs, [])
    && AllListed(fs)
    && (forall p | IsDir(fs, p) :: ChildrenExist(fs, p))
  }

  /** Every non-root node is listed by its parent directory. */
  ghost predicate AllListed(fs: FileSystem)
  {
    forall p | p in fs && p != [] :: ListedByParent(fs, p)
  }

  /** The paths at or below `dir`; it shrinks when the walk descends. */
  ghost function Under(fs: FileSystem, dir: Path): set<Path>
  {
    set p | p in fs && dir <= p
  }

  /** `fs` and `fs'` hold the same node (or none) at `q`. */
  ghost predicate Agree(fs: FileSystem, fs': FileSystem, q: Path)
  {
    (q in fs <==> q in fs') && (q in fs ==> fs[q] == fs'[q])
  }

  /** Every change from `fs` to `fs'` is at a path related to `p`. */
  ghost predicate FramedBy(fs: FileSystem, fs': FileSystem, p: Path)
  {
    forall q :: !Related(q, p) ==> Agree(fs, fs', q)
  }

  /**
    `fs'` extends `fs`: every node survives, files are untouched, and a
    directory keeps its mode and may only gain entries at the end of its
    listing.
  */
  ghost predicate Grows(fs: FileSystem, fs': FileSystem)
  {
    forall q | q in fs :: q in fs' && Extends(fs[q], fs'[q])
  }

  ghost predicate Extends(n: Node, n': Node)
  {
    if n.File? then n' == n else n'.Dir? && n'.mode == n.mode && n.names <= n'.names
  }

  /** `fs.Stat`: the node at `p`, if any. */
  function Stat(fs: FileSystem, p: Path): (r: Result<Node, Error>)
    ensures r.Ok? <==> p in fs
    ensures r.Ok? ==> r.value == fs[p]
    ensures r.Err? ==> r.error == NotExist(p)
  {
    if p in fs then Ok(fs[p]) else Err(NotExist(p))
  }

  /** The listing of `names` below `dir`, each entry marked as directory or not. */
  function EntriesOf(fs: FileSystem, dir: Path, names: seq<string>): (es: seq<Entry>)
    ensures |es| == |names|
    ensures forall i | 0 <= i < |names| :: es[i] == Entry(names[i], IsDir(fs, dir + [names[i]]))
  {
    if names == [] then []
    else [Entry(names[0], IsDir(fs, dir + [names[0]]))] + EntriesOf(fs, dir, names[1..])
  }

  /** `afero.ReadDir`: fails on a missing path and on a file. */
  function ReadDir(fs: FileSystem, p: Path): (r: Result<seq<Entry>, Error>)
    ensures r.Ok? <==> IsDir(fs, p)
    ensures r.Ok? ==> r.value == EntriesOf(fs, p, fs[p].names)
    ensures r.Err? ==> r.error == if p in fs then NotADirectory(p) else NotExist(p)
  {
    if p !in fs then Err(NotExist(p))
    else if fs[p].File? then Err(NotADirectory(p))
    else Ok(EntriesOf(fs, p, fs[p].names))
  }

  /** Puts `node` at the new path `p`, appending its name to its parent's listing. */
  function AddChild(fs: FileSystem, p: Path, node: Node): FileSystem
    requires p != []
  {
    var parent := Parent(p);
    if IsDir(fs, parent)
    then fs[p := node][parent := fs[parent].(names := fs[parent].names + [Last(p)])]
    else fs[p := node]
  }

  /**
    `fs.MkdirAll(p, mode)`: succeeds at once on an existing directory, fails
    on an existing file, and otherwise creates the missing parent chain first
    and then `p`, each new directory with `mode`.
  */
  function MkdirAll(fs: FileSystem, p: Path, mode: Mode): (r: Result<FileSystem, Error>)
    ensures r.Ok? ==> IsDir(r.value, p)
    ensures r.Ok? ==> OnlyAbove(fs, r.value, p) && Grows(fs, r.value)
    ensures r.Ok? ==> forall q | q in r.value && q !in fs :: q <= p && r.value[q].Dir? && r.value[q].mode == mode
    ensures IsDir(fs, p) ==> r == Ok(fs)
    decreases |p|
  {
    if p in fs then
      if fs[p].Dir? then Ok(fs) else Err(NotADirectory(p))
    else if p == [] then
      Ok(fs[p := Dir(mode, [])])
    else
      match MkdirAll(fs, Parent(p), mode)
      case Err(e) => Err(e)
      case Ok(fs1) =>
        MkdirStep(fs, fs1, p, mode);
        Ok(AddChild(fs1, p, Dir(mode, [])))
  }

  /** The last step of `MkdirAll`: adding `p` below the parent chain just made. */
  lemma MkdirStep(fs: FileSystem, fs1: FileSystem, p: Path, mode: Mode)
    requires p != [] && p !in fs && IsDir(fs1, Parent(p))
    requires OnlyAbove(fs, fs1, Parent(p)) && Grows(fs, fs1)
    requires forall q | q in fs1 && q !in fs :: q <= Parent(p) && fs1[q].Dir? && fs1[q].mode == mode
    ensures OnlyAbove(fs, AddChild(fs1, p, Dir(mode, [])), p)
    ensures Grows(fs, AddChild(fs1, p, Dir(mode, [])))
    ensures var fs2 := AddChild(fs1, p, Dir(mode, []));
      forall q | q in fs2 && q !in fs :: q <= p && fs2[q].Dir? && fs2[q].mode == mode
  {
    var fs2 := AddChild(fs1, p, Dir(mode, []));
    forall q | !(q <= p) ensures Agree(fs, fs2, q) {
      assert !(q <= Parent(p));
      assert Agree(fs, fs1, q);
    }
    assert p !in fs1;
  }

  /** Changes only at `p` or its ancestors. */
  ghost predicate OnlyAbove(fs: FileSystem, fs': FileSystem, p: Path)
  {
    forall q :: !(q <= p) ==> Agree(fs, fs', q)
  }

  lemma OnlyAboveFramed(fs: FileSystem, fs': FileSystem, p: Path)
    requires OnlyAbove(fs, fs', p)
    ensures FramedBy(fs, fs', p)
  {
    forall q | !Related(q, p) ensures Agree(fs, fs', q) {
      assert !(q <= p);
    }
  }

  /** What `AddChild` does to a fresh path below an existing directory. */
  ghost predicate AddedChild(fs: FileSystem, fs2: FileSystem, p: Path, node: Node)
    requires p != [] && IsDir(fs, Parent(p))
  {
    && fs2.Keys == fs.Keys + {p}
    && fs2[p] == node
    && fs2[Parent(p)] == fs[Parent(p)].(names := fs[Parent(p)].names + [Last(p)])
    && forall q | q in fs && q != Parent(p) :: fs2[q] == fs[q]
  }

  lemma AddChildShape(fs: FileSystem, p: Path, node: Node)
    requires p != [] && p !in fs && IsDir(fs, Parent(p))
    ensures AddedChild(fs, AddChild(fs, p, node), p, node)
  {
  }

  /** Adding a fresh child below an existing directory keeps the tree shape. */
  lemma AddChildKeepsValid(fs: FileSystem, p: Path, node: Node)
    requires ValidFs(fs) && p != [] && p !in fs && IsDir(fs, Parent(p))
    requires node.Dir? ==> node.names == []
    ensures ValidFs(AddChild(fs, p, node))
  {
    var fs2 := AddChild(fs, p, node);
    AddChildShape(fs, p, node);
    AddedKeepsListed(fs, fs2, p, node);
    AddedKeepsChildren(fs, fs2, p, node);
  }

  lemma AddedKeepsListed(fs: FileSystem, fs2: FileSystem, p: Path, node: Node)
    requires ValidFs(fs) && p != [] && p !in fs && IsDir(fs, Parent(p))
    requires AddedChild(fs, fs2, p, node)
    ensures IsDir(fs2, [])
    ensures forall q | q in fs2 && q != [] :: ListedByParent(fs2, q)
  {
    forall q | q in fs2 && q != [] ensures ListedByParent(fs2, q) {
      if q != p {
        assert ListedByParent(fs, q);
      }
    }
  }

  lemma AddedKeepsChildren(fs: FileSystem, fs2: FileSystem, p: Path, node: Node)
    requires ValidFs(fs) && p != [] && p !in fs && IsDir(fs, Parent(p))
    requires node.Dir? ==> node.names == []
    requires AddedChild(fs, fs2, p, node)
    ensures forall q | IsDir(fs2, q) :: ChildrenExist(fs2, q)
  {
    forall q | IsDir(fs2, q) ensures ChildrenExist(fs2, q) {
      if q == Parent(p) {
        assert ChildrenExist(fs, q);
        ParentKeepsChildren(fs, fs2, p, node);
      } else if q != p {
        assert ChildrenExist(fs, q);
        assert fs2[q] == fs[q];
      }
    }
  }

  lemma ParentKeepsChildren(fs: FileSystem, fs2: FileSystem, p: Path, node: Node)
    requires p != [] && p !in fs && IsDir(fs, Parent(p)) && ChildrenExist(fs, Parent(p))
    requires AddedChild(fs, fs2, p, node)
    ensures IsDir(fs2, Parent(p)) && ChildrenExist(fs2, Parent(p))
  {
    var par := Parent(p);
    var old_names := fs[par].names;
    assert p == par + [Last(p)];
    assert Last(p) !in old_names;
    var names := fs2[par].names;
    assert names == old_names + [Last(p)];
    forall i, j | 0 <= i < j < |names| ensures names[i] != names[j] {
      if j == |names| - 1 {
        assert names[i] in old_names;
      } else {
        assert names[i] == old_names[i] && names[j] == old_names[j];
      }
    }
    forall n | n in names ensures par + [n] in fs2 {
      if n != Last(p) {
        assert n in old_names;
      }
    }
  }

  lemma {:induction false} MkdirAllKeepsValid(fs: FileSystem, p: Path, mode: Mode)
    requires ValidFs(fs)
    ensures MkdirAll(fs, p, mode).Ok? ==> ValidFs(MkdirAll(fs, p, mode).value)
    decreases |p|
  {
    if p !in fs && p != [] {
      MkdirAllKeepsValid(fs, Parent(p), mode);
      var r := MkdirAll(fs, Parent(p), mode);
      if r.Ok? {
        AddChildKeepsValid(r.value, p, Dir(mode, []));
      }
    }
  }

  /** In a tree, every strict ancestor of a node is a directory that lists the next segment. */
  lemma {:induction false} AncestorListed(fs: FileSystem, p: Path, q: Path)
    requires AllListed(fs) && p in fs && q < p
    ensures IsDir(fs, q) && p[|q|] in fs[q].names && q + [p[|q|]] in fs
    decreases |p|
  {
    assert ListedByParent(fs, p);
    if q == Parent(p) {
      assert q + [p[|q|]] == p;
    } else {
      assert q < Parent(p);
      AncestorListed(fs, Parent(p), q);
      assert Parent(p)[|q|] == p[|q|];
    }
  }

  /** On a tree, `MkdirAll` fails exactly when a file lies on the way to `p`. */
  lemma {:induction false} MkdirAllFails(fs: FileSystem, p: Path, mode: Mode)
    requires ValidFs(fs)
    ensures MkdirAll(fs, p, mode).Err? <==> exists q :: q <= p && IsFile(fs, q)
    decreases |p|
  {
    if p in fs {
      if fs[p].Dir? {
        forall q | q <= p ensures !IsFile(fs, q) {
          if q != p {
            AncestorListed(fs, p, q);
          }
        }
      } else {
        assert IsFile(fs, p);
      }
    } else {
      assert p != [];
      MkdirAllFails(fs, Parent(p), mode);
      forall q | q <= p && IsFile(fs, q) ensures q <= Parent(p) {
        assert q != p;
      }
      if exists q :: q <= Parent(p) && IsFile(fs, q) {
        var q :| q <= Parent(p) && IsFile(fs, q);
        assert q <= p;
      }
    }
  }

  // Paths and frames

  lemma PrefixesComparable(a: Path, b: Path, p: Path)
    requires a <= p && b <= p
    ensures Related(a, b)
  {
    if |a| <= |b| {
      assert a == p[..|a|] == b[..|a|];
    } else {
      assert b == p[..|b|] == a[..|b|];
    }
  }

  lemma PrefixCancel(a: Path, b: Path, n: string)
    ensures a + [n] <= b + [n] ==> a <= b
  {
    if a + [n] <= b + [n] {
      assert a == (b + [n])[..|a|];
      if |a| == |b| {
        assert a == b;
      } else {
        assert a == b[..|a|];
      }
    }
  }

  lemma PrefixOfChild(q: Path, out: Path, n: string)
    ensures q <= out + [n] ==> q <= out || q == out + [n]
    ensures out + [n] <= q ==> out <= q
  {
    if q <= out + [n] && q != out + [n] {
      assert q == (out + [n])[..|q|] == out[..|q|];
    }
    if out + [n] <= q {
      assert out == (out + [n])[..|out|] == q[..|out|];
    }
  }

  /** Whatever is related to a path below `dir` is related to `dir`'s relatives. */
  lemma RelatedUnder(dir: Path, out: Path, q: Path)
    ensures dir <= q && Related(q, out) ==> Related(dir, out)
  {
    if dir <= q && out <= q {
      PrefixesComparable(dir, out, q);
    }
  }

  /** Descending to the same entry on both sides keeps two trees apart. */
  lemma ChildUnrelated(dir: Path, out: Path, n: string)
    requires !Related(dir, out)
    ensures !Related(dir + [n], out + [n])
  {
    PrefixCancel(dir, out, n);
    PrefixCancel(out, dir, n);
  }

  lemma FramedWiden(fs: FileSystem, fs': FileSystem, out: Path, n: string)
    requires FramedBy(fs, fs', out + [n])
    ensures FramedBy(fs, fs', out)
  {
    forall q | !Related(q, out) ensures Agree(fs, fs', q) {
      PrefixOfChild(q, out, n);
    }
  }

  lemma FramedTrans(fs: FileSystem, fs': FileSystem, fs'': FileSystem, out: Path)
    requires FramedBy(fs, fs', out) && FramedBy(fs', fs'', out)
    ensures FramedBy(fs, fs'', out)
  {
    forall q | !Related(q, out) ensures Agree(fs, fs'', q) {
      assert Agree(fs, fs', q) && Agree(fs', fs'', q);
    }
  }

  lemma GrowsTrans(fs: FileSystem, fs': FileSystem, fs'': FileSystem)
    requires Grows(fs, fs') && Grows(fs', fs'')
    ensures Grows(fs, fs'')
  {
    forall q | q in fs ensures q in fs'' && Extends(fs[q], fs''[q]) {
      assert Extends(fs[q], fs'[q]) && Extends(fs'[q], fs''[q]);
    }
  }

  /** `fs` and `fs'` hold the same subtree at `dir`. */
  ghost predicate AgreeUnder(fs: FileSystem, fs': FileSystem, dir: Path)
  {
    forall q | dir <= q :: Agree(fs, fs', q)
  }

  lemma AgreeUnderChild(fs: FileSystem, fs': FileSystem, dir: Path, n: string)
    requires AgreeUnder(fs, fs', dir)
    ensures AgreeUnder(fs, fs', dir + [n])
  {
    forall q | dir + [n] <= q ensures Agree(fs, fs', q) {
      assert dir <= dir + [n];
    }
  }

  lemma AgreeUnderTrans(fs: FileSystem, fs': FileSystem, fs'': FileSystem, dir: Path)
    requires AgreeUnder(fs, fs', dir) && AgreeUnder(fs', fs'', dir)
    ensures AgreeUnder(fs, fs'', dir)
  {
    forall q | dir <= q ensures Agree(fs, fs'', q) {
      assert Agree(fs, fs', q) && Agree(fs', fs'', q);
    }
  }

  /** A change framed by `out` leaves the whole subtree at an unrelated `dir` alone. */
  lemma UnderFramed(fs: FileSystem, fs': FileSystem, dir: Path, out: Path)
    requires FramedBy(fs, fs', out) && !Related(dir, out)
    ensures AgreeUnder(fs, fs', dir)
    ensures Under(fs', dir) == Under(fs, dir)
  {
    forall q | dir <= q ensures Agree(fs, fs', q) {
      RelatedUnder(dir, out, q);
    }
    forall q ensures q in Under(fs', dir) <==> q in Under(fs, dir) {
      if dir <= q {
        assert Agree(fs, fs', q);
      }
    }
  }

  lemma UnderShrinks(fs: FileSystem, dir: Path, n: string)
    requires dir in fs
    ensures Under(fs, dir + [n]) < Under(fs, dir)
  {
    forall q | q in Under(fs, dir + [n]) ensures q in Under(fs, dir) {
      assert dir <= dir + [n];
    }
    assert dir in Under(fs, dir) && dir !in Under(fs, dir + [n]);
  }
}
