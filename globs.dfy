/** Properties of `executeCombinedGlob`, the expansion of the exclude patterns. */
module GlobProofs {
  import opened Wrappers
  import opened Fs
  import opened Templates

  /** Every pattern expands without error. */
  ghost predicate AllExpand(glob: Globber, fs: FileSystem, patterns: seq<Path>)
  {
    forall i | 0 <= i < |patterns| :: glob(fs, patterns[i]).Ok?
  }

  /** The matches of the patterns, appended one pattern after the other from the left. */
  ghost function Appended(glob: Globber, fs: FileSystem, patterns: seq<Path>): seq<Path>
    requires AllExpand(glob, fs, patterns)
    decreases |patterns|
  {
    if patterns == [] then []
    else
      var init := patterns[..|patterns| - 1];
      assert AllExpand(glob, fs, init) by {
        forall i | 0 <= i < |init| ensures glob(fs, init[i]).Ok? {
          assert init[i] == patterns[i];
        }
      }
      Appended(glob, fs, init) + glob(fs, patterns[|patterns| - 1]).value
  }

  lemma {:induction false} AppendedCons(glob: Globber, fs: FileSystem, patterns: seq<Path>)
    requires patterns != [] && AllExpand(glob, fs, patterns)
    ensures AllExpand(glob, fs, patterns[1..])
    ensures Appended(glob, fs, patterns) == glob(fs, patterns[0]).value + Appended(glob, fs, patterns[1..])
    decreases |patterns|
  {
    var tail := patterns[1..];
    assert AllExpand(glob, fs, tail) by {
      forall i | 0 <= i < |tail| ensures glob(fs, tail[i]).Ok? {
        assert tail[i] == patterns[i + 1];
      }
    }
    if |patterns| > 1 {
      var init := patterns[..|patterns| - 1];
      assert init[1..] == tail[..|tail| - 1];
      assert AllExpand(glob, fs, init) by {
        forall i | 0 <= i < |init| ensures glob(fs, init[i]).Ok? {
          assert init[i] == patterns[i];
        }
      }
      AppendedCons(glob, fs, init);
      assert init[0] == patterns[0];
      assert tail[|tail| - 1] == patterns[|patterns| - 1];
      var a := glob(fs, patterns[0]).value;
      var last := glob(fs, patterns[|patterns| - 1]).value;
      assert (a + Appended(glob, fs, init[1..])) + last == a + (Appended(glob, fs, init[1..]) + last);
    } else {
      assert tail == [];
      assert patterns[..0] == [];
      assert glob(fs, patterns[0]).value + [] == glob(fs, patterns[0]).value;
    }
  }

  /**
    The combined expansion succeeds exactly when every pattern does, and is
    then the matches of each pattern appended in pattern order.
  */
  lemma {:induction false} CombinedGlobOk(glob: Globber, fs: FileSystem, patterns: seq<Path>)
    ensures CombinedGlob(glob, fs, patterns).Ok? <==> AllExpand(glob, fs, patterns)
    ensures CombinedGlob(glob, fs, patterns).Ok? ==>
      CombinedGlob(glob, fs, patterns).value == Appended(glob, fs, patterns)
    decreases |patterns|
  {
    if patterns != [] {
      var tail := patterns[1..];
      CombinedGlobOk(glob, fs, tail);
      if AllExpand(glob, fs, patterns) {
        AppendedCons(glob, fs, patterns);
      } else {
        var i :| 0 <= i < |patterns| && glob(fs, patterns[i]).Err?;
        if i > 0 {
          assert tail[i - 1] == patterns[i];
        }
      }
      if AllExpand(glob, fs, tail) && glob(fs, patterns[0]).Ok? {
        forall i | 0 <= i < |patterns| ensures glob(fs, patterns[i]).Ok? {
          if i > 0 {
            assert tail[i - 1] == patterns[i];
          }
        }
      }
    }
  }

  /** A path is matched by the combined expansion exactly when some pattern matches it. */
  lemma {:induction false} CombinedGlobMembers(glob: Globber, fs: FileSystem, patterns: seq<Path>, p: Path)
    requires CombinedGlob(glob, fs, patterns).Ok?
    ensures forall i | 0 <= i < |patterns| :: glob(fs, patterns[i]).Ok?
    ensures p in CombinedGlob(glob, fs, patterns).value <==>
      exists i | 0 <= i < |patterns| :: p in glob(fs, patterns[i]).value
    decreases |patterns|
  {
    CombinedGlobOk(glob, fs, patterns);
    if patterns != [] {
      var tail := patterns[1..];
      CombinedGlobMembers(glob, fs, tail, p);
      if exists i | 0 <= i < |patterns| :: p in glob(fs, patterns[i]).value {
        var i :| 0 <= i < |patterns| && p in glob(fs, patterns[i]).value;
        if i > 0 {
          assert tail[i - 1] == patterns[i];
        }
      }
      if exists j | 0 <= j < |tail| :: p in glob(fs, tail[j]).value {
        var j :| 0 <= j < |tail| && p in glob(fs, tail[j]).value;
        assert tail[j] == patterns[j + 1];
      }
    }
  }

  /**
    A failed combined expansion reports the error of the first pattern that
    fails; every pattern before it expanded.
  */
  lemma {:induction false} CombinedGlobFirstError(glob: Globber, fs: FileSystem, patterns: seq<Path>)
    requires CombinedGlob(glob, fs, patterns).Err?
    ensures exists k | 0 <= k < |patterns| ::
      && glob(fs, patterns[k]) == Err(CombinedGlob(glob, fs, patterns).error)
      && forall j | 0 <= j < k :: glob(fs, patterns[j]).Ok?
    decreases |patterns|
  {
    var e := CombinedGlob(glob, fs, patterns).error;
    if glob(fs, patterns[0]).Err? {
      assert glob(fs, patterns[0]) == Err(e);
    } else {
      var tail := patterns[1..];
      CombinedGlobFirstError(glob, fs, tail);
      var k :| 0 <= k < |tail| && glob(fs, tail[k]) == Err(e) && forall j | 0 <= j < k :: glob(fs, tail[j]).Ok?;
      assert patterns[k + 1] == tail[k];
      forall j | 0 <= j < k + 1 ensures glob(fs, patterns[j]).Ok? {
        if j > 0 {
          assert patterns[j] == tail[j - 1];
        }
      }
    }
  }
}
