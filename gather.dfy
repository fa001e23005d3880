/** Properties of `gatherTemplates`: which templates it makes and how it pairs them with outputs. */
module GatherProofs {
  import opened Wrappers
  import opened Fs
  import opened Templates
  import opened WalkListing

  /** Template `k` loads, has an output at its index, and accepts that output. */
  ghost predicate Placeable(ts: seq<Template>, outs: seq<Path>, load: Loader, target: Targeter, k: nat)
    requires k < |ts|
  {
    && load(ts[k]).Ok?
    && k < |outs|
    && target(load(ts[k]).value, outs[k]).Ok?
  }

  /** Template `k` as prepared: loaded, then given output `k`. */
  ghost function Placed(ts: seq<Template>, outs: seq<Path>, load: Loader, target: Targeter, k: nat): Template
    requires k < |ts| && Placeable(ts, outs, load, target, k)
  {
    target(load(ts[k]).value, outs[k]).value
  }

  /** Why template `k` cannot be placed: its load error, the missing output, or the target error. */
  ghost function FailureAt(ts: seq<Template>, outs: seq<Path>, load: Loader, target: Targeter, k: nat): Error
    requires k < |ts| && !Placeable(ts, outs, load, target, k)
  {
    if load(ts[k]).Err? then load(ts[k]).error
    else if k >= |outs| then IndexOutOfRange(k, |outs|)
    else target(load(ts[k]).value, outs[k]).error
  }

  /**
    Preparing is all or nothing: it succeeds exactly when every remaining
    template can be placed, and then yields each of them placed, in order.
  */
  lemma {:induction false} PrepareOk(ts: seq<Template>, outs: seq<Path>, load: Loader, target: Targeter, i: nat)
    requires i <= |ts|
    ensures Prepare(ts, outs, load, target, i).Ok? <==>
      forall k | i <= k < |ts| :: Placeable(ts, outs, load, target, k)
    ensures Prepare(ts, outs, load, target, i).Ok? ==>
      var r := Prepare(ts, outs, load, target, i).value;
      && |r| == |ts| - i
      && forall j | 0 <= j < |r| :: r[j] == Placed(ts, outs, load, target, i + j)
    decreases |ts| - i
  {
    if i < |ts| {
      PrepareOk(ts, outs, load, target, i + 1);
      if forall k | i <= k < |ts| :: Placeable(ts, outs, load, target, k) {
        assert Placeable(ts, outs, load, target, i);
      }
      if Prepare(ts, outs, load, target, i).Ok? {
        var r := Prepare(ts, outs, load, target, i).value;
        var rest := Prepare(ts, outs, load, target, i + 1).value;
        assert r == [Placed(ts, outs, load, target, i)] + rest;
        forall j | 0 < j < |r| ensures r[j] == Placed(ts, outs, load, target, i + j) {
          assert r[j] == rest[j - 1];
        }
      }
    }
  }

  /** A failed preparation reports why the first template that cannot be placed fails. */
  lemma {:induction false} PrepareFirstError(ts: seq<Template>, outs: seq<Path>, load: Loader, target: Targeter, i: nat)
    requires i <= |ts| && Prepare(ts, outs, load, target, i).Err?
    ensures exists k | i <= k < |ts| ::
      && (forall j | i <= j < k :: Placeable(ts, outs, load, target, j))
      && !Placeable(ts, outs, load, target, k)
      && Prepare(ts, outs, load, target, i).error == FailureAt(ts, outs, load, target, i + (k - i))
    decreases |ts| - i
  {
    if Placeable(ts, outs, load, target, i) {
      PrepareFirstError(ts, outs, load, target, i + 1);
      var k :| i + 1 <= k < |ts|
        && (forall j | i + 1 <= j < k :: Placeable(ts, outs, load, target, j))
        && !Placeable(ts, outs, load, target, k)
        && Prepare(ts, outs, load, target, i + 1).error == FailureAt(ts, outs, load, target, i + 1 + (k - i - 1));
      assert i + 1 + (k - i - 1) == i + (k - i);
    } else {
      assert i + (i - i) == i;
    }
  }

  /**
    Only a directory walk can fail before loading.  Its error ends the
    gathering, both file lists are left empty, as Go leaves them nil, every
    other option is kept, and the filesystem is as the walk left it; a
    missing input directory fails with "not exist" and changes nothing.
  */
  lemma GatherWalkFails(fs: FileSystem, glob: Globber, load: Loader, target: Targeter, c: Config)
    requires WalkAllowed(c)
    ensures var g := Gather(fs, glob, load, target, c);
      var w := Inputs(fs, glob, c);
      && g.fs == w.fs
      && (w.result.Err? ==>
            && c.inputDir.Some?
            && g.result == Err(w.result.error)
            && g.config == c.(inputFiles := [], outputFiles := []))
      && (c.inputDir.Some? && c.inputDir.value !in fs ==>
            g == Gathered(fs, c.(inputFiles := [], outputFiles := []), Err(NotExist(c.inputDir.value))))
  {
  }

  /**
    After a successful walk (or none) the options hold the walked lists, an
    empty output list becomes "-", and the templates are the inline one or
    one per input file; the result is Ok exactly when every template can be
    placed, and is then every template placed, in order.
  */
  lemma GatherTemplatesOk(fs: FileSystem, glob: Globber, load: Loader, target: Targeter, c: Config)
    requires WalkAllowed(c) && Inputs(fs, glob, c).result.Ok?
    ensures var l := Inputs(fs, glob, c).result.value;
      var g := Gather(fs, glob, load, target, c);
      var ts := Sources(c.input, l.inFiles);
      && g.config == c.(inputFiles := l.inFiles, outputFiles := if l.outFiles == [] then [Dash] else l.outFiles)
      && |ts| == (if c.input != "" then 1 else |l.inFiles|)
      && (c.input != "" ==> ts == [Template(ArgName, c.input, None)])
      && (c.input == "" ==> forall k | 0 <= k < |ts| :: ts[k] == Template(l.inFiles[k], "", None))
      && (g.result.Ok? <==> forall k | 0 <= k < |ts| :: Placeable(ts, g.config.outputFiles, load, target, k))
      && (g.result.Ok? ==>
            && |g.result.value| == |ts|
            && forall k | 0 <= k < |ts| :: g.result.value[k] == Placed(ts, g.config.outputFiles, load, target, k))
  {
    var l := Inputs(fs, glob, c).result.value;
    var g := Gather(fs, glob, load, target, c);
    PrepareOk(Sources(c.input, l.inFiles), g.config.outputFiles, load, target, 0);
  }

  /**
    With the inline template or a directory walk there is always an output
    for every template, so gathering can fail only in loading or in
    targeting, never for want of an output.
  */
  lemma GatherOutputsCover(fs: FileSystem, glob: Globber, load: Loader, target: Targeter, c: Config)
    requires WalkAllowed(c) && Inputs(fs, glob, c).result.Ok?
    requires c.input != "" || c.inputDir.Some?
    ensures var l := Inputs(fs, glob, c).result.value;
      var g := Gather(fs, glob, load, target, c);
      && |Sources(c.input, l.inFiles)| <= |g.config.outputFiles|
      && (g.result.Ok? <==>
            forall k | 0 <= k < |Sources(c.input, l.inFiles)| ::
              && load(Sources(c.input, l.inFiles)[k]).Ok?
              && target(load(Sources(c.input, l.inFiles)[k]).value, g.config.outputFiles[k]).Ok?)
  {
    var l := Inputs(fs, glob, c).result.value;
    var g := Gather(fs, glob, load, target, c);
    var ts := Sources(c.input, l.inFiles);
    if c.inputDir.Some? {
      WalkPairs(fs, glob, c.inputDir.value, c.outputDir, c.excludeGlob);
      assert |l.outFiles| == |l.inFiles|;
    }
    assert |ts| <= |g.config.outputFiles|;
    assert g.result == Prepare(ts, g.config.outputFiles, load, target, 0);
    PrepareOk(ts, g.config.outputFiles, load, target, 0);
    if g.result.Ok? {
      forall k | 0 <= k < |ts|
        ensures load(ts[k]).Ok? && target(load(ts[k]).value, g.config.outputFiles[k]).Ok?
      {
        assert Placeable(ts, g.config.outputFiles, load, target, k);
      }
    }
    if forall k | 0 <= k < |ts| :: load(ts[k]).Ok? && target(load(ts[k]).value, g.config.outputFiles[k]).Ok? {
      assert forall k | 0 <= k < |ts| :: Placeable(ts, g.config.outputFiles, load, target, k);
    }
  }
}
