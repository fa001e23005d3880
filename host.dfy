/**
  The process-wide state the Go code keeps in the globals `fs` and `stdin`,
  as one object, with the gathering operations run step by step against it.
  Each method is proved to do what the function of the same operation in
  `Templates` says.
*/
module Process {
  import opened Wrappers
  import opened Fs
  import opened Templates
  import opened WalkProofs
  import opened StreamProofs

  /** The options struct `gatherTemplates` reads and partly overwrites. */
  class Options {
    var input: string
    var inputDir: Option<Path>
    var inputFiles: seq<Path>
    var outputDir: Path
    var outputFiles: seq<Path>
    var excludeGlob: seq<Path>

    function Value(): Config
      reads this
    {
      Config(input, inputDir, inputFiles, outputDir, outputFiles, excludeGlob)
    }

    constructor (c: Config)
      ensures Value() == c
    {
      input, inputDir, inputFiles := c.input, c.inputDir, c.inputFiles;
      outputDir, outputFiles, excludeGlob := c.outputDir, c.outputFiles, c.excludeGlob;
    }
  }

  /** `acc` in front of a glob expansion; an error passes through. */
  function PrependMatches(acc: seq<Path>, r: Result<seq<Path>, Error>): Result<seq<Path>, Error>
  {
    if r.Err? then r else Ok(acc + r.value)
  }

  /** `acc` in front of prepared templates; an error passes through. */
  function PrependTemplates(acc: seq<Template>, r: Result<seq<Template>, Error>): Result<seq<Template>, Error>
  {
    if r.Err? then r else Ok(acc + r.value)
  }

  class Host {
    var fs: FileSystem
    var stdin: string
    const glob: Globber

    ghost predicate Valid()
      reads this
    {
      ValidFs(fs)
    }

    constructor (fs0: FileSystem, stdin0: string, glob0: Globber)
      requires ValidFs(fs0)
      ensures Valid() && fs == fs0 && stdin == stdin0 && glob == glob0
    {
      fs, stdin, glob := fs0, stdin0, glob0;
    }

    /** `executeCombinedGlob`. */
    method ExecuteCombinedGlob(globs: seq<Path>) returns (r: Result<seq<Path>, Error>)
      ensures r == CombinedGlob(glob, fs, globs)
    {
      var combined: seq<Path> := [];
      assert globs[0..] == globs;
      ghost var all := CombinedGlob(glob, fs, globs);
      assert all.Ok? ==> [] + all.value == all.value;
      for i := 0 to |globs|
        invariant CombinedGlob(glob, fs, globs) == PrependMatches(combined, CombinedGlob(glob, fs, globs[i..]))
      {
        assert globs[i..][0] == globs[i] && globs[i..][1..] == globs[i + 1..];
        var excludeList := glob(fs, globs[i]);
        if excludeList.Err? {
          return Err(excludeList.error);
        }
        ghost var rest := CombinedGlob(glob, fs, globs[i + 1..]);
        if rest.Ok? {
          assert combined + (excludeList.value + rest.value) == (combined + excludeList.value) + rest.value;
        }
        combined := combined + excludeList.value;
      }
      assert globs[|globs|..] == [];
      assert combined + [] == combined;
      return Ok(combined);
    }

    /** `walkDir`: stat, list, make the output directory, expand the patterns, then run the entry loop. */
    method WalkDir(dir: Path, outDir: Path, globs: seq<Path>) returns (r: Result<Lists, Error>)
      requires Valid() && !Related(dir, outDir)
      modifies this
      ensures Valid() && stdin == old(stdin)
      ensures Walked(fs, r) == Walk(old(fs), glob, dir, outDir, globs)
      decreases Under(fs, dir), 1
    {
      var si := Stat(fs, dir);
      if si.Err? {
        return Err(si.error);
      }
      var entries := ReadDir(fs, dir);
      if entries.Err? {
        return Err(entries.error);
      }
      WalkUnfold(fs, glob, dir, outDir, globs);
      MkdirAllKeepsValid(fs, outDir, si.value.mode);
      var made := MkdirAll(fs, outDir, si.value.mode);
      if made.Err? {
        return Err(made.error);
      }
      fs := made.value;
      var excludes := ExecuteCombinedGlob(globs);
      if excludes.Err? {
        return Err(excludes.error);
      }
      r := WalkEntryLoop(dir, outDir, excludes.value, entries.value);
    }

    /** The loop of `walkDir` over the listed entries, with the expanded excludes. */
    method WalkEntryLoop(dir: Path, outDir: Path, excludes: seq<Path>, es: seq<Entry>) returns (r: Result<Lists, Error>)
      requires Valid() && dir in fs && !Related(dir, outDir)
      modifies this
      ensures Valid() && stdin == old(stdin)
      ensures Walked(fs, r) == WalkEntries(old(fs), glob, dir, outDir, excludes, es)
      decreases Under(fs, dir), 0
    {
      ghost var fs1 := fs;
      var inFiles: seq<Path> := [];
      var outFiles: seq<Path> := [];
      var i := 0;
      LoopStart(fs1, glob, dir, outDir, excludes, es);
      while i < |es|
        invariant ValidFs(fs) && stdin == old(stdin)
        invariant Under(fs, dir) == Under(fs1, dir)
        invariant LoopInv(fs1, fs, glob, dir, outDir, excludes, es, i, Lists(inFiles, outFiles))
      {
        var name := es[i].name;
        var nextInPath := dir + [name];
        var nextOutPath := outDir + [name];
        var excluded := InList(excludes, nextInPath);
        if excluded {
          LoopFlat(fs1, fs, glob, dir, outDir, excludes, es, i, Lists(inFiles, outFiles));
          i := i + 1;
          continue;
        }
        if es[i].isDir {
          UnderShrinks(fs, dir, name);
          ChildUnrelated(dir, outDir, name);
          ghost var before := fs;
          var sub := WalkDir(nextInPath, nextOutPath, excludes);
          LoopSubdir(fs1, before, glob, dir, outDir, excludes, es, i, Lists(inFiles, outFiles), Walked(fs, sub));
          if sub.Err? {
            return Err(sub.error);
          }
          inFiles := inFiles + sub.value.inFiles;
          outFiles := outFiles + sub.value.outFiles;
        } else {
          LoopFlat(fs1, fs, glob, dir, outDir, excludes, es, i, Lists(inFiles, outFiles));
          inFiles := inFiles + [nextInPath];
          outFiles := outFiles + [nextOutPath];
        }
        i := i + 1;
      }
      LoopEnd(fs1, fs, glob, dir, outDir, excludes, es, Lists(inFiles, outFiles));
      return Ok(Lists(inFiles, outFiles));
    }

    /** `readInput`: "-" reads standard input to its end; any other name reads that file. */
    method ReadInput(filename: Path) returns (r: Result<string, Error>)
      requires Valid()
      modifies this`stdin
      ensures Valid()
      ensures filename == Dash ==> r == Ok(old(stdin)) && stdin == ""
      ensures filename != Dash ==> r == ReadFile(fs, filename) && stdin == old(stdin)
    {
      if filename == Dash {
        r := Ok(stdin);
        stdin := "";
      } else {
        r := ReadFile(fs, filename);
      }
    }

    /** `openOutFile`. */
    method OpenOutFile(filename: Path) returns (r: Result<Writer, Error>)
      requires Valid()
      modifies this`fs
      ensures Valid()
      ensures Opened(fs, r) == OpenForWrite(old(fs), filename)
    {
      OpenForWriteKeepsValid(fs, filename);
      var o := OpenForWrite(fs, filename);
      fs := o.fs;
      r := o.result;
    }

    /** `gatherTemplates`, with `tplate.loadContents` and `tplate.addTarget` as parameters. */
    method GatherTemplates(o: Options, load: Loader, target: Targeter) returns (r: Result<seq<Template>, Error>)
      requires Valid() && WalkAllowed(o.Value())
      modifies this, o
      ensures Valid() && stdin == old(stdin)
      ensures Gathered(fs, o.Value(), r) == Gather(old(fs), glob, load, target, old(o.Value()))
    {
      ghost var c := o.Value();
      var templates: seq<Template> := [];
      if o.input != "" {
        templates := [Template(ArgName, o.input, None)];
      }
      if o.inputDir.Some? {
        var walked := WalkDir(o.inputDir.value, o.outputDir, o.excludeGlob);
        if walked.Err? {
          o.inputFiles, o.outputFiles := [], [];
          return Err(walked.error);
        }
        o.inputFiles, o.outputFiles := walked.value.inFiles, walked.value.outFiles;
      }
      if |templates| == 0 {
        templates := NameTemplates(o.inputFiles);
      }
      if |o.outputFiles| == 0 {
        o.outputFiles := [Dash];
      }
      assert templates == Sources(c.input, o.inputFiles);
      r := PrepareTemplates(templates, o.outputFiles, load, target);
    }
  }

  /** The loop of `gatherTemplates` that names one template after each input file. */
  method NameTemplates(files: seq<Path>) returns (templates: seq<Template>)
    ensures templates == Sources("", files)
  {
    templates := seq(|files|, _ => Template([], "", None));
    for i := 0 to |templates|
      invariant |templates| == |files|
      invariant forall k | 0 <= k < i :: templates[k] == Template(files[k], "", None)
    {
      templates := templates[i := Template(files[i], "", None)];
    }
  }

  /** The loop of `gatherTemplates` that loads each template and gives it its output. */
  method PrepareTemplates(sources: seq<Template>, outs: seq<Path>, load: Loader, target: Targeter)
    returns (r: Result<seq<Template>, Error>)
    ensures r == Prepare(sources, outs, load, target, 0)
  {
    var templates := sources;
    assert Prepare(sources, outs, load, target, 0).Ok? ==>
      [] + Prepare(sources, outs, load, target, 0).value == Prepare(sources, outs, load, target, 0).value;
    for i := 0 to |templates|
      invariant |templates| == |sources| && templates[i..] == sources[i..]
      invariant Prepare(sources, outs, load, target, 0)
                == PrependTemplates(templates[..i], Prepare(sources, outs, load, target, i))
    {
      assert templates[i] == sources[i];
      var loaded := load(templates[i]);
      if loaded.Err? {
        return Err(loaded.error);
      }
      if i >= |outs| {
        return Err(IndexOutOfRange(i, |outs|));
      }
      var placed := target(loaded.value, outs[i]);
      if placed.Err? {
        return Err(placed.error);
      }
      ghost var rest := Prepare(sources, outs, load, target, i + 1);
      if rest.Ok? {
        assert templates[..i] + ([placed.value] + rest.value) == (templates[..i] + [placed.value]) + rest.value;
      }
      templates := templates[i := placed.value];
      assert templates[..i + 1] == templates[..i] + [placed.value];
      assert templates[i + 1..] == sources[i + 1..];
    }
    assert templates[..|templates|] == templates;
    assert templates + [] == templates;
    return Ok(templates);
  }
}
