/**
  The template-gathering layer of gomplate's command: `gatherTemplates`,
  `walkDir`, `inList`, `executeCombinedGlob`, `readInput` and `openOutFile`.

  The functions below give the meaning of each operation over a filesystem
  value; the class `Process.Host` holds the process-wide filesystem and
  standard input and runs the operations step by step against them.
*/
module Templates {
  import opened Wrappers
  import opened Fs

  /** The name of the standard streams. */
  const Dash: Path := ["-"]

  /** The name given to a template passed inline on the command line. */
  const ArgName: Path := ["<arg>"]

  /** `afero.Glob`: expands one pattern against the filesystem, or fails. */
  type Globber = (FileSystem, Path) -> Result<seq<Path>, Error>

  // ---------------------------------------------------------------- inList

  /** `inList`: a linear scan for an exactly equal entry. */
  method InList(list: seq<Path>, entry: Path) returns (found: bool)
    ensures found <==> entry in list
  {
    for i := 0 to |list|
      invariant entry !in list[..i]
    {
      if list[i] == entry {
        return true;
      }
    }
    assert list[..|list|] == list;
    return false;
  }

  // --------------------------------------------------- executeCombinedGlob

  /** The matches of every pattern, concatenated in pattern order; the first failing pattern's error. */
  function CombinedGlob(glob: Globber, fs: FileSystem, patterns: seq<Path>): (r: Result<seq<Path>, Error>)
    ensures r.Ok? ==> forall i | 0 <= i < |patterns| :: glob(fs, patterns[i]).Ok?
    ensures r.Err? ==> exists i | 0 <= i < |patterns| :: glob(fs, patterns[i]) == Err(r.error)
  {
    if patterns == [] then Ok([])
    else
      match glob(fs, patterns[0])
      case Err(e) => Err(e)
      case Ok(matches) =>
        match CombinedGlob(glob, fs, patterns[1..])
        case Err(e) =>
          ghost var i :| 0 <= i < |patterns[1..]| && glob(fs, patterns[1..][i]) == Err(e);
          assert glob(fs, patterns[i + 1]) == Err(e);
          Err(e)
        case Ok(rest) =>
          assert forall i | 0 < i < |patterns| :: patterns[i] == patterns[1..][i - 1];
          Ok(matches + rest)
  }

  // ---------------------------------------------------------------- walkDir

  /** The two index-aligned lists `walkDir` returns. */
  datatype Lists = Lists(inFiles: seq<Path>, outFiles: seq<Path>)

  /** The filesystem after a walk, and the walk's lists or error. */
  datatype Walked = Walked(fs: FileSystem, result: Result<Lists, Error>)

  /** Puts `acc` in front of a walk's lists; an error passes through. */
  function Prepend(acc: Lists, w: Walked): Walked
  {
    match w.result
    case Err(_) => w
    case Ok(l) => Walked(w.fs, Ok(Lists(acc.inFiles + l.inFiles, acc.outFiles + l.outFiles)))
  }

  /**
    `walkDir(dir, outDir, globs)`: stat and list `dir`, create `outDir` with
    `dir`'s mode, expand `globs`, then walk the entries.  The input and output
    trees must be apart (see README).
  */
  function Walk(fs: FileSystem, glob: Globber, dir: Path, outDir: Path, globs: seq<Path>): (w: Walked)
    requires !Related(dir, outDir)
    ensures FramedBy(fs, w.fs, outDir) && Grows(fs, w.fs)
    decreases Under(fs, dir), 1
  {
    match Stat(fs, dir)
    case Err(e) => Walked(fs, Err(e))
    case Ok(info) =>
      match ReadDir(fs, dir)
      case Err(e) => Walked(fs, Err(e))
      case Ok(entries) =>
        match MkdirAll(fs, outDir, info.mode)
        case Err(e) => Walked(fs, Err(e))
        case Ok(fs1) =>
          OnlyAboveFramed(fs, fs1, outDir);
          UnderFramed(fs, fs1, dir, outDir);
          assert dir in fs1 by { assert Agree(fs, fs1, dir); }
          match CombinedGlob(glob, fs1, globs)
          case Err(e) => Walked(fs1, Err(e))
          case Ok(excludes) =>
            var w := WalkEntries(fs1, glob, dir, outDir, excludes, entries);
            FramedTrans(fs, fs1, w.fs, outDir);
            GrowsTrans(fs, fs1, w.fs);
            w
  }

  /** The loop of `walkDir` over the listed entries, with the already expanded excludes. */
  function WalkEntries(fs: FileSystem, glob: Globber, dir: Path, outDir: Path,
                       excludes: seq<Path>, entries: seq<Entry>): (w: Walked)
    requires dir in fs && !Related(dir, outDir)
    ensures FramedBy(fs, w.fs, outDir) && Grows(fs, w.fs)
    decreases Under(fs, dir), 0, |entries|
  {
    if entries == [] then Walked(fs, Ok(Lists([], [])))
    else
      var inPath := dir + [entries[0].name];
      var outPath := outDir + [entries[0].name];
      if inPath in excludes then
        WalkEntries(fs, glob, dir, outDir, excludes, entries[1..])
      else if entries[0].isDir then
        UnderShrinks(fs, dir, entries[0].name);
        ChildUnrelated(dir, outDir, entries[0].name);
        var sub := Walk(fs, glob, inPath, outPath, excludes);
        FramedWiden(fs, sub.fs, outDir, entries[0].name);
        UnderFramed(fs, sub.fs, dir, outDir);
        assert dir in sub.fs by { assert Agree(fs, sub.fs, dir); }
        match sub.result
        case Err(_) => sub
        case Ok(l) =>
          var rest := WalkEntries(sub.fs, glob, dir, outDir, excludes, entries[1..]);
          FramedTrans(fs, sub.fs, rest.fs, outDir);
          GrowsTrans(fs, sub.fs, rest.fs);
          Prepend(l, rest)
      else
        Prepend(Lists([inPath], [outPath]), WalkEntries(fs, glob, dir, outDir, excludes, entries[1..]))
  }

  // ------------------------------------------------------ gatherTemplates

  /** A template as gathered: its source name, its contents and its destination. */
  datatype Template = Template(name: Path, contents: string, target: Option<Path>)

  /** `tplate.loadContents`, which the model does not see. */
  type Loader = Template -> Result<Template, Error>

  /** `tplate.addTarget`, which the model does not see. */
  type Targeter = (Template, Path) -> Result<Template, Error>

  /** The options `gatherTemplates` reads; it overwrites the two file lists. */
  datatype Config = Config(
    input: string,
    inputDir: Option<Path>,
    inputFiles: seq<Path>,
    outputDir: Path,
    outputFiles: seq<Path>,
    excludeGlob: seq<Path>)

  /** The trees a configured directory walk mirrors are apart. */
  predicate WalkAllowed(c: Config)
  {
    c.inputDir.Some? ==> !Related(c.inputDir.value, c.outputDir)
  }

  /** The templates before loading: the inline one, or one per input file. */
  function Sources(input: string, files: seq<Path>): seq<Template>
  {
    if input != "" then [Template(ArgName, input, None)]
    else seq(|files|, i requires 0 <= i < |files| => Template(files[i], "", None))
  }

  /**
    The loop of `gatherTemplates` from template `i` on: load it, then give it
    output `i`; indexing past the outputs is Go's runtime panic.
  */
  function Prepare(ts: seq<Template>, outs: seq<Path>, load: Loader, target: Targeter, i: nat)
    : (r: Result<seq<Template>, Error>)
    requires i <= |ts|
    ensures r.Ok? ==> |r.value| == |ts| - i
    decreases |ts| - i
  {
    if i == |ts| then Ok([])
    else
      match load(ts[i])
      case Err(e) => Err(e)
      case Ok(t) =>
        if i >= |outs| then Err(IndexOutOfRange(i, |outs|))
        else
          match target(t, outs[i])
          case Err(e) => Err(e)
          case Ok(placed) =>
            match Prepare(ts, outs, load, target, i + 1)
            case Err(e) => Err(e)
            case Ok(rest) => Ok([placed] + rest)
  }

  /** The filesystem, the options and the templates after `gatherTemplates`. */
  datatype Gathered = Gathered(fs: FileSystem, config: Config, result: Result<seq<Template>, Error>)

  /** The input and output lists: walked from the input directory when one is given, else as configured. */
  function Inputs(fs: FileSystem, glob: Globber, c: Config): Walked
    requires WalkAllowed(c)
  {
    if c.inputDir.Some? then Walk(fs, glob, c.inputDir.value, c.outputDir, c.excludeGlob)
    else Walked(fs, Ok(Lists(c.inputFiles, c.outputFiles)))
  }

  /**
    `gatherTemplates`: the inline template or one per input file, each
    loaded and given the output at its index ("-" when none is configured).
  */
  function Gather(fs: FileSystem, glob: Globber, load: Loader, target: Targeter, c: Config): (g: Gathered)
    requires WalkAllowed(c)
    ensures g.config.(inputFiles := c.inputFiles, outputFiles := c.outputFiles) == c
    ensures c.inputDir.None? ==> g.fs == fs && g.config.inputFiles == c.inputFiles
    ensures g.result.Ok? ==>
      && g.config.outputFiles != []
      && |g.result.value| == if c.input != "" then 1 else |g.config.inputFiles|
  {
    var walked := Inputs(fs, glob, c);
    match walked.result
    case Err(e) => Gathered(walked.fs, c.(inputFiles := [], outputFiles := []), Err(e))
    case Ok(l) =>
      var c1 := c.(inputFiles := l.inFiles, outputFiles := l.outFiles);
      var c2 := if c1.outputFiles == [] then c1.(outputFiles := [Dash]) else c1;
      var ts := Sources(c.input, c1.inputFiles);
      Gathered(walked.fs, c2, Prepare(ts, c2.outputFiles, load, target, 0))
  }

  // ------------------------------------------------ readInput, openOutFile

  /** `readInput` on a name other than "-": open, then read everything. */
  function ReadFile(fs: FileSystem, p: Path): (r: Result<string, Error>)
    ensures r.Ok? <==> IsFile(fs, p)
    ensures r.Ok? ==> r.value == fs[p].contents
    ensures r.Err? ==> (r.error.OpenFailed? || r.error.ReadFailed?) && r.error.path == p
  {
    if p !in fs then Err(OpenFailed(p, NotExist(p)))
    else if fs[p].Dir? then Err(ReadFailed(p, IsADirectory(p)))
    else Ok(fs[p].contents)
  }

  /** Where `openOutFile` sends the output. */
  datatype Writer = Stdout | FileWriter(path: Path)

  datatype Opened = Opened(fs: FileSystem, result: Result<Writer, Error>)

  /** `openOutFile`: "-" is standard output; a file is opened read-write, created or truncated. */
  function OpenForWrite(fs: FileSystem, p: Path): (o: Opened)
    ensures o.result.Err? ==> o.fs == fs
    ensures o.result.Ok? ==> (p == Dash <==> o.result.value == Stdout)
    ensures o.result.Ok? && p != Dash ==>
      o.result.value == FileWriter(p) && IsFile(o.fs, p) && o.fs[p].contents == ""
  {
    if p == Dash then Opened(fs, Ok(Stdout))
    else if p in fs then
      if fs[p].Dir? then Opened(fs, Err(IsADirectory(p)))
      else Opened(fs[p := File(fs[p].mode, "")], Ok(FileWriter(p)))
    else if p == [] then Opened(fs, Err(NotExist(p)))
    else if IsDir(fs, Parent(p)) then Opened(AddChild(fs, p, File(CreateMode, "")), Ok(FileWriter(p)))
    else if Parent(p) in fs then Opened(fs, Err(NotADirectory(Parent(p))))
    else Opened(fs, Err(NotExist(p)))
  }
}
