# gomplate template gathering, modelled in Dafny

This project models the layer of gomplate's command that decides what to render and where to write it (`cmd/gomplate/template.go`):

- `gatherTemplates` picks the input mode. A non-empty inline template becomes a single template named `<arg>`. Otherwise there is one template per input file, or per file found by walking an input directory. Each template is then loaded and given the output at its index, with `-` as the output when none is configured.
- `walkDir` mirrors an input directory tree into an output tree. It stats and lists the input directory, creates the output directory with the input's mode, and expands the exclude patterns. It then goes through the entries in listing order: an excluded path is skipped, a subdirectory is walked recursively, and a file is paired with its output path.
- `inList` tests exact membership. `executeCombinedGlob` expands each pattern in turn and appends the matches.
- `readInput` reads standard input for `-` and a file otherwise. `openOutFile` returns standard output for `-`; otherwise it creates or truncates the file.

The model has these parts:

- **Paths** are sequences of segments, so `filepath.Join` is concatenation and `filepath.Clean` has nothing left to do. The path `[]` is `.`, and `["-"]` is the name of the standard streams.
- **The filesystem** is a map from paths to nodes. A node is a file (mode, contents) or a directory (mode, names in listing order). The names of a directory stand for the sorted listing `afero.ReadDir` returns; creating a node appends its name at the end, and no modelled operation lists a directory after adding to it. `ValidFs` states that the map is a tree: the root is a directory, every other node is listed by its parent directory, and listings hold no duplicates and only existing children.
- **`Templates`** gives each operation as a function over a filesystem value. `afero.Glob`, `tplate.loadContents` and `tplate.addTarget` are function parameters.
- **`Process.Host`** is a class holding the process-wide filesystem and standard input that the Go code keeps in globals. Its methods run the operations step by step: loops for `executeCombinedGlob` and the walk, and the recursive `walkDir`. The `inList` loop is the method `Templates.InList`, and the loops of `gatherTemplates` are `Process.NameTemplates` and `Process.PrepareTemplates`. Each method is proved to produce exactly the value and the new state that the matching `Templates` function gives.
- **`Listing.Files`** is an independent reference: the depth-first listing of a tree with excluded subtrees cut off. The walk is proved to list exactly this. With nothing excluded, it lists every file exactly once.
- **`WalkRerun`** proves the walk idempotent: a second walk over the filesystem the first one left behind finds every output directory in place, changes nothing and lists the same pairs.

Four behaviours of the code are easy to miss. The model follows the code in each:

- The directory walk runs even when an inline template is given. It overwrites the configured file lists, and the inline template then takes its output from the walk's result.
- A failed walk still overwrites both configured file lists, with the nil lists `walkDir` returns beside its error, so the options are left with empty lists.
- There is no check that the outputs are as many as the templates. Indexing past the outputs is a Go runtime panic. The model makes it the explicit error `IndexOutOfRange(i, n)`, raised after template `i` has loaded and before it is targeted.
- The expanded excludes are handed to each recursive call as patterns and expanded again there, rather than once for the whole walk. `WalkListing.Literal` states when this changes nothing: each exclude, expanded as a pattern in a state that holds it, yields just itself, as `afero.Glob` does for a name without pattern characters.

## Model

| member | source | states |
|---|---|---|
| Templates.InList | cmd/gomplate/template.go:111-119 | the scan answers true exactly when the entry is equal to some element of the list |
| Templates.CombinedGlob | cmd/gomplate/template.go:151-163 | the combined expansion succeeds only when every pattern expands, and a failure carries the error of one of the patterns; `GlobProofs.CombinedGlobOk`, `CombinedGlobMembers` and `CombinedGlobFirstError` say exactly which matches and which error |
| Process.Host.ExecuteCombinedGlob | cmd/gomplate/template.go:151-163 | the accumulating loop returns the combined expansion `CombinedGlob`, including its first error |
| GlobProofs.CombinedGlobOk | cmd/gomplate/template.go:151-163 | the combined expansion succeeds exactly when every pattern expands, and is then the matches appended one pattern after the other from the left |
| GlobProofs.CombinedGlobMembers | cmd/gomplate/template.go:151-163 | a path is in the combined expansion exactly when some pattern matches it |
| GlobProofs.CombinedGlobFirstError | cmd/gomplate/template.go:153-157 | a failed expansion returns the error of the first failing pattern, and every earlier pattern expanded |
| Fs.Stat | cmd/gomplate/template.go:67-70 | stat succeeds exactly on an existing path and returns its node; otherwise it fails with "not exist" |
| Fs.ReadDir | cmd/gomplate/template.go:72-75 | listing succeeds exactly on a directory and gives one entry per name, in order, each marked as directory or not; it fails on a file and on a missing path |
| Fs.MkdirAll | cmd/gomplate/template.go:77-79 | on success the path is a directory; changes happen only at its prefixes; nothing is lost; every new node is a directory with the given mode; an existing directory leaves the filesystem unchanged |
| Fs.MkdirAllFails | cmd/gomplate/template.go:77-79 | on a tree, creating the output directory fails exactly when a file lies on the way to it |
| Fs.MkdirAllKeepsValid | cmd/gomplate/template.go:77 | creating the output directory keeps the filesystem a tree |
| Templates.Walk | cmd/gomplate/template.go:63-109 | the walk changes only paths on the output directory's line, loses no node, leaves files alone, and only appends to directory listings |
| Templates.WalkEntries | cmd/gomplate/template.go:86-108 | the entry loop has the same frame: only the output tree changes, and it only grows |
| Process.Host.WalkDir | cmd/gomplate/template.go:63-109 | the recursive method leaves the filesystem and the lists exactly as `Walk` gives them, keeps the tree valid and leaves standard input alone |
| Process.Host.WalkEntryLoop | cmd/gomplate/template.go:86-108 | the entry loop, with its recursive calls, leaves the filesystem and the lists exactly as `WalkEntries` gives them, keeps the tree valid and leaves standard input alone |
| WalkProofs.WalkKeepsValid | cmd/gomplate/template.go:63-109 | the walk keeps the filesystem a tree |
| WalkProofs.WalkOutcome | cmd/gomplate/template.go:67-84 | a missing input fails with "not exist" and an input file fails with "not a directory", both before anything is created; a file on the way to the output fails the walk with the filesystem unchanged; otherwise the output directory exists afterwards, even if the expansion fails later; an empty directory gives two empty lists |
| WalkProofs.MkdirAllError | cmd/gomplate/template.go:77-79 | creating a directory fails only with "not a directory" |
| WalkProofs.WalkOutDirs | cmd/gomplate/template.go:77-106 | after a successful walk, the parent directory of every listed output path exists |
| WalkListing.WalkPairs | cmd/gomplate/template.go:86-106 | whatever the patterns do, each listed input path lies strictly below the input directory, and the output list is the input list with each path rebased onto the output directory: equal lengths, same relative paths |
| WalkListing.WalkLists | cmd/gomplate/template.go:81-107 | when the patterns expand, where the walk expands them, to existing literal paths, a successful walk lists exactly the reference depth-first listing `Listing.Files` of the input tree, in listing order, each path paired with its rebased output path |
| WalkListing.WalkExcludes | cmd/gomplate/template.go:81-106 | when the patterns expand, where the walk expands them, to existing literal paths, the walk lists no excluded path and no directory, lists each file once, and lists exactly the files outside every excluded subtree |
| WalkListing.WalkListsTree | cmd/gomplate/template.go:88-107 | with no excludes, a successful walk lists every file of the tree exactly once, so it lists as many pairs as the tree has files |
| WalkListing.CombinedGlobLiteral | cmd/gomplate/template.go:151-163 | patterns that each match just themselves expand to themselves |
| WalkListing.LiteralExpands | cmd/gomplate/template.go:97 | literal excludes handed down as patterns expand to the same excludes in every state of the filesystem that holds them |
| WalkListing.ExactExcludes | cmd/gomplate/template.go:81-84 | exclude patterns naming existing paths, expanded as `afero.Glob` expands a name without pattern characters (itself when it exists, nothing otherwise), meet the hypotheses of `WalkLists`, `WalkExcludes`, `WalkMirrors` and `WalkStill` |
| WalkRerun.WalkMirrors | cmd/gomplate/template.go:77-102 | after a successful walk whose patterns expand to existing literal paths, every input directory outside the excluded subtrees has its output directory |
| WalkRerun.WalkStill | cmd/gomplate/template.go:63-109 | over an input tree whose output directories all exist, with patterns that expand there to existing literal paths, the walk succeeds and changes nothing |
| WalkRerun.WalkIdempotent | cmd/gomplate/template.go:63-109 | on a tree, when the patterns expand to the same existing literal paths on both walks, walking again over what a successful walk left behind succeeds, changes nothing and lists the same pairs |
| WalkRerun.WalkIdempotentLiteral | cmd/gomplate/template.go:63-109 | on a tree, exclude patterns that are existing literal paths give an idempotent walk: the second walk succeeds, changes nothing and lists the same pairs |
| Listing.FilesOfTree | cmd/gomplate/template.go:88-107 | the reference listing with nothing excluded holds exactly the files below the directory, each once |
| Listing.FilesExcluded | cmd/gomplate/template.go:92-106 | the reference listing with excludes holds exactly the files outside every excluded subtree, each once, and no excluded path |
| Listing.FilesComplete | cmd/gomplate/template.go:88-106 | every file below the directory that no exclude covers is listed |
| Templates.Prepare | cmd/gomplate/template.go:47-55 | a successful preparation yields one template for each template it was given; `GatherProofs.PrepareOk` and `PrepareFirstError` say which templates and which error |
| Templates.Gather | cmd/gomplate/template.go:19-58 | gathering changes no option but the two file lists; without an input directory it leaves the filesystem and the input files alone; on success there is an output and there are as many templates as input files, or one for an inline template; `GatherProofs.GatherWalkFails`, `GatherTemplatesOk` and `GatherOutputsCover` give the rest |
| GatherProofs.PrepareOk | cmd/gomplate/template.go:47-55 | preparing succeeds exactly when every template loads, has an output at its index and accepts it, and then yields each template loaded and targeted, in order |
| GatherProofs.PrepareFirstError | cmd/gomplate/template.go:47-55 | a failed preparation reports the load error, missing output or target error of the first template that cannot be placed |
| GatherProofs.GatherWalkFails | cmd/gomplate/template.go:29-34 | only a directory walk can fail before loading; its error ends the gathering, both file lists are left empty as Go's tuple assignment leaves them nil, every other option is kept, and the filesystem is as the walk left it; a missing input directory fails with "not exist" and changes nothing |
| GatherProofs.GatherTemplatesOk | cmd/gomplate/template.go:19-58 | the options take the walked lists and default to the output "-"; an inline template gives exactly one template named `<arg>` and ignores the files; otherwise there is one template per input file, in order; the result succeeds exactly when every template can be placed, and then holds them all |
| GatherProofs.GatherOutputsCover | cmd/gomplate/template.go:21-52 | with an inline template or a directory walk there is an output for every template, so gathering fails only in loading or targeting |
| Process.Host.GatherTemplates | cmd/gomplate/template.go:19-58 | the method leaves the options, the filesystem and the result as `Gather` gives them, keeps the tree valid and leaves standard input alone |
| Process.NameTemplates | cmd/gomplate/template.go:36-41 | the naming loop makes one template per input file, named by that file, in order |
| Process.PrepareTemplates | cmd/gomplate/template.go:47-57 | the load-and-target loop returns what `Prepare` gives, including the first error |
| Templates.ReadFile | cmd/gomplate/template.go:133-146 | reading a name other than "-" succeeds exactly on a file and returns its exact contents; an error names the file |
| Process.Host.ReadInput | cmd/gomplate/template.go:128-147 | "-" returns all of standard input and consumes it without touching the filesystem; any other name reads that file |
| Templates.OpenForWrite | cmd/gomplate/template.go:121-126 | a failed open changes nothing; a successful one returns standard output exactly for "-", and otherwise a writer on the path, which is then an empty file; `StreamProofs.OpenForWriteEffect` says which nodes change |
| Process.Host.OpenOutFile | cmd/gomplate/template.go:121-126 | the method leaves the filesystem and the writer as `OpenForWrite` gives them and keeps the tree valid |
| StreamProofs.OpenForWriteEffect | cmd/gomplate/template.go:121-126 | "-" is standard output and changes nothing; a failure changes nothing; opening succeeds exactly on a file or on a new path whose parent is a directory; success leaves the file existing and empty, adds a new file to its parent's listing and changes no other node |
| StreamProofs.OpenForWriteKeepsValid | cmd/gomplate/template.go:125 | creating or truncating an output keeps the filesystem a tree |
| Process.Host.constructor | cmd/gomplate/template.go:14-16 | the process state starts from the given filesystem, standard input and glob function |

## Left out

- Templates.Walk, Process.Host.WalkDir and Templates.Gather require that neither the input nor the output directory lies inside the other. When the output lies inside the input, the walk creates directories in the tree it is reading and can recurse without end, so the model has no terminating meaning for it. The other direction, an input inside the output or equal to it, terminates in the code, because each listing is read before anything is created; it is excluded only because the termination argument of the model (the input subtree never changes) does not cover it. In particular a walk into an unset output directory, which `filepath.Clean` turns into `.`, is not modelled.
- `afero.Glob` pattern semantics: the glob is a parameter.
- WalkListing.WalkLists, WalkListing.WalkExcludes, WalkRerun.WalkMirrors and WalkRerun.WalkStill assume that the first-level patterns, expanded in the state where the walk expands them, yield paths that exist there and that expand to themselves again wherever they exist (`WalkListing.ExpandsTo`, `WalkListing.Literal`). `afero.Glob` behaves so on names without pattern characters, and any wildcard pattern yields existing paths; a match whose own name holds pattern characters is not covered. `WalkListing.WalkPairs` and `WalkProofs.WalkOutDirs` hold for any glob.
- WalkRerun.WalkIdempotent also assumes that the patterns expand to the same paths on the second walk. A wildcard that also matches the output directories the first walk made breaks this, and then the lemma states nothing. `WalkRerun.WalkIdempotentLiteral` discharges both assumptions for literal exclude paths.
- `filepath.Clean` and `filepath.Join` normalisation (`..`, repeated separators, absolute paths): paths are segment sequences.
- Real OS file modes and permission checks: a mode is a number that is carried over and never checked. Creating a file uses 0644.
- Operating-system I/O failures, such as a failing read of an open file or of standard input: the model's only errors are the structural ones (missing path, file in the way, directory in the way).
- `tplate.loadContents` and `tplate.addTarget`: they are not part of this model. They are pure fallible function parameters, and whatever they do to the filesystem or to standard input is not modelled.
- The bytes written to standard output or to an opened file: `openOutFile` is modelled up to creating or truncating the file and returning the writer.
- The process-wide globals `fs` and `stdin` are fields of one `Process.Host` object (beside the glob function) rather than globals that tests swap; `stdout` is the writer value `Templates.Writer.Stdout`.
- file/file.go is not part of this model: it repeats the file branch of `readInput`.
- The integration tests (datasource backends, vault and consul servers, the test harness) start external processes and servers and are not part of this model.
