# gocal in Dafny

gocal checks that a Go module keeps to a layered ("clean") architecture.
A configuration file lists the layers, one per line, innermost first. The
module path comes from `go.mod`. gocal reads both, joins the module path
and each layer name into that layer's import path, and then walks the
directory of every layer but the last. It parses the import section of
every Go file it finds and removes the double quotes from each import.
It prints one line for every pair of an import and a later layer where
the import starts with that layer's import path. An import that starts
with the paths of two later layers gives two lines. The last layer is
never checked as a layer of its own, so it may import anything.

This project models that decision procedure and proves its properties:

- `GoStrings` (`go_strings.dfy`) holds the `strings` functions the program
  calls: `HasPrefix`, `HasSuffix`, `ReplaceAll` and `Split`, on strings as
  character sequences. `Join`, `Contains` and `Count` are helpers used only
  to state properties; the program does not call them. The module proves
  the two round trips between `Split` and `Join`.
- `Config` (`config.dfy`) models `getLayerModules`: CR LF becomes LF, then
  the content is split on LF. Empty lines are layers too. So a final line
  feed adds an empty last layer, and that layer counts toward the minimum
  of two.
- `Checker` (`checker.dfy`) models `checkModuleImports`. The walk is an
  input: a function from a root directory to the entries visited, in order.
  Each entry gives a path, a walk-error flag, a directory flag and the
  parse result (a failure or the raw import literals). The method
  `CheckModuleImports` and its callback `VisitEntry` keep the source's
  three nested loops (entries, imports, forbidden paths). Each appends its
  printed lines to a sequence and is proved equal to the functions
  `ModuleLines` and `EntryLines`. The lemmas about those functions prove
  three things. A file is reported against a forbidden path exactly when
  one of its cleaned imports starts with that path as a string. Each
  matching (import, forbidden path) pair gives exactly one report, in
  import order and then forbidden-path order. A failing entry changes
  nothing that its siblings print.
- `Layers` (`layers.dfy`) models `main`. `QualifyLayers` fills a new array
  with `modulePath + "/" + layer`, as the source does. `Run` returns one of
  three configuration errors (exit status 1) or `Completed` with every line
  printed (exit status 0, whether or not violations were found). `Run` is
  proved equal to the function `Outcome`. The lemmas say which layers are
  checked and against which paths. They also say that the run depends on
  the tree only at the walk roots of the layers before the last. The last
  layer is never walked as a root of its own. Its files are still checked
  when an earlier layer has the same name, or when an earlier layer's
  directory contains the last layer's directory.
- `Scenarios` (`scenarios.dfy`) holds whole runs for the module `m` with
  the layers `domain`, `usecase` and `infra`.

Two facts well worth knowing are proved rather than assumed:

- Normalising line endings can leave a CR LF pair behind: `"\r\r\n"`
  becomes `"\r\n"`. This happens exactly when the content holds CR CR LF.
  The first CR then stays at the end of a layer name.
- The empty layer after a final line feed has the import path
  `modulePath + "/"`. That path is forbidden for every other layer, so
  every import of one of the module's own packages is reported, even in
  the layer before the empty one.

The model is deterministic, so checking an unchanged tree twice gives the
same lines.

## Model

| member | source | states |
|---|---|---|
| `GoStrings.Split` | gocal.go:73 | splitting on LF gives one more piece than the content has line feeds, and no piece holds a line feed |
| `GoStrings.JoinSplit` | gocal.go:73 | joining the pieces with LF gives back the split content |
| `GoStrings.SplitJoin` | gocal.go:73 | splitting a LF-join of LF-free lines gives back the lines |
| `GoStrings.SplitEndsEmpty` | gocal.go:73 | content ending in LF splits into pieces whose last one is empty |
| `Config.LayerModules` | gocal.go:72-73 | number of layers is the number of LF in the raw file plus one; no layer holds LF; the layers joined with LF are the CRLF-normalised content |
| `Config.NormalizeKeepsLineFeeds` | gocal.go:72 | replacing CR LF by LF keeps the number of line feeds |
| `Config.CrlfSurvivesOnlyAfterCr` | gocal.go:72 | the normalised content holds CR LF iff the raw content holds CR CR LF |
| `Config.CrlfCanSurvive` | gocal.go:72 | "\r\r\n" normalises to "\r\n" |
| `Config.NormalizeWithoutCr` | gocal.go:72 | content without CR is unchanged by normalisation |
| `Config.NormalizeKeepsFinalLf` | gocal.go:72 | content ending in LF still ends in LF after normalisation |
| `Config.TrailingLineFeedAddsEmptyLayer` | gocal.go:72-73 | a configuration ending in LF has at least two layers and an empty last layer |
| `Config.LayersOfLines` | gocal.go:72-73 | LF-joined lines without CR or LF read back as exactly those layers |
| `Checker.WalkRoot` | gocal.go:79-81 | walked directory never starts with "/"; it is the layer name, or "." before it exactly when the name starts with "/" |
| `Checker.CheckModuleImports` | gocal.go:78-111 | output of the walk loop is the lines of every visited entry, in walk order |
| `Checker.VisitEntry` | gocal.go:83-109 | callback prints a traversal diagnostic on a walk error, nothing for a directory or non-".go" path, a parse diagnostic on a parse failure, otherwise one report per matching (import, forbidden) pair |
| `Checker.NoQuoteLeft` | gocal.go:100 | cleaned import contains no double quote |
| `Checker.StripQuotesKeepsQuoteFree` | gocal.go:100 | literal without double quotes, e.g. a backquoted one, is left as it is |
| `Checker.StripQuotesConcat` | gocal.go:100 | quote stripping distributes over concatenation |
| `Checker.Unquote` | gocal.go:100 | stripping `"` + s + `"` gives s when s has no quote |
| `Checker.MatchesIffPrefix` | gocal.go:101-104 | report (file, f) for an import exists iff f is forbidden and a string prefix of the cleaned import |
| `Checker.PrefixIgnoresSegments` | gocal.go:102 | import m/infra2 is reported against forbidden m/infra |
| `Checker.RowPairsEnumerate` | gocal.go:101-104 | matching forbidden indices of one import, each once, increasing |
| `Checker.MatchPairsEnumerate` | gocal.go:99-106 | pair list holds exactly the matching (import, forbidden) index pairs, strictly ordered by import then forbidden index |
| `Checker.MatchesFollowRow` | gocal.go:101-104 | reports of one import correspond one to one, in order, to its matching forbidden indices |
| `Checker.ImportLinesFollowPairs` | gocal.go:99-106 | file's reports are one per matching pair, in pair order, so their number is the number of matching pairs |
| `Checker.ImportLinesIff` | gocal.go:99-106 | file reports (file, f) iff f is forbidden and some cleaned import starts with f; a file reports nothing under another path |
| `Checker.EntryLinesIff` | gocal.go:84-97 | unchecked entry prints at most one diagnostic and no violation; an entry prints (p, f) iff it is a parsed ".go" file at p with an import starting with forbidden f |
| `Checker.ConcatMapConcat` | gocal.go:83 | printing over two entry sequences is printing over each in turn |
| `Checker.ConcatMapIff` | gocal.go:83 | a line is printed over a sequence iff some element prints it |
| `Checker.WalkLinesConcat` | gocal.go:83-109 | walk output over xs + ys is the output over xs followed by that over ys |
| `Checker.WalkIsolatesEntries` | gocal.go:84-97 | each entry's lines appear whole between those of the entries before and after it, whatever those are |
| `Checker.WalkLinesIff` | gocal.go:83-109 | a line is printed by the walk iff some entry prints it |
| `Checker.WalkViolationIff` | gocal.go:83-109 | walk reports (p, f) iff some entry is a checked file at p importing below f |
| `Checker.ConcatMapCongruence` | gocal.go:49-52 | element-wise equal outputs give equal concatenations |
| `Layers.QualifyLayers` | gocal.go:43-46 | new array with one entry per layer; entry i is modulePath + "/" + layer i |
| `Layers.Run` | gocal.go:22-53 | run stops with a module-path, configuration or too-few-layers error in that order, otherwise prints the checks' lines, equal to Outcome |
| `Layers.TooFewLayersIff` | gocal.go:38-41 | run stops with TooFewLayers, for every tree, exactly when the configuration has no line feed |
| `Layers.PlanChecksAllButLast` | gocal.go:48-52 | exactly the layers 0..n-2 are checked, in order; layer i is checked against the n-1-i paths of layers i+1..n-1, the last layer's among them |
| `Layers.QualifyInjective` | gocal.go:45 | two layers with the same import path have the same name |
| `Layers.ForbiddenIffLater` | gocal.go:48-52 | with distinct names, layer j's path is forbidden for layer i iff j > i, so never itself or an earlier layer |
| `Layers.LastLayerExempt` | gocal.go:48-49 | trees that agree on the directories of all layers but the last give the same run |
| `Layers.RunViolationIff` | gocal.go:48-52 | completed run reports (p, f) iff for some non-last layer i a checked file at p in its walk imports below f, and f is the path of a layer after i |
| `Layers.TrailingLineFeedForbidsModule` | gocal.go:43-52 | after a final line feed every check forbids modulePath + "/" |
| `Scenarios.LayeredLayers` | gocal.go:72-73 | "domain\nusecase\ninfra" gives the layers domain, usecase, infra |
| `Scenarios.LayeredIsLayered` | gocal.go:72-73 | the constant configuration Layered is one the runs below apply to, giving domain, usecase, infra |
| `Scenarios.LayeredPlan` | gocal.go:43-52 | those layers give the checks domain against [m/usecase, m/infra] and usecase against [m/infra] |
| `Scenarios.LayeredRun` | gocal.go:48-52 | run on those layers is the domain check's output and then the usecase check's |
| `Scenarios.GoFileLines` | gocal.go:88-106 | a ".go" file importing one double-quoted path reports the matches of that path |
| `Scenarios.DomainWalkA` | gocal.go:99-106 | domain's file importing m/infra reports m/infra and not m/usecase |
| `Scenarios.DomainImportsInfra` | gocal.go:48-52 | domain importing m/infra gives exactly one report, against m/infra |
| `Scenarios.UsecaseWalkB` | gocal.go:99-106 | usecase's file importing m/domain reports nothing against m/infra |
| `Scenarios.UsecaseImportsDomain` | gocal.go:48-52 | usecase importing m/domain gives no report |
| `Scenarios.InfraImportsAll` | gocal.go:48-49 | infra importing every layer gives no report |
| `Scenarios.SingleLayer` | gocal.go:38-41 | a one-line configuration stops with TooFewLayers |
| `Scenarios.DomainWalkE` | gocal.go:92-97 | file that fails to parse prints its diagnostic, and its sibling's violation follows |
| `Scenarios.BrokenSibling` | gocal.go:92-97 | whole run with that tree prints the parse diagnostic and the sibling's one violation |

## Left out

- `getModulePath` (gocal.go:56-63): the module path is an input, `None` when `go.mod` cannot be read, and whatever string `modfile.ModulePath` returns otherwise (possibly empty). That library call is not part of this model.
- Reading the configuration file and the command-line argument that names it (gocal.go:23-26, 67-70): the content is an input, `None` when the file cannot be read.
- `os.Exit` and the wording of the printed messages: a run ends in a value of `Exit`, and a printed line is a `Line` value carrying the path and forbidden path it names. The underlying Go error values in the diagnostics are not modelled.
- `filepath.Walk`: its order, its `Lstat` calls and its filesystem semantics, symbolic links included, are not modelled. The entries it visits from a directory are given as an input sequence.
- `parser.ParseFile` in ImportsOnly mode: a foreign parser. Its result is modelled as a parse failure or the list of raw import literals; Go import syntax is not modelled.
- Bytes: Go strings are byte sequences, and the model's strings are character sequences. For valid UTF-8 the prefix, suffix, replace and split results agree. Invalid UTF-8 is not modelled.
- `GoStrings.ReplaceAll`: modelled for a non-empty pattern only, the only kind the program uses.
- `GoStrings.Split`: modelled for a one-character separator only, the only kind the program uses.
- `Config.CrlfSurvivesOnlyAfterCr`: this lemma says exactly when CR LF survives normalisation. The stronger claim that no CR LF survives is false, as `Config.CrlfCanSurvive` shows.
- `Layers.ForbiddenIffLater`: this lemma assumes distinct layer names. The program does not remove duplicates, so a repeated name makes a layer's own path forbidden. `Layers.PlanChecksAllButLast` states the forbidden paths by position and needs no such assumption.
- `Layers.LastLayerExempt`: this lemma does not say that the last layer's files are never checked. With the layers `a, b, a`, the last layer's directory is walked as layer 0. With the layers `app, app/infra`, the walk of `app` visits the files of `app/infra` too. Those files are then checked against `m/app/infra`. The lemma says only that the run does not depend on the tree at any other walk root.
- Concurrency: none; the program checks layers one after another.
