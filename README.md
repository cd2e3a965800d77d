# androx `main.go`: the scanning core, modelled and verified in Dafny

androx is a single-file Go tool for Android security work. It decompiles an APK, runs
external analysers, and then scans the extracted files. `parseData` walks the output
directory. Its workers read each entry that is not a directory and apply two regular
expressions:

- a secret pattern, `(?i)(api_key|token|secret)\s*[:=]\s*["']?([^"\s]+)["']?`, which sends
  `"<label>: <value>"` for each match;
- an endpoint pattern, `https?://[^\s"]+`, which sends each matched URL.

`writeResults` then writes each distinct finding once, in order of first arrival, one per
line, to `secrets.txt` and `endpoints.txt`. Before any of this, `main` checks that the APK
path and package name were given, and defaults the output and device directories.

The model covers the following, one module each:

- **Text**: `\s` (tab, newline, form feed, carriage return, space), the value class
  `[^"\s]`, and the greedy runs over them.
- **FindAll**: Go's `FindAll` with no limit over any pattern whose matches are non-empty,
  given by its preferred match at each position. The result is described declaratively as `Leftmost`: each span is the
  match at its start, no match begins where the search skipped, and none begins after the
  last span. The scanning function is proved to be the only list with that description.
- **Secret**: the secret pattern with RE2's leftmost-first backtracking preferences.
  - The keyword is matched under ASCII case folding.
  - The optional opening quote is taken when a value character follows it.
  - The value is the longest run of value characters.
  - A trailing `"` is consumed.

  A match is specified against `Shape`, the set of all ways the pattern can match at a
  position. The module also builds the finding text.
- **Endpoint**: the endpoint pattern, specified against `IsEndpointWord`, the language it
  accepts. `s?` is greedy.
- **Results**: `writeResults` as a method with a `seen` set, proved against the pure
  first-occurrence `Dedup`, plus the file text `Render` and its inverse `ReadLines`.
- **Settings**: the `Config` record as a class, the flag defaults, the required-flag check,
  and in-place defaulting of the two directories.
- **Pipeline**: the walk as the sequence of entries it visits, the feeding loop with one
  worker, `parseData`, and `main` minus the external tools.
- **Scenarios**: worked inputs with their exact findings and output files, including a full
  run.

Points where the code behaves in a way that is easy to misread:

- **Walk errors.** The walk callback returns the error it receives (main.go:187-189), so
  `filepath.Walk` stops at the first error rather than skipping the failing subtree.
  `Pipeline.Fed` ends the fed files at the first `WalkError`.
- **Match preference.** Go's `regexp` uses leftmost-first (Perl-like) preferences, not
  POSIX leftmost-longest.
  - For the secret pattern, an opening `'` is dropped only when a value character follows
    it.
  - A closing `'` belongs to the value, because `[^"\s]` does not exclude `'`. So
    `token='abc'` yields `token: abc'` (`Scenarios.TokenLineFindings`).
- **Build errors.** The struct field is literally named `package`, a Go keyword, so it is
  called `packageName` here. The missing `io` import only affects logging, which is not
  modelled.

## Model

| member | source | states |
|---|---|---|
| Text.SkipSpaces | main.go:169 | `\s*` from `j` ends at the first non-whitespace character: everything skipped is whitespace and the stop is the end or a non-whitespace character |
| Text.ValueEnd | main.go:169 | `[^"\s]+` from `j` ends at the first `"` or whitespace character, or at the end of the content |
| FindAll.SpansFrom | main.go:170 | the search's spans satisfy `Leftmost`: in bounds, each is the pattern's match at its start, no match starts in a skipped gap, none starts after the last span |
| FindAll.LeftmostIsSpansFrom | main.go:170 | any list of spans meeting the leftmost-first description is exactly what the search returns, so the description determines the result |
| FindAll.LeftmostOrdered | main.go:178 | spans are reported left to right and never overlap |
| Secret.LabelLen | main.go:169 | at most one of `api_key`, `token`, `secret` matches at a position (ignoring ASCII case), and the length of the first group is determined |
| Secret.ValueStart | main.go:169 | the optional quote `["']?` moves the value start by at most one, only past a quote, and a value can start at the chosen position exactly when it can start at either candidate |
| Secret.ShapeAgrees | main.go:169 | every way the pattern can match agrees with the greedy label and separator, and its value starts and ends no later than the greedy one |
| Secret.MatchAt | main.go:169 | a match exists iff some way of matching exists; it is a way of matching, preferred over every other (opening quote taken when possible, longest value); the value stops at the end, a `"` or whitespace; the match end includes a following `"` and nothing else |
| Secret.Spans | main.go:170 | secret matches are found leftmost-first and non-overlapping, and each reported span is exactly the secret match starting at its start |
| Secret.Render | main.go:171-173 | the sent text is the label exactly as written in the content, then `": "`, then the value group, and it is a well-formed secret finding |
| Secret.Find | main.go:169-174 | every secret finding is `<label>: <value>` with a keyword label and a non-empty value free of `"` and whitespace |
| Secret.FindRendersSpans | main.go:170-173 | the k-th finding is the rendering of the match at the k-th reported span |
| Secret.FindingIsOneLine | main.go:172 | a secret finding contains no `"`, newline or carriage return |
| Endpoint.MatchAt | main.go:177 | a match exists at `i` iff some accepted word starts there; it is the longest such word and ends at the end or before whitespace or `"` |
| Endpoint.Spans | main.go:178 | endpoint matches are found leftmost-first and non-overlapping, and the text of each reported span is an accepted endpoint word |
| Endpoint.Find | main.go:177-180 | every endpoint finding is `http://` or `https://` followed by at least one character other than `"` and whitespace |
| Endpoint.FindCutsSpans | main.go:178-180 | the k-th endpoint is the content's text at the k-th reported span |
| Endpoint.WordIsClean | main.go:177 | an endpoint contains no `"`, tab, newline, form feed, carriage return or space |
| Endpoint.NoMatchWithoutH | main.go:177 | a stretch of content without the letter `h` contains no endpoint match |
| Results.Dedup | main.go:217-223 | the kept items are exactly the received items as a set, pairwise distinct, and no more numerous than the input |
| Results.DedupFirstOccurrenceOrder | main.go:217-223 | kept items appear in the order of their first arrival |
| Results.DedupOfDistinct | main.go:217-223 | input without repeats is written unchanged |
| Results.DedupIdempotent | main.go:217-223 | deduplicating the written items again changes nothing |
| Results.DedupArrivalOrder | main.go:156-182 | with several workers interleaving arrivals, the set of written lines does not depend on the interleaving |
| Results.Render | main.go:220 | the file text of any non-empty list of items ends with a newline, and it has at least one character per item |
| Results.RenderSnoc | main.go:220 | writing one more item appends that item and a newline to the file text |
| Results.ReadLinesRender | main.go:218-220 | items without newlines written one per line are recovered by splitting the text at newlines |
| Results.WriteResults | main.go:208-226 | the `seen`-map loop writes `Render(Dedup(items))` when the file could be created, an empty file for no items, and nothing when creation failed |
| Results.WriteResultsIdempotent | main.go:208-226 | feeding `writeResults` the lines of its own output reproduces that output |
| Settings.OutputDirFor | main.go:54-56 | an empty output directory becomes `<package>_output`; a given one is kept |
| Settings.DeviceDirFor | main.go:57-59 | an empty device directory becomes `/data/data/<package>`; a given one is kept |
| Settings.DefaultsSettle | main.go:54-59 | defaulting is idempotent and always yields non-empty directories |
| Settings.Config.constructor | main.go:24-45 | the configuration record holds exactly the flag values it is built from |
| Settings.Config.HasRequired | main.go:49 | the flags pass validation exactly when both the APK path and the package name are non-empty |
| Settings.Config.ApplyDefaults | main.go:54-59 | only the two directory fields change, each to its defaulted value |
| Pipeline.Fed | main.go:186-194 | the walk hands the workers at most one file per visited entry |
| Pipeline.FedFromWalk | main.go:186-194 | every fed file is a non-directory entry of the walk, and a walk of files only, with no error, feeds all of them in visiting order |
| Pipeline.FedAppend | main.go:186-194 | before any error, one more visited entry feeds exactly what that entry alone feeds, after the earlier files |
| Pipeline.Scan | main.go:161-181 | a file's findings come from its content; an unreadable file yields none |
| Pipeline.Collect | main.go:160-181 | every line a channel receives is a finding of some readable fed file |
| Pipeline.CollectAppend | main.go:160-181 | the findings of two runs of fed files are those of the first run followed by those of the second |
| Pipeline.WalkStopsAtError | main.go:186-189 | no file after a walk error is fed to the workers |
| Pipeline.CollectStep | main.go:160-181 | one more walk entry adds exactly the findings of that entry's file, if it is a readable non-directory entry |
| Pipeline.UnreadableFileIgnored | main.go:161-165 | a file that cannot be read contributes nothing and does not change the other files' findings |
| Pipeline.SecretsWellFormed | main.go:169-173 | every line sent on the secrets channel is a well-formed secret finding |
| Pipeline.EndpointsWellFormed | main.go:177-180 | every line sent on the endpoints channel is an accepted endpoint word |
| Pipeline.Feed | main.go:158-195 | the walk and a single worker deliver, per category, the concatenation of the per-file findings in walk order |
| Pipeline.ParseData | main.go:149-205 | with one worker, each output file is `Render(Dedup(...))` of that category's findings over the fed files in walk order, or absent when it could not be created |
| Pipeline.ResultsFilesReadBack | main.go:203-204 | each results file reads back as the deduplicated findings, and rewriting it from its own lines leaves it unchanged |
| Pipeline.Run | main.go:49-78 | with `-n 1`: a usage error happens iff the APK path or package name is empty; otherwise the directories are defaulted and the results are those of `parseData` with one worker |
| Scenarios.KeyLineFindings | main.go:169-173 | `API_KEY="abcd1234"` yields exactly `API_KEY: abcd1234` |
| Scenarios.TokenLineFindings | main.go:169-173 | `token='abc'` yields `token: abc'`: the opening `'` is dropped, the closing one kept |
| Scenarios.LoneQuoteMatch | main.go:169 | a quote with no value character after it is itself the value |
| Scenarios.PageFindings | main.go:177-180 | two URLs in running text are both found, each ending at the following space |
| Scenarios.ScanExample | main.go:49-205 | with `-n 1`, a full run over a walk with a directory, an unreadable file, a repeated secret and a walk error gives the defaulted directories, a secrets file with the repeat written once, and an empty endpoints file |

## Left out

- External tools (main.go:83-146): jadx, MobSF in docker, mitmproxy and adb, including the
  splitting of adb command strings. These are process invocations with no logic of the
  program's own; `Pipeline.Run` goes straight from defaulting to parsing.
- Flag parsing, the logger, and creating the output directory and log file (main.go:19-22,
  36-46, 61-73). These are I/O. Flag values are parameters of `Pipeline.Run`, and the flags
  it does not take keep their defaults.
- The fatal exits when the output directory or log file cannot be created (main.go:62-68)
  are not modelled.
- Pipeline.Run: builds the configuration with `-n 1` rather than the default of 5 workers.
  With more workers the order of lines in both files depends on scheduling, for example
  `API_KEY: abcd1234` may come before `token: abc'` in `Scenarios.ScanExample`. For that
  case only the set of written lines is fixed (`Results.DedupArrivalOrder`).
- Pipeline.ParseData: models one worker. Goroutines, channels and the `WaitGroup`
  (main.go:151-160, 182, 198-199) are concurrency.
  - With several workers, the order in which findings reach `writeResults` is an
    interleaving. Only `Results.DedupArrivalOrder` (same set of lines) covers it.
  - The channels buffer 100 findings but are drained only after `wg.Wait()`, so more
    findings than that block the run. The shared `wg` also waits for the mitmproxy
    goroutine. Neither is modelled.
  - A thread count of zero or less is not modelled either.
- `filepath.Walk` and `ioutil.ReadFile` (main.go:161-165, 186-197) are given as the
  sequence of entries the walk visits. Each entry that is not a directory carries its
  content, or None when it cannot be read. Path order and the directory tree itself are not
  modelled.
- Pipeline.Fed: the walk reports entries through `Lstat`, so symbolic links, sockets,
  devices and FIFOs are fed like regular files (`Pipeline.File`). Reading a FIFO with no
  writer blocks forever; the model has no blocking read, so such an entry is treated as
  readable or unreadable.
- FindAll.SpansFrom: Go's rule for empty matches (an empty match right after the previous
  match is skipped) is not modelled, because neither pattern can match the empty string;
  `FindAll.Advances` requires every match to be non-empty.
- `os.Create`, `bufio` and `Flush` (main.go:209-216, 224) are modelled as a flag saying
  whether the file could be created, and the file's final text. Write errors are not
  modelled.
- Secret.MatchAt: `(?i)` is modelled as ASCII case folding only. Go also folds the Kelvin
  sign to `k` and the long s `ſ` to `s`.
- Invalid UTF-8, which Go decodes as U+FFFD, is not modelled. Content is a sequence of
  characters.
- The `len(match) == 3` test (main.go:171) always holds for a pattern with two groups, so it
  is not modelled as a branch.
