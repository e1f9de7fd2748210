# sharpy: a verified model of the batch image converter's orchestration

sharpy is a command-line tool (`src/index.ts`) that converts every supported
image in a directory to one target format: jpeg (alias jpg), png, webp, avif
or tiff. The pixel work is done by the sharp library. This project models
everything around that work, in Dafny:

- **Args**: the argument resolver `parseArgs` and `normalizeFormat`. The
  method `ParseArgs` keeps the source's cursor loop and its options record,
  updated field by field. It is proved equal to the function `Interpret`. The
  lemmas state the resolver's behaviour about `Interpret`. `showHelpAndExit`
  becomes an `Exit(status)` value: 0 for help, 1 for a usage error.
- **Formats**, **Paths**: the input and output format sets, ASCII
  lower-casing, node's `path.extname` and `path.basename` on entry names,
  `destPathFor`, and the exclusion extension computed in `main`. A directory
  is the list of its segments; a file is a directory plus an entry name.
- **Locator**: `listImages` over a snapshot of the directory tree. Each
  directory is either listed, with its entries in order, or unreadable. The
  method `ListImages` keeps the source's loop and recursion. It is proved
  equal to the function `Images`. An independent description by sets
  (`Visited`, `Readable`) says which files can come back and when the scan
  fails.
- **Converter**: `convertOne`. The existence check reads a set of existing
  paths. The codec is a function from an encode request to "written" or
  "failed with a message".
- **Cleanup**: the three-attempt deletion of an original. Whether each
  attempt fails is given by an oracle.
- **Scheduler**: the worker pool in `main`, as a class `Pool`. Its state
  holds:
  - the shared cursor `idx`;
  - the file each worker is converting;
  - the original each worker still has to delete;
  - the results, the set of existing paths and the warnings.

  Workers take atomic steps (claim, convert and push, delete) in any order,
  so the model covers every interleaving of these atomic steps. The invariant
  `Valid` says:
  - every claimed index is accounted for exactly once;
  - every result is what `convertOne` returned for its file against the
    paths that existed when it ran. `convertOne` only asks whether the
    destination exists, and for a destination that is exactly "it existed
    before the run, or an earlier result wrote it". So the invariant names
    that set: the initial paths plus the destinations of the successful
    results pushed before this one;
  - a destination present before the run is refused without --force;
  - the filesystem changes only as the results say.

  At the end of `Run`, the filesystem is the initial one minus the originals
  removed plus the destinations written. The warnings name exactly the
  originals that could not be removed. Lemmas about the result tally give its
  bounds, show how it splits over concatenation, and show that it does not
  depend on result order.
- **Cli**: `main` and its exit paths, end to end. The run ends in one of
  three ways:
  - it exits with a status;
  - it reports that there is nothing to convert;
  - it completes with the results, the counts of converted and failed files,
    the final set of paths and the warnings.

  `ConvertedAll` gathers what a completed run promises. `FromConvertOne` ties
  each result to `convertOne` against the initial paths plus the destinations
  written before it. The lemmas about them cover:
  - a file with a fresh destination, which gets exactly the codec's reply,
    and a run where every destination is fresh and the codec always writes,
    which converts every file;
  - a rerun over existing destinations;
  - what --rm leaves behind;
  - two runs in a row.

## Model

| member | source | states |
|---|---|---|
| Formats.Lower | src/index.ts:31 | lower-casing keeps the length, leaves no capital letter, keeps every non-capital character and maps each capital to its small letter |
| Formats.LowerIdempotent | src/index.ts:31 | lower-casing an already lower-cased token changes nothing |
| Formats.SupportedTokensAreLower | src/index.ts:9-13 | every supported output token and input extension lower-cases to itself, so matching after lower-casing can succeed |
| Formats.NormalizeFormat | src/index.ts:72-75 | "jpg" becomes jpeg; every other supported token names its own format |
| Formats.NameRoundTrip | src/index.ts:7-13 | every format's name is a supported token that normalizes back to that format |
| Formats.CanonicalExtFacts | src/index.ts:120 | the destination extension ("jpg" for jpeg, else the name) is a supported input and output token, normalizes back to its format, and is a single non-empty component |
| Paths.LastDot | src/index.ts:110 | the dot position found is inside the name |
| Paths.LastDotIsLast | src/index.ts:110 | the found position holds a dot, no dot follows it, and no position is found exactly when the name has no dot |
| Paths.ExtName | src/index.ts:110 | the extension is empty or a dot followed by dot-free text, and it is a suffix of the name |
| Paths.ExtOf | src/index.ts:110 | the compared extension has no dot and no capital letter |
| Paths.Stem | src/index.ts:119 | a name is its basename-without-extension followed by its extension, and a non-empty name has a non-empty stem |
| Paths.DestPathFor | src/index.ts:117-122 | the destination stays in the source's directory, keeps the source's stem and reads back the canonical extension |
| Paths.DestNotSelected | src/index.ts:110-122 | a destination is never selected by the locator under the same target |
| Paths.DestPathIdempotent | src/index.ts:117-122 | destPathFor applied to its own output gives the same path |
| Paths.SelectedIsNotDest | src/index.ts:110-111 | a file the locator selects is never any file's destination |
| Paths.AliasExtensionsStillSelected | src/index.ts:111 | with target jpeg a ".jpeg" file, and with target tiff a ".tif" file, is still selected and goes to a different path |
| Args.ParseNumber | src/index.ts:59-60 | an accepted quality comes from a non-empty token, and is negative only when the token starts with '-' |
| Args.NumberRoundTrip | src/index.ts:59-60 | every integer written in decimal (minus sign when negative) is accepted as a number and reads back as itself |
| Args.Interpret | src/index.ts:23-70 | an exit is always status 0 (help) or 1 (usage); a parse comes from a non-empty argv whose lower-cased first token is supported, and yields its normalized format |
| Args.ParseArgs | src/index.ts:23-70 | the cursor loop over the tokens returns exactly what Interpret describes |
| Args.FirstTokenDecides | src/index.ts:26-34 | no tokens exits 1; -h/--help first exits 0; an unsupported lower-cased first token exits 1; a parse yields the normalized lower-cased first token |
| Args.FormatAloneGivesDefaults | src/index.ts:37-42 | a supported format token alone gives its normalized format and the default options (cwd, nothing set) |
| Args.FormatTokenCaseInsensitive | src/index.ts:31 | the first token is matched after lower-casing, so changing its case changes nothing |
| Args.UpperCaseHelpIsUsageError | src/index.ts:28-33 | the help check is case-sensitive: "-H" and "--HELP" alone exit 1 |
| Args.Append | src/index.ts:44-67 | tokens after a complete command line are read starting from the options it produced |
| Args.SwitchesSetOnlyTheirField | src/index.ts:46-51 | -r, -f and --rm, short or long, set their own field to true and change nothing else |
| Args.DirTakesNextToken | src/index.ts:52-56 | --dir takes exactly the next token, resolved; a missing or empty value exits 1; an unknown token after it still exits 1 |
| Args.QualityTakesNumber | src/index.ts:57-61 | -q/--quality takes exactly the next token; a missing, empty or non-numeric value exits 1; any number is stored without a range check |
| Args.UnknownOrHelpStops | src/index.ts:62-66 | an unknown token exits 1 and a later help flag exits 0, whatever follows |
| Locator.Images | src/index.ts:101-115 | every file a successful scan returns has a supported extension other than the excluded one |
| Locator.ListImages | src/index.ts:101-115 | the loop with recursion returns exactly Images, including the read error of the first unreadable directory |
| Locator.ErrorPersists | src/index.ts:102-108 | once a subdirectory's listing fails, the whole scan fails with that error |
| Locator.ScanGrows | src/index.ts:105-113 | a successful scan extends the scan of every shorter prefix of the listing, so earlier entries' files come first |
| Locator.SubdirectorySpliced | src/index.ts:107-108 | in a recursive scan a subdirectory's files appear, in their own order, right after everything listed before it |
| Locator.FileAppended | src/index.ts:109-111 | a file entry contributes its path at its position exactly when its extension is selected |
| Locator.ImagesSucceeds | src/index.ts:101-115 | the scan succeeds exactly when every directory it reads (every subdirectory, when recursive) is listable |
| Locator.ImagesMembers | src/index.ts:105-111 | a successful scan returns exactly the visited regular files whose extension is supported and not excluded |
| Locator.VisitedWithin | src/index.ts:106-108 | visited files lie below the scanned directory, and directly in it without recursion |
| Locator.ImagesSound | src/index.ts:110-111 | every returned path has a supported, non-excluded extension, and without recursion sits directly in the directory |
| Locator.ImagesDistinct | src/index.ts:101-115 | when no directory of the tree lists a name twice, a successful scan returns no path twice, all below the scanned directory |
| Converter.EncoderQuality | src/index.ts:142-151 | png gets no quality; the others get the user's value when given, else 50 for avif and 80 for jpeg, webp and tiff |
| Converter.ConvertOne | src/index.ts:124-159 | the result names the source and its destPathFor; only the destination can appear, and only on success, which also means a codec call; ok exactly when there is no reason; a failure changes nothing; without --force an existing destination is refused with the exists reason and no codec call |
| Converter.ConvertOneOutcome | src/index.ts:124-159 | without --force an existing destination fails with the exists reason and no codec call; otherwise the codec is asked for exactly this request, and the result is ok exactly when it wrote, else it carries the codec's message |
| Converter.SecondRunIsNoOp | src/index.ts:131-134 | after a successful conversion, converting again without --force fails with the exists reason, calls no codec and changes no file |
| Converter.ForceOverwrites | src/index.ts:131-155 | with --force an existing destination still goes to the codec, and the result follows its reply |
| Converter.ConvertOneSeesOnlyDest | src/index.ts:131-138 | convertOne's result depends on the existing paths only through whether the destination is among them |
| Cleanup.DeleteWithRetry | src/index.ts:197-211 | 1 to 3 attempts, each one before the last failed; deleted exactly when some of the three attempts succeeds; warned exactly when all three fail |
| Scheduler.WorkerCount | src/index.ts:220 | the pool has min(4, files) workers: at most 4, at most the file count, and at least one when there is a file |
| Scheduler.CountOk | src/index.ts:222 | the ok count is at most the number of results, and is positive only when some result is ok |
| Scheduler.CountOkBounds | src/index.ts:222-223 | the ok count is at most the number of results, zero exactly when none is ok, and full exactly when all are |
| Scheduler.CountOkAppend | src/index.ts:222 | the ok count of two result lists joined is the sum of their counts |
| Scheduler.CountOkPermutation | src/index.ts:222 | the ok count does not depend on the order in which workers pushed their results |
| Scheduler.SelectedSourcesAreNotDests | src/index.ts:109-122 | among located files, none is the destination of another |
| Scheduler.ClaimKeepsClaimsExact | src/index.ts:191-192 | a claim by an idle worker keeps every index below the cursor accounted for exactly once |
| Scheduler.FinishKeepsClaimsExact | src/index.ts:193-194 | pushing a result moves its index from the worker to the claim order, keeping each index accounted for once |
| Scheduler.PushKeepsFilesAccounted | src/index.ts:193-194 | a pushed conversion step keeps the filesystem changes explained by the results |
| Scheduler.RemovalKeepsFilesAccounted | src/index.ts:197-211 | deleting or warning about the original of a successful conversion under --rm keeps the filesystem changes explained |
| Scheduler.NonSourcePresence | src/index.ts:193-202 | a path that is no result's original exists exactly when it existed before the run or a successful result wrote it, since only originals are unlinked |
| Scheduler.ConvertKeepsResultsMatch | src/index.ts:193-194 | converting a claimed file against the current paths gives convertOne's result against the initial paths plus the destinations already written, so each pushed result stays matched with its file |
| Scheduler.PushKeepsRefused | src/index.ts:131-134 | a destination present before the run is never a located file, so it is still there when its file is converted and convertOne refuses it without --force |
| Scheduler.ConvertKeepsSettled | src/index.ts:193-197 | after a push, every successful original under --rm is held by its worker, gone, or warned about |
| Scheduler.RemoveKeepsSettled | src/index.ts:197-211 | after a worker deals with its pending original, it is gone when one unlink attempt succeeds and warned about otherwise |
| Scheduler.PendingOriginal | src/index.ts:197-202 | an original pending deletion is a located file with a successful result, and no result's destination |
| Scheduler.PushKeepsInvariant | src/index.ts:193-197 | converting a claimed file against the current paths and pushing the result keeps every pool invariant |
| Scheduler.RemoveKeepsInvariant | src/index.ts:197-211 | dealing with a pending original keeps every pool invariant |
| Scheduler.FinalState | src/index.ts:190-220 | once no worker holds an original, the paths are the initial ones minus the removed originals plus the written destinations, and the warnings name exactly the originals that stayed |
| Scheduler.AllClaimsPushed | src/index.ts:190-194 | when every index is claimed and no worker converts, the claim order lists each file index exactly once and every file has a result about it |
| Scheduler.Pool.constructor | src/index.ts:186-188 | an empty pool of min(4, files) idle workers, cursor 0, no results, over the given filesystem |
| Scheduler.Pool.Claim | src/index.ts:191-192 | an idle worker takes files[idx] and the cursor advances by one; nothing else changes |
| Scheduler.Pool.Convert | src/index.ts:193-197 | the worker's file is converted against the current paths; its result is pushed; the paths become the conversion's; its original becomes pending exactly when the conversion succeeded under --rm |
| Scheduler.Pool.Push | src/index.ts:194-197 | the result is appended, the claim becomes a pushed claim, and the original becomes pending exactly when the result is ok under --rm |
| Scheduler.Pool.Remove | src/index.ts:197-211 | the pending original is gone when one of three unlink attempts succeeds, and appended to the warnings otherwise |
| Scheduler.Pool.Step | src/index.ts:190-217 | a worker's next step keeps the invariant and brings the pool closer to the end |
| Scheduler.Pool.Drain | src/index.ts:190-220 | the workers run in any interleaving until every file is claimed and every worker is idle |
| Scheduler.Pool.Run | src/index.ts:186-220 | every file index is claimed exactly once; each result is convertOne's for its file, with destPathFor as destination, against the initial paths plus the destinations written by the results pushed before it; existing destinations are refused without --force; the final paths and warnings are exactly the initial paths minus removed originals plus written destinations, and the originals that stayed |
| Cli.Located | src/index.ts:165-177 | no files when the path is not a directory or the scan fails; otherwise every file is selected and lies under the directory (directly, without --recursive), and none comes twice when no directory lists a name twice |
| Cli.ConvertAll | src/index.ts:186-223 | one result per located file, each for a listed file and its destination, and each convertOne's result against the initial paths plus the destinations written by earlier results; existing destinations are refused without --force; the final paths and warnings follow the results; converted is the ok count and failed the rest |
| Cli.Tally | src/index.ts:222-223 | converted plus failed is the number of results, and failed is zero exactly when every result is ok |
| Cli.FreshDestinationFollowsCodec | src/index.ts:131-158 | among distinct files, one whose destination did not exist and is no other file's destination gets exactly the codec's reply: ok when it writes, else its message |
| Cli.FreshRunConvertsAll | src/index.ts:186-223 | with distinct files whose destinations are fresh and pairwise different, and a codec that always writes, every file is converted and none fails |
| Cli.RerunChangesNothing | src/index.ts:131-134 | without --force, a run over files whose destinations all exist converts nothing, and leaves the paths and warnings untouched |
| Cli.OriginalsRemovedOrWarned | src/index.ts:197-211 | under --rm each successful original is gone when one unlink attempt succeeds and warned about otherwise; without --rm nothing is removed or warned about |
| Cli.SecondRunRefused | src/index.ts:131-134 | a second run without --force refuses every file the first run converted, and changes nothing when the first run converted everything |
| Cli.RunCli | src/index.ts:161-230 | parse exits pass through; a missing or non-directory path and a listing error exit 1; no images ends without converting; otherwise ConvertAll's guarantees hold over the located files, including each result being convertOne's against the initial paths plus the destinations written before it, and each file is converted once when no directory lists a name twice |

## Left out

- Console output and the help banner text (src/index.ts:77-97, 168-172, 179, 183, 203-215, 224) are not modelled. Warnings become a list of the paths warned about.
- The one-second delay before each unlink attempt (src/index.ts:201) is timing only and is not modelled.
- Asynchronous interleaving is coarser than in the source. One conversion (existence check plus codec write) and one deletion (all three attempts) are each a single atomic step. In the source another worker can run between `fs.access` and the write, or between unlink attempts. Claims are atomic in both.
- Lower-casing is ASCII only. JavaScript's `toLowerCase` is Unicode-aware, but every token and extension the program compares against is ASCII.
- Args.ParseNumber: accepts only an optional sign followed by decimal digits. JavaScript's `Number` also accepts surrounding whitespace, decimals, exponents, hex, binary and octal literals, and "Infinity". The model therefore rejects some quality values the source accepts. Quality is an integer, not a float.
- `path.resolve` of the `--dir` value and `process.cwd()` are parameters (`resolve`, `cwd`). Paths are already-normalized segment lists, so `path.join` and `path.dirname` are exact.
- The sharp codec (src/index.ts:141-151) is a function parameter returning written or failed-with-message. The quality is not range-checked, matching the source, and is handed to the codec unchanged. The `else` branch that throws at src/index.ts:152-153 cannot be reached with a normalized format, so it is not modelled.
- `fs.stat` and `fs.readdir` read one snapshot of the directory tree. This snapshot is independent of the set of paths the existence check and the pool work on, so the model does not connect files created during the run with the listing.
- Whether each unlink attempt fails is an oracle independent of the current filesystem state.
- The pool's result order is not fixed. Any interleaving is allowed, and the tally is proved independent of order.
- Two located sources with the same stem in the same directory (for example `a.png` and `a.webp`) share one destination. With --force the later conversion overwrites the earlier one; without it, the later one is refused because the earlier one wrote the destination (`Cli.FromConvertOne`). The model allows this as the source does; `Cli.FreshRunConvertsAll` assumes the destinations differ.
- `process.exit` and the top-level catch become `Exited(status)` values. Only `readdir` errors reach the catch in the model; any other thrown error is not modelled.
- A directory listing in the model may name an entry twice, which `readdir` never does. That every located file, and so every result, is distinct is proved only for trees where no directory lists a name twice (`Locator.ImagesDistinct`, `Cli.Located`, `Cli.RunCli`).
