# Verified model of vcltest

vcltest runs declarative tests against Varnish: it rewrites the backends of a VCL file and of the files it
includes, drives varnishd through its command line protocol, runs scenarios against mock backends, and reports
which blocks of the VCL were executed. This project models the logic of those parts in Dafny and proves
properties of it. `dafny verify dfyconfig.toml` checks everything.

## What is modelled

**Block coverage** (`Blocks`, `BlockHeap`, `Analyzer`, `TraceRuns`, `HiddenEntries`). The analyzer turns a file's
statements into a tree of blocks, the marker sets `Entered` flags in place from traced line numbers, the finder looks
up the deepest block at a line and the filler flattens the tree to a status per line. `BlockHeap` has the tree as
objects with the loops of the original; `Blocks` has the same tree as values, on which the three recursions are
proved to agree, with the exact condition where two of them do not. `TraceRuns` executes structured subs by the
documented rules of VCL_trace (a trace at the first token inside each entered block, and after an if-chain with no
else) and proves that marking is sound. `HiddenEntries` proves when it is complete: marking tells every execution's
entries of a braced block exactly when the block's first token lies on a line of the block's own. An execution here
may end at any statement, the first of a block included, by a `return` or a failure; nothing of the sub runs after
that. All of this is about files without includes: the analyzer resolves includes (`pkg/coverage/analyzer.go:16`), and
then one forest mixes the line numbers of several files.

**Include walk and backend rewriting** (`BackendRewrite`, `IncludeWalk`, `IncludeGraph`, `IncludeInline`,
`IncludeResolve`, `IncludeLoops`, `SingleParse`). A depth-limited depth-first walk over a possibly cyclic include
graph that rewrites every file. The walker is a class; its effect is a function of its state, which is proved against
reachability and an unbounded preorder. `IncludeInline` assumes an ideal compiler, which expands every include where
it stands however often a file is included, as the reader of the walker's output. `IncludeResolve` is the resolver
that the single-parse form really uses, with its visited set and its own depth limit; `SingleParse` compares the two
forms, `IncludeLoops` says which check each meets first in a loop of files.

**Varnish CLI server** (`CliFraming`, `CliServer`, `CliSafety`, `CliHandshake`, `CliWitness`). Framing at the byte
level with a buffered reader that asks the connection for 4096 bytes, or for all the rest of a body where that is not
less, and drops what it over-reads; the server as a state machine over the steps of callers, timeouts, the request
channel, the connection handler, reconnects and the peer; invariants over every run. The peer is assumed to answer in
lockstep: one greeting per connection and one reply for each line it receives.

**Parsers and the TLS mock** (`VclShow`, `TlsMock`, `TlsRuns`, `TlsAnswers`, `TlsListing`). The `vcl.show -v` parser
inverts its printer; certificate transactions over whole runs and what every command is answered; the mock's
certificate table read back by the real parser.

**Recorder** (`Recorder`, `ExecutedLines`). The log parser, reading from a marked position, and the executed lines
of each file, ending in incremental coverage.

**Scenario runs** (`Assertions`, `Verdicts`, `ScenarioRuns`). Expectation checks against the predicate they decide,
what that predicate says of headers, words and numbers, the
scenario loop with its counters and config overrides, and the test loop.

`Text` and `Common` hold what the parsers share. A `char` stands for one byte.

## Findings

- A caller of `Exec` that times out after its command was written leaves the handler blocked at its unbuffered
  send for good if a reply then arrives; only a failing read frees the handler before that
  (`CliSafety.BlockedForGood`, reachable by `CliWitness.TimeoutBlocks`).
- Assume a peer that answers once for every newline-terminated line it receives, so that a trailing newline or a
  here-document counts as several lines. Then a command may be given beside single lines, with every response reaching
  its own caller in every interleaving, if and only if it is a single line itself
  (`CliWitness.SafeExactlyWhenOneLine`).
- A read leaves the connection at the end of the response, with nothing lost, exactly when the chunks it takes end
  there; it pulls less than 4096 bytes too many (`CliFraming.ReadFromConnection`, `CliFraming.FilledBounds`; with a
  second response on the connection, `CliFraming.ReadBeforeAnother`, input: `CliFraming.OneChunkPullsMore`).
- The single-parse form refuses any file it has spliced in before, so a diamond of includes is an error there and not
  for the walker. It accepts a graph exactly when every file is included in one place, the main file in none, all
  parse, the main file states a version and no include path has more than eleven files
  (`IncludeResolve.ResolvesExactlyWhen`); away from the depth limits, inclusion in two places and a missing version are
  the only differences (`SingleParse.OnlyTheWalkerTakesDiamonds`, input: `SingleParse.Diamond`). The walker's depth
  limit is one file tighter (`SingleParse.WalkerStopsOneSooner`), and relative includes of files in other directories
  lead elsewhere (`SingleParse.OtherDirectory`).
- Reading the log in parts is exact at line boundaries and nowhere else (`Recorder.CutsExactlyAtBoundaries`).
- In a well-nested forest, finder and filler answer for different blocks on exactly the lines that two siblings, at any
  depth, share (`Blocks.FillerAgreesExactly`, input: `Blocks.SharedLineDisagrees`).
- A braced block whose first token has no line of its own can be entered and stay unmarked, and no other block can
  (`HiddenEntries.CoverageExactlyWhen`). An execution that runs to its end can do so too: a sub whose only statement
  is an if that is not taken (`HiddenEntries.UntakenIfHidesEntry`).
- A rollback forgets a transaction exactly when a test has not overridden it with an error while the transaction is
  open (`TlsRuns.RollbackForgetsExactly`).
- Where comments and code disagree the model follows the code: the marker compares strictly inside the braces
  (`pkg/coverage/matcher.go:44`) although its comment says inclusive (`pkg/coverage/matcher.go:7`), and `ConfigMap`
  includes the built-in VCL (`pkg/varnishadm/parsers.go:264`) although its comment excludes it
  (`pkg/varnishadm/types.go:60`).

## Model

| member | source | states |
|---|---|---|
| Blocks.MarkedExactly | pkg/coverage/matcher.go:29-68 | for every forest and every prior marking, a block ends up entered iff it or a descendant was entered or has a traced line strictly between its braces and in no child |
| Blocks.MarkerRefinesFinder | pkg/coverage/matcher.go:29-68 | on every well-nested forest, touching siblings and prior marks allowed, a block ends up entered iff it or a descendant was, or it is an ancestor-or-self of the block the finder answers for a traced line strictly between that block's braces |
| Blocks.FreshMarkerRefinesFinder | pkg/coverage/matcher.go:12-27 | the same on a fresh forest: entered iff credited through the finder |
| Blocks.MarkIncremental | pkg/coverage/matcher.go:29-68 | matching two sets of lines one after the other is matching their union once, for any tree and any prior marks |
| Blocks.SharedLineCreditsNothing | pkg/coverage/matcher.go:35-54 | a line shared by two siblings at any depth credits no block |
| Blocks.FindFromSound | pkg/coverage/block.go:53-74 | the finder answers a block of the forest that contains the line while none of its children does, and answers nothing only when no top-level block contains it |
| Blocks.ForestOwnLineIsFound | pkg/coverage/block.go:53-74 | in a well-nested forest a line that belongs to one block alone is found in exactly that block |
| Blocks.LineStatusIsLastInPreorder | pkg/coverage/block.go:79-96 | for every forest the status of a line is the flag of the last block in preorder containing it, and lines in no block are absent |
| Blocks.LineStatusAgreesWithFinder | pkg/coverage/block.go:53-96 | on well-nested forests the filler has exactly the lines the finder finds, with the flag of the block found on every line not shared by two siblings |
| Blocks.LineStatusIsOfLast | pkg/coverage/block.go:87-96 | for every forest the status of a line is that of a block containing it after which, in preorder of paths, no block contains it |
| Blocks.FillerAgreesExactly | pkg/coverage/block.go:53-96 | on every well-nested forest and found line, the filler's block is the very block the finder answers iff no two siblings at any depth share the line |
| Blocks.SharedLineDisagrees | pkg/coverage/block.go:87-96 | an input: on the line shared by two leaf siblings the finder answers the first and the filler the second |
| BlockHeap.BlockNode.constructor | pkg/coverage/block.go:10-18 | a new node over disjoint trees is a tree whose view has the given ranges, nothing entered at the node |
| BlockHeap.BlockNode.HasOwnTrace | pkg/coverage/matcher.go:43-58 | the loops over the traced set and the children decide whether the block has a traced line of its own, in whatever order the set is walked |
| BlockHeap.BlockNode.MatchRecursive | pkg/coverage/matcher.go:29-68 | the in-place marker changes entered flags only and leaves the tree whose view is the marked view |
| BlockHeap.MatchTracesToBlocks | pkg/coverage/matcher.go:12-27 | the public marker marks the whole forest with the set of the traced lines |
| BlockHeap.BlockNode.FindRecursive | pkg/coverage/block.go:62-74 | the search returns the node at the path the finder answers, or null exactly when there is none |
| BlockHeap.FindBlockAtLine | pkg/coverage/block.go:53-60 | the same over all top-level blocks |
| BlockHeap.BlockNode.FillLineStatus | pkg/coverage/block.go:87-96 | the line-by-line loop and the recursion leave the shared table overwritten as the value model says |
| BlockHeap.GetLineStatus | pkg/coverage/block.go:79-85 | the table of the whole file |
| Analyzer.AnalyzeVCL | pkg/coverage/analyzer.go:26-56 | the loops build fresh disjoint trees whose views are the extracted forest: one node of kind sub for each sub in order, with its name, its header line and the braces of its body, or 0 and 0 |
| Analyzer.ExtractionNests | pkg/coverage/analyzer.go:42-156 | ordered, nested line spans give a well-nested forest |
| Analyzer.FileFresh | pkg/coverage/analyzer.go:42-156 | no block of a freshly analysed file is entered |
| Analyzer.ChainShape | pkg/coverage/analyzer.go:76-90 | an if-chain flattens to its if, then its else-ifs, then an else exactly when the source has one |
| Analyzer.ChainInSourceOrder | pkg/coverage/analyzer.go:93-156 | branch i of a chain comes out i-th, with its own condition, header line, braces and nested blocks |
| Analyzer.ExtractionCount | pkg/coverage/block.go:43-49 | the flattened block count is the number of subs plus the branches of all nested chains reached |
| Analyzer.FlattenedSubs | pkg/coverage/analyzer.go:42-56 | in the flattened list of a file the blocks of kind sub are its subs in source order, with their names, header lines and braces |
| TraceRuns.CoverageSound | pkg/coverage/matcher.go:29-68 | for every file laid out in source order and every execution, each block marked from the emitted traces was really entered |
| TraceRuns.InsideMeansEntered | pkg/coverage/matcher.go:35-42 | a traced line strictly between a block's braces was emitted by an execution that entered the block |
| TraceRuns.ElseTracesNothingAfter | pkg/coverage/matcher.go:35-42 | a chain with a final else traces nothing after itself |
| TraceRuns.CoverageExact | pkg/coverage/matcher.go:35-54 | a block whose first token lies on a line of its own is marked iff it was entered, in every execution |
| HiddenEntries.VisitIsHidden | pkg/coverage/matcher.go:38-54 | in every laid-out file, a braced block whose first token has no line of its own is entered and left unmarked by an execution that runs everything before it to its end and ends in it |
| HiddenEntries.CoverageExactlyWhen | pkg/coverage/matcher.go:35-54 | over the executions in which only the last thing executed is cut short, marking tells every one's entries of a braced block iff its first token lies on a line of the block's own |
| HiddenEntries.UntakenIfHidesEntry | pkg/coverage/matcher.go:38-42 | an input: an execution that runs to its end enters a sub and leaves it unmarked |
| TraceRuns.CoverFile | pkg/runner/runner.go:277-319 | for a file without includes, extraction followed by marking gives the marked extracted forest |
| BackendRewrite.Program.ModifyBackends | pkg/vclmod/include_walker.go:141-185 | the in-place loop leaves the rewritten declarations |
| BackendRewrite.RewriteMeansRedirected | pkg/vclmod/include_walker.go:155-184 | every host and port property carries the address, there is at least one of each, all others stay in order |
| BackendRewrite.RewriteKeepsTheRest | pkg/vclmod/include_walker.go:143-153 | declarations keep place and kind; only mapped backends change, and those are redirected |
| BackendRewrite.RewriteTwice | pkg/vclmod/include_walker.go:141-190 | a second rewriting whose names cover the first's gives what the second alone gives; with equal addresses, idempotence |
| IncludeWalk.IncludeWalker.WalkFile | pkg/vclmod/include_walker.go:58-138 | the recursive method updates visited files, output, names and depth as the walk function says, and terminates on every include graph |
| IncludeWalk.IncludeWalker.ValidateBackends | pkg/vclmod/include_walker.go:193-233 | errors list exactly the mapped names no file declares, warnings exactly the declared names not mapped, each once |
| IncludeWalk.CheckNames | pkg/vclmod/modifier.go:56-87 | the validation loops of the single-parse form, with the same lists |
| IncludeWalk.CollectNames | pkg/vclmod/modifier.go:43-49 | the declared backend names are added, none of them used yet |
| IncludeWalk.IncludesInOrder | pkg/vclmod/include_walker.go:119-135 | every include of a file counts, where it stands |
| IncludeGraph.WalkOutputsReachable | pkg/vclmod/include_walker.go:58-138 | on success the output is exactly the files reachable from the main file, each once, in depth-first preorder with the main file first, and the depth counter is back |
| IncludeGraph.WalkIsPreorder | pkg/vclmod/include_walker.go:118-135 | the depth-limited walk, where it succeeds, is the unbounded depth-first preorder |
| IncludeGraph.VisitsReachable | pkg/vclmod/include_walker.go:58-89 | whatever the outcome, only reachable files are visited, and a file error names a reachable file that is missing or does not parse |
| IncludeGraph.DepthErrorMeansLongChain | pkg/vclmod/include_walker.go:55-62 | a depth error implies an include path from the main file through ten pairwise distinct files whose last file has a further include |
| IncludeGraph.ShallowGraphsWalk | pkg/vclmod/include_walker.go:55-74 | where every simple include path has at most nine files, the walk succeeds iff every reachable file reads and parses |
| IncludeInline.RewriteCommutes | pkg/vclmod/include_walker.go:141-190 | inlining the rewritten files is rewriting the inlined program, on every include graph |
| IncludeInline.InlinesExactlyWhen | pkg/vclmod/include_walker.go:118-135 | a main file inlines iff every include path from it is simple and leads to files that read and parse |
| IncludeInline.WalkerOutputInlines | pkg/vclmod/include_walker.go:58-138 | whenever the walk succeeds its output inlines to the rewriting of the inlined original; there is one iff no include path comes back to a file, and then the names collected are its names |
| IncludeResolve.IncludeResolver.ProcessIncludes | vendor/github.com/perbu/vclparser/pkg/parser/include_resolver.go:35-62 | the loop splices included declarations in place as the resolution function says |
| IncludeResolve.IncludeResolver.ResolveFile | vendor/github.com/perbu/vclparser/pkg/parser/include_resolver.go:65-133 | depth check, visited check, reading, marking and parsing in that order; a file stays visited and the depth counter comes back |
| IncludeResolve.ResolvesExactlyWhen | vendor/github.com/perbu/vclparser/pkg/parser/include_resolver.go:65-133 | resolution succeeds iff the main file states a version, every reachable file parses, each is included in one place only, the main file in none, and no include path has more than eleven files |
| IncludeLoops.WalkOfLoop | pkg/vclmod/include_walker.go:58-74 | a chain of files that comes back to one of its own is walked if it has fewer than ten files; otherwise the eleventh include is a depth error, visited or not |
| IncludeLoops.ResolutionOfLoop | vendor/github.com/perbu/vclparser/pkg/parser/include_resolver.go:65-96 | such a loop is a file included twice if it has at most ten files, and otherwise too deep at the twelfth file |
| IncludeLoops.ResolutionOfMainLoop | vendor/github.com/perbu/vclparser/pkg/parser/include_resolver.go:93-105 | a loop through the main file splices it in once more before its first include is refused |
| SingleParse.ExpandedInlines | vendor/github.com/perbu/vclparser/pkg/parser/include_resolver.go:35-62 | a program that is resolved is the inlined one |
| SingleParse.WalkerAgreesWithSingleParse | pkg/vclmod/modifier.go:29-143 | where both forms succeed and includes lead to the same files, the walker's output inlined is the rewriting of the single parse's program, and the names are the same |
| SingleParse.OnlyTheWalkerTakesDiamonds | pkg/vclmod/modifier.go:35-38 | on shallow graphs the walker succeeds iff every reachable file parses, and the single parse iff besides the main file states a version and no file is included in two places |
| SingleParse.WalkerStopsOneSooner | pkg/vclmod/include_walker.go:58-62 | on what the resolver accepts the walker succeeds iff no include path has more than ten files |
| SingleParse.Diamond | vendor/github.com/perbu/vclparser/pkg/parser/include_resolver.go:93-96 | an input: a diamond that is walked and not resolved |
| SingleParse.OtherDirectory | vendor/github.com/perbu/vclparser/pkg/parser/include_resolver.go:72-84 | an input: a relative include that the walker finds beside the including file and the single parse does not find |
| SingleParse.ProcessVCLWithIncludes | pkg/vclmod/include_walker.go:22-43 | success, validation failure and walk failure, each with its lists |
| SingleParse.ValidateAndModifyBackends | pkg/vclmod/modifier.go:29-143 | resolution failure, rejection with the missing names, or the rewritten program with the unused names |
| SingleParse.ReportsAreAlike | pkg/vclmod/modifier.go:29-143 | unless the walk or the resolution fails, whatever the two forms report is alike: the same errors and warnings, or the same program and warnings |
| CliFraming.DecodeEncode | pkg/varnishadm/varnishadm.go:397-462 | decoding an encoded status and body returns both and consumes exactly 14 plus body length bytes |
| CliFraming.PrefixIsShort | pkg/varnishadm/varnishadm.go:405-413 | no proper prefix of a response decodes |
| CliFraming.DecodeSound | pkg/varnishadm/varnishadm.go:409-454 | what decodes has its blank and newlines in place and a body exactly as long as its header says |
| CliFraming.EncodeShape | pkg/varnishadm/varnishadm.go:392-396 | a response is three columns of status, a blank, eight columns of length, a newline, the body and a newline |
| CliFraming.BufferedReader.Read | pkg/varnishadm/varnishadm.go:403 | one read of the buffered reader: from the buffer, or by one call that fills it, or directly for what is not less than the buffer |
| CliFraming.ReadFromConnection | pkg/varnishadm/varnishadm.go:397-462 | for every stream and all chunks: the response at the front is read iff it is well formed and the chunks taken hold all of it; exactly those chunks leave the connection, and nothing past the response is lost iff they end where it ends |
| CliFraming.FilledBounds | pkg/varnishadm/varnishadm.go:403 | less than 4096 bytes are pulled past a response |
| CliFraming.RestInOneCall | pkg/varnishadm/varnishadm.go:432-437 | a rest of at least 4096 bytes is asked for exactly, a shorter one by the buffer |
| CliFraming.LockstepReadLosesNothing | pkg/varnishadm/varnishadm.go:403 | in lockstep a fresh buffered reader loses and shifts no byte |
| CliFraming.ReadBeforeAnother | pkg/varnishadm/varnishadm.go:403 | with two responses on the connection and all chunks, the second is left without exactly the bytes pulled past the first |
| CliFraming.OneChunkPullsMore | pkg/varnishadm/varnishadm.go:403 | inputs: one chunk that reaches n bytes into the second response, as far as the buffer |
| CliServer.HandshakeStep | pkg/varnishadm/varnishadm.go:196-261 | every step keeps the handshake invariant: only a connection whose authentication reply was 200 serves requests, with its payload as banner |
| CliServer.InServiceStep | pkg/varnishadm/varnishadm.go:170-191 | every step keeps that the request in service is the one taken last, written last on the current connection, its caller unanswered |
| CliServer.WritesStep | pkg/varnishadm/varnishadm.go:335-372 | every step keeps that writes are in queue order, each its caller's command on an authenticated connection |
| CliSafety.WrittenOnceInOrder | pkg/varnishadm/varnishadm.go:153-192 | in every run each request is written at most once, in queue order |
| CliSafety.WrittenAuthenticated | pkg/varnishadm/varnishadm.go:196-261 | in every run requests are written only on a connection whose authentication reply was 200 |
| CliHandshake.SentAfterGreeting | pkg/varnishadm/varnishadm.go:196-248 | in every run a connection to which anything was sent was greeted with 107, one to which a second message was sent answered 200, no empty command is sent, and whoever was answered or timed out had been queued |
| CliHandshake.GreetingDecides | pkg/varnishadm/varnishadm.go:198-210 | in every run a greeting that has arrived can be read, and reading it leads to authentication iff its status is 107, and otherwise back to listening with nothing sent |
| CliHandshake.AuthAnswerDecides | pkg/varnishadm/varnishadm.go:231-248 | in every run the answer to the authentication opens the connection iff its status is 200, its text being the banner |
| CliHandshake.TakeDecides | pkg/varnishadm/varnishadm.go:336-361 | in every run an empty request costs the connection and any other is written as it is and its reply awaited for its caller |
| CliSafety.OnlyTimeoutBlocks | pkg/varnishadm/varnishadm.go:189 | in every run a handler at its send can deliver iff the caller it serves has not timed out |
| CliSafety.BlockedForGood | pkg/varnishadm/varnishadm.go:318-333 | once that caller has timed out, in every continuation nothing is taken, written or answered any more |
| CliSafety.RepliesAreOwn | pkg/varnishadm/varnishadm.go:318-333 | in every interleaving, with single-line commands, a response received is the peer's reply to that caller's own command |
| CliWitness.TimeoutBlocks | pkg/varnishadm/varnishadm.go:325-332 | the blocked state is reachable for every one-line command |
| CliWitness.SafeExactlyWhenOneLine | pkg/varnishadm/varnishadm.go:344-361 | beside single lines, a command is safe for every caller in every run iff it is a single line, under a peer that answers every line |
| CliWitness.SeveralLinesCrossReplies | pkg/varnishadm/varnishadm.go:344-361 | for every command holding a newline some run hands another caller a reply not to its own command |
| VclShow.ParseVCLShow | pkg/varnishadm/parsers.go:202-279 | the cursor loop computes the parse, the config map and the concatenated source |
| VclShow.MatchSpaced | pkg/varnishadm/parsers.go:208 | the header expression matches a header with any blanks in it and captures its id, size and filename |
| VclShow.FilenameTrimmed | pkg/varnishadm/parsers.go:239 | the filename is what follows, trimmed |
| VclShow.TooBigIsRefused | pkg/varnishadm/parsers.go:229-237 | an id or a size that is no machine integer is the error for it, the id first |
| VclShow.SourcesConcat | pkg/varnishadm/parsers.go:271-276 | the concatenated source is that of the entries in order |
| VclShow.ConfigMapKeepsLast | pkg/varnishadm/parsers.go:264-265 | a config shown several times keeps its last filename |
| VclShow.ParseInvertsPrint | pkg/varnishadm/parsers.go:202-279 | parsing what Varnish prints gives the entries back, separated or not, whatever the sources contain |
| VclShow.SourcesAreSlices | pkg/varnishadm/parsers.go:242-268 | on any payload the sources are disjoint in-order slices and only the last can be shorter than its size |
| TlsMock.Mock.Exec | pkg/varnishadm/mock.go:135-202 | one command updates the state and answers as the transition function says, and is recorded in the history |
| TlsMock.Mock.SetTLSState | pkg/varnishadm/mock.go:582-592 | committed certificates are replaced, any transaction is dropped |
| TlsRuns.CommitReplays | pkg/varnishadm/mock.go:414-524 | in every run an acknowledged commit makes the committed certificates the old ones with the successful loads and discards replayed in order |
| TlsRuns.CommittedChangesOnlyAtCommit | pkg/varnishadm/mock.go:135-202 | committed certificates change only at an acknowledged commit or a state reset |
| TlsAnswers.LoadSucceedsExactlyWhen | pkg/varnishadm/mock.go:414-457 | in every run a load that no test fails is answered 200 iff the certificate is not among the committed ones with the successful changes since, otherwise 300; the next commit has the certificate, or what it had before |
| TlsAnswers.DiscardSucceedsExactlyWhen | pkg/varnishadm/mock.go:460-497 | the same for a discard, answered 200 iff the certificate is there |
| TlsAnswers.LoadCommand | pkg/varnishadm/mock.go:416-424 | a load is the command, blanks, an id, blanks and a path |
| TlsAnswers.UsageErrors | pkg/varnishadm/mock.go:417-422 | too few words are answered 101 and open no transaction |
| TlsAnswers.SetResponsesAnswer | pkg/varnishadm/mock.go:147-181 | an error a test has set answers any command and changes nothing, a success it has set answers all but certificate commands |
| TlsAnswers.StateSetKeepsLast | pkg/varnishadm/mock.go:586-589 | of several certificates with one id the last is kept |
| TlsRuns.RollbackForgetsExactly | pkg/varnishadm/mock.go:147-152 | no continuation can tell that commands followed by a rollback were ever given iff rollback is not overridden with an error while they have left a transaction open |
| TlsRuns.RollbackLeavesNoTrace | pkg/varnishadm/mock.go:527-544 | commands followed by a rollback that reaches its handler or has nothing to undo leave every later response as if they had never been given |
| TlsRuns.OverriddenRollbackKeepsChanges | pkg/varnishadm/mock.go:147-152 | after an overridden rollback of an open transaction, a commit that is not overridden makes the staged certificates current |
| TlsListing.ParseTLSCertList | pkg/varnishadm/parsers.go:132-158 | the loop over the lines computes the parse, stopping at the first bad line |
| TlsListing.ListLineFields | pkg/varnishadm/mock.go:565-571 | the words of a padded line are its columns in order |
| TlsListing.ColumnsAlign | pkg/varnishadm/mock.go:565-571 | where every column is wide enough its entries start below its title |
| TlsListing.LineByWords | pkg/varnishadm/parsers.go:162-192 | a line is read by its words, whatever the blanks, and refused if it has fewer than ten |
| TlsListing.HeadingIsOptional | pkg/varnishadm/parsers.go:137-141 | the first line is passed over iff it has the word Frontend in it |
| TlsListing.ListingRoundTrip | pkg/varnishadm/mock.go:547-579 | parsing the mock's padded listing gives the same certificates, an empty frontend becoming default |
| TlsListing.CommittedRoundTrip | pkg/varnishadm/parsers.go:162-192 | for every walk over the committed map the parsed list holds each certificate once |
| Recorder.Recorder.GetMessagesSince | pkg/recorder/recorder.go:164-188 | the messages of what the log holds past the offset |
| Recorder.CutsExactlyAtBoundaries | pkg/recorder/recorder.go:219-235 | the messages of a log cut in two are those of the parts for every continuation iff the cut is at a line boundary |
| Recorder.LineByTag | pkg/recorder/recorder.go:238-305 | every line of two words or more is read by its second word, whatever the blanks, with the content its tag calls for, and dropped if the tag is none of interest |
| Recorder.KindsByTag | pkg/recorder/recorder.go:259-303 | the kinds are told apart by their tags |
| Recorder.TraceRoundTrip | pkg/recorder/parser.go:12-51 | a printed trace line is read back with its name, id, config, line and column |
| Recorder.TraceByWords | pkg/recorder/parser.go:12-51 | the same for any blanks, and what follows the position is ignored |
| Recorder.NoTrace | pkg/recorder/parser.go:13-49 | no trace is read from a message of another kind, with too few words or without a position of three numbers |
| ExecutedLines.ExchangeSort | pkg/recorder/parser.go:102-108 | the in-place exchange sort makes distinct entries strictly increasing and permutes them |
| ExecutedLines.GetExecutedLinesByConfig | pkg/recorder/parser.go:77-114 | exactly the mapped configs with a trace, each with exactly its traced lines in strictly increasing order |
| ExecutedLines.GetExecutedLines | pkg/recorder/parser.go:120-127 | exactly the traced lines of config 0, strictly increasing |
| ExecutedLines.ExecutedUnique | pkg/recorder/parser.go:77-114 | the result does not depend on message order or duplicates |
| ExecutedLines.LegacyAgrees | pkg/recorder/parser.go:116-127 | the legacy function answers the map form's entry for config 0 under any map naming it |
| ExecutedLines.IncrementalCoverage | pkg/recorder/recorder.go:155-188 | marking from two log parts cut at a line boundary is marking once from the whole log |
| Assertions.TotalCalls | pkg/assertion/assertion.go:101-104 | the sum of the counts, in whatever order the map is walked |
| Assertions.CheckResponse | pkg/assertion/assertion.go:50-74 | passed stays true iff status, headers and body meet the expectation |
| Assertions.CheckBackend | pkg/assertion/assertion.go:76-123 | the same for backend calls, a bare name asking for that backend alone |
| Assertions.CheckCache | pkg/assertion/assertion.go:125-167 | the same for cache hit and age bounds |
| Assertions.CheckCookies | pkg/assertion/assertion.go:225-257 | the same for cookies, failing without a jar |
| Assertions.Check | pkg/assertion/assertion.go:23-48 | the verdict is the full expectation predicate, and it is passed iff there are no errors |
| Verdicts.TwoWordsAreAHit | pkg/assertion/assertion.go:174-181 | two words in X-Varnish, with any blanks, are a hit whatever Age is |
| Verdicts.OtherwiseAgeDecides | pkg/assertion/assertion.go:183-193 | with none, one, three or more words, or no such header, the response is a hit iff Age is a number above 0 |
| Verdicts.AgeBounds | pkg/assertion/assertion.go:138-163 | age bounds are strict and not met without a number |
| Verdicts.HeaderDecides | pkg/assertion/assertion.go:58-65 | a header must have the value, a missing one counting as empty |
| Verdicts.BodyDecides | pkg/assertion/assertion.go:67-73 | the expected text must occur somewhere in the body |
| Verdicts.BareNameDecides | pkg/assertion/assertion.go:79-87 | a bare backend name asks for one call at least of it and for nothing else |
| Verdicts.PartsDecide | pkg/assertion/assertion.go:89-122 | without one, the backend used, the total and the calls of single backends each decide |
| Verdicts.CookieDecides | pkg/assertion/assertion.go:225-257 | a cookie must be in a jar with that value |
| ScenarioRuns.Backends.UpdateConfigs | pkg/harness/harness.go:396-414 | known backends take all of the override, with status 200 where it has none; others keep their config |
| ScenarioRuns.Backends.HandleRequest | pkg/backend/mock.go:76-111 | a request counts once and is answered by its route or else the fallback |
| ScenarioRuns.RunScenario | pkg/runner/runner.go:961-1099 | without transport errors a scenario passes iff every step meets its expectations on its own response, jar and the calls between its reset and read; finished or not, the configs are those after the writes of the steps reached |
| ScenarioRuns.LastWriteWins | pkg/runner/runner.go:1001-1023 | after any writes, those of a scenario or of a whole run, each backend has everything of the last write naming it, with status 200 where that has none, or the config it started with |
| ScenarioRuns.RequestAfterScenario | pkg/backend/mock.go:61-74 | after a scenario whose last step overrides a backend, a request on a path without a route is answered with what the step says |
| ScenarioRuns.StepWritesAt | pkg/runner/runner.go:989-1023 | a step writes its overrides iff all before it were served and its time could be set |
| ScenarioRuns.RunTest | pkg/runner/runner.go:684-758 | a single request or a scenario passes iff its expectations are met after the cache was cleared, and leaves the configs after its own overrides and its steps' |
| ScenarioRuns.RunTests | pkg/harness/harness.go:417-463 | passed plus failed is the total and the number of results, each result is its test's verdict, and the configs are those after all writes of all tests in run order |

## Left out

- Process control, sockets, temp directories, signals, sleeps, fake time and debug dumps: input and output.
- The VCL parser and renderer: syntax trees are taken as given, and the analyzer's trees carry ordered line spans.
- Resolution of include paths to absolute paths, and relative output paths: a path is an opaque name, and an include
  carries the two it leads to, from the including file's directory and from the main file's.
- SingleParse.WalkerAgreesWithSingleParse: assumes that every include leads to the same file from both directories.
- The texts of validation messages and the closest-match suggestion: only which names are reported.
- Malformed negative body lengths, on which the original fails at run time: they are the outcome `Crash`.
- Overflow of a `vcl.show` size added to a position: positions are unbounded.
- Unicode white space and case folding: white space and lower case are those of ASCII.
- Parsing and formatting of certificate dates: an expiration is the five-word text that is shown.
- TraceRuns.CoverFile: does not model the analyzer's resolution of includes; its theorems are about files without them.
- SHA-256 of the authentication: the digest is any one-line text.
- VclShow.ParseVCLShow: does not model regular expressions in general; the header expression is a scanner of its own.
- CliServer.HandshakeStep: does not model commands the peer answers late, twice or not in order.
- CliServer.WritesStep: does not model deadlines; any read or write may fail at any time instead.
- BlockHeap.BlockNode.constructor: does not model filling children after a node is made; nodes are built bottom-up.
- BackendRewrite.Program.ModifyBackends: does not model shared pointers to declarations; a program's
  declarations are one field.
- The server's own fields and goroutines: its state machine is over values, one step at a time.
- The mock's table of default responses: the responses set at the start are a parameter.
- TlsMock.Mock.Exec: does not model the lock or the artificial delay; commands run one at a time.
- ScenarioRuns.Backends.HandleRequest: does not model echo mode, failure modes and the HTTP response;
  only config choice and counter.
- ScenarioRuns.RunScenario: does not model requests handled at the same time as a config write, nor the trace
  attached to a failure.
- Assertions.CheckResponse: does not model canonical header names; headers are looked up by the name given.
- Assertions.Check: does not model error message texts; an error says which expectation failed.
- Parsing of step times and a missing time controller: a step whose time cannot be set is an untimely round.
- The runner's forms that load VCL for each test, and the single-request log offset: the shared-VCL forms are modelled.
- The getters of entered and not entered blocks, and matching with tolerance: simple filters of what is modelled.
- Formatter, command line, schema generation, logging, `vcl.list` parsing, cache and loader events: easy or thin.
