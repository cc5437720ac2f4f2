# A verified model of luchta's caching core

Luchta is a task runner for JavaScript monorepos. Its promise is that a task is skipped only when
nothing it depends on has changed. The places where that promise can break are the places where a
fast or compressed form stands in for a simple one: a digest for a set of hashes, a memo for a
recursion, a limited walk for a full one, a reused hash for a fresh one, a byte stream for a
definition, two decision procedures for one question. This project models those places in Dafny,
defines the simple form beside each fast one, and proves that they agree for every input, every
graph, every history or every interleaving. `Promise.SkippedExactlyWhenUnchanged` puts the pieces
together: a task is skipped if and only if definition, dependency outputs, package dependencies and
the contents of inputs and outputs are what they were, or two streams that were really hashed
collide. `RunHistory.SkippedOverHistories` says the same of whole histories, with the entry lists as
the resolvers make them and hashes copied from record to record.

Conventions:

- Rust strings and byte vectors are sequences of bytes (`Str`); a digest is 32 of them.
- The hash function is a parameter `h`. It cannot be injective, so a result of the form "equal
  digests mean equal things" always has a second way out, and that way out names the two distinct
  streams, among those really hashed, whose digests are equal.
- Ordered maps and sets are Dafny maps and sets; their iteration order is `Ascending`, the byte order.
- The file system, git's list of tracked files, canonical paths, stored records and the process
  table are parameters.
- Code that loops or updates state is a `method` proved against a specification function, and the
  promise of the code is a lemma about that function.

## Modules

| file | contents |
|---|---|
| `Basics`, `Sorting`, `Utf8` | byte strings, little-endian words, byte order, ordered maps; stable sort; UTF-8 (sections 3 and 4 of RFC 3629) |
| `RecordedPaths` | the text under which a path is recorded: lossy UTF-8 with backslashes turned into slashes |
| `Tasks`, `WhiteSpace` | task ids, dependency references and their config spelling, task definitions, and which of them run |
| `DepOutputs` | dependency output hashes: plain recursion, memoized walk, Merkle property |
| `Await` | the readiness scan of the await command |
| `FileEntries`, `FilesDiff`, `Decide` | combined entry hash, entry comparison, local and shared cache decisions |
| `TaskSpecHash`, `SpecDecoder`, `CacheNonce` | the byte streams and texts behind cache keys, and readers that get everything back |
| `Glob`, `GlobTable`, `GlobFiles`, `GlobErrors` | path globs; what each documented form matches, over the segments of a path, and what it takes of a tree; which patterns are refused |
| `ResolveOutputs`, `PathForms`, `LimitedWalk`, `OutputEntries` | outputs of a task: walk roots, spellings and order of paths, exactly when the limited walk suffices, entries in path order |
| `HashReuse` | content hashes reused by size and time, over whole histories |
| `EntryDedupe`, `BlockOrder`, `ResolveInputs`, `RequestOrder` | inputs of a task: dedupe, resolution and matcher, exactly when the order of entries, blocks and requests matters |
| `ListingCache` | both resolutions through the listing cache of a run |
| `Edits` | selection and splicing of automatic fixes |
| `Progress`, `ProgressOutcomes`, `ProgressCalls` | the progress reporter as a concurrent state machine; its counters, its shared sets and its lock told from the steps of a run |
| `TaskPrefixes`, `TaskList`, `TaskAge`, `TaskOrder` | the compact list of running or failed tasks; exactly when it is in age order; the deterministic one is the same for every order of tasks |
| `ProcessTree` | memory of a process tree |
| `Promise`, `RunHistory` | the pieces together: a task is skipped exactly when nothing it depends on or left behind has changed, at two moments and over whole histories |

## Where a promise needs a condition

For each of these one lemma gives a condition under which the promise holds, and another shows what
happens without it (or one lemma says exactly when).

- Task ids name cache records by text. The text is injective on packages that are not empty and
  contain no `#`. A task shares its name with a task of such a package exactly when its own package
  is empty or contains a `#`, except that a package that starts with `//root#` shares it with none
  (`NameInjective`, `NameShared`).
- The connector digest separates names from hashes with byte 0x1f and does not length-prefix names.
  It is injective on sets of names in which no name followed by that byte begins another, names free of
  the byte among them. A name made of a second name, a hash and a third name with the byte in between
  swallows a frame, for any names and digests (`ConnectorStreamInjective`, `PlainlyNamed`,
  `ConnectorStreamAmbiguous`).
- A `dependsOn` written `//root#t` parses to a reference that serializes as `#t`, exactly like the
  root reference, so the two definitions share a task-spec stream. Every other spelling survives the
  round trip, no other one fails it, and no other two parsed references are serialized alike
  (`ConfigRoundTrip`, `SerializedAlike`, `RootSpellingCollides`).
- The limited walk of outputs splits patterns at backslashes although a backslash escapes. It finds
  everything when no escape stands in front of the first metacharacter, and it misses the file for
  every pattern `x\*y`. In general it finds a matched file exactly when the directory it starts from,
  written out, is the beginning of what the pattern spells with its escapes undone. A whole list loses
  nothing of a tree exactly when some include sets no limit, or each file it takes is matched by such a
  pattern or lies below the directory of an include that does not match it (`LimitedWalkSuffices`,
  `EscapedHeadMisses`, `FoundExactly`, `LimitedWalkExact`, `ListWalkExact`).
- Paths are recorded with backslashes turned into slashes and broken UTF-8 replaced, so files `x\y`
  and `x/y` have one recorded form; exactly the valid texts without backslashes are recorded as they
  stand. Inputs resolve to one entry per selected path, strictly sorted, exactly when no two selected
  paths share a recorded form or a file (`RecordedAsIs`, `SeparatorsMerge`, `BrokenBytesMerge`,
  `ResolutionExact`, `SeparatorsCollapse`).
- Two spellings of one file are deduped to the first. The deduped and sorted list is the same for every
  order of the entries exactly when no two different entries share a key or a recorded path; lists of
  literal requests resolve alike in every order under the same condition. Requests in general move
  whole blocks of entries: their order makes no difference exactly when what any two requests keep
  agrees key by key and in the first entry of every path, or a pattern does not compile
  (`OrderIndependentExactly`, `LiteralOrderExactly`, `FirstSpellingWins`, `RequestOrderExactly`).
- The matcher and the resolver agree on a listable path exactly when no other selected path has its
  recorded form (`MatcherAgrees`).
- Hashes are reused by recorded path, size and modification time. Every history made of a set of writes
  records only true entries exactly when any two of the writes that agree in these three have contents of
  one hash; otherwise a rewritten input can be skipped over (`TrueHistories`, `StaleReuse`, `StaleSkip`,
  `SeparatorsLookAlike`).
- The `truncated` flag of a file diff tells whether a delta was left off, except exactly when more
  than `limit` paths differ and `limit` is at least 2^32 - 1 (`DiffMeaning`).
- On lists of distinct paths the diff finds nothing and the streams are equal under one more condition,
  that entries absent in both lists under one path carry one hash. So a local skip means that the
  shared decision accepts exactly under that condition, always for entries as the resolver builds them,
  and not for two absent entries with different hashes, short of a collision (`SameFactsExactly`,
  `DecisionsAgree`, `ResolvedDecisionsAgree`, `AbsentHashMatters`).
- The counts never exceed the total, and no status line overcounts, in any run whose failing tasks lie
  in a given set, if and only if that set is planned (`NeverOvercountsExactly`, `StatusLinesExactly`;
  `UnplannedFailureOvercounts` is the run).
- A group of running tasks over packages is placed by the oldest task of its name, including a root
  task that is not in the group. The list is in age order exactly when, for every shared name that a
  root task leads, everything that started from then on and before the first other task of the name is
  in a group that starts earlier still. A list that begins with a root task of a shared name never is
  (`AgeOrderExactly`, `RootTaskJumpsTheQueue`).

## Model

| member | source | states |
|---|---|---|
| `Tasks.NameInjective` | crates/luchta-types/src/lib.rs:126-136 | two tasks with plain package names and the same displayed id are the same task |
| `Tasks.PlainReadingMeaning` | crates/luchta-types/src/lib.rs:126-136 | a text is the name of at most one task with a plain package, and its first `#` finds that task |
| `Tasks.NameShared` | crates/luchta-types/src/lib.rs:126-136 | a task shares its name with a task of a plain package if and only if its own package is not plain and does not spell the root package out in front of a `#` |
| `Tasks.ParseReads` | crates/luchta-types/src/lib.rs:520-573 | `^^n`, `^n`, `#n` and `n` are read as the four references to n exactly when n is not empty and, in that order of precedence, the text has no other reading |
| `Tasks.ParseSpecific` | crates/luchta-types/src/lib.rs:545-557 | a task of a package is read exactly from package, `#` and task, neither empty, when the first `#` stands between them |
| `Tasks.ParseRefuses` | crates/luchta-types/src/lib.rs:520-573 | refused are exactly the empty text, a bare prefix and a text whose only `#` is its last byte |
| `Tasks.ConfigRoundTrip` | crates/luchta-types/src/lib.rs:491-573 | parsing a dependency reference and serializing it gives the text back exactly when the text does not spell the root package out |
| `Tasks.SerializedAlike` | crates/luchta-types/src/lib.rs:491-573 | two parsed references are serialized to one text if and only if they are equal, or one spells the root package out and the other is the root reference of the same task |
| `WhiteSpace.BlankExactly` | crates/luchta-types/src/lib.rs:305-312 | trimming leaves nothing of a text if and only if it is a sequence of Unicode white-space characters in UTF-8 |
| `WhiteSpace.VisibleByte` | crates/luchta-types/src/lib.rs:305-312 | one ASCII byte that is no white space keeps a command from being blank |
| `WhiteSpace.CountsExactly` | crates/luchta-types/src/lib.rs:301-312 | a task counts as running if and only if it has a worker, or a command that is more than white space |
| `DepOutputs.FramesInjective` | crates/luchta-cli/src/dep_outputs.rs:93-105 | name, separator and digest frames can be read back one by one when no name followed by the separator begins another |
| `DepOutputs.ConnectorStreamInjective` | crates/luchta-cli/src/dep_outputs.rs:93-105 | under that condition the stream hashed for a connector determines the map of outputs behind it |
| `DepOutputs.PlainlyNamed` | crates/luchta-types/src/lib.rs:126-136 | plain packages and names without the separator are enough for every task of a graph |
| `DepOutputs.ConnectorStreamAmbiguous` | crates/luchta-cli/src/dep_outputs.rs:93-105 | for any two names and digests a single name that contains the separator produces the same stream |
| `DepOutputs.AgreeingLookups` | crates/luchta-cli/src/dep_outputs.rs:46-82 | lookups that agree on the counted tasks reachable through connectors give the same outputs |
| `DepOutputs.EqualOutputs` | crates/luchta-cli/src/dep_outputs.rs:46-105 | equal outputs force agreement on all those tasks, or a connector reached has two different streams with one digest |
| `DepOutputs.MerkleProperty` | crates/luchta-cli/src/dep_outputs.rs:37-105 | both directions for every acyclic graph: dependency maps are equal exactly when the lookups agree on every counted task behind connectors, or a collision is exhibited |
| `DepOutputs.Query.ResolveDependencyOutputs` | crates/luchta-cli/src/dep_outputs.rs:37-44 | the memoized walk returns the plain recursion's map, expands each connector behind the task exactly once, and notices a missing record exactly when one is missing |
| `DepOutputs.Query.Resolve` | crates/luchta-cli/src/dep_outputs.rs:46-60 | one level of the walk: plain result, and the memo stays sound and grows by exactly the connectors met |
| `DepOutputs.Query.DependencyHash` | crates/luchta-cli/src/dep_outputs.rs:62-82 | the hash of one dependency, looked up, remembered or expanded, is the plain one |
| `DepOutputs.NotBehindItself` | crates/luchta-cli/src/dep_outputs.rs:46-82 | on an acyclic graph no connector lies behind itself, so the memo never serves a half-built digest |
| `DepOutputs.RunningIsLookedUp` | crates/luchta-cli/src/dep_outputs.rs:62-88 | a dependency with a worker, or with a command that is more than white space, is in the map if and only if the lookup has a hash for it, and with that hash |
| `DepOutputs.ConnectorIsNotLookedUp` | crates/luchta-cli/src/dep_outputs.rs:62-88 | lookups that differ only at a defined task with no worker and no command, or one of white space, give every task the same map |
| `Await.Context.BehindIsListed` | crates/luchta-cli/src/await_cmd.rs:180-223 | what lies behind a scanned task through connectors was scanned before it |
| `Await.Context.LookupsAgree` | crates/luchta-cli/src/live_cache_state.rs:133-141 | once everything before it succeeded, the lookup that ignores success and the one that demands it give the same dependency map |
| `Await.Context.CurrentSuccessfulDependencyOutputs` | crates/luchta-cli/src/await_cmd.rs:257-274 | a map is returned exactly when every counted task reached has a successful record, memo hits or not, and it is the Merkle map of those records |
| `Await.Context.TaskIsReady` | crates/luchta-cli/src/await_cmd.rs:208-255 | a task passes exactly when its record is current for the dependency map its path computes, is an error exactly when it runs, is cacheable and cannot be inspected, and is not ready otherwise |
| `Await.Context.ScanMeaning` | crates/luchta-cli/src/await_cmd.rs:180-274 | passing the scan task by task is the same as the whole list being a dependency-closed order of tasks with current, successful records |
| `Await.Context.SelectedSubgraphIsReady` | crates/luchta-cli/src/await_cmd.rs:180-223 | the scan answers true exactly when the order is dependency-closed and every counted task in it is current; an error exactly when it gets to a task that has no definition or cannot be inspected; false in every other case |
| `FileEntries.CombinedEntriesHash` | crates/luchta-cache/src/resolve.rs:692-709 | the digest is that of the domain, the length and the frames of the entries in path order |
| `FileEntries.FramePrefixFree` | crates/luchta-cache/src/resolve.rs:692-709 | the frame of one entry can be read off the front of any stream |
| `FileEntries.CombinedStreamMeaning` | crates/luchta-cache/src/resolve.rs:692-734 | for distinct paths two streams are equal exactly when the sets of path, absence and hash are, whatever the order of the lists |
| `FileEntries.DomainsSeparate` | crates/luchta-cache/src/resolve.rs:17-19 | input, output and cache-file streams are never equal to one another |
| `Basics.LessMeaning` | crates/luchta-cache/src/resolve.rs:692-709 | the byte order of texts: a proper prefix comes first, otherwise the first difference decides |
| `FilesDiff.Diff` | crates/luchta-cache/src/decide.rs:308-349 | the loop returns the first `limit` deltas in prior-then-new path order and the number of all of them, saturated at 32 bits |
| `FilesDiff.ChainIsPathOrder` | crates/luchta-cache/src/decide.rs:308-349 | visiting both maps' keys with a seen-set is the prior paths followed by the new ones, each once |
| `FilesDiff.DeltaCount` | crates/luchta-cache/src/decide.rs:308-371 | the number of deltas is the number of paths on which the two maps disagree |
| `FilesDiff.DeltasMeaning` | crates/luchta-cache/src/decide.rs:308-371 | each delta is about a disagreeing path and carries on each side the hash and absence of that side, each such path has one, and they come with prior paths first, in ascending order |
| `FilesDiff.DiffSymmetric` | crates/luchta-cache/src/decide.rs:351-371 | the count is the same with the arguments swapped |
| `FilesDiff.DiffMeaning` | crates/luchta-cache/src/decide.rs:308-349 | the count is exact below 2^32 and `truncated` is right exactly outside one overflow case |
| `Decide.CollectChangedDepTasks` | crates/luchta-cache/src/decide.rs:236-253 | the filter over the prior names followed by the loop over the new ones lists the disagreeing dependencies, prior ones first |
| `Decide.ChangedDepTasksContents` | crates/luchta-cache/src/decide.rs:236-253 | a dependency is listed exactly when its hash differs, came or went |
| `Decide.ChangedDepTasksEmpty` | crates/luchta-cache/src/decide.rs:232-253 | that list is empty exactly when the dependency maps are equal |
| `Decide.SkipMeaning` | crates/luchta-cache/src/decide.rs:56-145 | a task is skipped exactly when the prior record is usable and neither outputs nor inputs changed, and changed outputs are reported first |
| `Decide.ChangeMeansDiffer` | crates/luchta-cache/src/decide.rs:261-304 | files count as changed exactly when they cannot be resolved or some path disagrees with the record |
| `Decide.SkipOnFields` | crates/luchta-cache/src/decide.rs:216-230 | a skip on the fields of record and state: inputs, and separately outputs, are resolved from the recorded patterns if these were detected and from the declared ones if not |
| `Decide.DetectedIgnoresDeclared` | crates/luchta-cache/src/decide.rs:216-230 | the decision on detected patterns is the same for any declared ones |
| `Decide.DeclaredIgnoresRecorded` | crates/luchta-cache/src/decide.rs:216-230 | the decision without detection is the same for any recorded patterns |
| `Decide.DependencyReason` | crates/luchta-cache/src/decide.rs:85-92 | a reason about dependencies names exactly those whose hash differs, came or went |
| `Decide.FileReasons` | crates/luchta-cache/src/decide.rs:261-304 | a reason about files describes the first fifty differences side by side, gives their number and says whether some are left off; it is empty when files cannot be resolved |
| `Decide.FirstMismatchWins` | crates/luchta-cache/src/decide.rs:45-145 | the reason given is a mismatch that is there, and no mismatch of higher documented precedence is |
| `Decide.SameFactsExactly` | crates/luchta-cache/src/decide.rs:304-371 | two lists of distinct paths say the same if and only if they disagree nowhere and entries absent in both carry one hash |
| `Decide.InputChangeMeaning` | crates/luchta-cache/src/decide.rs:113-145 | the recorded and the current input list have one combined stream if and only if inputs count as unchanged and absent entries agree |
| `Decide.DecisionsAgree` | crates/luchta-cache/src/decide.rs:56-253 | shared restore accepting implies local skip or changed outputs only; a local skip implies that shared restore accepts if and only if absent entries agree; or the two input streams collide |
| `Decide.ResolvedDecisionsAgree` | crates/luchta-cache/src/decide.rs:56-253 | for absent entries with the zero hash, as the resolver builds them, a local skip always implies that shared restore accepts |
| `Decide.AbsentHashMatters` | crates/luchta-cache/src/decide.rs:56-253 | on one absent input with two different hashes the local decision is to skip and the shared one refuses, or the two streams collide |
| `TaskSpecHash.TaskSpecDigest` | crates/luchta-cache/src/hashing.rs:25-64 | the hasher is fed the stream of the specification in each of the four forms |
| `TaskSpecHash.FieldsPrefixFree` | crates/luchta-cache/src/hashing.rs:102-122 | a record of options, lists, words and flags can be read off the front of any stream |
| `TaskSpecHash.CoreInjective` | crates/luchta-cache/src/hashing.rs:102-122 | the eight core fields are determined by their encoding, whatever follows |
| `TaskSpecHash.SpecStreamInjective` | crates/luchta-cache/src/hashing.rs:25-64 | two specifications feed the same bytes exactly when all ten parts are equal, across the four optional-extension forms |
| `TaskSpecHash.DefinitionsDetermined` | crates/luchta-cache/src/hashing.rs:25-122 | for definitions whose references were parsed, the bytes are equal if and only if the nonces are and the definitions are the same up to the two spellings of a root task |
| `TaskSpecHash.RootSpellingCollides` | crates/luchta-types/src/lib.rs:491-573 | the spelled-out root package gives a different reference with the same serialized form, for every task name |
| `TaskSpecHash.DedupSorted` | crates/luchta-cache/src/hashing.rs:90-99 | removing neighbours from a sorted list leaves it strictly sorted with the same members |
| `TaskSpecHash.PkgDepStreamMeaning` | crates/luchta-cache/src/hashing.rs:90-99 | package-dependency streams are equal exactly when the sets of pairs are, whatever order and repetition |
| `SpecDecoder.SpecBack` | crates/luchta-cache/src/hashing.rs:25-122 | a reader of the fields in the order of their declaration gets the specification back from its stream, in all four forms |
| `SpecDecoder.PkgDepsBack` | crates/luchta-cache/src/hashing.rs:90-99 | a reader gets the package dependencies back, each once, ascending by name and then by version |
| `CacheNonce.PercentRoundTrip` | crates/luchta-cli/src/cache_nonce.rs:5 | percent-decoding (section 2.1 of RFC 3986) undoes the encoding of every value |
| `CacheNonce.EncodedAsItself` | crates/luchta-cli/src/cache_nonce.rs:5 | a value is encoded as itself if and only if it is printable ASCII without percent, ampersand and equals signs |
| `CacheNonce.EncodedHasNoDelimiters` | crates/luchta-cli/src/cache_nonce.rs:5 | encoded values contain neither delimiter |
| `CacheNonce.SplitJoin` | crates/luchta-cli/src/cache_nonce.rs:29-33 | splitting at the delimiter undoes joining |
| `CacheNonce.ResolveCacheNonce` | crates/luchta-cli/src/cache_nonce.rs:7-34 | the loop over the sources builds the specified text, or None when all are absent |
| `CacheNonce.NonceRoundTrip` | crates/luchta-cli/src/cache_nonce.rs:5-34 | a decoder recovers all four nonces, absent kept distinct from empty |
| `CacheNonce.NonceInjective` | crates/luchta-cli/src/cache_nonce.rs:5-34 | two nonce texts are equal exactly when all four sources are |
| `CacheNonce.NonceText` | crates/luchta-cli/src/cache_nonce.rs:7-34 | the text is the encoded values that are present behind their keys, in the order env, global, worker, task, between ampersands |
| `Glob.HeadIsLiteral` | crates/luchta-glob/src/lib.rs:24-44 | every text that a pattern matches starts with the pattern's head up to the first metacharacter |
| `Glob.LiteralStarts` | crates/luchta-glob/src/lib.rs:24-44 | every text that a pattern matches starts with what the pattern spells, escapes undone |
| `Glob.OrdinaryMatches` | README.md:507-518 | ordinary bytes at the front of a pattern match themselves and nothing else |
| `Glob.StarMeaning` | README.md:507-518 | a star matches any bytes of one directory level and nothing beyond it |
| `Glob.UnescapePlain` | crates/luchta-glob/src/lib.rs:63-79 | a literal without backslashes is its own unescaped form |
| `GlobTable.AnyDepth` | README.md:507-518 | `**/p` matches a path if and only if p matches what is left of it behind zero or more of its directories |
| `GlobTable.InDirectory` | README.md:507-518 | a pattern behind a plain directory matches a path if and only if the directory leads it and the pattern matches the rest |
| `GlobTable.Below` | README.md:507-518 | `dir/**` matches exactly the paths below the directory |
| `GlobTable.AnyDepthBelow` | README.md:507-518 | `dir/**/p` matches a path below the directory if and only if p matches what is left of it behind zero or more further directories |
| `GlobTable.StarInName` | README.md:507-518 | `x*y` matches exactly the names of one level that begin with x and end with y, the two not overlapping |
| `GlobTable.DoubleStarInName` | README.md:507-518 | `x**y`, where the stars do not fill a segment, matches what `x*y` matches |
| `GlobTable.QuestionInName` | README.md:507-518 | `x?y` matches exactly the names of one level with one character between x and y |
| `GlobTable.ClassInText` | README.md:507-518 | a set of characters and ranges in brackets, a closing bracket first among them or not, stands for one character in it, and with `!` for one that is not |
| `GlobTable.CaretNegates` | README.md:507-518 | `[^` matches and compiles as `[!` does, whatever follows |
| `GlobTable.BracesInText` | README.md:507-518 | braces match what one of their branches, each itself a glob, would match in their place |
| `GlobTable.EscapedMeaning` | crates/luchta-glob/src/lib.rs:63-79 | a text with every byte escaped matches itself alone, and unescaping gives it back |
| `GlobFiles.ResolvedAnyDepth` | crates/luchta-cache/src/resolve.rs:539-582 | outputs `**/p`: the listed files that p matches behind zero or more of their directories, or an error exactly when p does not compile |
| `GlobFiles.ResolvedBelow` | crates/luchta-cache/src/resolve.rs:539-582 | outputs `dir/**`: the listed files below the directory |
| `GlobFiles.ResolvedStar` | crates/luchta-cache/src/resolve.rs:539-582 | outputs `x*y`: the listed files of the base directory whose name has that frame |
| `GlobFiles.ResolvedQuestion` | crates/luchta-cache/src/resolve.rs:539-582 | outputs `x?y`: the listed files of the base directory with one character in its place |
| `GlobFiles.ResolvedClass` | crates/luchta-cache/src/resolve.rs:539-582 | outputs with a set in brackets: the listed files with one character in its place that is in the set, or is not; an error exactly when a range runs backwards |
| `GlobFiles.ResolvedBraces` | crates/luchta-cache/src/resolve.rs:539-582 | outputs with braces: the listed files that some branch in their place would take; an error exactly when a branch or what follows does not compile |
| `GlobFiles.ResolvedWithout` | crates/luchta-cache/src/resolve.rs:539-582 | an exclusion takes away exactly what its body matches |
| `GlobFiles.InputsAtAnyDepth` | crates/luchta-cache/src/resolve.rs:411-475 | input `**/p`: the tracked files below the base that p matches behind zero or more of their directories |
| `GlobFiles.InputsBelow` | crates/luchta-cache/src/resolve.rs:411-475 | input `dir/**`: the tracked files below that directory of the base |
| `GlobErrors.Refused` | crates/luchta-glob/src/lib.rs:24-44 | behind ordinary text a dangling escape, a closing brace on its own, an open brace and an open bracket do not compile |
| `GlobErrors.EscapedCompiles` | crates/luchta-glob/src/lib.rs:63-79 | every text compiles with all its bytes escaped |
| `GlobErrors.RefusedPatterns` | crates/luchta-cache/src/resolve.rs:539-582 | a pattern list is an error exactly when one of its patterns is alone; an exclusion or a wildcard is when it does not compile, a literal never, it names its unescaped path |
| `GlobErrors.RefusedRequests` | crates/luchta-cache/src/resolve.rs:339-371 | a list of input requests is an error exactly when one of them is alone, a negated or wildcard one that does not compile |
| `GlobErrors.SelectedWithout` | crates/luchta-cache/src/resolve.rs:178-212 | a negated request takes away exactly what its pattern matches below the base of the include |
| `ResolveOutputs.StaticPrefix` | crates/luchta-cache/src/resolve.rs:1099-1120 | the loop over the pieces of a pattern stops at the first metacharacter and keeps the directories before it |
| `ResolveOutputs.ComputePrefixUnion` | crates/luchta-cache/src/resolve.rs:1077-1097 | the loop over the patterns collects their prefixes, or gives up when one pattern has none |
| `ResolveOutputs.ResolvePaths` | crates/luchta-cache/src/resolve.rs:539-582 | literals in their first spelling and matching candidates are put into an ordered set of paths, then what an exclusion matches is dropped; a bad pattern is an error |
| `ResolveOutputs.SameComponents` | crates/luchta-cache/src/resolve.rs:568-580 | two listed files are the same path to an ordered set only if they are one file |
| `PathForms.OneSegmentMore` | crates/luchta-cache/src/resolve.rs:568-580 | a segment behind a slash adds a name or a `..` to a path, nothing when it is empty or a `.` |
| `PathForms.SameSpellings` | crates/luchta-cache/src/resolve.rs:568-580 | repeated slashes, `.` between slashes and a slash at the end spell the same path |
| `PathForms.KindsInOrder` | crates/luchta-cache/src/resolve.rs:568-580 | in an ordered set absolute paths come first, then those that start with `.`, with `..`, and with a name |
| `PathForms.NamesInOrder` | crates/luchta-cache/src/resolve.rs:568-580 | entries of one directory come in the byte order of their names, whatever is below them |
| `PathForms.DirectoryFirst` | crates/luchta-cache/src/resolve.rs:568-580 | a directory comes in front of what is below it |
| `OutputEntries.ResolveWithCandidates` | crates/luchta-cache/src/resolve.rs:539-626 | the resolved paths become entries in path order |
| `OutputEntries.OutputOrder` | crates/luchta-cache/src/resolve.rs:568-596 | every resolved path occurs once, in strictly ascending component order |
| `OutputEntries.LimitedOutputs` | crates/luchta-cache/src/resolve.rs:523-596 | where the walk roots fit, the limited walk gives the entries, hashes included, that the full walk gives |
| `ResolveOutputs.PrefixCovers` | crates/luchta-cache/src/resolve.rs:1099-1120 | the prefix of a pattern is a leading directory of every path that shares its head |
| `ResolveOutputs.MatchedIsListed` | crates/luchta-cache/src/resolve.rs:1029-1097 | every file of the tree that a pattern matches is found by the limited walk |
| `ResolveOutputs.LimitedWalkSuffices` | crates/luchta-cache/src/resolve.rs:523-596 | for every tree and every pattern list without escapes before a metacharacter the limited walk resolves to what the full walk does, exclusion-only, empty and leading-glob lists included |
| `ResolveOutputs.EscapedHeadMisses` | crates/luchta-cache/src/resolve.rs:1099-1120 | for every pattern `x\*y` of ordinary bytes the full walk finds the file and the limited walk finds nothing |
| `LimitedWalk.RootNotLonger` | crates/luchta-cache/src/resolve.rs:1099-1120 | a walk root that agrees with what the pattern spells is never longer than it, for all mixtures of slashes, escapes, empty and `.` pieces |
| `LimitedWalk.FoundExactly` | crates/luchta-cache/src/resolve.rs:1029-1120 | a file that a pattern matches lies below the pattern's walk root exactly when that root is the beginning of what the pattern spells |
| `LimitedWalk.FittingRootsSuffice` | crates/luchta-cache/src/resolve.rs:523-596 | pattern lists in which every wildcard has a walk root that fits or no escape before a metacharacter resolve to what the full walk gives |
| `LimitedWalk.LimitedWalkExact` | crates/luchta-cache/src/resolve.rs:523-596 | for every wildcard and every tree the limited walk resolves to what the full walk does if and only if the root fits or the pattern matches no file there |
| `LimitedWalk.ReachedExactly` | crates/luchta-cache/src/resolve.rs:1029-1120 | the limited walk reaches a matched file if and only if an include has no root, a pattern that matches the file has a root that fits, or the root of one that does not match it holds it |
| `LimitedWalk.ListWalkExact` | crates/luchta-cache/src/resolve.rs:523-596 | for every pattern list and every tree the limited walk resolves to what the full walk does if and only if it reaches every file taken, in these three ways |
| `ListingCache.Cache.constructor` | crates/luchta-cache/src/resolve.rs:62-72 | a new cache remembers nothing |
| `ListingCache.Cache.WorktreeRoot` | crates/luchta-cache/src/resolve.rs:855-892 | a remembered root is answered as it was, any other is the real one and is remembered; a truthful cache stays so |
| `ListingCache.Cache.InputCandidates` | crates/luchta-cache/src/resolve.rs:477-507 | a listing that either level remembers is answered as it was, whatever the file system says by now; any other is remembered in both; over a truthful cache that is the uncached listing |
| `ListingCache.Cache.OutputCandidates` | crates/luchta-cache/src/resolve.rs:753-770 | a listing remembered for exactly that base directory and those prefixes is answered as it was, any other is made and remembered under them; a truthful cache stays so |
| `ListingCache.ResolveInputFiles` | crates/luchta-cache/src/resolve.rs:339-392 | resolving inputs through a cache in any truthful state gives the uncached entries, errors included, and keeps the cache truthful |
| `ListingCache.AnswerAll` | crates/luchta-cache/src/resolve.rs:62-134 | any sequence of input and output resolutions that share one cache gets, one by one, the entries it would get uncached |
| `ListingCache.ResolveOutputFiles` | crates/luchta-cache/src/resolve.rs:736-770 | resolving outputs through the cache gives the uncached entries for every pattern list |
| `ListingCache.PlainOutputsAreWhole` | crates/luchta-cache/src/resolve.rs:523-537 | where the walk roots fit, those are the entries of the whole output tree |
| `RecordedPaths.RecordedAsIs` | crates/luchta-cache/src/resolve.rs:902-904 | a path is recorded as it stands if and only if it is valid UTF-8 without backslashes |
| `RecordedPaths.SeparatorsMerge` | crates/luchta-cache/src/resolve.rs:902-904 | names that differ in a slash and a backslash are recorded alike, whatever bytes stand around them |
| `RecordedPaths.BrokenBytesMerge` | crates/luchta-cache/src/resolve.rs:902-904 | names that differ in a byte that can start no character, behind any valid text and in front of anything, are recorded alike |
| `RecordedPaths.CutShortOnce` | crates/luchta-cache/src/resolve.rs:902-904 | behind valid text a character cut short becomes one replacement character, however many of its bytes are there |
| `HashReuse.ReuseIsFresh` | crates/luchta-cache/src/resolve.rs:780-815 | with truthful records an entry with a reused hash equals the freshly hashed one |
| `HashReuse.HistoryInv` | crates/luchta-cache/src/resolve.rs:404-409 | over any history every recorded entry stays true of some write of its recorded path |
| `HashReuse.RecordsAreTrue` | crates/luchta-cache/src/resolve.rs:780-815 | over any history of writes, removals and recorded runs whose indistinguishable writes have one hash, every recorded entry is the freshly hashed one, true at recording time |
| `HashReuse.TrueHistories` | crates/luchta-cache/src/resolve.rs:780-815 | every history made of a set of writes records only true entries if and only if any two of the writes with one recorded path, size and time have contents of one hash |
| `HashReuse.StaleReuse` | crates/luchta-cache/src/resolve.rs:780-815 | from any state, two writes that look alike and hash differently lead to an entry that is false of the disk |
| `HashReuse.SeparatorsLookAlike` | crates/luchta-cache/src/resolve.rs:780-841 | files `x\y` and `x/y` of one size and time look alike |
| `ResolveInputs.RequestMeaning` | crates/luchta-cache/src/resolve.rs:411-475 | one request yields exactly the paths it selects, negations of all requests applied |
| `ResolveInputs.MergedSelects` | crates/luchta-cache/src/resolve.rs:339-392 | the merged list holds a path exactly when some request selects it and none excludes it |
| `EntryDedupe.DedupeAndSort` | crates/luchta-cache/src/resolve.rs:628-661 | the loop with two seen-sets keeps the first entry of every key, then sorts by recorded path |
| `EntryDedupe.DedupeKeepsKeys` | crates/luchta-cache/src/resolve.rs:628-661 | dedupe keeps entries of the list, exactly one of each key |
| `EntryDedupe.DedupeMeaning` | crates/luchta-cache/src/resolve.rs:628-661 | if no two different entries share a key or a path, dedupe loses none and the sorted list is strictly sorted |
| `EntryDedupe.FirstWins` | crates/luchta-cache/src/resolve.rs:628-661 | the first entry of a list is kept, is the only one of its key and the first of its path |
| `EntryDedupe.OrderIndependentExactly` | crates/luchta-cache/src/resolve.rs:628-661 | the deduped and sorted list is the same for every permutation of the entries if and only if no two different entries share a key or a recorded path |
| `BlockOrder.DedupeConcat` | crates/luchta-cache/src/resolve.rs:628-661 | a block behind another adds those of its own deduped entries whose keys are new |
| `BlockOrder.CommuteExactly` | crates/luchta-cache/src/resolve.rs:628-661 | two blocks of entries give one result in either order if and only if what they keep agrees key by key and in the first entry of every path |
| `BlockOrder.BlockOrderExactly` | crates/luchta-cache/src/resolve.rs:372-392 | any number of blocks gives one result in every order if and only if any two of them agree so |
| `ResolveInputs.QualifiedText` | crates/luchta-cache/src/resolve.rs:834-841 | joining a path below a base to the path of the base gives the path from the root of the worktree |
| `ResolveInputs.RequestEntries` | crates/luchta-cache/src/resolve.rs:411-475 | the entries of one request are those of its paths, recorded with the base in front |
| `ResolveInputs.Resolve` | crates/luchta-cache/src/resolve.rs:339-392 | the loop over the requests, each literal or wildcard as it was asked for, computes the specified resolution, None on a bad pattern |
| `ResolveInputs.ResolutionExact` | crates/luchta-cache/src/resolve.rs:339-392 | the result has one entry per selected path, strictly sorted, if and only if no two selected paths share a recorded form or a file |
| `ResolveInputs.ResolutionIsPlain` | crates/luchta-cache/src/resolve.rs:339-392 | then it holds the entries of the selected paths and nothing else |
| `ResolveInputs.SeparatorsCollapse` | crates/luchta-cache/src/resolve.rs:834-904 | whenever `x\y` and `x/y` are both selected there is not one entry per path |
| `RequestOrder.OrderOfRequests` | crates/luchta-cache/src/resolve.rs:339-392 | without clashing entries, request lists with the same members resolve alike, in any order and number |
| `RequestOrder.LiteralOrderExactly` | crates/luchta-cache/src/resolve.rs:436-455 | a list of literal requests resolves alike in every order if and only if no two of its entries clash |
| `RequestOrder.RequestOrderExactly` | crates/luchta-cache/src/resolve.rs:339-392 | any list of requests, wildcards and exclusions included, resolves alike in every order if and only if the blocks of any two of its requests agree so, or a pattern does not compile |
| `RequestOrder.FirstSpellingWins` | crates/luchta-cache/src/resolve.rs:641-645 | two requests for two spellings of one present file resolve to the first one requested, so the two orders resolve differently |
| `ResolveInputs.MatcherSelects` | crates/luchta-cache/src/resolve.rs:314-326 | for a listable path the compiled matcher accepts exactly what the requests select |
| `ResolveInputs.MatcherAgrees` | crates/luchta-cache/src/resolve.rs:275-332 | matcher and resolver agree on a listable path if and only if the requests select no other path with its recorded form |
| `Edits.SelectNonOverlapping` | crates/luchta-ast-grep-worker/src/lint.rs:353-384 | the loop makes the greedy selection over the edits in sorted order |
| `Edits.SelectionMeaning` | crates/luchta-ast-grep-worker/src/lint.rs:353-384 | accepted and skipped edits together are the candidates, accepted ones are apart and in order, and every skipped one starts inside an accepted range |
| `Edits.SamePositionMeaning` | crates/luchta-ast-grep-worker/src/lint.rs:353-384 | of edits at one position a skipped one deletes no more than an accepted one, and if as much its rule does not come first; accepted ones are in that order |
| `Edits.ApplyEdits` | crates/luchta-ast-grep-worker/src/lint.rs:386-392 | splicing from the last edit to the first equals substituting all of them at once; the result is an error exactly when it is not UTF-8 |
| `Edits.UntouchedBytesKept` | crates/luchta-ast-grep-worker/src/lint.rs:386-392 | every byte outside the deleted ranges is in the result, moved by what changed before it |
| `Edits.InsertedTextsPresent` | crates/luchta-ast-grep-worker/src/lint.rs:386-392 | every inserted text is in the result at its moved position |
| `Edits.LengthAccounted` | crates/luchta-ast-grep-worker/src/lint.rs:386-392 | nothing else is in the result |
| `Utf8.ValidExactly` | crates/luchta-ast-grep-worker/src/lint.rs:386-392 | a result is no error exactly when it is what UTF-8 writes for some sequence of Unicode scalar values |
| `Utf8.BoundaryExactly` | crates/luchta-ast-grep-worker/src/lint.rs:386-392 | in a valid text the character boundaries are exactly the positions that leave both parts valid |
| `Edits.ValidityKept` | crates/luchta-ast-grep-worker/src/lint.rs:386-392 | edits at character boundaries with valid texts keep a valid source valid |
| `Edits.Rewrite` | crates/luchta-ast-grep-worker/src/lint.rs:353-392 | selecting then splicing good edits never fails and equals the simultaneous substitution of the selected ones |
| `Progress.InitInv` | crates/luchta-cli/src/progress.rs:78-106 | a new reporter counts nothing and lists nothing |
| `Progress.StepInv` | crates/luchta-cli/src/progress.rs:116-183 | every sub-step of every method keeps the counters equal to the tasks in their phase and the lists to the tasks listed |
| `Progress.RunInv` | crates/luchta-cli/src/progress.rs:334-362 | the invariant holds in every state of every interleaving in which only planned tasks fail |
| `Progress.CountsAreDisjoint` | crates/luchta-cli/src/progress.rs:404-423 | counted and running tasks are disjoint planned tasks, so their numbers never exceed the total |
| `Progress.StatusLine` | crates/luchta-cli/src/progress.rs:226-239 | at every interleaving the counts read under the running lock and the running tasks do not exceed the total, so the subtraction never saturates, and pending lies between its values at the ends of the reading |
| `Progress.WaveSums` | crates/luchta-cli/src/progress.rs:334-362 | with no method under way the per-wave counters sum to the global ones, counter by counter |
| `ProgressOutcomes.CountsByOutcome` | crates/luchta-cli/src/progress.rs:334-362 | at rest `done`, `skipped`, `sharedHits` and `failed` are the numbers of planned tasks whose call ended as run, as local cache hit, as shared cache hit and as failure, over the plan and wave by wave |
| `ProgressCalls.SetsExactly` | crates/luchta-cli/src/progress.rs:116-183 | at every moment of every run the running list, the sinks and the failed tasks are those that the steps so far put in and did not take out |
| `ProgressCalls.OneInFailureSection` | crates/luchta-cli/src/progress.rs:173-182 | the task between the insertion and the last counter of a failure holds the lock, and there is at most one |
| `ProgressCalls.MayStartAndEnd` | crates/luchta-cli/src/progress.rs:116-183 | while the status line does not read, a task may end exactly when it has not ended, started or not, and start exactly when it has done neither |
| `ProgressCalls.CallsComplete` | crates/luchta-cli/src/progress.rs:164-183 | from every state of every run an ending call comes to its end by at most four steps of its own and four of the task that holds the failure lock |
| `Progress.WaveTotals` | crates/luchta-cli/src/progress.rs:78-86 | the loop gives every wave the number of its planned tasks |
| `Progress.TotalTasks` | crates/luchta-cli/src/progress.rs:404-406 | the wave totals sum to the number of planned tasks |
| `Progress.WaveFilled` | crates/luchta-cli/src/progress.rs:425-438 | at any moment a wave's counters add up to its total exactly when each of its tasks has been counted, and never to more |
| `Progress.WaveCompletion` | crates/luchta-cli/src/progress.rs:425-438 | with the four counters loaded one after another, a wave done when the scan begins is shown as completed, and a wave shown as completed is done when the scan ends |
| `Progress.CompletedBetween` | crates/luchta-cli/src/progress.rs:425-438 | the number of completed waves lies between the true numbers at the first and at the last load |
| `Progress.UnplannedFailureOvercounts` | crates/luchta-cli/src/progress.rs:164-183 | for every plan and unplanned task there is an interleaving in which that task alone fails and the counts exceed the total |
| `Progress.NeverOvercountsExactly` | crates/luchta-cli/src/progress.rs:164-183 | in every state of every run whose failing tasks lie in a set the counts stay within the total, if and only if the whole set is planned |
| `Progress.StatusLinesExactly` | crates/luchta-cli/src/progress.rs:226-239 | every status line of every such run adds up to the total at most, if and only if the whole set is planned |
| `TaskPrefixes.SharedPrefixLength` | crates/luchta-cli/src/progress_task_list.rs:274-290 | the length is the largest up to which all texts agree |
| `TaskPrefixes.LongestBoundaryPrefix` | crates/luchta-cli/src/progress_task_list.rs:263-312 | the prefix is the longest that ends at a separator and leaves no text empty, or None when there is none |
| `TaskPrefixes.SharedScopeMeaning` | crates/luchta-cli/src/progress_task_list.rs:103-110 | a scope is shared exactly when there are packages outside the root and all of them have it |
| `TaskPrefixes.SharedScopeFits` | crates/luchta-cli/src/progress_task_list.rs:317-330 | re-attaching the shared scope undoes the display form of every package shown |
| `TaskList.PackageSet` | crates/luchta-cli/src/progress_task_list.rs:164-212 | expanding the braces gives the tasks of the name in order, with the longest boundary prefix factored out |
| `TaskList.MarkConsumed` | crates/luchta-cli/src/progress_task_list.rs:332-338 | the tasks of the group outside the root are marked and no others |
| `TaskList.GroupByName` | crates/luchta-cli/src/progress_task_list.rs:127-162 | consumed are exactly the non-root tasks whose name two packages share; each such name has one group with all of them, and the groups hold each consumed task once |
| `TaskList.PackageGroup` | crates/luchta-cli/src/progress_task_list.rs:374-410 | expanding the group gives the tasks of the package, sorted by name in the deterministic order |
| `TaskList.GroupRemaining` | crates/luchta-cli/src/progress_task_list.rs:340-372 | the groups hold each task left over once, those of one package together |
| `TaskList.Partition` | crates/luchta-cli/src/progress_task_list.rs:76-101 | the groups of both passes expand to the tasks shown, each exactly once |
| `TaskList.RenderTaskGroups` | crates/luchta-cli/src/progress_task_list.rs:76-101 | for distinct tasks the whole list is a partition with the shared scope re-attached; shared names and leftover packages are gathered; oldest-first lists are sorted by position, a group over packages in front of a group in a package at one position; deterministic ones have the shared names ascending, then the packages ascending |
| `TaskList.StableByAge` | crates/luchta-cli/src/progress_task_list.rs:91-93 | the stable sort by position keeps groups of the first pass in front of those of the second |
| `TaskOrder.AnyOrder` | crates/luchta-cli/src/progress_task_list.rs:76-101 | the deterministic lists of any two orders of the same distinct tasks have the same groups in the same order |
| `TaskAge.AgeOrderExactly` | crates/luchta-cli/src/progress_task_list.rs:76-101 | an oldest-first list is in age order if and only if, for every shared name led by a root task, whatever started from that task on and before the first other task of the name is in a group that starts earlier |
| `TaskAge.RootTaskJumpsTheQueue` | crates/luchta-cli/src/progress_task_list.rs:149-151 | a list that begins with a root task of a shared name is never in age order |
| `TaskAge.RenderRunning` | crates/luchta-cli/src/progress_task_list.rs:36-42 | the list that the running tasks are shown as is in age order exactly under that condition |
| `ProcessTree.Table.Visit` | crates/luchta-cli/src/rss.rs:199-210 | visiting a process adds each unseen readable child once, to the sum and to the queue |
| `ProcessTree.Table.TreeRss` | crates/luchta-cli/src/rss.rs:192-213 | on any table, cyclic ones included, the walk ends with the sum over that set, capped at 64 bits, or None when the root is unreadable |
| `Promise.FilesUnchanged` | crates/luchta-cache/src/decide.rs:112-145 | inputs and outputs count as unchanged exactly when they resolve and every file has the presence and content it had, unless two contents collide |
| `Promise.RecordUnchanged` | crates/luchta-cache/src/decide.rs:56-110 | the record is usable exactly when it succeeded and environment, hashed definition, nonce, counted dependency outputs and package dependencies are what they were, unless two streams collide |
| `Promise.SkippedExactlyWhenUnchanged` | crates/luchta-cache/src/decide.rs:56-145 | a task is skipped if and only if nothing it depends on and nothing it left behind has changed, its last run succeeded and both file lists resolve; or two different streams really hashed have one digest |
| `RunHistory.InputsHold` | crates/luchta-cache/src/resolve.rs:339-392 | in an honest history the input list resolved over any earlier record is the list a resolution from scratch makes of the selected files |
| `RunHistory.OutputsHold` | crates/luchta-cache/src/resolve.rs:539-596 | and so is the output list of the files that the patterns take |
| `RunHistory.ResolvedIsRecorded` | crates/luchta-cache/src/resolve.rs:404-409 | the list that a run resolves is what an event of recorded paths adds to the history |
| `RunHistory.SkippedOverHistories` | crates/luchta-cache/src/decide.rs:56-145 | over any history whose look-alike writes have one hash: a task that ran at one moment is skipped at another if and only if nothing it depends on or left behind differs, its run succeeded and its patterns resolve; or two different streams really hashed have one digest |
| `RunHistory.StaleSkip` | crates/luchta-cache/src/resolve.rs:780-815 | two writes that look alike and hash differently, with a recorded run in between: the input is rewritten and the decision is to skip |

## Left out

- MatcherAgrees: for literals without `..`, for listable files and for selected paths that are apart; the listing of tracked files is a parameter.
- ReuseIsFresh: an unreadable file, which the resolver reports as an error, is not modelled; a path is present or absent.
- ResolveInputs.Resolve: literals that are absolute paths, which replace their base, are not modelled; all base directories lie in one worktree and paths are given from its root; dedupe across several worktrees is not modelled.
- OutputEntries.ResolveWithCandidates: the tree is that of an existing base directory; a missing one, which fails the full walk and not the limited one, gives an error in `ListingCache` only.
- SkippedExactlyWhenUnchanged: the graph of tasks is the same at both times, and the environment is compared by its hash only.
- SkippedOverHistories: for selected inputs that are apart and for outputs with different recorded forms; git's listing and the walk are parameters at each moment.
- TrueHistories: each write and each input names a file by one spelling; files written through links are not modelled.
- RenderTaskGroups: gives groups rather than text; progress and age annotations, commas and braces as characters are not modelled.
- Progress.StepInv: the reporter is a value stepped by atomic actions and not a class with methods, because its methods interleave inside their bodies.
- ResolveDependencyOutputs: the digest memo is threaded through the recursion as a value instead of a mutable reference.
- Filesystem, git ignore rules, symlinks and canonical paths are parameters; blake3 is the parameter `h`.
- ClassInText: a character is one byte, and a negated set takes a slash too; a dash, `!` or `^` as a member is matched but not described.
- The glob engine is a matcher for the documented syntax; how globset compiles patterns, and name globs, are not part of this model.
- bincode is modelled as its fixed-width little-endian layout for the fields that occur; other serialized records are not part of this model.
- Environment hashing, environment merging, the package and log listings and dependency-closure diffs, which are map and set filters.
- Lockfile parsing and the gathering of package dependencies.
- The executor, the worker protocol, the shared cache's storage and the watch loop.
- Command-line parsing, terminal rendering, colours, SARIF and CTRF output, config scripts and build scripts.
- The build lock, whose guarantee is the operating system's.
- The time-to-live cache in front of the process walk and the non-Linux process walk.
- Overflow of `usize` counters and lengths above 2^64 - 1 bytes.
