# Nozomi and its vendored Google Test: a verified model

Nozomi is a small HTTP framework: routes written as patterns with typed
parameters, a router over them, form parsing, and streaming responses. It
vendors Google Test and Google Mock. This project models the parts of both
where the reasoning is hard, in Dafny, and proves what the comments and
documentation of the source promise.

- **Unordered matching** (`MatchMatrix`, `GraphCounter`, `BipartiteMatching`,
  `UnorderedMatch`). The in-place Ford-Fulkerson search over two mutually
  referent arrays returns a maximum matching, and one pass over the left nodes
  is enough. Each failed search adds to a *dead region*: matched right nodes
  whose partners see nothing outside it. Later successes never touch it, so at
  the end it is half of a vertex cover of the size of the matching. From this
  follow the exact meaning of `FindPairing`, when the quick check in front of it
  is safe, and the meaning of the whole unordered matcher. `NextGraph`
  enumerates every edge configuration exactly once.
- **Route patterns** (`RoutePatterns`, `Splicing`, `RouteChunks`, `Regex`,
  `RegexLanguages`, `RouteNumbers`, `RouteLanguage`, `RouteArguments`, `Routes`,
  `RouteTexts`, `IntegerArguments`, `IntegerRoutes`, `RequiredGroups`,
  `RouteExamples`).
  The pattern compiler as it is written: a leftmost, lazy scanner for `{{..}}`
  parameters, one regex chunk per parameter, and a find-and-replace loop whose
  cursor advances by the length of the replaced text. Regexes have a concrete
  syntax, a parser for it and a language semantics that says what every named
  group holds. Compilation is proved to preserve meaning against an independent
  definition of how a path reads as a pattern: the matches of the compiled regex,
  groups included, are exactly the readings. Arguments are fetched by name, the
  leftmost group of that name that took part; exactly when that is the
  parameter's own group is proved too, and, for every pattern that compiles,
  exactly when it is there at all. What each literal text of a pattern and of a
  regex stands for, and which integer a text hands over, is stated without the
  model's own definitions.
- **Streaming responses** (`FileChunks`, `StreamingProtocol`,
  `StreamingHandler`). Two threads and a queue of closures, as a state machine
  with every interleaving; the order of the builder's calls, deletion,
  termination, and conservation of the file. The handler class and its read loop
  are proved to post what the state machine posts.
- **Router dispatch** (`RouteMatches`, `Routing`, `Serving`), over any routes and
  then over static and compiled ones from the request to the handler's
  arguments; **form decoding** (`PostParser`).
- `Wrappers` holds the types the other modules share.
- **Expectations and their prerequisites** (`Expectations`). The early return of
  `RetireAllPreRequisites` relies on retirement being closed under
  prerequisites, and the pruned search for unsatisfied prerequisites on called
  expectations having had theirs satisfied. One invariant over every call
  provides both.
- **Flag removal from argv** (`GoogleMockFlags`), **C string literals**
  (`LiteralPrinter`), **Fisher-Yates** (`Shuffling`), **prime tables**
  (`PrimeTables`).

## Where the source does not do what it says

- `src/RouteParsing.cpp:185-198` calls a failed search a library error. It is
  unreachable for every pattern (`RouteChunks.SplicedNeverFails`). The chunk can
  however land in the wrong place: `{{i?:[{{s:[]}}[]a-}}]{{s:[])?[]a-}}` puts its
  second chunk inside the first and is refused, although each of its parts is
  sound and the text compiled in place is an expression
  (`RouteExamples.StrayExample`). `RouteChunks.SplicedIsCompiledIff` gives the
  exact condition, and embedded texts without `{{` satisfy it.
- `src/RouteParsing.h:72-131` fetches argument k from the group named `__k`, and
  embedded regexes may use that name: with `{{s:(?<__1>a)b}}{{i}}` the path `ab5`
  hands the largest integer to the second argument, not 5
  (`RouteExamples.CollisionExample`). `RouteArguments.ArgumentsAreOwnIff` gives
  the exact condition; a name used behind a parameter that is always there does
  no harm (`RouteExamples.LaterNameIsHarmless`).
- An accepted path may leave a required parameter out, and its argument is then
  made up: both `(/{{i}})?` and `{{i}}?` accept the empty path and hand the
  largest integer to their handler (`RouteExamples.SkippedExample`;
  `src/RouteParsing.h:71-81` treats a group that took no part as an empty text).
  `RequiredGroups.ArgumentIsAlwaysThereIff` gives the exact condition for every
  pattern that compiles. Where each literal by itself is a complete branch no
  required parameter can be left out (`RequiredGroups.ComposingKeepsRequired`).
- `src/Route.h:55-59` says that the consumed text of an optional is consumed
  whether or not the value is there. The chunks of `src/RouteParsing.cpp:80-130`
  consume it together with the value or not at all, except a later alternative of
  it, which stands alone. `Routes.ConsumedRegardlessIff` says exactly when the
  documentation is nevertheless right; for operator-free consumed text that is
  when the value may be empty (`Routes.PlainConsumedIff`), so never for numbers
  (`Routes.ConsumedOnlyWithValue`).
- `src/StreamingFileHandler.cpp:81-83` relies on a fresh buffer having exactly
  the requested capacity. A larger one sends bytes that are not in the file:
  the response carries the file exactly when no buffer has such slack
  (`StreamingProtocol.FileIsConserved`); with one byte of it an empty file is
  sent as that byte (`StreamingProtocol.SlackExample`).
- An exception before the headers ends the message without any
  (`StreamingProtocol.EarlyFaultExample`); this is the only way a check of the
  handler fails (`StreamingProtocol.CheckFailsIff`).
- The literal printer splits a literal after a hex escape but not after `\0`,
  so a NUL in front of an octal digit is read back as another character
  (`LiteralPrinter.RoundTripIff`; the bytes 0 and `1` come back as the byte 1,
  `LiteralPrinter.NulExample`). Elsewhere its splits are the fewest that read
  back (`LiteralPrinter.PrinterSplitsLeast`).
- `HybridPrimeTable.GetNextPrime(-1)` is 2 with a precalculated table that
  reaches 2 and -1 without one; the tables agree from 0 on.

## Model

| member | source | states |
|---|---|---|
| MatchMatrices.MatchMatrix.constructor | third-party/googletest/googlemock/include/gmock/gmock-matchers.h:3259-3263 | a new matrix is the graph without edges |
| MatchMatrices.MatchMatrix.SetEdge | third-party/googletest/googlemock/include/gmock/gmock-matchers.h:3270-3272 | exactly one edge of the graph changes, although the matrix is one flat array |
| MatchMatrices.SpaceIndexInjective | third-party/googletest/googlemock/include/gmock/gmock-matchers.h:3284-3286 | distinct coordinates occupy distinct cells |
| MatchMatrices.SpaceIndexSurjective | third-party/googletest/googlemock/include/gmock/gmock-matchers.h:3284-3286 | every cell belongs to some coordinates |
| MatchMatrices.MatchMatrix.ValueIsItsCells | third-party/googletest/googlemock/include/gmock/gmock-matchers.h:3291-3294 | the graph is determined by the cells in lhs-major order |
| MatchMatrices.GraphOfInjective | third-party/googletest/googlemock/include/gmock/gmock-matchers.h:3253-3256 | different cell contents are different graphs |
| MatchMatrices.GraphOfSurjective | third-party/googletest/googlemock/include/gmock/gmock-matchers.h:3253-3256 | every edge configuration is the content of some cells |
| MatchMatrices.MatchMatrix.NextGraph | third-party/googletest/googlemock/src/gmock-matchers.cc:359-371 | the nested loops perform one binary increment of the cells in place, and report whether the carry stopped |
| GraphCounter.IncrementAddsOne | third-party/googletest/googlemock/include/gmock/gmock-matchers.h:3274-3277 | the step adds one modulo 2^n and returns false exactly when it leaves the graph empty |
| GraphCounter.ValueInjective | third-party/googletest/googlemock/include/gmock/gmock-matchers.h:3274-3277 | a bit vector is determined by its number |
| GraphCounter.GraphAfterHasValue | third-party/googletest/googlemock/src/gmock-matchers.cc:359-371 | after k steps from empty the bits are the number k; the last step says false |
| GraphCounter.EveryGraphExactlyOnce | third-party/googletest/googlemock/include/gmock/gmock-matchers.h:3253-3256 | iteration from empty visits each of the 2^n bit vectors once, then says false with the empty one restored |
| MatchMatrices.EachGraphOnce | third-party/googletest/googlemock/include/gmock/gmock-matchers.h:3253-3256 | every graph of the shape is met at exactly one of the 2^(m*n) steps |
| BipartiteMatching.MaxBipartiteMatchState.constructor | third-party/googletest/googlemock/src/gmock-matchers.cc:200-204 | both arrays unused, which is mutually referent |
| BipartiteMatching.MaxBipartiteMatchState.TryAugment | third-party/googletest/googlemock/src/gmock-matchers.cc:259-285 | terminates, entering each left node at most once; on failure changes nothing and leaves a dead end; on success relinks a path, with one stale right entry named, no other left entry's use changed, no matched right node freed, and dead regions and seen nodes untouched |
| BipartiteMatching.NotEntered | third-party/googletest/googlemock/src/gmock-matchers.cc:250-252 | behind an unmarked right node stands a left node that the search has not entered |
| BipartiteMatching.AugmentAddsOne | third-party/googletest/googlemock/src/gmock-matchers.cc:254-258 | a successful top-level search restores mutual reference, uses exactly one more left node, and keeps the dead region and every link into it |
| BipartiteMatching.Relink | third-party/googletest/googlemock/src/gmock-matchers.cc:277-282 | setting the two entries repairs the one broken link left by the inner search |
| BipartiteMatching.SearchStep | third-party/googletest/googlemock/src/gmock-matchers.cc:243-252 | a failed branch makes its right node and everything it marked a dead end |
| BipartiteMatching.DeadEndJoins | third-party/googletest/googlemock/src/gmock-matchers.cc:210-221 | the nodes marked by a failed top-level search join the dead region, which contains every neighbour of that left node |
| BipartiteMatching.PassAugments | third-party/googletest/googlemock/src/gmock-matchers.cc:215-221 | after a success, left nodes already given up still see only the dead region |
| BipartiteMatching.MaxBipartiteMatchState.Compute | third-party/googletest/googlemock/src/gmock-matchers.cc:207-238 | one pass ends mutually referent, returns exactly the links, and leaves a dead region containing all neighbours of every unmatched left node |
| BipartiteMatching.PartnersAreAsMany | third-party/googletest/googlemock/src/gmock-matchers.cc:296-298 | mutually referent: matched right nodes have equally many left partners |
| BipartiteMatching.CoverBoundsMatching | third-party/googletest/googlemock/src/gmock-matchers.cc:138-142 | no set of edges that uses no node twice is larger than a vertex cover |
| BipartiteMatching.CertificateIsCover | third-party/googletest/googlemock/src/gmock-matchers.cc:210-221 | the dead region with the matched left nodes outside it covers every edge and has as many nodes as there are links |
| BipartiteMatching.CertificateIsMaximum | third-party/googletest/googlemock/src/gmock-matchers.cc:210-221 | so the links of one pass are a maximum matching, with a cover of the same size |
| BipartiteMatching.FindMaxBipartiteMatching | third-party/googletest/googlemock/src/gmock-matchers.cc:307-310 | for every graph: edges of the graph, no node twice, at least as many as any other matching, and a vertex cover of equal size exists |
| UnorderedMatch.PairingIffSaturated | third-party/googletest/googlemock/src/gmock-matchers.cc:330-333 | a maximum matching has one edge per matcher exactly when every matcher can have an element of its own |
| UnorderedMatch.FindPairing | third-party/googletest/googlemock/src/gmock-matchers.cc:328-357 | true exactly when some injective assignment gives every matcher a matching element |
| UnorderedMatch.VerifyAllElementsAndMatchersAreMatched | third-party/googletest/googlemock/src/gmock-matchers.cc:443-495 | true exactly when every matcher has some element and every element some matcher |
| UnorderedMatch.RejectedHasNoPairing | third-party/googletest/googlemock/src/gmock-matchers.cc:438-442 | with no more elements than matchers, a rejected matrix has no pairing |
| UnorderedMatch.QuickCheckIsSafeIff | third-party/googletest/googlemock/src/gmock-matchers.cc:438-442 | the quick check never rejects a matrix with a pairing exactly on shapes with at most as many elements as matchers |
| UnorderedMatch.AnalyzeElements | third-party/googletest/googlemock/include/gmock/gmock-matchers.h:3408-3432 | the matrix built from a container has an edge exactly where a matcher accepts an element |
| UnorderedMatch.PairingIsOrder | third-party/googletest/googlemock/include/gmock/gmock-matchers.h:3376-3403 | a pairing of that matrix is a permutation of the elements that satisfies the matchers in order |
| UnorderedMatch.MatchAndExplain | third-party/googletest/googlemock/include/gmock/gmock-matchers.h:3376-3403 | a container is accepted exactly when some permutation of its elements satisfies the matchers in order, quick check and shortcuts included |
| RoutePatterns.TokenAtSound | src/RouteParsing.cpp:136-142 | what the scanner reports as a parameter is the text of that parameter |
| RoutePatterns.TokenAtBest | src/RouteParsing.cpp:136-142 | wherever some parameter text stands, the scanner reads one, and the one the lazy quantifiers prefer |
| RoutePatterns.OpeningDecides | src/RouteParsing.cpp:136-142 | no text opens two of the six alternatives, so their order is immaterial |
| RoutePatterns.ScanDivides | src/RouteParsing.cpp:145-151 | scanning divides a pattern without loss into literals and parameters, none readable inside a literal |
| RoutePatterns.ScanUnique | src/RouteParsing.cpp:145-151 | and this leftmost division is the only one |
| RouteTexts.ReadsNumbers | src/RouteParsing.cpp:136-156 | behind any literal without `{` and before any text, `{{i}}`, `{{d}}`, `{{i?}}` and `{{d?}}` are read as the four number parameters |
| RouteTexts.ReadsOptionalNumbers | src/RouteParsing.cpp:136-171 | `{{i?:c}}` and `{{d?:c}}` are read as the optional numbers with consumed text c |
| RouteTexts.ReadsString | src/RouteParsing.cpp:141-175 | `{{s:v}}` is read as the string parameter with regex v |
| RouteTexts.ReadsOptionalString | src/RouteParsing.cpp:142-181 | `{{s?:v}}` and `{{s?:v:c}}` are read as the optional string with regex v and consumed text c |
| RouteTexts.ReadsLiteral | src/RouteParsing.cpp:145-151 | a text without `{` is all literal |
| RouteChunks.ChunkFits | src/RouteParsing.cpp:71-130 | every chunk is longer than the text it replaces and starts with another character |
| RouteChunks.DecimalInjective | src/RouteParsing.cpp:76-77 | different parameter numbers give different group names |
| Splicing.FindIsLocal | src/RouteParsing.cpp:187 | where find stops depends only on the text between the cursor and the end of the source sought |
| Splicing.SpliceKeepsPrefix | src/RouteParsing.cpp:185-198 | what lies before the cursor is final |
| Splicing.SpliceFrom | src/RouteParsing.cpp:185-198 | the loop equals replacing each source in its own place exactly when no source occurs before its place |
| RouteChunks.SplicedNeverFails | src/RouteParsing.cpp:188-195 | the "library error" is unreachable for every pattern |
| RouteChunks.SplicedIsCompiledIff | src/RouteParsing.cpp:185-198 | the splice compiles each parameter in place exactly when no source strays into a chunk |
| RouteChunks.SplicedIsCompiled | src/RouteParsing.cpp:185-198 | in particular whenever no embedded regex contains "{{" |
| RouteExamples.StrayExample | src/RouteParsing.cpp:196-201 | a concrete pattern whose parts all compose and whose text compiled in place is an expression, refused because its second chunk lands inside the first |
| Routes.CollectReplacements | src/RouteParsing.cpp:151-183 | the scan loop yields one replacement and one type per parameter, in order, and stops at an invalid string regex |
| Routes.ApplyReplacements | src/RouteParsing.cpp:185-198 | the splice loop on the collected list |
| Routes.ParseRoutePattern | src/RouteParsing.cpp:132-201 | the compiler as a whole, with its three ways to fail |
| Regex.BranchThen | src/RouteParsing.cpp:196 | regex text put behind a complete branch parses as the two in sequence |
| RegexLanguages.WordLanguage | src/RouteParsing.cpp:116-117 | `\w+` matches exactly the non-empty texts of letters, digits and underscores |
| RegexLanguages.AnyLanguage | src/RouteParsing.cpp:116-117 | `.*` matches every text |
| RegexLanguages.ComplementLanguage | src/RouteParsing.cpp:116-117 | `[^c]+` matches exactly the non-empty texts without c, also for a closing bracket |
| RegexLanguages.EscapesAre | src/RouteParsing.cpp:116-117 | what `\d`, `\w`, `\s` and their capitals stand for |
| RegexLanguages.CountsAre | src/RouteParsing.cpp:116-117 | `{m,n}`, `{m}` and `{m,}` are read as their bounds |
| RegexLanguages.CountedLanguage | src/RouteParsing.cpp:116-117 | `c{m,n}` matches exactly m to n times c |
| RegexLanguages.AlternativeLanguage | src/RouteParsing.cpp:116-117 | two operator-free texts with a bar between them match exactly the two |
| RegexLanguages.LastRoundIsHeld | src/RouteParsing.h:88-92 | a group entered repeatedly holds its last text |
| RegexLanguages.PathTextIsPlain | src/RouteParsing.cpp:132-135 | which texts are operator-free: letters, digits and the usual marks of a path |
| RouteNumbers.IntegerLanguage | src/RouteParsing.cpp:77 | the integer chunk matches exactly the optionally signed digit strings, and opens no groups |
| RouteNumbers.DecimalLanguage | src/RouteParsing.cpp:96 | the double chunk matches exactly those, with an optional fraction |
| RouteLanguage.ChunkParses | src/RouteParsing.cpp:71-130 | in any surroundings a chunk parses as its named group; an optional as the group with the first alternative of its consumed text behind it, or a later alternative |
| RouteLanguage.CompiledParses | src/RouteParsing.cpp:199 | the compiled text parses to the expression built from literals and parameters |
| RouteLanguage.ChunkElim | src/RouteParsing.cpp:71-130 | every match of a chunk is its value, or for an optional nothing, a value and consumed text, or a later alternative of the consumed text; its groups hold exactly that |
| RouteLanguage.PatternElim | src/RouteParsing.cpp:185-201 | every match of the compiled expression divides the path into literals and pieces, and its groups hold what they show |
| RouteLanguage.PatternIntro | src/RouteParsing.cpp:185-201 | every such division is a match with those groups |
| Routes.CompilationPreservesMeaning | src/RouteParsing.cpp:132-201 | the matches of the compiled regex, text and all groups, are exactly what the readings of the pattern show, whatever groups embedded texts name; the types are the parameters' |
| Routes.PlainTextStandsForItself | src/RouteParsing.cpp:132-135 | operator-free literal or consumed text composes, names no group, and matches exactly itself |
| Routes.OptionalReads | src/RouteParsing.cpp:80-130 | any optional by itself reads nothing, a value with its consumed text behind it, or a later alternative of the consumed text |
| Routes.ConsumedRegardlessIff | src/Route.h:55-69 | every consumed text is accepted without a value exactly when each is empty, a later alternative, or itself a value with consumed text behind it |
| Routes.EmptyValueConsumes | src/Route.h:55-69 | a value regex that matches nothing at all makes the documentation right |
| Routes.ConsumedMustEnd | src/Route.h:55-69 | otherwise, without alternatives, the documentation can be right only if consumed text may be empty |
| Routes.PlainConsumedIff | src/Route.h:55-69 | for operator-free consumed text the documentation is right exactly when the value may be empty |
| Routes.ConsumedOnlyWithValue | src/RouteParsing.cpp:80-88 | the pattern `{{i?:c}}` with operator-free c matches nothing, or an integer followed by c; never c alone |
| RouteArguments.FirstHeld | src/RouteParsing.h:88-92 | a name stands for the leftmost group so named that took part in the match |
| RouteArguments.OwnName | src/RouteParsing.cpp:71-130 | the group of parameter k stands at a computed place among all groups and is named `__k` |
| RouteArguments.OwnHeld | src/RouteParsing.h:88-131 | that group holds the value of the k-th piece, and nothing when there is none |
| RouteArguments.ArgumentsAreOwnIff | src/RouteParsing.h:71-131 | in every match every argument comes from its own parameter's group, exactly when no embedded text uses its name in front of it, nor, for an optional, anywhere it can stand without the value |
| RouteArguments.KeepingSuffices | src/RouteParsing.h:71-131 | the condition suffices for every composing pattern |
| RouteArguments.ForeignNamesSuffice | src/RouteParsing.h:71-131 | it holds when no embedded text uses the name of any parameter |
| RouteExamples.CollisionExample | src/RouteParsing.h:71-81 | a concrete pattern and path where every answer of the engine hands the second parameter the largest integer though its piece is 5 |
| RouteExamples.LaterNameIsHarmless | src/RouteParsing.h:71-81 | a pattern that reuses a parameter's name behind it and still keeps its arguments |
| RouteArguments.ArgsArePieces | src/Route-inl.h:29-37 | argument k is the k-th piece at the k-th type: absent optionals are empty, integers saturate to the maximum |
| IntegerArguments.DigitsAppend | src/RouteParsing.h:76 | the value of digits is positional |
| IntegerArguments.SignedValue | src/RouteParsing.h:76 | a plus sign keeps the value of the digits behind it and a minus sign negates it |
| IntegerArguments.DecimalValue | src/RouteParsing.h:76 | the decimal text of every number has that value |
| IntegerArguments.NumberIsHandedOver | src/RouteParsing.h:71-81 | the decimal text of a number, with either sign, hands over that number, or the largest 64-bit integer when it is out of range |
| IntegerArguments.LimitsAreHandedOver | src/RouteParsing.h:75-80 | the largest and smallest 64-bit integers, written out, come through as themselves, and the next ones beyond as 9223372036854775807 |
| IntegerRoutes.NumberRouteServes | src/Route-inl.h:105-123 | a plain text before `{{i}}` matches exactly the text followed by an integer, and hands that integer over |
| IntegerRoutes.UserRouteServes | src/Route.h:83-87 | `/user/{{i}}` compiles with types `[Int64]`, and hands over n on `/user/n` and -n on `/user/-n` |
| IntegerRoutes.InvalidValueIsRefused | src/RouteParsing.cpp:114-115 | a pattern whose string regex is no expression by itself is refused, even where the compiled text would be one |
| Routes.MakeRoute | src/Route-inl.h:125-164 | a route is built exactly when the pattern compiles and its types are the handler's; otherwise the error is the compiler's, a count mismatch, or the first differing index |
| Routes.RouteServesItsPattern | src/Route-inl.h:105-123 | path not matched exactly when the path does not read as the pattern; else method not matched exactly when the method is foreign; else, where names are kept, the handler's arguments are the pieces of one reading, whichever match the engine picks |
| RequiredGroups.LookupAlwaysIff | src/RouteParsing.h:71-81 | for any expression, a name is found in every match exactly when no way through the expression avoids it |
| RequiredGroups.AvoidsIffNotAlways | src/RouteParsing.h:71-81 | where every part can take part in a match, that is read off the expression: a sequence needs the name in one part, alternatives in both, a repetition at least one round |
| RequiredGroups.OnlyGroupAlwaysIff | src/RouteParsing.h:71-81 | if one group only bears the name, that group takes part in every match under the same condition |
| RequiredGroups.ArgumentIsAlwaysThereIff | src/RouteParsing.h:71-131 | for every pattern that compiles, the group of parameter k is found in every match exactly when no match avoids its name; otherwise some accepted path hands the largest integer to a required integer |
| RequiredGroups.ComposingKeepsRequired | src/Route-inl.h:29-37 | where literals are complete branches no match avoids a required parameter |
| RouteExamples.SkippedExample | src/RouteParsing.h:71-81 | `(/{{i}})?` and `{{i}}?` compile, and on the empty path every answer of the engine hands the largest integer to the required argument |
| Routing.Router.constructor | src/Router.cpp:9-21 | the two lists are the routes of each kind in order |
| Routing.Router.GetHandler | src/Router.cpp:23-57 | the first matching route of statics then dynamics; else 405 if some route knew the path; else 404 |
| Routing.AnswerIsUnique | src/Router.cpp:23-57 | a request has exactly one such answer |
| Routing.SplitIsStable | src/Router.cpp:14-20 | the first match of a kind after the split is the first one as registered |
| Routing.DispatchIs | src/Router.cpp:9-57 | the answer in terms of the routes as registered: first static match, else first dynamic match, else 405 or 404 by all routes |
| Serving.AnswerIs | src/StaticRoute-inl.h:55-67 | a static or compiled route knows a path, serves a request, and is called with the path's pieces, exactly as its definition says |
| Serving.DispatchServes | src/Router.cpp:23-57 | the first route whose path or pattern reads the request's path and whose methods allow it, statics first, handles it with the pieces; else 405 if some route knew the path; else 404 |
| Serving.Dispatch | src/Router.cpp:9-57 | the same of a router built from the definitions |
| Serving.DefinitionExists | src/Route-inl.h:105-116 | every composing pattern has a definition with an engine that answers it |
| FileChunks.CeilDivIsLeast | src/StreamingFileHandler.cpp:78-97 | the chunk count is the least number of chunks of at most the buffer size |
| FileChunks.DeliveryConserves | src/StreamingFileHandler.cpp:77-97 | without slack the chunks sent concatenate to the file, are non-empty, at most the buffer size, and as few as possible |
| FileChunks.ConservesIff | src/StreamingFileHandler.cpp:79-95 | the bytes sent are the file exactly when none of the buffers read into has more room than requested |
| StreamingProtocol.InvAlways | src/StreamingHTTPHandler-inl.h:22-83 | in every interleaving, logged and queued calls together are the calls issued, and deletion comes last |
| StreamingProtocol.ResponseIsWellFormed | src/StreamingHTTPHandler-inl.h:41-83 | unless something was thrown before the headers: one header, then bodies, then at most one end, and no check fails |
| StreamingProtocol.CheckFailsIff | src/StreamingHTTPHandler-inl.h:78-80 | a check fails exactly when the message is ended after an exception before the headers |
| StreamingProtocol.NothingAfterDeletion | src/StreamingHTTPHandler-inl.h:22-29 | once the handler is deleted nothing is queued, no step is possible, and the end was sent |
| StreamingProtocol.TerminalIsComplete | src/StreamingFileHandler.cpp:57-105 | a run that can go no further has sent its headers, its bodies and its end, and deleted the handler: 404 for what is no regular file, 304 for an unchanged one, 404 for one that does not open, 200 and the reads otherwise |
| StreamingProtocol.FileIsConserved | src/StreamingFileHandler.cpp:77-97 | an undisturbed complete response carries the file, exactly when buffers have no slack |
| StreamingProtocol.SlackExample | src/StreamingFileHandler.cpp:79-96 | a complete undisturbed run over an empty file whose response carries one byte of slack |
| StreamingProtocol.RunsAreBounded | src/StreamingFileHandler.cpp:78-97 | every interleaving ends within a stated number of steps |
| StreamingProtocol.EarlyFaultExample | src/StreamingFileHandler.cpp:99-102 | an exception before the headers leads to an end without headers |
| StreamingHandler.StreamingHTTPHandler.constructor | src/StreamingHTTPHandler-inl.h:41-46 | a new handler has sent nothing |
| StreamingHandler.StreamingHTTPHandler.SendResponseHeaders | src/StreamingHTTPHandler-inl.h:42-61 | posts one header call and marks the headers sent |
| StreamingHandler.StreamingHTTPHandler.SendBody | src/StreamingHTTPHandler-inl.h:64-75 | posts one body call, or nothing for empty data |
| StreamingHandler.StreamingHTTPHandler.SendEOF | src/StreamingHTTPHandler-inl.h:78-83 | posts the end of the message |
| StreamingHandler.StreamingHTTPHandler.RequestComplete | src/StreamingHTTPHandler-inl.h:23-29 | posts the deletion |
| StreamingHandler.StreamingHTTPHandler.RunNext | src/StreamingHTTPHandler-inl.h:47-60 | the event base runs the oldest closure |
| StreamingHandler.StreamingHTTPHandler.StreamFile | src/StreamingFileHandler.cpp:78-97 | the read loop terminates and posts exactly the non-empty delivered reads of the whole file |
| StreamingHandler.StreamingHTTPHandler.OnEOM | src/StreamingFileHandler.cpp:57-105 | posts 404, 304 or 404 and the end, or 200, the bodies and the end, as the state machine does |
| PostParsing.GroupedIs | src/PostParser.cpp:128-133 | grouping keeps every value under its key in order, and a key exactly when it has values |
| PostParsing.ParseUrlEncoded | src/PostParser.cpp:85-134 | the map of the decoded pairs, with no empty list |
| PostParsing.PostParser.constructor | src/PostParser.cpp:24-42 | only the url-encoded content type is parsed, and the stored map has no empty list |
| PostParsing.PostParser.GetString | src/PostParser.cpp:44-51 | always the first of the list for the key, and absent exactly when the list is |
| PostParsing.PostParser.GetStringList | src/PostParser.cpp:53-62 | a list that is present is never empty |
| PostParsing.EscapeRoundTrip | src/PostParser.cpp:112-124 | unescaping undoes form percent-encoding on every byte string |
| PostParsing.PairsRoundTrip | src/PostParser.cpp:99-127 | splitting and decoding a serialised list gives back the list |
| PostParsing.FormRoundTrip | src/PostParser.cpp:97-133 | parsing a serialised list gives each of its keys its values in original order, and no other key |
| PostParsing.UnescapeFailsIff | src/PostParser.cpp:115-124 | a component cannot be decoded exactly when some percent sign is not followed by two hexadecimal digits |
| PostParsing.HexDigitsAre | src/PostParser.cpp:116-121 | the digits of an escape, uppercase and lowercase |
| PostParsing.UnescapeSteps | src/PostParser.cpp:116-121 | an escape is its byte, a plus sign a space, anything else itself |
| PostParsing.PairIsRead | src/PostParser.cpp:103-125 | a segment is cut at its first equals sign, and each side is decoded or, when malformed, kept as it came |
| PostParsing.KeyIsRead | src/PostParser.cpp:105-107 | a segment without an equals sign is a key with an empty value |
| PostParsing.SegmentsAreRead | src/PostParser.cpp:99-102 | segments are read in order and empty ones skipped |
| PostParsing.RateExample | src/PostParser.cpp:112-119 | the body `rate=100%` |
| PostParsing.DebugExample | src/PostParser.cpp:105-107 | the body `a=1&debug` |
| PostParsing.PathExample | src/PostParser.cpp:120-121 | the body `path=%2f` |
| Expectations.Expectation.constructor | third-party/googletest/googlemock/src/gmock-spec-builders.cc:95-111 | prerequisites exist before the expectation that names them, so there is no cycle |
| Expectations.Expectation.RetireAllPreRequisites | third-party/googletest/googlemock/src/gmock-spec-builders.cc:95-111 | retires every transitive prerequisite and nothing else, early return included, and keeps retirement closed under prerequisites |
| Expectations.AncestorsStep | third-party/googletest/googlemock/src/gmock-spec-builders.cc:103-110 | the transitive prerequisites are the immediate ones and theirs |
| Expectations.AncestorsTransitive | third-party/googletest/googlemock/src/gmock-spec-builders.cc:98-99 | they are closed under taking prerequisites |
| Expectations.AncestorsLeast | third-party/googletest/googlemock/src/gmock-spec-builders.cc:103-110 | and the least set that contains the immediate ones and is so closed |
| Expectations.Expectation.AllPrerequisitesAreSatisfied | third-party/googletest/googlemock/src/gmock-spec-builders.cc:115-125 | true exactly when every transitive prerequisite has been called at least its minimum and at most its maximum number of times |
| Expectations.Expectation.FindUnsatisfiedPrerequisites | third-party/googletest/googlemock/src/gmock-spec-builders.cc:128-146 | adds exactly what the pruned search reports |
| Expectations.MissingIffUnsatisfied | third-party/googletest/googlemock/src/gmock-spec-builders.cc:133-139 | if whatever was called had its prerequisites satisfied: only unsatisfied transitive prerequisites are reported, and none exactly when all are satisfied |
| Expectations.MissingIffLed | third-party/googletest/googlemock/src/gmock-spec-builders.cc:131-145 | reported is exactly what a path through never called prerequisites with minimum 0 leads to and whose calls are too few or too many |
| Expectations.Expectation.GetActionForArguments | third-party/googletest/googlemock/include/gmock/gmock-spec-builders.h:1188-1218 | counts the call; unless excessive, retires exactly the transitive prerequisites and itself on saturation; keeps the lifecycle invariant |
| Expectations.Expectation.Invoke | third-party/googletest/googlemock/include/gmock/gmock-spec-builders.h:1092-1102 | a call is handled exactly when the expectation is active and the call counts of its prerequisites lie in their bounds; otherwise nothing changes; retirements are stated exactly and the lifecycle invariant is kept |
| Expectations.NotAboveCalled | third-party/googletest/googlemock/include/gmock/gmock-spec-builders.h:1208-1213 | an active expectation is no prerequisite of one called within its limit |
| Expectations.LifecycleServes | third-party/googletest/googlemock/src/gmock-spec-builders.cc:133-137 | what was called and is satisfied has all its prerequisites satisfied, so the search may stop there |
| Expectations.Declare | third-party/googletest/googlemock/src/gmock-spec-builders.cc:95-111 | declaring an expectation keeps the invariant |
| Expectations.HandledInSequence | third-party/googletest/googlemock/src/gmock-spec-builders.cc:115-125 | calls to an expectation that waits for one of exactly n calls are declined until that one has handled n calls, each of them, and handled then |
| GoogleMockFlags.InitGoogleMockImpl | third-party/googletest/googlemock/src/gmock.cc:127-160 | terminates and leaves the first argument and the unrecognised ones in order, NULLs up to the old end, what lies beyond untouched, and the flags as the recognised arguments set them in turn |
| GoogleMockFlags.Compact | third-party/googletest/googlemock/src/gmock.cc:133-158 | the loop with its shift and its step back of the index |
| GoogleMockFlags.ShiftLeft | third-party/googletest/googlemock/src/gmock.cc:140-147 | one entry removed in place, the trailing NULL moving along |
| GoogleMockFlags.RecognisedIff | third-party/googletest/googlemock/src/gmock.cc:58-83 | an argument is taken exactly when it is the bool flag's name, or starts with either flag's name and "=" |
| GoogleMockFlags.BoolFlagIs | third-party/googletest/googlemock/src/gmock.cc:91-104 | the bool flag becomes false exactly for a value that starts with 0, f or F, and true for every other form |
| GoogleMockFlags.StringFlagIs | third-party/googletest/googlemock/src/gmock.cc:111-124 | the string flag takes what stands behind its "=", and nothing without one |
| GoogleMockFlags.LastOccurrenceWins | third-party/googletest/googlemock/src/gmock.cc:137-139 | each flag ends with the value of its last recognised occurrence, or its prior value |
| GoogleMockFlags.FlagsAreDisjoint | third-party/googletest/googlemock/src/gmock.cc:137-139 | no argument sets both flags |
| GoogleMockFlags.SecondCallChangesNothing | third-party/googletest/googlemock/src/gmock.cc:127-158 | a second call removes and sets nothing |
| LiteralPrinter.PrintCharsAsString | third-party/googletest/googletest/src/gtest-printers.cc:258-278 | the loop prints the quote and the body with its splits |
| LiteralPrinter.PrintableBody | third-party/googletest/googletest/src/gtest-printers.cc:137-139 | a string of bytes in 0x20..0x7E without quotation marks and backslashes is printed as its characters |
| LiteralPrinter.HexEscapedIff | third-party/googletest/googletest/src/gtest-printers.cc:178-185 | a byte is hex-escaped exactly outside that range unless it has a letter of its own, in uppercase digits without padding |
| LiteralPrinter.SimpleEscapes | third-party/googletest/googletest/src/gtest-printers.cc:147-177 | the letter of each simple escape, the quotation mark and the apostrophe |
| LiteralPrinter.SplitExample | third-party/googletest/googletest/src/gtest-printers.cc:269-274 | the text of a split literal, the blank between its parts included |
| LiteralPrinter.ReadByte | third-party/googletest/googletest/src/gtest-printers.cc:145-210 | every printed byte reads back as itself unless its escape absorbs what follows |
| LiteralPrinter.ReadBroken | third-party/googletest/googletest/src/gtest-printers.cc:258-278 | from any index on, and split at any places, a string reads back as itself exactly when every absorbing escape is separated; where one is not, as fewer bytes or not at all |
| LiteralPrinter.RoundTripIff | third-party/googletest/googletest/src/gtest-printers.cc:258-278 | read by the language's rules and joined, a printed string is the original exactly when no NUL stands directly before an octal digit, and otherwise fewer bytes |
| LiteralPrinter.SplitExactlyWhereAbsorbed | third-party/googletest/googletest/src/gtest-printers.cc:269-275 | a whole string split at any set of places reads back as itself exactly when the set has every place where a hex escape meets a hexadecimal digit and every place where a NUL meets an octal one |
| LiteralPrinter.PrinterSplitsLeast | third-party/googletest/googletest/src/gtest-printers.cc:269-275 | where no NUL meets an octal digit, the printer's places are the least set that reads back |
| LiteralPrinter.NulExample | third-party/googletest/googletest/src/gtest-printers.cc:148-149 | the bytes 0 and 49 are printed as a literal that reads back as the byte 1 |
| Shuffling.ShuffleRange | third-party/googletest/googletest/src/gtest-internal-inl.h:312-329 | the range in place becomes its shuffle by the choices; everything outside is unchanged |
| Shuffling.ShuffledIsRearrangement | third-party/googletest/googletest/src/gtest-internal-inl.h:307-310 | a shuffle keeps the multiset of elements and all beyond its width |
| Shuffling.ShuffledLast | third-party/googletest/googletest/src/gtest-internal-inl.h:324-327 | the last place of the range gets the element chosen first |
| Shuffling.ShuffledInjective | third-party/googletest/googletest/src/gtest-internal-inl.h:322-328 | for distinct elements different choices give different results |
| Shuffling.ShuffledSurjective | third-party/googletest/googletest/src/gtest-internal-inl.h:322-328 | every rearrangement of the range is the result of some choices |
| Shuffling.ShuffleIsBijection | third-party/googletest/googletest/src/gtest-internal-inl.h:322-328 | for distinct elements, choices and rearrangements of the range correspond one to one |
| PrimeTables.OnTheFlyIsPrime | third-party/googletest/googletest/samples/prime_tables.h:58-67 | trial division up to the root decides primality |
| PrimeTables.OddTrialIsPrime | third-party/googletest/googletest/samples/sample1.cc:47-68 | odd trial divisors with the quotient bound decide primality |
| PrimeTables.SmallDivisor | third-party/googletest/googletest/samples/sample1.cc:58-59 | no divisor below a bound whose square exceeds n means n is prime |
| PrimeTables.PrimeAbove | third-party/googletest/googletest/samples/prime_tables.h:69-75 | there is a prime above every number, so the search ends |
| PrimeTables.OnTheFlyGetNextPrime | third-party/googletest/googletest/samples/prime_tables.h:69-75 | the least prime above p for p >= 0, and -1 below |
| PrimeTables.PreCalculatedPrimeTable.constructor | third-party/googletest/googletest/samples/prime_tables.h:83-114 | the sieve marks exactly the primes |
| PrimeTables.StrikeOut | third-party/googletest/googletest/samples/prime_tables.h:109-112 | one round strikes exactly the proper multiples |
| PrimeTables.CompositeStrikesNothing | third-party/googletest/googletest/samples/prime_tables.h:107 | skipping a struck number loses nothing |
| PrimeTables.PreCalculatedPrimeTable.IsPrime | third-party/googletest/googletest/samples/prime_tables.h:89-91 | primality within the table, false beyond |
| PrimeTables.PreCalculatedPrimeTable.GetNextPrime | third-party/googletest/googletest/samples/prime_tables.h:93-99 | the least prime above p within the table, and -1 exactly when there is none |
| PrimeTables.HybridPrimeTable.constructor | third-party/googletest/googletest/samples/sample8_unittest.cc:52-56 | a table of any size from 1 on, or none |
| PrimeTables.HybridPrimeTable.IsPrime | third-party/googletest/googletest/samples/sample8_unittest.cc:62-67 | decides primality for every n, as trial division does |
| PrimeTables.HybridPrimeTable.GetNextPrime | third-party/googletest/googletest/samples/sample8_unittest.cc:69-75 | the least prime above every p >= 0, as on the fly; where the two part at p = -1 |
| PrimeTables.NextPrimeUnique | third-party/googletest/googletest/samples/prime_tables.h:50-52 | there is only one least prime above p, so any two tables agree |

## Left out

- Regex engine: boost's matcher is a parameter, any answer that is a match of the whole path (`Routes.EngineAnswers`); which of several matches it prefers is not modelled, and group names are compared as text where boost compares hashes. The syntax parsed is literals, escapes, `.`, bracket classes, plain, non-capturing and named groups, alternation, and the quantifiers `*`, `+`, `?` and `{m,n}` with lazy marks; anchors, back-references, possessive quantifiers, lookaround, character class names, ranges from or to an escape and other `(?..)` forms are treated as invalid, and characters have no case or locale.
- Token regex: modelled as a scanner with the lazy quantifiers' preference; `.` is taken to match any character, a newline too.
- Routes.CompilationPreservesMeaning: covers patterns in which every literal by itself is a complete branch and every consumed text by itself a complete expression. It does not cover a literal with a `|` outside groups, with a group that closes in another literal, or that starts with a quantifier for the parameter in front of it; nor a consumed text that starts with a quantifier for the value or closes its group; nor patterns whose splice strays. For those `RequiredGroups.ArgumentIsAlwaysThereIff` says when each argument is there.
- RouteArguments.ArgumentsAreOwnIff: assumes that every bracket class of the pattern admits some character and nothing is repeated at most zero times; `RouteArguments.KeepingSuffices` does not.
- Double arguments: the conversion of a matched decimal to floating point is in folly; an argument carries its text.
- Integer arguments: `folly::to<int64_t>` is modelled on the texts the integer regex admits; its treatment of blanks does not arise.
- Streaming routes: `call_streaming_handler` binds arguments as `call_handler` does and is not repeated; `DCHECK`s are the checks of `StreamingProtocol.CheckFails`.
- Client errors: `onError` and timeouts in proxygen depend on code that is not part of this model; completion is assumed to be reported only after the end of the message was sent, as the source's own comment says.
- Read errors inside `std::ifstream` other than thrown exceptions; `sanitizePath` and the If-Modified-Since comparison, which appear only as the outcome of a request.
- PostParsing.ParseUrlEncoded: works on byte sequences; `getBinary` and `getBinaryList` clone buffers and would repeat the string getters; `parseFormData` is a stub in the source and gives the empty map.
- Unescaping: `folly::uriUnescape` is modelled by form percent-decoding with uppercase or lowercase digits, failing on a malformed escape.
- Router: error-handler lambdas; the outcome 404 or 405 stands for them.
- Expectations: argument matching, actions, sequences of expectations for one function and choosing among them, and cardinalities other than a minimum and a maximum; the mutex.
- Expectations.Expectation.constructor: prerequisites are given at construction, where the source adds them while the expectation is being declared; either way they exist before it and are fixed before its first call.
- Expectations.Expectation.FindUnsatisfiedPrerequisites: the result set is passed in and returned rather than reached through a pointer.
- GoogleMockFlags.InitGoogleMockImpl: `InitGoogleTest` is not part of this model; the argument vector is taken as it leaves it. Wide-character arguments are printed to narrow ones before matching.
- LiteralPrinter: wide characters, `PrintCharAndCodeTo`, and trigraphs, which the language replaces before literals are read.
- Shuffling: the generator is a sequence of choices, each below the width asked for.
- PrimeTables.OnTheFlyIsPrime: integers are unbounded, so the overflow of `i*i` near the largest `int` is not modelled.
- PrimeTables.PreCalculatedPrimeTable.GetNextPrime: a p below -1 indexes before the array in the source and is excluded.
- PrimeTables.PreCalculatedPrimeTable.constructor: a size below 1 writes past the array in the source and is excluded.
- BipartiteMatching.MaxBipartiteMatchState.TryAugment: the unused mark is -1 rather than the largest `size_t`, and indices are unbounded.
- UnorderedMatch: listener texts and printed elements; a matcher is a predicate on elements; `Randomize` and `DebugString` of the matrix.
- Server, configuration, request and response wrappers, and handler factories: plumbing around threads and sockets.
