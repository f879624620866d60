# Topper: routing, request building and responses, verified

Topper is a small C++ framework for RESTful services. A server registers resources under path
templates such as `/orgs/{org}/user/{id}`; a request's callbacks are gathered into a request object,
its path is matched against the templates, the matched resource's handler is called with the captured
components, and its response is written back as HTTP/1.1. This project models that path from the first
callback to the last response byte and proves what it computes.

## How the pieces fit

* `Text`, `Cursor` - plain splitting at separators, and the index-pair iterator that `PathComponents`
  and `QueryString` share; the iterator yields exactly the pieces of the split.
* `Templates` - templates as lists of slots (literal or variable, names erased), matching component by
  component, captures, and the `literals` string the search spells.
* `Registry` - the flat list of registrations: what the trie has to agree with.
* `Search` - the search on values. `Choices` enumerates every literal/variable choice for a path;
  `Frontier` explores only what a trie holds. They agree, which gives soundness, completeness and the
  order of candidates at once.
* `Ranking` - the documented order and the comparator as written.
* `CandidateSet` - the `std::set` of candidates. Where an element goes in a search tree depends on the
  tree's shape, and with this comparator that shows, so insertion is a relation: into any gap whose
  neighbours agree, dropped only if an equivalent element is there. A tree's descent always ends in
  such a gap, and every gap is where the descent ends in some tree; what is proved holds of every run.
* `Matching` - `MayReturn`, what `match` may return, from the registered table and the path alone, and
  its properties; `RouteExamples` has concrete routes.
* `TrieNodes`, `SearchStates`, `Teardown`, `Clearing`, `ResourceMatching` - the heap tree of nodes, the
  loops of `addResource`, `match` and `clear`. A ghost map says which node stands for which template;
  `Valid` says the nodes are a tree without sharing, are the prefixes of the registered templates, and
  hold exactly the registered entries.
* `Query`, `RequestBuilding`, `Decimal`, `IntParam`, `Extractor`, `Responses`, `RoundRobin`, `Server` -
  the stages before and after matching, and the pipeline that joins them.

## Where the code and its documentation disagree

The model follows the code. Where a lemma says so, it is named.

* Candidates are documented to be ordered by most variables, then longest literals, then
  lexicographically. The comparator does not stop at a failed test, so it returns true for both orders
  of many pairs. `std::set` may be used on a candidate list exactly when all three measures rank every
  pair the same way (`SetUsableIffAligned`, `SetUsableIffRoutesAligned`); then every ordered set has the
  documented winner's key in front (`OrderedSetFront`) and `match` returns the documented winner. In
  general it is returned in every run iff no candidate found later overtakes it
  (`MatchIsDocumentedIffNotOvertaken`). If one does, the tree's shape may decide (`ShapeDecides`), and
  the documented winner is lost in every run iff one found later is put before all found before that
  one (`WinnerMayBeReturnedIff`): with `/{x}/bb` and `/a/{x}` registered, `/a/bb` always goes to the
  wrong one (`DocumentedOrderFails`). Which candidates can be returned at all is decided from the
  registrations and the path alone (`MayReturnIff`). In the repository's own matcher test the first two
  routes with several parameters break the requirement too, though the request `/foo/bar` made there
  always comes out right (`RepositoryTestRoutes`).
* Headers are documented to be available to handlers. The last header of a request stays in the
  pending buffers and is never handed over (`LastHeaderIsLost`).
* Integer parameters are documented to throw on non-integral strings. They also throw on integers
  outside 64 bits, and silently reduce 64-bit integers that do not fit the target type: an accepted
  numeral keeps its value iff it fits the target and 64 signed bits (`ValueIsKeptIff`), and an 8-bit
  parameter reads `300` as 44 (`NarrowParameterWraps`). Printing a value in the upper half of a 64-bit
  unsigned target and parsing it throws (`ParsePrintSigned`), although a negative numeral is accepted
  as that value, as `-1` is as the largest (`EveryValueIsReceived`, `MinusOneIsLargest`).
* Resources are asked to define handlers compatible with their path template (include/resource.h:34-40),
  but nothing checks it, and a handler with more path parameters than its template has variables reads
  past the captured components: with one string parameter on `/foo`'s GET handler, every GET request for
  `/foo` does (`ReadsPastCaptures`). The pipeline is therefore proved for each request that it can answer without
  such a read; `CanAnswerIff` says exactly which those are, from the registrations and the path, and `MatchingRoutesFit` gives a condition on
  the registered routes that match. A request that nothing matches is always one of them.
* Accepts are spread over the server's bases by a wrapping counter. That is fair with the four bases the
  server has, and in general exactly when their number divides 2^32 (`FairIff`); with three it is not
  (`ThreeBases`).
* `addResource` is documented to throw a PathException; it throws a runtime error.
* The matcher's class comment says the template with most components wins. A template only matches a
  path with as many components, so this never decides anything.

## Model

| member | source | states |
|---|---|---|
| Cursor.Iterator.Increment | src/path_components.h:62-81 | the iterator's remaining components lose exactly their first one, the first increment of `begin` loses none, and one past the end changes nothing; the same code serves query strings |
| Cursor.Iterator.Dereference | src/path_components.h:87-91 | within range at every position before the end, and yields the first remaining component |
| Templates.PathRoundTrip | src/path_components.h:62-109 | slash-free components come back from the path that lists them each followed by a slash, and every path is rebuilt from its components and whether it ended in a slash |
| Text.FieldsAreFree | src/path_components.h:74-91 | no component contains a separator |
| Text.FieldsOfClosed | src/path_components.h:62-81 | one more trailing separator is dropped, or adds one empty component after an empty text or another separator; nothing else changes |
| Text.FieldsOfSeparate | src/query_string.h:62-91 | pieces written with separators after them, the last of which may be missing, are split into those pieces |
| Text.SeparateFields | src/query_string.h:62-91 | and every text is its pieces written so, with some of the separators |
| Matching.TrailingSlash | src/path_components.h:76-80 | adding a slash to a path leaves its components unchanged iff the path is non-empty and does not end in one; then what it may match is unchanged too |
| Templates.IsVariableIff | src/resource_matcher.cc:39-42 | a component is a variable iff it is some name, which may be empty, between braces |
| Templates.TemplateOfSpelling | src/resource_matcher.cc:58-79 | every path that spells a template, with any names in braces for its variables, registers that template |
| Registry.RefusedIff | src/resource_matcher.cc:58-86 | a registration is refused, as a collision, iff its path equals a registered one component by component, up to the names in braces |
| Registry.FirstRegistrationWins | src/resource_matcher.cc:81-91 | after any run of registrations a template belongs to the first call that named it |
| Registry.CollisionFreeRun | src/resource_matcher.cc:54-92 | a run in which no two calls name one template registers all of them in order |
| Registry.RegisterAllIsWellFormed | src/resource_matcher.cc:54-92 | no run of registrations binds a template twice or invents one |
| ResourceMatching.ResourceMatcher.constructor | src/resource_matcher.h:71 | a new matcher is a valid tree of the head alone, with nothing registered |
| ResourceMatching.ResourceMatcher.Descend | src/resource_matcher.cc:60-79 | one step of the insertion walk reaches the child for the component's slot, creating one blank node iff it is missing, and the nodes stay a tree without sharing whose literal keys are never `{...}` |
| ResourceMatching.ResourceMatcher.Walk | src/resource_matcher.cc:58-79 | the whole walk adds exactly the prefixes of the template to the tree, keeps every registered entry, and changes no node when the template's node existed |
| ResourceMatching.ResourceMatcher.AddResource | src/resource_matcher.cc:54-92 | refused exactly when the template is bound, with nodes, resources and log unchanged; otherwise the log, the tree and the resource list gain this registration and the tree is again the trie of all registered templates |
| TrieNodes.TreeAfterLink | src/resource_matcher.cc:63-78 | linking a new blank node into a free slot keeps the tree: one parent each, no other links, no sharing |
| SearchStates.Advance | src/resource_matcher.cc:155-194 | a live state dies exactly when the trie has no literal child, opens a state exactly when there is a variable child, and both carry the resource, methods, captures and literals of the node they stand at |
| SearchStates.Sweep | src/resource_matcher.cc:148-198 | one round turns the live states into their literal steps followed by the opened variable states, in order, and adds exactly one state per opened node |
| Search.FrontierIsPrunedChoices | src/resource_matcher.cc:146-198 | the live states are the literal/variable choices for the path that stay in the trie, each once, in the order of the exhaustive enumeration |
| Search.ChoicesAreMatches | src/resource_matcher.cc:146-198 | the enumeration lists exactly the templates that match the components |
| Search.FrontierIsDistinct | src/resource_matcher.cc:146-198 | live states stand at pairwise distinct nodes, exactly those matching the components consumed |
| Search.SpawnedIsBounded | src/resource_matcher.cc:166-174 | over any path the states opened never outnumber the variable nodes of the trie |
| Search.SearchFindsRegistered | src/resource_matcher.cc:216-220 | the registered templates among the live states are the registered templates among all choices, in the same order |
| ResourceMatching.ResourceMatcher.Explore | src/resource_matcher.cc:146-198 | the loop ends with the live states of the pruned search, and with at most one state more than the trie has variable nodes |
| ResourceMatching.ResourceMatcher.Match | src/resource_matcher.cc:136-230 | whatever heap tree represents the table and whatever shape the set takes, the result is one the registered table allows for the path's components |
| Matching.CandidatesAreMatches | src/resource_matcher.cc:200-220 | the candidates are exactly the registered templates that match a non-empty component list, each once |
| Matching.SomeReturn | src/resource_matcher.cc:215-229 | on every path and table there is a result that is allowed |
| Matching.NoMatchIff | src/resource_matcher.cc:222-225 | of any allowed result: it is nothing iff the path has no components or no registered template matches it |
| Matching.MatchIsRegistered | src/resource_matcher.cc:227-229 | any other allowed result carries a matching registered template's own resource and methods, and the components at its variables, one for each |
| Matching.RouteRoundTrip | src/resource_matcher.cc:54-230 | a registered template filled in with slash-free values spells a path on which, if no other registered template matches, its own entry and exactly those values are returned |
| Templates.CapturesOfFill | src/resource_matcher.cc:166-174 | the components of a template filled in with values match it and capture exactly those values |
| Templates.FillOfCaptures | src/resource_matcher.cc:166-174 | filling a template with what it captured gives back the components it matched |
| Matching.RegistrationOrder | src/resource_matcher.cc:54-230 | two collision-free orders of the same registrations allow the same results on every path |
| Matching.UnrelatedRegistration | src/resource_matcher.cc:54-230 | registering a template that does not match a path leaves that path's candidates, their order and the allowed results unchanged |
| Ranking.DocumentedIsStrictTotal | src/resource_matcher.cc:200-204 | the documented order is a strict total order on pairs of variable count and literals |
| Ranking.LexGreaterIff | src/resource_matcher.cc:212 | one string is greater iff at some position, up to which they agree, it has the greater character or the other one ends |
| Ranking.AsymmetricIffAligned | src/resource_matcher.cc:205-214 | the comparator does not put each of two keys before the other iff the three measures rank them the same way |
| Ranking.WrittenIsDocumentedOrMisaligned | src/resource_matcher.cc:205-214 | the comparator is the documented order, plus the reverse of every pair the measures do not rank the same way |
| Ranking.SetUsableIffAligned | src/resource_matcher.cc:205-215 | the comparator is a strict weak order on a candidate list, as `std::set` requires, iff its pairs are all aligned |
| Ranking.BestIsUnique | src/resource_matcher.cc:200-204 | every candidate list has exactly one documented winner, the earliest found among equal keys |
| CandidateSet.Insert | src/resource_matcher.cc:215-220 | an insertion with the tree's choice left open is always one the relation allows |
| CandidateSet.TreeInsertIsPossible | src/resource_matcher.cc:215-220 | inserting into a search tree of any shape is one of the allowed insertions |
| CandidateSet.EveryGapIsADescent | src/resource_matcher.cc:215-220 | every gap the relation allows is where the search ends in some tree of the same elements |
| CandidateSet.BuildIsOrderedSet | src/resource_matcher.cc:215-220 | on aligned candidates every run gives a set that is ascending and has one element for each key |
| CandidateSet.OrderedSetFront | src/resource_matcher.cc:215-227 | every such set, however built, has the documented winner's key at `begin()` |
| CandidateSet.NothingDropped | src/resource_matcher.cc:215-220 | candidates with distinct keys are all kept in every run, usable comparator or not |
| CandidateSet.WinnerIsAlwaysInFrontIff | src/resource_matcher.cc:205-227 | the documented winner is at `begin()` in every run iff no candidate found after it is put before it by the comparator |
| CandidateSet.FrontIff | src/resource_matcher.cc:205-227 | which candidates can be at `begin()`, in some run, is decided exactly by a recursion on their keys that builds no set |
| CandidateSet.WinnerMayBeInFrontIff | src/resource_matcher.cc:205-227 | the documented winner is at `begin()` in some run iff no candidate found after it is put before every one found earlier than that candidate |
| CandidateSet.ShapeDecides | src/resource_matcher.cc:205-227 | three keys of which the documented winner is at `begin()` in one run and another in a second |
| Matching.SetUsableIffRoutesAligned | src/resource_matcher.cc:205-215 | the requirement of `std::set`, restated on the registered templates that match |
| Matching.MatchIsDocumentedWinner | src/resource_matcher.cc:200-229 | when it is met, no registered match is documented to precede any that may be returned |
| Matching.SearchOrder | src/resource_matcher.cc:166-197 | of two candidates, the one with the literal at the last slot where they differ is found first |
| Matching.CandidateOrder | src/resource_matcher.cc:166-197 | the order among all candidates is that order, both ways |
| Matching.MatchIsDocumentedIffNotOvertaken | src/resource_matcher.cc:200-229 | the exact condition, over all registered tables, paths and runs of the set, for nothing but the documented winner to be returned |
| Matching.WinnerMayBeReturnedIff | src/resource_matcher.cc:200-229 | the exact condition, on the registered templates, for the documented winner to be returned in some run, and so for it to be lost in every one |
| Matching.MayReturnIff | src/resource_matcher.cc:136-230 | a registered template that matches may be returned iff it is among the candidates that can lead, which the registrations and the path decide |
| RouteExamples.DocumentedOrderFails | src/resource_matcher.cc:205-229 | two routes and a path for which another candidate than the documented winner is returned in every run |
| RouteExamples.RepositoryTestRoutes | test/resource_matcher_test.cc:116-136 | the routes of the repository's test give the result it expects, in every run, and break the requirement of `std::set` |
| Templates.LiteralsDecodeUniquely | src/resource_matcher.cc:168-188 | matching templates spell different literals if the components where they differ are non-empty and do not start with a dot |
| Templates.LiteralsCollide | src/resource_matcher.cc:168-188 | without that, two templates can match one path with equal keys |
| Matching.NoCandidateIsDropped | src/resource_matcher.cc:215-220 | under that proviso every set built from the candidates points to all of them |
| Templates.LiteralsSize | src/resource_matcher.cc:200-210 | the size compared is the aggregate literal length plus the number of variables, so with equal variable counts it compares aggregate length |
| ResourceMatching.ResourceMatcher.Clear | src/resource_matcher.cc:98-134 | every node but the head is deleted exactly once and after every node below it, alive and with its literal children forgotten at that moment, and the loop terminates |
| Teardown.Visit | src/resource_matcher.cc:112-125 | an unvisited entry hands its subtree over to itself and its children: every node stays accounted for by exactly one entry |
| Teardown.Pop | src/resource_matcher.cc:127-132 | a visited entry's subtree is already freed, so freeing its node keeps children before parents and nothing is freed twice |
| Clearing.PushChildren | src/resource_matcher.cc:115-121 | in whatever order the map yields them, exactly the children of the node are pushed, each once |
| RequestBuilding.RequestBuilder.OnUrl | src/request_builder.h:43-47 | the URL stays the concatenation of its fragments, one more of which was received |
| RequestBuilding.RequestBuilder.OnBody | src/request_builder.h:94-98 | likewise the body |
| RequestBuilding.RequestBuilder.OnHeaderField | src/request_builder.h:49-76 | the header state after a name fragment, in all three states; it stays what the whole trace of callbacks gives |
| RequestBuilding.RequestBuilder.OnHeaderValue | src/request_builder.h:78-92 | the header state after a value fragment; refused before any name, with state and trace unchanged |
| RequestBuilding.RunHeaders | src/request_builder.h:49-92 | however names and values are fragmented, the last header is pending and the map holds the earlier ones, a repeated name keeping its last value |
| RequestBuilding.RunHeadersAndName | src/request_builder.h:49-76 | likewise when the trace breaks off inside a name |
| RequestBuilding.TraceIsHeaders | src/request_builder.h:49-92 | every trace that opens with a name is of one of these two forms |
| RequestBuilding.TraceRefusedIff | src/request_builder.h:78-84 | a trace is refused iff it opens with a value, and leaves the state unchanged |
| RequestBuilding.LastHeaderIsLost | src/request_builder.h:155-158 | a handler sees the documented value of a header name iff the last header has another name or repeats the value already there |
| RequestBuilding.OnlyHeaderIsLost | src/request_builder.h:155-158 | a request with one header delivers none |
| RequestBuilding.BuiltRequest | src/request_builder.h:43-159 | after any accepted callbacks, the request a builder object gives depends only on what the fragments of URL, body, names and values concatenate to, and has exactly the headers that another name follows |
| RequestBuilding.RequestBuilder.Build | src/request_builder.h:100-159 | a URL that does not parse fails first, then any code but 0, 1, 3, 4, which stand for DELETE, GET, POST, PUT; else the request has the path slice or `/`, the pairs of the query slice or none, the body's pairs for POST only, and the completed headers |
| RequestBuilding.RequestRoundTrip | src/request_builder.h:100-159 | wherever in the URL they stand, the path and the pairs a query spells come back, as do, for POST only, the pairs the body spells, with the verb of the code |
| Query.ParseQueryParameters | src/request_builder.h:114-122 | the multimap has one entry for each component of the query, cut at its first '=' |
| Query.Get | src/parameter_internal.h:52-67 | for each value, as many copies as the multimap has entries with that name and value |
| Query.GetIsValuesOfName | src/parameter_internal.h:52-67 | what is returned for a name is a rearrangement of the values listed for it in the query |
| Query.SplitIff | src/query_string.h:98-105 | a component is cut into a key and a value iff it is `key=value` with no `=` in the key, or the key alone for an empty value |
| Query.QueryRoundTrip | src/query_string.h:62-105 | a query gives a list of pairs iff it is components that spell them, in that order, with `&` or `;` between them and perhaps at the end |
| IntParam.ParseNumeral | include/parameter.h:64-71 | a numeral whose value fits 64 bits is accepted as that value cast to the target type, any other numeral is out of range |
| IntParam.AcceptedIsNumeral | include/parameter.h:64-71 | only whole numerals are accepted: optional characters of the six of `std::isspace`, optional sign, digits to the end |
| IntParam.RefusedWithoutDigits | include/parameter.h:64-71 | a string in which no digit follows such space and a sign is refused as not an integer |
| IntParam.RefusedWithRest | include/parameter.h:64-71 | a numeral followed by anything else is refused, as out of range if it is and otherwise as not integral |
| IntParam.FixedWidths | include/parameter.h:66 | the ranges of the 8, 16, 32 and 64 bit types, in numbers |
| Decimal.ParseConcat | include/parameter.h:66 | the digits of a numeral count by position, whatever zeros stand in front |
| IntParam.CastIsReduction | include/parameter.h:66 | the cast lands in the target's range and is congruent to the value modulo 2^bits |
| IntParam.ValueIsKeptIff | include/parameter.h:64-71 | a numeral is accepted with its own value iff that fits the target type and 64 signed bits |
| IntParam.NarrowParameterWraps | include/parameter.h:64-71 | an 8-bit parameter accepts `300` as 44 |
| IntParam.ParsePrintSigned | include/parameter.h:64-71 | a printed value of the target type is read back iff it fits 64 signed bits, which fails exactly for the upper half of 64-bit unsigned |
| IntParam.EveryValueIsReceived | include/parameter.h:64-71 | every value of the target type is what some string is read as: itself printed, or in that upper half the negative numeral 2^64 below |
| IntParam.MinusOneIsLargest | include/parameter.h:64-71 | a 64-bit unsigned parameter accepts `-1` as its largest value |
| Extractor.ExtractDelivers | include/detail/tuple_util.h:129-183 | extraction yields these arguments iff each position got its own: a path-typed one preceded by k others gets capture k, no other kind consumes one |
| Extractor.ExtractFails | include/detail/tuple_util.h:129-183 | extraction fails iff some integer position refuses its capture |
| Extractor.ExtractError | include/detail/tuple_util.h:129-183 | and then with the exception of the first position, from the left, that refuses |
| Extractor.PathCountAdds | include/detail/tuple_util.h:92-116 | string and integer parameters take one capture each, the other kinds none |
| Extractor.IndexesInRangeIff | include/detail/tuple_util.h:73-116 | every index handed to a path-typed position is in range iff the signature has no more of them than there are captures |
| Server.CanAnswerIff | src/server_instance.h:126-137 | dispatching a request stays within the captures, whatever is matched, iff no registered template that can lead on its path has a handler bound to its verb with more path parameters than variables |
| Server.MatchingRoutesFit | src/server_instance.h:126-137 | this holds when the handlers of the registered routes that match the path fit their templates |
| RouteExamples.ReadsPastCaptures | include/detail/tuple_util.h:73-116 | a registration and a path for which the handler's argument is read past the captures |
| Server.GetResponse | src/server_instance.h:145-167 | a failed build is a 500, no match a 404, else the response of a handler that may be matched, or a 500 with the exception's message |
| Server.FailedBuild | src/server_instance.h:163-166 | a request that could not be built is answered by a text/plain 500 with the exception's message, and only by that |
| Server.NotFoundWhenUnmatched | src/server_instance.h:150-162 | if no registered template matches, the request can be answered whatever the handlers, and only by a text/plain 404 without content |
| Server.RequestReachesHandler | src/server_instance.h:126-167 | whatever is answered to a matched request, it is what the matched resource's own handler for its verb returned, or a 500 with the message of what it threw, for arguments that come from the slots and request parts the signature says; or a 500 with the message of the first integer parameter refused, or of the call of an unbound handler |
| Server.HeaderArgument | src/request_builder.h:49-159 | after any accepted callbacks, a handler's header argument holds the headers that another name follows, a repeated name with its last value |
| Server.MessageComplete | src/server_instance.h:145-179 | the bytes written are read back as one response, with nothing left over, that the registrations and the request allow: the 500 of a failed build and the empty 404 of an unmatched path among them |
| Responses.ToString | src/response.cc:75-93 | the bytes written are the status line, the three fields in order, an empty line and the content |
| Responses.StatusText | src/response.cc:20-63 | the six status lines, in letters |
| Responses.RenderIsText | src/response.cc:75-93 | the whole message: status line, Content-Length, Connection, Content-Type, empty line and content, in letters |
| Decimal.NoLeadingZero | src/response.cc:86 | lengths are written without zeros in front |
| Responses.ReadRender | src/response.cc:75-93 | a reader of RFC 7230 messages recovers code, media type and body from them, whatever the body, and leaves exactly what follows unread |
| Responses.RenderIsPrefixFree | src/response.cc:75-93 | no response's bytes are those of another, or a prefix of them |
| RoundRobin.BaseChooser.ChooseBase | src/server_instance.cc:69-73 | the shared counter is incremented with wrap-around and, taken modulo 2^64, selects the base, always in range |
| RoundRobin.BaseOfAccept | src/server_instance.cc:69-73 | which base the k-th of a run of accepts goes to, in closed form from any counter value |
| RoundRobin.StepsByOneIff | src/server_instance.cc:69-73 | the index always moves on by one, through both sign changes of the counter, iff the number of bases divides 2^32 |
| RoundRobin.HitsByDistance | src/server_instance.cc:69-73 | how many of the next k accepts a base receives, in closed form |
| RoundRobin.Fair | src/server_instance.cc:69-73 | then over any run of accepts from any counter value no base gets two more than another |
| RoundRobin.FourBases | src/server.cc:118-126 | the server's four bases are served fairly |
| RoundRobin.FairIff | src/server_instance.cc:69-73 | all runs from all counter values are fair, in this sense, iff the number of bases divides 2^32 |
| RoundRobin.ThreeBases | src/server_instance.cc:69-73 | with three bases two accepts in a row go to one of them as the counter passes zero |

## Left out

- CandidateSet.MayInsert: every gap is allowed at every insertion, whether or not the tree's earlier rebalancing could have led there; so "in every run" is a guarantee, and "in some run" is about some tree.
- Server.GetResponse: requests whose handler would read past the captures are excluded; C++ gives such a read no meaning.
- Query.Get: the order of several values of one name is not modelled, only which values and how many of each.
- ResourceMatching.ResourceMatcher.Clear: deletion is a ghost flag on the node; the head's dangling variable child pointer and the resource list, both left behind by the code just before the matcher is destroyed, are not described.
- Extractor.Extract: arguments are extracted from left to right; C++ leaves the order open, which shows only in which of two failing integer parameters names the error.
- Templates.LiteralsDecodeUniquely: the proviso is sufficient, not necessary.
- `IntParam<bool>`: its cast is not a reduction modulo a power of two.
- Messages of exceptions thrown by the standard library are placeholders; those of the repository are its own.
- The HTTP parser and its URL parser: their callbacks and the URL slices they report are inputs, required to lie within the URL.
- Handlers: a signature and a function from arguments to a response or an exception; what an application does in them is not part of this model.
- Event loops, sockets, listeners, request lifetime, threads, metrics and logging.
- C++ template mechanics: only the list of parameter kinds they process is modelled, and advancing by one for integer parameters is taken as intended.
- Strings are sequences of characters without a size limit; `npos` is a value outside every string.
