# fcgiserver: a verified model

A Dafny model of the parts of the fcgiserver library that decide what a request is
answered: the router trie, the symbol table it is keyed by, the UTF-8 codec and the
escaping formatter, query parsing, the header and body half of a request, what the
server loop does with a request after the router, and the ticker and shutdown protocol
of its threads. `dafny verify dfyconfig.toml` checks all of it.

Code that changes state in place is modelled by classes and loops, and proved against
functions and relations on values; the theorems are about those. Pure code is modelled
by functions.

| file | module | models |
|---|---|---|
| bytes.dfy | Bytes | bytes, glyphs, and the two shapes of every loop over them: a map and a machine |
| utf8.dfy | Utf8 | src/lib/utils.cpp's codec, `utf8_decode` and `utf8_encode` |
| malformed.dfy | Malformed | what any byte string means as UTF-8, well formed or not |
| markup.dfy | Markup | what the formatter makes of glyphs and of bytes, and how to undo it |
| formatter.dfy | Formatter | the formatter's loops, its 128-byte buffer and its chunks |
| paths.dfy | Paths | the two ways a path is cut into components |
| symbols.dfy | Symbols | the intern table, its symbols, and any number of threads interning |
| routing.dfy | Routing | what a tree of routers answers: a specification over string-keyed tries |
| request.dfy | Requests | a request's route and query, parsed when first wanted |
| router.dfy | Routers | the symbol-keyed trie on the heap, built and walked in place |
| dispatch.dfy | Dispatch | theorems about dispatch: flat maps, registered routes, what callbacks see |
| verdict.dfy | Verdicts | what a request is answered, case by case |
| litter.dfy | Litter | the empty nodes `remove_route` leaves behind, and what every request is answered then |
| removal.dfy | Removal | exactly when removing a route that is not registered changes an answer |
| query.dfy | Queries | query strings and percent-encoding |
| response.dfy | Responses | headers, bodies and the destructor of a request |
| answers.dfy | Answers | what the web server reads, and in which encoding |
| server.dfy | Servers | the tail of the server's per-request loop |
| ticker.dfy | Tickers | the thread list, the ticker and `kill_threads` |

What the theorems found, where the code does less than one would expect of it:

- `remove_route` creates the nodes it does not find, and a request that reaches the first
  of them is answered by them (`Litter.RemovalAnswers`, whatever is mounted where). So
  removing a route that is not registered can change answers, in two ways. A `*` beside
  the first new node is hidden: with nothing mounted around, some answer changes exactly
  when something under that `*` is not overruled by the recursive catch-all in force
  (`Removal.RemovalChangesNothing`, `Removal.WildcardShadowed`). And the answers of mounts
  above are forgotten: without such a `*`, some answer changes exactly when, for a request
  that ends inside the new nodes, no mount above handles it and one says more than NotFound
  (`Removal.RemovalTakesFromMounts`, `Removal.EmptyNodeForgets`).
- The byte overload of the formatter tests and writes the raw last byte of an overlong
  ASCII character, so it agrees with the u32 overload, and stays within ASCII, exactly on
  strings without such characters (`Markup.HtmlBytesAgree`, `Markup.LongAmpersand`).
- A byte string may be split over two calls of the formatter exactly where the decoder
  owes no bytes (`Markup.BytesSplit`).
- The tail of the server loop does not send headers when there is a status of which
  nothing is left in UTF-8, and no content type; the destructor then answers
  (`Servers.TailSends`, `Servers.EmptyStatusIsNotSent`).
- A comment in src/lib/server.cpp says `try_lock` avoids deadlocks during shutdown. The
  ticker's first lock is blocking, and `kill_threads` can end exactly when the ticker has
  been through it (`Tickers.ShutdownEnds`, `Tickers.ShutdownHangs`).
- The table of symbols stays consistent up to 2^32 strings and not beyond
  (`Symbols.CommitConsistent`).
- A response can be read back exactly if no header name has a colon and no name or value
  a line break; the code does not look at them (`Answers.ResponseIsRead`).
- The escape for `>` is `&rt;`, as in the code.

## Model

| member | source | states |
|---|---|---|
| Routers.Router.HandleRequest | src/lib/router.cpp:97-175 | the walking, recursing and route-swapping loop answers as the specification Serve over the string-keyed tries of any acyclic world of routers; exactly one thing runs if the request is handled and nothing otherwise; the relative route is what that saw, or its value at entry |
| Routers.Router.WalkRoute | src/lib/router.cpp:101-138 | the loop alone: either a mount has handled the request as Serve says, or what is left to decide is Serve's answer |
| Routers.Router.AskMounted | src/lib/router.cpp:108-122 | a mounted router is asked for the rest of the route with the relative route swapped for it; swapped back unless handled; NotFound does not replace an earlier answer |
| Routers.Router.Finish | src/lib/router.cpp:140-174 | after the loop: method, then CatchAllHere, then CatchAllRecursive of the last node, then the deepest recursive catch-all passed |
| Routers.Router.AddRouter | src/lib/router.cpp:177-190 | mounting adds bare nodes for all prefixes and sets the mount at the path's node, nothing else |
| Routers.Router.AddCallback | src/lib/router.cpp:192-205 | likewise for a callback under a method |
| Routers.Router.RemoveRoute | src/lib/router.cpp:207-231 | adds missing nodes, empties the path's node, and reports whether anything was registered there |
| Routers.Router.GetOrCreateSubroute | src/lib/router.cpp:25-31 | one component deeper: the child found or created through its symbol is the node at the string-keyed place, and the table of symbols only grows |
| Routers.Router.NextSubroute | src/lib/router.cpp:33-42 | the literal child, else the wildcard child, else none, as in the string-keyed trie |
| Routers.Lookup | src/lib/symbol.cpp:23-36 | for every component string, the lookup through its symbol finds an edge exactly when one was added for that string, in any consistent table |
| Routers.LayoutStable | src/lib/symbol_server.cpp:53-68 | symbol-keyed edges and string-keyed places still agree after more strings are interned |
| Routers.StillValid | src/lib/symbol_server.cpp:53-68 | interning more strings leaves a router's abstract value as it is |
| Routers.Router.Joins | src/lib/router.cpp:177-190 | any router whose mounts are in a world in good order can join it, so every finite nesting meets what HandleRequest requires |
| Verdicts.MountHandles | src/lib/router.cpp:108-118 | the first mount on the walk that handles the request has the say, whatever the endpoints and catch-alls are |
| Verdicts.LastMountHasTheSay | src/lib/router.cpp:163-174 | if none does and the walk stops short, the last mount that says more than NotFound has the say and nothing runs, whatever catch-alls were passed |
| Verdicts.CatchAllRuns | src/lib/router.cpp:140-172 | if it stops short and all mounts say NotFound, or ends at a node without endpoints whatever they say, the deepest recursive catch-all passed runs, with the route as it is at this router |
| Verdicts.NothingRuns | src/lib/router.cpp:140-174 | and if none was passed, the result is NotFound |
| Verdicts.EndpointRuns | src/lib/router.cpp:148-160 | if it ends at a node with endpoints, that of the method runs, else that of CatchAllHere, else that of CatchAllRecursive, whatever the mounts say and whatever catch-alls are above |
| Verdicts.MethodRefused | src/lib/router.cpp:163 | and if there is none of these, the result is InvalidMethod and nothing runs |
| Verdicts.MountsAnswer | src/lib/router.cpp:106-118 | a node without mount says NotFound, a nested router what it serves for the rest of the route, a router of another kind what it answers to that, and then it has run exactly if it says Handled |
| Verdicts.EdgeTaken | src/lib/router.cpp:127-133 | the literal edge, else the one for `*`, else the walk stops |
| Routing.Changed | src/lib/router.cpp:177-231 | after each of the three changes: the places are those from before and the prefixes of the path, new ones are empty, and only what was set at the path itself is different |
| Routing.Reported | src/lib/router.cpp:219-230 | what remove_route reports: true after a callback or a router was added at the path, false after removing there and in a new router, and not touched by changes elsewhere |
| Routing.FirstHandled | src/lib/router.cpp:113-117 | the first mount on the walk, outermost first, that handled the request |
| Routing.LastAnswer | src/lib/router.cpp:114-115 | the answer carried along is that of the last mount that did not say NotFound, and NotFound exactly if all did |
| Dispatch.DeepestIsThere | src/lib/router.cpp:136-137 | the recursive catch-all remembered is that of the deepest node of the walk that has one |
| Routing.Serve | src/lib/router.cpp:97-175 | something ran exactly when the result is Handled |
| Routing.ReachedStep | src/lib/router.cpp:106-138 | one round of the loop keeps its meaning: the final answer is the mount's, or is settled here, or is still that of the next node |
| Dispatch.RegisteredRouteIsServed | src/lib/router.cpp:192-205 | a request for the path of a registered callback, with its method, or with one that has no endpoint of its own there if it is registered for CatchAllHere as by default, or for CatchAllRecursive, gets the answer of the first mount on the path that handles it and that callback's otherwise, whatever wildcards and other routes there are |
| Dispatch.RegisteredUriIsServed | src/lib/request.cpp:212-222 | the two splitters agree: the callback runs for every document URI with the same components, if nothing is mounted on the way |
| Dispatch.MountedRouterServes | src/lib/router.cpp:108-122 | a router mounted at p gives a request for p followed by q the answer it gives to q, whenever it handles that and no router mounted above does |
| Dispatch.WalkToPlace | src/lib/router.cpp:127-131 | literal edges come first: a route that is a place is walked to that place through its prefixes |
| Dispatch.PlainIsFlat | src/lib/router.cpp:97-175 | without mounts and wildcards, dispatch is dispatch on the flat map of what is registered |
| Dispatch.FlatDispatch | src/lib/router.cpp:192-231 | after any history of changes without mounts and wildcards: exact path, else longest proper prefix with a recursive catch-all, else NotFound; leftover nodes never matter |
| Dispatch.BuildPlain | src/lib/router.cpp:192-231 | after any such history the non-empty nodes are exactly the registered paths with their callbacks |
| Dispatch.SeenIsTheRest | src/lib/router.cpp:108-122 | what runs sees the full route minus exactly the components consumed by the mounts still active, and is what those mounts lead to |
| Dispatch.RanksAgree | src/lib/router.cpp:97-175 | the answer depends on the routers alone |
| Dispatch.ServeIsGo | src/lib/router.cpp:97-175 | walking with the loop's variables, one node at a time, gives the answer that Serve puts together from the whole walk, for any router |
| Litter.RemovalAnswers | src/lib/router.cpp:207-231 | after removing a route that is not registered, with routers mounted anywhere, every request is answered as before, but for those whose walk turns into the new nodes: they get the answer of the first mount above that handles them, or that of a walk that ends among empty nodes |
| Removal.RemovalChangesNothing | src/lib/router.cpp:207-231 | with nothing mounted from the root to the first new node or under its wildcard sibling, removing a route that is not registered changes the answer to no request that can be received if and only if all of it has nodes, or there is no such sibling, or at every node under it requests get nothing but the recursive catch-all in force above |
| Removal.RemovalTakesFromMounts | src/lib/router.cpp:140-145 | with no wildcard sibling, and routers mounted anywhere, it changes the answer to no request if and only if, for every request that ends inside the new nodes, a mount above handles it or all of them say NotFound |
| Removal.NewNodesForget | src/lib/router.cpp:140-145 | the same for each single request |
| Removal.NothingMountedAbove | src/lib/router.cpp:207-231 | in particular it changes nothing if nothing is mounted on a prefix of the path and there is no wildcard sibling |
| Removal.RequestUnmoved | src/lib/router.cpp:207-231 | with a wildcard sibling, and routers mounted anywhere but under it, each request is answered as before if and only if it does not turn into the new nodes, or a mount above handles it, or the node where its walk ended gives it the same as the new ones |
| Removal.AlwaysSpellable | src/lib/router.cpp:177-231 | every place of a router built from route texts is one that a request can spell |
| Removal.WildcardShadowed | src/lib/router.cpp:213-217 | by example: removing a path never added hides the wildcard route beside it |
| Removal.EmptyNodeForgets | src/lib/router.cpp:140-145 | by example: a nested router has a callback for one method only; the empty node turns its InvalidMethod into NotFound |
| Removal.NestingExists | src/lib/router.cpp:177-190 | two such routers and the call, so what the theorems assume does occur |
| Requests.Request.FullRoute | src/lib/request.cpp:206-229 | parses once, and is that of the document URI at every call, whatever relative route is shown |
| Requests.Request.RelativeRoute | src/lib/request.cpp:231-236 | parses once; later calls see what was swapped in |
| Requests.Request.SwapRelativeRoute | src/lib/request.cpp:238-241 | sets the relative route and hands back the previous one |
| Requests.Request.QueryValue | src/lib/request.cpp:269-280 | the first parameter with the key, or nothing, from a query parsed once |
| Paths.SplitRoute | src/lib/request.cpp:206-229 | the request's loop yields the maximal slash-free runs |
| Paths.SplitRound | src/lib/router.cpp:54-71 | the router's splitter takes the same runs one at a time |
| Paths.ComponentsOfJoined | src/lib/request.cpp:212-222 | every list of components is the cut of some path |
| Paths.ComponentsOfSpaced | src/lib/request.cpp:212-222 | however many slashes there are before, between and after components, the cut is these components |
| Paths.SpacingOf | src/lib/request.cpp:212-222 | every text is such a spelling of its cut |
| Symbols.InterningIsSound | src/lib/symbol_server.cpp:32-69 | in every interleaving of any number of threads: strings and index are inverse, the list only grows at the end, two returned calls gave equal ids exactly for equal strings, and resolving an id returned gives its string for ever |
| Symbols.CallsAreAnswered | src/lib/symbol_server.cpp:32-69 | in every interleaving, for each string: as many calls were made as have returned for it or are under way; and the table holds only the empty string and those of returned calls |
| Symbols.RacersAgree | src/lib/symbol_server.cpp:53-58 | two threads that both missed the first probe for a string get the same id, whatever other threads do between their exclusive halves, and the second adds nothing |
| Symbols.CommitConsistent | src/lib/symbol_server.cpp:60-64 | the exclusive half keeps the table consistent if and only if the string is known or there are fewer than 2^32 |
| Symbols.SymbolServer.Internalize | src/lib/symbol_server.cpp:32-69 | the id resolves to the string, is not 0 for a non-empty one, and nothing known before changes |
| Symbols.SymbolServer.CheckInternalization | src/lib/symbol_server.cpp:21-30 | found exactly if the string is in the table, else id 0 |
| Symbols.SymbolServer.Resolve | src/lib/symbol_server.cpp:71-85 | the string whose id it is, or the marker for an id out of range; ids in range are those of the strings known |
| Symbols.CompareOrders | src/lib/symbol.cpp:38-42 | symbols compare as their strings do: negative exactly if the first comes before the second in the dictionary, zero exactly if the ids are equal |
| Utf8.Utf8To32 | src/lib/utils.cpp:35-90 | one byte advances the decoder as the specification says, whose output on every byte string is Malformed.Meaning |
| Utf8.Utf32To8 | src/lib/utils.cpp:92-124 | writes exactly the encoding and touches nothing else of the buffer |
| Utf8.Utf8Decode | src/lib/request.cpp:312-328 | the loop gives the glyphs the decoder emits, NUL left out: by Malformed.DecodeIsMeaning, what the bytes mean |
| Utf8.Utf8Encode | src/lib/request.cpp:330-345 | the loop gives the encodings of all glyphs, one after the other |
| Malformed.DecodeIsMeaning | src/lib/utils.cpp:35-90 | for every byte string, decoding is what an independent reading gives: piece by piece, the number a lead byte and its continuation bytes spell, or U+FFFD |
| Malformed.BrokenSequence | src/lib/utils.cpp:39-52 | from any boundary, a lead byte and the bytes it announces, one of which is no continuation byte, give exactly one U+FFFD and a boundary |
| Malformed.StrayByte | src/lib/utils.cpp:78-89 | from any boundary, a continuation byte, or one from 0xf8 on, gives exactly one U+FFFD and a boundary |
| Malformed.CutOff | src/lib/utils.cpp:84-85 | a sequence that is cut off gives nothing |
| Malformed.PoundFive | src/lib/utils.cpp:78-89 | by example: Latin-1 text |
| Utf8.RoundTrip | src/lib/request.cpp:312-345 | decoding undoes encoding for every sequence of glyphs over 1..0x10FFFF, surrogates included |
| Utf8.ShortestForm | src/lib/utils.cpp:92-124 | the encoding is the one shortest sequence of the table in section 3 of RFC 3629 that spells the glyph |
| Utf8.GarbagePrefix | src/lib/utils.cpp:35-90 | whatever bytes come first, at most three of the glyphs after them are lost |
| Utf8.GarbageBoundIsTight | src/lib/utils.cpp:72-77 | three can be lost |
| Utf8.Resync | src/lib/utils.cpp:37-52 | from any state no more glyphs are lost than bytes are owed |
| Utf8.CleanIsIdempotent | src/lib/utils.cpp:112-123 | decoding and encoding twice is the same as once; glyphs without an encoding vanish and no others do |
| Utf8.CleanFixpoint | src/lib/request.cpp:312-345 | decoding and encoding leaves a byte string alone exactly when it encodes some glyphs |
| Markup.Utf8FormatCleans | src/lib/generic_formatter.cpp:163-173 | the UTF8 format writes utf8_encode(utf8_decode(s)) for every byte string, and writing that again changes nothing |
| Markup.EncodedStreamsAlike | src/lib/generic_formatter.cpp:150-282 | in every format but Verbatim, streaming encoded glyphs as bytes gives what streaming the glyphs gives |
| Markup.HtmlBytesAgree | src/lib/generic_formatter.cpp:175-197 | for arbitrary bytes that holds in the HTML formats, and the output is ASCII, if and only if no ASCII character arrives in an overlong form |
| Markup.LongAmpersand | src/lib/generic_formatter.cpp:187-196 | by example: an overlong ampersand is written as a raw byte |
| Markup.HtmlGlyphsMarkup | src/lib/generic_formatter.cpp:241-268 | the output for glyphs is ASCII, and element content has no angle brackets |
| Markup.ContentHasNoAngles | src/lib/generic_formatter.cpp:175-202 | the output for bytes, of whatever kind, has no angle brackets in element content either |
| Markup.PlainBytes | src/lib/generic_formatter.cpp:175-197 | the byte overload writes ASCII text without NUL and `&` exactly as it is in HTML, tags included, and in element content if there are no angle brackets |
| Markup.PlainGlyphs | src/lib/generic_formatter.cpp:241-263 | the same for the u32 overload |
| Markup.EscapedBytes | src/lib/generic_formatter.cpp:177-201 | byte for byte what the byte overload writes for each character that is escaped |
| Markup.EscapedGlyphs | src/lib/generic_formatter.cpp:243-267 | the same for the u32 overload |
| Markup.HexDigits | src/lib/generic_formatter.cpp:266 | the digits of %x: lower case, most significant first, no leading zero |
| Markup.HtmlRoundTrip | src/lib/generic_formatter.cpp:234-268 | an unescaper gives back every sequence of 32-bit glyphs |
| Markup.HexRoundTrip | src/lib/generic_formatter.cpp:266 | reading the digits of %x gives the number back |
| Markup.GlyphsSplit | src/lib/generic_formatter.cpp:223-282 | splitting a glyph string over calls changes nothing |
| Markup.BytesSplit | src/lib/generic_formatter.cpp:160-165 | splitting a byte string after a given prefix changes nothing whatever follows, if and only if the decoder owes no bytes there |
| Formatter.GenericFormatter.WriteBytes | src/lib/generic_formatter.cpp:150-216 | in Verbatim the bytes as they are; else the chunks add up to the specified output (pinned by Markup.PlainBytes, EscapedBytes and Utf8FormatCleans), all but the last have 100 to 111 bytes, none is empty, and no write leaves the buffer |
| Formatter.GenericFormatter.WriteGlyphs | src/lib/generic_formatter.cpp:223-282 | the same for glyphs, with Markup.PlainGlyphs, EscapedGlyphs and EncodedStreamsAlike; in Verbatim their four bytes each |
| Formatter.GenericFormatter.PutEntity | src/lib/generic_formatter.cpp:198-202 | snprintf never cuts the escape off |
| Formatter.GenericFormatter.WriteContent | src/lib/request_stream.cpp:14-27 | element content is escaped as such within HTML only, and the format is put back |
| Queries.ParseQuery | src/lib/request.cpp:243-267 | the loop cuts at every `&` and each piece at its first `=`, as Queries.ParamsRead tells piece by piece |
| Queries.ParamsRead | src/lib/request.cpp:243-267 | what the pieces of a query string give: a key without value, a key and a value, with or without more to come; only the last piece vanishes when empty |
| Queries.QueryDecode | src/lib/request.cpp:282-310 | the loop replaces escapes from left to right, as Queries.EscapeIsRead and OthersAreKept tell byte by byte |
| Queries.EscapeIsRead | src/lib/request.cpp:291-300 | a percent sign and two hexadecimal digits, of either case, are the byte with these digits, and decoding goes on after them |
| Queries.OthersAreKept | src/lib/request.cpp:301-307 | every other byte is itself, a percent sign without two digits included, and decoding goes on after it |
| Queries.NibbleReadsDigits | src/lib/utils.cpp:12-31 | the code reads a byte as v exactly if it is the hexadecimal digit of v in the tables of either case |
| Queries.QueryRoundTrip | src/lib/request.cpp:243-310 | any list of keys and values, percent-encoded in any way that escapes at least what separates (section 2.1 of RFC 3986), parses and decodes to itself in order |
| Queries.DecodesEncoded | src/lib/utils.cpp:8-33 | decoding undoes every percent-encoding, in either hex case |
| Queries.DecodingKeeps | src/lib/request.cpp:291-306 | decoding changes a text if and only if it has a percent sign with two hexadecimal digits of the tables after it |
| Queries.FirstParam | src/lib/request.cpp:269-280 | found exactly if some parameter has the key; then the value is that of the first one |
| Responses.Emission | src/lib/request.cpp:396-432 | at every point of every run: nothing sent and the headers are the first values set, or one header block with Status and first-set values, each key once, followed by all bodies |
| Responses.WholeResponse | src/lib/request.cpp:94-106 | over a request's life: one block, one blank line, the bodies; if nothing was sent, the fallback text, with the user's headers completed by those of the fallback |
| Responses.HeadersFrozen | src/lib/request.cpp:413-432 | once sent, headers stay sent and unchanged, and output only grows |
| Responses.WarnedOnce | src/lib/request.cpp:396-406 | a setter succeeds exactly if headers were not sent; the first that fails is logged, and no other |
| Responses.DecimalReads | src/lib/request.cpp:363-366 | the digits of a status code read as that number, and there is no leading zero |
| Responses.HttpResponse.SendHeaders | src/lib/request.cpp:413-432 | adds Status unless it is there, writes every header once in some order and a blank line, and freezes them; does nothing a second time |
| Responses.HttpResponse.SetHeader | src/lib/request.cpp:396-406 | before sending: true, and the first value stays; after: false, nothing changes, and one warning in all |
| Responses.HttpResponse.SetContentType | src/lib/request.cpp:368-394 | detects the encoding, and sets it only if the header could be set |
| Responses.HttpResponse.Write | src/lib/request.cpp:136-140 | sends headers unless sent, then writes the data |
| Responses.HttpResponse.Stream | src/lib/request_stream.cpp:29-32 | all chunks are written as one body; without chunks not even the headers are |
| Responses.HttpResponse.Destroy | src/lib/request.cpp:94-106 | the fallback unless headers were sent |
| Answers.ResponseIsRead | src/lib/request.cpp:413-432 | over the whole life of any request, a reader of header fields gets from the output each header once, with its value, and then the bodies, if and only if no name has a colon and no name or value a line break |
| Answers.BlockIsRead | src/lib/request.cpp:421-430 | the same for one block with any text after it |
| Answers.EncodingByName | src/lib/request.cpp:368-381 | the encoding for a type: HTML for text/html alone, Verbatim exactly if it does not start with text/ |
| Answers.EncodingInForce | src/lib/request.cpp:383-394 | at every point of every run the encoding is the one chosen last, by set_encoding or by a set_content_type that came in time |
| Answers.StreamedBody | src/lib/request.cpp:42-55 | what a stream sends in each encoding: the bytes themselves, the text cleaned, or markup, which is left alone |
| Answers.StreamSendsHeaders | src/lib/request_stream.cpp:29-32 | a stream sends the headers exactly if there is something to hand on, or in Verbatim |
| Servers.TailSends | src/lib/server.cpp:360-392 | the tail leaves headers sent if and only if they were, or there is a content type, or no status yet, or a status of which something is left in UTF-8; a missing status becomes the router result's |
| Servers.TailOutput | src/lib/server.cpp:360-392 | what the tail adds: nothing if headers were sent; else one block and, for want of a content type, the status as plain text; the status is the one set before, or 200, 404, 405 or 500 after the result |
| Servers.ServedRequestsAreAnswered | src/lib/server.cpp:346-392 | if Status is set through set_http_status only, then whatever the handler did, headers are sent and the destructor has nothing to do; without a status the result's is sent |
| Servers.EmptyStatusIsNotSent | src/lib/server.cpp:383-387 | by example: an empty status leaves headers unsent |
| Servers.CompleteRequest | src/lib/server.cpp:360-392 | performs exactly the tail's operations |
| Tickers.TickIsSafe | src/lib/server.cpp:445-459 | on every run the list is not empty when the modulus is taken, the ticker is at its head, it never signals itself, and never steps past the end |
| Tickers.AlwaysOrderly | src/lib/server.cpp:199-223 | on every run a live ticker heads the list, workers with distinct ids follow, and its index is size_t(-1), a worker's, or 1 |
| Tickers.ListIsWhatWasAsked | src/lib/server.cpp:197-223 | on every run, since the start or the last kill_threads: no threads until some are asked for, then a ticker and exactly the workers asked for, numbered on from all those before |
| Tickers.KillingExcludes | src/lib/server.cpp:209-223 | on every run, while kill_threads holds the lock nothing but ends of threads happens; when it lets go all threads of the list have ended, and the list is empty |
| Tickers.FirstRound | src/lib/server.cpp:440-456 | the first ticks of a new ticker signal the workers in the order of the list |
| Tickers.EveryWorkerOnce | src/lib/server.cpp:447-456 | while the list stays with n workers, any n consecutive successful ticks of any run signal each worker exactly once |
| Tickers.ShutdownEnds | src/lib/server.cpp:209-223 | on every run, kill_threads can get to its end, by the ticker and the workers ending, if and only if the ticker it joins is not waiting for its first lock |
| Tickers.ShutdownHangs | src/lib/server.cpp:424-426 | by example: a server shut down before its ticker ran |
| Tickers.ThreadList.AddThreads | src/lib/server.cpp:197-204 | the old list, or a new ticker if it was empty, then as many workers as asked for, with the ids that follow the last one given |
| Tickers.ThreadList.TickerRound | src/lib/server.cpp:447-456 | one successful round of the ticker |

## Left out

- Routers.Router.HandleRequest: a callback is logged with the relative route it sees; that it may throw or modify routers is not modelled, and what it does to the response is left to Responses.
- Routers.Router.Joins: routers mounted in a cycle are not modelled; the code would recurse on the same shared mutex.
- Removal.RequestUnmoved: with routers mounted under the wildcard sibling, what a request got before is Routing.Serve itself; Litter.RemovalAnswers gives what it gets afterwards.
- A router of another kind is known by what it answers to the rest of a route and a method; `EmptyRouter`, which looks at the whole URI, is such a one only at the top.
- Symbols.InterningIsSound: assumes no more than 2^32 strings, since the code casts the size to unsigned int.
- Routers.Router.AddCallback: like the other changes of a router, assumes that the table of symbols has room for the components of the route.
- Tickers.ShutdownEnds: `kill_threads` is two steps of the protocol, not a method, since in between it waits for other threads.
- Tickers.AlwaysOrderly: the list is shorter than 2^64, worker ids do not wrap, a worker can always end, and a signal counts as delivered when it is sent.
- Formatter.GenericFormatter.WriteGlyphs: the Verbatim format writes glyphs in little-endian byte order.
- Responses.HttpResponse.Stream: chunks are written after the formatter is done with the text, not one by one while it works; the encoding, not initialised in the code, is any of the three.
- Numeric header values are those of `set_http_status` and of the destructor; negative numbers are not.
- Header keys are the strings of their symbols; Symbols shows that the two correspond.
- Request is one object in the code and two here, Requests.Request and Responses.HttpResponse, with no state in common.
- Masks and shifts are written as ranges and as division and remainder by powers of two.
- Locks: the two halves of interning, `add_threads`, one round of the ticker and `kill_threads` between its signals and its end are the atomic steps; memory order is not modelled, and neither is the router's own mutex.
- `SymbolServer::clear` and the order of static initialisation: start and end of the process only.
- Formatting of numbers and floating point, `printf`, and `to_chars`: library code.
- `resolve_method`, `remote_port`, `do_not_track`, the environment map and the read and error channels: they would only add easy members.
- FastCGI calls, sockets, signals and `nanosleep`: output is an append-only byte sequence, an accepted request an arbitrary one, and ticks are steps.
- The logger and its line formatter: only the warning about headers already sent is counted.
