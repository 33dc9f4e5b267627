# Verified model of the web server's core

A model in Dafny of the three parts of the server that hold real algorithms, with proofs about
every input, every run and every interleaving.

**The entity store.** `Numbers` defines `to_string`, `stoi` and `stoul`. `EntityStore` is the
in-memory store of one base directory, `EntityHandlers` the create/read/update/delete handler on it,
and `MutexPools` the reference-counted pool of one mutex per directory. Each has an object that is
changed in place and a value-level specification that its methods are proved against.
`EntityAnswers` says word by word what the handler answers.
`EntityProtocol` is the concurrent system: any number of handlers, each with its own arguments and
request, interleaved by an arbitrary schedule at every pool call, lock operation and store access (a
POST makes two). The mutex of a directory is destroyed with its last handler and made anew for the
next one, so mutual exclusion rests on an invariant that counts references. `EntitySerial` shows
that every interleaving does to the store, and answers, what the same requests do one at a time in
the order of locking.

**The configuration language.** `ConfigLexer` and `ConfigTree` define lexemes, trees, their grammar
and their printed form; `ConfigReader` is the character lexer on a stream with push-back;
`ConfigParser` is the stack machine on values; `ConfigObjects` grows the tree of statement objects
in place through a stack of open blocks, and prints it; `ConfigRoundTrip` has the round trips.
`RouteTable` says what a routing table must be and `ConfigLoader` builds it from the objects;
`LoadedTables` says the same statement by statement.

**HTTP.** `Framing` cuts a buffer into requests, `RequestReader` parses one, `PrefixRouter` chooses
its route, and `Session` is the read loop with its limits. `Http` prints requests and responses.
`RequestRoundTrip`, `RequestDecisions`, `RequestSplits`, `TwoReaders` and `Responses` relate
printing, framing and parsing. The subset of RFC 9112 (sections 2.2, 6.3 and 9.3.2) and RFC 9110 (section 8.6) is the one the code implements:
where code and standard differ, the model follows the code.

A `char` stands for one byte. `std::string::npos` is `-1`, so that `npos + 1` is `0` as it is for
the unsigned type. `Text` and `Ordered` hold the string operations and the iteration order of
`std::map`. Exceptions are values of result types. The bytes of a read, the text of the
configuration file and the schedule are parameters.

Properties that the code does not have, with inputs that show it and the exact conditions:

- A bare word that the end of the file cuts off is dropped, so `a; b` is accepted as `a;`
  (`ConfigRoundTrip.LastWordIsDropped`). Joining two accepted texts gives the two trees in a row
  exactly when the first one does not end in such a word (`ConfigRoundTrip.Concatenation`).
- Adding one to the greatest `int` id is undefined in the original; the model wraps around. A PUT can
  store that id, and then every POST to the entity is refused (`EntityHandlers.GreatestIdBlocksPosts`).
  The next id is new and can be written exactly when no stored id reads as 2147483647
  (`EntityStore.NextIdIsFresh`).
- The choice of a route can depend on the order of the table: exactly when `/` and the one-character
  route of a path without a leading slash both match and nothing longer does
  (`PrefixRouter.OrderMattersInTiesOnly`). In the order of `std::map` the route `/` then beats the exact
  route, if that one is behind `/` in the order (`PrefixRouter.RootBeatsExactRoute`, and
  `PrefixRouter.ExactRouteLoses` for the table of `/` and `x`).
- The framing scan and the parser do not always read a request in the same way. They do exactly when
  either the parser begins with the headers inside the head, no line from there to the end of the head
  is a carriage return only, and the last length line from there on announces the length of the body
  (or there is none and no body); or it begins behind the head and there is no body
  (`TwoReaders.TwoReadersAgreeExactly`). They part on a bare line feed in front of a blank line
  (`TwoReaders.BareFeedSplitsReaders`), and on a blank line in front of a request with a body
  (`TwoReaders.BlankFirstLineSplitsReaders`).
- Not every way of reading a stream gives the same events, because a read can overflow the buffer. No
  reads of at most 1024 bytes do before the loop stops, exactly when for each request up to the stop
  either the decision on it takes at most 7169 bytes or the stream from it on has at most 8192
  (`RequestSplits.NoSplitOverflows`).
- The status line is not injective: 413 and 500 are printed alike, and nothing else is
  (`Responses.StatusTextTellsStatus`, `Responses.ResponseTextTellsResponse`).
- An empty base directory keeps its pool entry for ever (`EntityProtocol.Cleanup`).

## Model

| member | source | states |
|---|---|---|
| EntitySerial.SerialEquivalence | src/server/request_handlers/entity_handler.cc:42-155 | For every list of jobs and every schedule: each response given so far, and the store of every directory that no handler is working on, are those of serving the requests one at a time in lock order; that order lists exactly the handlers that got their mutex, each once |
| EntitySerial.SerialAtTheEnd | src/server/request_handlers/entity_handler.cc:42-155 | When all handlers are done, the store of every directory is that of the serial run of exactly the handlers that had a root argument |
| EntitySerial.RealTimeOrder | src/server/request_handlers/entity_handler.cc:53 | A handler that had its mutex before another one got its own stands before it in the serial order |
| EntitySerial.SameIdOnlyAfterDelete | src/server/request_handlers/entity_handler.cc:73-82 | In any interleaving, two successful POSTs to one entity are told the same id only if a DELETE of that entry got the mutex between them, so never while both entries are live |
| EntitySerial.IdReuseNeedsDelete | src/server/request_handlers/entity_handler.cc:73-82 | The same for the serial run, naming the id and the deleting request |
| EntitySerial.ServeKeepsEntry | src/server/request_handlers/entity_handler.cc:73-125 | An entry outlives every request except the DELETE of that very entry |
| EntitySerial.AlwaysRefines | src/server/request_handlers/entity_handler.cc:53-82 | The refinement invariant holds in every reachable state, also between the two store accesses of a POST, when the serial run is ahead of the store |
| EntitySerial.AloneServes | src/server/request_handlers/entity_handler.cc:13-155 | Seven uninterrupted steps of a handler do what one call of the handler method does |
| EntitySerial.AloneServesItsRoot | src/server/request_handlers/entity_handler.cc:16-57 | In terms of the root argument: the seven steps replace the store of exactly that directory by what one request makes of it, and leave store, count and mutex of every other directory |
| EntityProtocol.StepStaysInRoot | src/server/request_handlers/entity_handler.cc:21-47 | A step of a handler leaves store, count and mutex of every directory but its root argument as they were |
| EntityProtocol.MutexesFollowRoots | src/server/request_handlers/entity_handler.cc:21-47 | Handlers that asked for a mutex share it exactly when their root arguments are equal, and it is the pool's mutex under that text |
| EntityProtocol.LifeOfHandler | src/server/request_handlers/entity_handler.cc:13-155 | The phases of a handler in their order: a POST takes its id in one step and writes in another; only the accesses change a store, only locking extends the log |
| EntityProtocol.AlwaysInv | src/server/mutex_pool.h:17-41 | Every schedule keeps the invariant: paired maps, exact reference counts, distinct mutexes, holders and phases in step, log without repetition |
| EntityProtocol.MutualExclusion | src/server/request_handlers/entity_handler.cc:47-53 | In every reachable state at most one handler of a directory holds its lock, although the mutex of the directory comes and goes |
| EntityProtocol.MutexesFollowDirectories | src/server/mutex_pool.h:27-31 | Handlers that asked for a mutex share it exactly when they share the directory, and it is still the one in the pool |
| EntityProtocol.PoolCountsHandlers | src/server/mutex_pool.h:17-41 | The count of a key is the number of handlers that refer to it, the key is there exactly while there is one, and no request or erase ever misses its key |
| EntityProtocol.NoDeadlock | src/server/request_handlers/entity_handler.cc:42-53 | A reachable state in which no step changes anything is one in which all handlers are done, and conversely |
| EntityProtocol.RunsEnd | src/server/request_handlers/entity_handler.cc:13-155 | However a run is scheduled, at most seven steps of each handler act |
| EntityProtocol.RunsCanFinish | src/server/request_handlers/entity_handler.cc:13-155 | Every run can be continued until all handlers are done |
| EntityProtocol.FairRunsFinish | src/server/request_handlers/entity_handler.cc:13-155 | After seven rounds for each handler, in each of which every handler is named in any order and any number of times, all handlers are done |
| EntityProtocol.Cleanup | src/server/request_handlers/entity_handler.cc:27-31 | When all handlers are done no mutex is held and the pool is empty, but for the empty directory, which is there exactly if a handler was built for it |
| EntityProtocol.StepActs | src/server/request_handlers/entity_handler.cc:42-53 | A step does nothing exactly when its handler is done or its mutex is held, and otherwise uses up rank |
| EntityProtocol.LogGrows | src/server/request_handlers/entity_handler.cc:53 | The order of locking is never revised by the rest of a run |
| MutexPools.EraseUndoesInsert | src/server/mutex_pool.h:17-41 | Erasing a reference restores both maps to what they were before its insert, and uses up the mutex that was made |
| MutexPools.MutexPool.Insert | src/server/mutex_pool.h:17-25 | The new state of both maps; the maps keep the same keys |
| MutexPools.MutexPool.Request | src/server/mutex_pool.h:27-31 | The mutex of the key, or the exception when it is missing |
| MutexPools.MutexPool.Erase | src/server/mutex_pool.h:33-41 | The new state of both maps, the removal at zero, and the exception with nothing changed |
| EntityStore.NextIdIsFresh | src/server/filesystem/mock_filesystem.cc:59-77 | The next id is unused and writable if and only if no stored id reads as the greatest int; a writable one is always unused |
| EntityStore.MaxIdIsMax | src/server/filesystem/mock_filesystem.cc:61-74 | The running maximum is an upper bound of all ids that are ints and is zero or attained |
| EntityStore.MaxIdIgnoresOrder | src/server/filesystem/mock_filesystem.cc:61-74 | The maximum does not depend on the order in which ids are listed |
| EntityStore.MaxAfterWrite | src/server/filesystem/mock_filesystem.cc:27-33 | Writing the next id succeeds and makes it the maximum |
| EntityStore.MockFilesystem.Read | src/server/filesystem/mock_filesystem.cc:16-25 | The stored text, or not found with its message |
| EntityStore.MockFilesystem.Write | src/server/filesystem/mock_filesystem.cc:27-33 | The new store, or the rejection of an id that is not a positive int with the store unchanged |
| EntityStore.MockFilesystem.Remove | src/server/filesystem/mock_filesystem.cc:35-47 | The new store, or not found with the store unchanged |
| EntityStore.MockFilesystem.ListIds | src/server/filesystem/mock_filesystem.cc:49-57 | The ids of an entity in map order |
| Ordered.LexIsDictionaryOrder | src/server/filesystem/mock_filesystem.cc:51-54 | The order of map keys: the first difference decides by the number of the character, and a prefix comes first |
| EntityStore.MockFilesystem.NextFreeId | src/server/filesystem/mock_filesystem.cc:59-77 | The successor of the maximum, as text |
| EntityHandlers.PostsInARow | src/server/request_handlers/entity_handler.cc:73-82 | From maximum m, k POSTs in a row get m+1 to m+k, each id was unused, holds its body at the end, and no earlier entry is touched |
| EntityHandlers.GreatestIdBlocksPosts | src/server/request_handlers/entity_handler.cc:73-115 | After a PUT under the id 2147483647, which succeeds, every POST to the entity is refused and changes nothing |
| EntityHandlers.DeletedIdIsGivenAgain | src/server/request_handlers/entity_handler.cc:73-125 | After a POST and the DELETE of its entry, the next POST gets the same id, so the DELETE in the two theorems on id reuse is needed |
| EntityHandlers.ServeChangesOneEntry | src/server/request_handlers/entity_handler.cc:73-152 | A request leaves every entry but the one it names, or the new one of a POST, as it was |
| EntityHandlers.PutThenGet | src/server/request_handlers/entity_handler.cc:99-115 | A PUT succeeds exactly when the id reads as a positive int, and then a GET returns its body; otherwise nothing changes |
| EntityHandlers.DeleteThenGet | src/server/request_handlers/entity_handler.cc:99-125 | A DELETE succeeds exactly when the entry was there, and afterwards a GET finds nothing |
| EntityHandlers.EntityOfPath | src/server/request_handlers/entity_handler.cc:57-69 | In `/api/name/id` the name is the second segment and the id is everything behind it; without a third slash the id is empty |
| EntityHandlers.EntityOfLongPath | src/server/request_handlers/entity_handler.cc:57-69 | The same for every path with two slashes or more, wherever the first one stands |
| EntityHandlers.EntityOfShortPath | src/server/request_handlers/entity_handler.cc:57-69 | A path with fewer slashes is the name as a whole |
| EntityAnswers.GetListsIds | src/server/request_handlers/entity_handler.cc:83-97 | GET without an id answers 200 with an array from which a reader gets exactly the ids of the entity, each once and in order, and changes nothing |
| EntityAnswers.ListIsRead | src/server/request_handlers/entity_handler.cc:86-92 | Reading a printed list of ids without quotes gives the list back |
| EntityAnswers.GetAnswers | src/server/request_handlers/entity_handler.cc:98-105 | GET with an id answers with the stored text, or 404 with its message |
| EntityAnswers.PutAnswers | src/server/request_handlers/entity_handler.cc:106-115 | PUT stores the body under an id that reads as a positive int and answers with it, and refuses any other id and a missing one with their messages |
| EntityAnswers.PostAnswers | src/server/request_handlers/entity_handler.cc:73-82 | POST stores the body under the successor of the greatest id and answers with it |
| EntityAnswers.FirstIdIsOne | src/server/filesystem/mock_filesystem.cc:59-77 | The first id of an entity without numbered ids is 1 |
| EntityAnswers.DeleteAnswers | src/server/request_handlers/entity_handler.cc:116-125 | DELETE takes the entry away, or refuses a missing entry or id with its message |
| EntityAnswers.OthersAreRefused | src/server/request_handlers/entity_handler.cc:126-131 | Every other method is answered with 400 and changes nothing |
| EntityHandlers.EntityHandler.HandleRequest | src/server/request_handlers/entity_handler.cc:42-155 | The method throws for a missing mutex, or waits when the mutex is held, with nothing changed, or changes the store and answers as the specification of one request says, with the mutex held around that and given back |
| EntityHandlers.EntityHandler.CreateReadUpdateDelete | src/server/request_handlers/entity_handler.cc:73-152 | The same for the critical section, which runs with the mutex held; errors of the store become responses |
| EntityHandlers.EntityHandler.constructor | src/server/request_handlers/entity_handler.cc:21-22 | One reference to the directory is inserted |
| EntityHandlers.EntityHandler.Create | src/server/request_handlers/entity_handler.cc:13-25 | A handler for the root argument with one reference inserted, or the exception when there is none, with the pool unchanged |
| EntityHandlers.EntityHandler.Destroy | src/server/request_handlers/entity_handler.cc:27-31 | The reference is erased, unless the directory is empty |
| EntityHandlers.PrintIds | src/server/request_handlers/entity_handler.cc:86-92 | The list of ids with a comma between neighbours and none at the end |
| Numbers.StoiToString | src/server/filesystem/mock_filesystem.cc:65-76 | Reading back a printed int gives the int |
| Numbers.StoiReads | src/server/filesystem/filesystem_interface.cc:27 | White space, a sign and digits read as the decimal number they write, whatever follows, if it is in the range of a 32-bit int |
| Numbers.StoulReads | src/server/session.cc:141 | The same for 64 bits, where a minus sign negates modulo 2^64 |
| Numbers.OthersAreInvalid | src/server/filesystem/mock_filesystem.cc:65-72 | Every other text is no number |
| Numbers.ToStringIsDecimal | src/server/filesystem/mock_filesystem.cc:76 | Numbers are printed in decimal without leading zeros, negative ones with a sign |
| Numbers.StoulToString | src/server/session.cc:141 | Reading back a printed length gives the length |
| Numbers.StoulIgnoresReturn | src/server/session.cc:139-141 | The carriage return at the end of a header line does not change the length read |
| ConfigRoundTrip.PrintParseIdentity | src/config/config_parser.cc:29-64 | For every tree and depth, parsing the printed form gives back the tree if and only if every statement has a token and every token is a bare word or a quoted string |
| ConfigTree.PrintedFile | src/config/config_parser.cc:29-64 | The printed text of a small file, character by character |
| ConfigTree.LayoutOfBlock | src/config/config_parser.cc:41-64 | The layout of statements and blocks at any depth |
| ConfigTree.IndentIs | src/config/config_parser.cc:43-45 | Two blanks for each level |
| ConfigRoundTrip.NormalForm | src/config/config_parser.cc:29-64 | Reprinting an accepted text keeps its tree, and a second print keeps the text |
| ConfigRoundTrip.ParsedIsPrintable | src/config/config_parser.cc:200-237 | Whatever is accepted has only lexable tokens and non-empty statements |
| ConfigRoundTrip.ReadConfig | src/config/config_parser.cc:29-172 | The lexer reads a printed tree as the tree's sentence, whatever text follows |
| ConfigRoundTrip.Concatenation | src/config/config_parser.cc:179-258 | Two accepted texts joined by a newline give the two trees in a row if and only if the first was not cut off inside a bare word |
| ConfigRoundTrip.LastWordIsDropped | src/config/config_parser.cc:166-171 | `a; b` is accepted as `a;` |
| ConfigRoundTrip.JoinTokens | src/config/config_parser.cc:155-171 | The tokens of joined texts are those of the first, with the word that was dropped, then those of the second |
| ConfigRoundTrip.ParseInTurn | src/config/config_parser.cc:179-258 | Parsing two texts in turn into one object gives the two trees in a row |
| ConfigParser.ParserIsGrammar | src/config/config_parser.cc:179-258 | The stack parser accepts exactly the sentences of `stmt* ` with `stmt = word+ (';' or '{' stmt* '}')`, and the tree built is the only derivation |
| ConfigParser.FeedSound | src/config/config_parser.cc:200-237 | Every transition keeps the stack's invariant and accounts for exactly the token it was given |
| ConfigParser.FeedSentence | src/config/config_parser.cc:200-237 | From any idle machine, the sentence of a tree adds exactly that tree to the innermost block |
| ConfigParser.SentenceInjective | src/config/config_parser.cc:179-258 | The grammar is unambiguous |
| ConfigParser.ParseIntoAppends | src/config/config_parser.cc:180-181 | Parsing into an object that holds statements appends what parsing afresh builds |
| ConfigParser.SalvagedIsPrefix | src/config/config_parser.cc:200-258 | What the object holds when the parser stops is what it held before and then whole well-formed statements, whose sentence is how the tokens of the text begin |
| ConfigLexer.LexerConserves | src/config/config_parser.cc:95-172 | The blanks, values and comment ends of all calls spell the input exactly, and n characters need at most n+1 calls |
| ConfigLexer.LexSpells | src/config/config_parser.cc:95-172 | The same for one call |
| ConfigLexer.Lex | src/config/config_parser.cc:95-172 | Every call that returns a token consumes at least one character despite the push-back |
| ConfigLexer.BlanksAreSkipped | src/config/config_parser.cc:127-131 | Blank, tab, line feed and carriage return in front of a token are skipped, and no other character is |
| ConfigLexer.BareWordEnds | src/config/config_parser.cc:132-162 | A bare word ends at the first blank, tab, line feed, `;`, `{` or `}`, which is left for the next call, and keeps carriage returns, quotes and number signs; at the end of the file it is dropped |
| ConfigLexer.CommentEnds | src/config/config_parser.cc:112-154 | A comment runs to the first line feed or carriage return |
| ConfigLexer.QuotedStringEnds | src/config/config_parser.cc:116-148 | A quoted string runs to the next quote of its kind, and is an error without one |
| ConfigLexer.PunctuationStandsAlone | src/config/config_parser.cc:106-126 | Braces and semicolons are tokens of their own |
| ConfigLexer.LexReadsBack | src/config/config_parser.cc:137-162 | A lexable word is read back whole when what follows cannot extend it |
| ConfigLexer.LexAppend | src/config/config_parser.cc:95-172 | Text behind a complete token is left for the next call |
| ConfigLexer.TokensLexable | src/config/config_parser.cc:95-172 | Every word that reaches the parser is a bare word or a quoted string |
| ConfigReader.ParseToken | src/config/config_parser.cc:95-172 | The lexer loop on the stream returns the lexeme of the unread text and leaves the stream behind it |
| ConfigObjects.Parse | src/config/config_parser.cc:179-258 | The in-place parser succeeds exactly when the value-level parser does, and then the object stands for its tree behind what it held before; after a failure it holds the statements finished until then and at most one that is not; the lexer is called at most n+1 times |
| ConfigObjects.Transition | src/config/config_parser.cc:200-237 | One token changes the objects and the stack as the machine says, or is a bad transition; the root is never popped |
| ConfigObjects.NginxConfig.ToString | src/config/config_parser.cc:29-35 | The printed form of the tree the object stands for |
| ConfigObjects.NginxConfigStatement.ToString | src/config/config_parser.cc:41-64 | The same for one statement, with indentation and child block |
| ConfigLoader.ParseConfig | src/server/startup_utils.cc:34-134 | From text to routing table: refused, thrown or loaded exactly as the specification of the table says |
| LoadedTables.TreeLoads | src/server/startup_utils.cc:48-133 | Statement by statement: the first port statement gives the port or throws; the file is refused exactly when a three-token location has a path in quotes, with a slash at its end, or used twice; otherwise the table has exactly the served paths with their handlers and arguments, or the echo handler at `/` |
| LoadedTables.NoPortIsRefused | src/server/startup_utils.cc:50-53 | A tree without a port statement is refused |
| LoadedTables.SmallFileLoads | src/server/startup_utils.cc:34-134 | A printed file with a port and one location loads as exactly that |
| ConfigLoader.LoadRoutes | src/server/startup_utils.cc:67-126 | Succeeds exactly when all three-token paths are distinct, unquoted and without trailing slash, and then there is one entry for each |
| ConfigLoader.BuildArguments | src/server/startup_utils.cc:100-122 | Each argument is the value of the first two-token statement for its key |
| ConfigLoader.UnrollOneLevel | src/server/startup_utils.cc:202-217 | Groups the statement objects by first token, in source order, losing none |
| ConfigLoader.ReprintedFileLoadsAlike | src/server/startup_utils.cc:34-134 | A file has one outcome, and reprinting it at any depth does not change that outcome |
| RouteTable.LoadResultDetermined | src/server/startup_utils.cc:50-133 | The outcome depends only on the first port statement and on the locations as a collection; a loaded table is never empty |
| RouteTable.GroupingIsStable | src/server/startup_utils.cc:202-217 | A statement stands in the group of its key behind exactly the earlier statements of that key |
| RouteTable.RoutesUnique | src/server/startup_utils.cc:66-126 | The routes are determined by the locations, in whatever order they are written |
| RouteTable.AcceptablePermuted | src/server/startup_utils.cc:83-98 | Whether a collection of locations is accepted does not depend on its order |
| Session.ChunkIndependence | src/server/session.cc:121-315 | While every read ends waiting, the events and the rest are those of one loop over the whole stream, however it was cut |
| Session.SplitsAgree | src/server/session.cc:121-315 | Two ways of cutting one stream give the same outcome |
| Session.WaitingUnlessOverflow | src/server/session.cc:106-120 | When the whole stream leaves the loop waiting, a run of reads does the same if and only if no read overflows the buffer |
| Session.SameUntilStop | src/server/session.cc:106-319 | Absent overflow, every way of reading a stream gives first the events of one loop over the whole stream, up to and with the first stop, and the first status that is not waiting is the loop's |
| Session.OverflowStops | src/server/session.cc:106-120 | A run that overflows gives the events of one loop over the bytes read so far and then the overflow |
| Session.DrainResumes | src/server/session.cc:124-315 | A loop that ended waiting goes on where it stopped when more bytes come |
| Session.DrainStands | src/server/session.cc:124-315 | A loop that ended otherwise does the same whatever comes behind |
| Session.DrainConserves | src/server/session.cc:166-170 | The texts cut off and the rest are the buffer: no byte is lost, invented or moved |
| Session.DrainIsFaithful | src/server/session.cc:124-173 | Each dispatched text is a whole frame and its event is what reading that text gives; each pass that goes on removes at least four bytes |
| Session.BufferBound | src/server/session.cc:106-170 | After any reads the buffer and every dispatched request, head and body, have at most 8192 bytes |
| Session.ReadIsRefused | src/server/session.cc:106-120 | A read is refused, before its bytes are looked at, exactly when it would take the buffer over 8192 bytes |
| RequestDecisions.LengthDecides | src/server/session.cc:133-163 | Behind a printed head: an unreadable length throws, one over 1048576 is answered with 413 and stays in the buffer, and with any other the loop waits for exactly that many bytes |
| RequestDecisions.OtherVersionsAreRefused | src/server/session.cc:209-234 | A complete request with any version but HTTP/1.1 is answered with 400, and the loop stops behind it |
| RequestDecisions.RequestsAreDispatched | src/server/session.cc:246-315 | One with HTTP/1.1 is handed to the route of its path; the loop stops behind it exactly when its header `Connection` is `close` |
| RequestDecisions.ShortLinesAreRefused | src/server/session.cc:175-207 | A first line of one or two words with nothing behind it is answered with 400, and the loop stops behind it |
| Session.HttpSession.HandleRead | src/server/session.cc:95-319 | The loop on the object's buffer gives the events, the rest and the status of the specification and keeps the buffer within its limit |
| Session.NextFrame | src/server/session.cc:124-164 | Finds the frame at the front of the buffer |
| Session.ReadEvent | src/server/session.cc:173-278 | Parses, validates and routes one request |
| Framing.FrameStable | src/server/session.cc:124-163 | More bytes do not change a framing decision that was taken |
| Framing.SizeFits | src/server/session.cc:161 | The computed size cannot overflow |
| Framing.ContentLength | src/server/session.cc:133-158 | The scan over the head returns the last length, or the first unreadable or excessive one |
| RequestReader.ParseRequest | src/server/session.cc:54-89 | The parser on its stream gives the request of the specification |
| RequestReader.StoreHeader | src/server/session.cc:66-80 | One header line is split, trimmed and stored, or ignored without a colon |
| RequestReader.HeaderLineIsStored | src/server/session.cc:66-80 | A line is split at its first colon; blanks and tabs in front of the value and one carriage return at its end go, nothing else; a line without a colon is ignored |
| RequestReader.WordIsExtracted | src/server/session.cc:59 | A word is what stands between white space, and the white space behind it is left |
| RequestRoundTrip.PrintFrameParse | src/server/session.cc:124-173 | Any list of well-formed requests, printed one behind the other, is dispatched as exactly that list with nothing left over |
| RequestRoundTrip.PrintedRequestsArrive | src/server/session.cc:106-315 | The same through any reads that do not overflow the buffer |
| RequestSplits.NoSplitOverflows | src/server/session.cc:106-160 | For every stream: no way of reading it, at most 1024 bytes at a time, overflows the buffer before the loop stops, if and only if for each request up to the stop the decision on it takes at most 7169 bytes, or the stream from it on has at most 8192 |
| RequestSplits.ReadAnyWay | src/server/session.cc:106-319 | Then every way of reading the stream gives what one loop over it gives, up to the first stop, and in all if there is none |
| RequestSplits.UndecidedBefore | src/server/session.cc:124-164 | A front part of the stream is taken for incomplete exactly as long as it is shorter than the decision takes |
| RequestSplits.NoSplitOfRequestsOverflows | src/server/session.cc:106-120 | For printed requests the condition is that each has at most 7169 bytes, or the stream from it on has at most 8192 |
| RequestSplits.RequestsArriveHoweverRead | src/server/session.cc:106-315 | Such a stream of printed requests is dispatched as exactly its requests, with nothing left over, whatever the reads |
| RequestSplits.SomeSplitOverflows | src/server/session.h:29-34 | A stream that does not meet the condition has a way of being read that overflows |
| RequestRoundTrip.FrameOfMessage | src/server/session.cc:124-164 | The frame of a printed message is the whole message |
| RequestRoundTrip.ParseOfRequestText | src/server/session.cc:54-89 | Parsing what the echo handler prints gives the request back |
| HeadLines.ReadPrintedHeaders | src/server/session.cc:65-86 | The header map and the body are read back from the printed lines |
| HeadLines.ScanPrintedLines | src/server/session.cc:133-158 | The scan finds the value of the length header among printed lines, and nothing else |
| HeadLines.HeadEnd | src/server/session.cc:125 | The first blank line of a printed message is its own |
| TwoReaders.TwoReadersAgreeExactly | src/server/session.cc:54-164 | For every whole frame, the parsed body starts at the end of the head and has the length that the map keeps, if and only if: from where the parser begins with the headers to the end of the head no line is a carriage return only, and the last length line there announces the length of the body, or there is none and no body; or the parser begins behind the head and there is no body |
| TwoReaders.ThreeWordsAgreeExactly | src/server/session.cc:54-164 | If the first line has three words the headers begin behind it, and the condition is that no later line is a carriage return only, and that a length taken from the first line is replaced by a later length line or is zero |
| TwoReaders.TwoReadersAgree | src/server/session.cc:54-89 | In particular this holds when the head has no bare line feed and the first line is no length line |
| TwoReaders.ParserStopsAtReturn | src/server/session.cc:65-86 | The parser stops no later than at the first line that is a carriage return only, wherever the head ends |
| TwoReaders.MapKeepsLast | src/server/session.cc:65-81 | The header map keeps the reading of the last length line in front of a line with a carriage return only, or no length |
| TwoReaders.ScanFindsLast | src/server/session.cc:133-158 | A length that the scan finds is that of the last length line too, or the one it started with |
| TwoReaders.ReadersInStep | src/server/session.cc:65-81 | Read from one place, with no length in front, the two agree |
| TwoReaders.BehindIsSuffix | src/server/session.cc:59-63 | The header lines begin behind a line feed of the text, unless nothing is left |
| TwoReaders.ParserStopsAtHead | src/server/session.cc:65-86 | From a line start of the head with no such line in between, the parser stops exactly behind the head |
| TwoReaders.BareFeedSplitsReaders | src/server/session.cc:61-86 | A bare line feed behind the request line makes the parser find a body in a frame that has none |
| TwoReaders.BlankFirstLineSplitsReaders | src/server/session.cc:59-143 | For every printed request behind a blank line the frame ends with the head, the parser keeps the headers without the body, and the two agree exactly when the length header is absent or zero |
| PrefixRouter.MatchIsSegmentPrefix | src/server/session.cc:346-355 | A route other than `/` matches if and only if its segments are the first segments of the path |
| PrefixRouter.MatchMeans | src/server/session.cc:346-355 | A route matches itself, every path that goes on behind it with a slash, and, if it is `/`, everything |
| PrefixRouter.MatchIsPrefixOfSegments | src/server/session.cc:346-355 | For a path with a leading slash the route `/` is no exception |
| PrefixRouter.MatchesAreNested | src/server/session.cc:346-355 | The routes that match one path form a chain |
| PrefixRouter.BestPrefixIsMostSpecific | src/server/session.cc:246-252 | The route chosen extends every other match and has strictly more segments |
| PrefixRouter.OrderMattersInTiesOnly | src/server/session.cc:246-252 | The choice is the same for every order of the table if and only if there is no tie of `/` with a one-character match |
| PrefixRouter.BestPrefixIgnoresOrder | src/server/session.cc:246-252 | Without a tie, two orders of one table give the same choice |
| PrefixRouter.BestPrefixIsLongest | src/server/session.cc:246-252 | The choice is a longest match in the table, and there is none exactly when nothing matches |
| PrefixRouter.RootBeatsExactRoute | src/server/session.cc:246-252 | In the order of `std::map`, `/` is chosen over another non-empty match if and only if there is a tie and the path begins with a character behind the slash |
| PrefixRouter.ExactRouteLoses | src/server/session.cc:246-252 | With the routes `/` and `x`, the path `x` is served by `/` |
| PrefixRouter.BestPrefixHasMostSegments | src/server/session.cc:246-252 | For every table and path the choice has as many segments as any other match, and is the only one with so many if and only if `/` and the first piece of the path are not both routes with nothing more specific matching |
| Session.RouteHasMostSegments | src/server/session.cc:246-252 | The same for the routing table of a session; there is no route exactly when nothing matches |
| PrefixRouter.FindBestPrefix | src/server/session.cc:246-252 | The loop computes that choice |
| Responses.ResponsesArrive | src/server/request_handlers/request_handler.cc:14-60 | Cutting a stream of printed responses by header lines and Content-Length returns each header map and body, with nothing left over |
| Responses.StatusTextTellsStatus | src/server/request_handlers/request_handler.cc:19-37 | Two statuses are printed alike if and only if they are the same or are 413 and 500 |
| Responses.ResponseBegins | src/server/request_handlers/request_handler.cc:18-38 | The first line of a response is the one of its status, word by word |
| Responses.StatusIsRead | src/server/request_handlers/request_handler.cc:18-38 | The number behind the protocol reads as the number of the status, or as 500 for 413 |
| Responses.SessionAnswers | src/server/session.cc:145-284 | The session's own answers, and the Connection header that it adds, word by word |
| Responses.EchoAnswers | src/server/request_handlers/echo_handler.cc:22-50 | The echo handler answers a GET with a text that reads as the request, and refuses every other method with an empty body |
| Responses.ResponseTextTellsResponse | src/server/request_handlers/request_handler.cc:14-60 | Two delimited responses are printed alike if and only if headers, bodies and statuses agree, up to 413 and 500 |
| Responses.RepliesArrive | src/server/session.cc:106-287 | For any events of a session and any delimited answers of its handlers, the texts handed to the socket, put in a row, are read as one response for each event |
| Responses.EntityResponseDelimited | src/server/request_handlers/entity_handler.cc:73-152 | Every answer of the entity handler, errors included, tells the length of its body |
| Responses.SessionRepliesDelimited | src/server/session.cc:176-284 | So do the session's own answers and the echo handler's, with the Connection header added |
| Responses.OverflowArrives | src/server/session.cc:109-113 | The literal answer to an overflow is read as a response with an empty body |
| Responses.Echo | src/server/request_handlers/echo_handler.cc:22-50 | The echo handler's answer: the request as text, or 400 for another method |
| Http.EchoText | src/server/request_handlers/echo_handler.cc:38-45 | The request text is rebuilt with its headers in map order |
| Http.MessageOfFew | src/server/request_handlers/request_handler.cc:40-46 | Header lines as they are printed: name, colon, blank, value, line break; a blank line in front of the body |
| Http.RequestLineLeft | src/server/request_handlers/echo_handler.cc:39 | The words of a request line stand one blank apart |
| Http.ResponseToString | src/server/request_handlers/request_handler.cc:14-60 | The status line, the headers in map order, a blank line and the body; 413 is printed as 500 |

## Left out

- Sockets, the accept loop, signals, threads and the deletion of sessions: library behaviour. No
  claim is made about the number of outstanding reads and writes, and pipelined responses overwrite
  the buffer of an unfinished write in the original.
- `RealFilesystem`, and two directory strings that name one directory: the store is the in-memory
  one, and distinct keys are distinct stores. Its 500 response for file errors is therefore never
  produced.
- Handlers for static files, sleeping, health and not-found, the MIME table and the registry: a
  route is chosen, and what the chosen handler answers is modelled for the echo and the entity
  handler only.
- Logging, metrics, `parse_arguments`, `TokenTypeAsString`, and `set_request`, which bypasses the
  buffer limit.
- Opening the configuration file: a file that cannot be opened is refused like one that cannot be
  parsed.
- EntityHandlers.EntityHandler.HandleRequest: returns where the original waits for the mutex. Going on
  after the wait is in `EntityProtocol`, where store access is atomic.
- EntityProtocol.AlwaysInv: the reference count is an unbounded integer, so that the overflow of a
  32-bit count is not captured.
- EntityStore.NextIdIsFresh: the undefined addition to the greatest int is taken to wrap around.
- EntityStore.MockFilesystem.Read: the name in an error message joins its parts with one slash, as
  the path library does for plain names; other normalisation is not modelled.
- Session.HttpSession.HandleRead: returns events in place of writing responses, and an exception of
  a handler or of its constructor does not end the loop, as handlers are not called from it.
- Session.SameUntilStop: says nothing about the events behind the first stop. After a 400, a 413 or a
  close the original goes on reading when the response is written; `Session.Reads` models that, but
  only the bounds are claimed about it. An exception ends the list of reads in the model, whereas in
  the original the write of an earlier response of the same call may still arm one more.
- Responses.EntityResponseDelimited: for bodies whose size fits in `size_t`, as all do.
- Responses.RepliesArrive: is about the texts in the order in which they are handed to the socket, not
  about whether an earlier one is written whole before a later one takes its place.
- Responses.ResponsesArrive: the status is compared as printed, as 413 and 500 share a line.
