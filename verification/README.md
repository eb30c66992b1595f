# Verified model of the web server's core

A Dafny model of a small C++ web server, written file by file after the classes it models: the
configuration parser and loader, the assembly of requests on a connection, request and response
texts, the router, the CRUD handler over the in-memory store, and the path arithmetic of the static
file handler. Code that works by updating objects is modelled by classes and loops, each proved
against a function of the old state; the laws are then proved about those functions.

Check everything with `dafny verify dfyconfig.toml`.

## How the project is laid out

| files | what they model |
|---|---|
| `Folding` | functions that proofs look into only where they say so |
| `Text`, `Numbers`, `Ordering`, `Streams`, `Maps` | the parts of the standard library the server is written with: searching, splitting and `getline`, `to_string`/`stoi`/`stoull`, `std::string` order, `sort` and the walk over a `std::map`, an input stream |
| `ConfigLexer`, `ConfigGrammar`, `ConfigText`, `ConfigParser` | tokens; the grammar and the stack machine over tokens; parsing and printing as functions of the text; the parser and the printer over linked objects |
| `ServerConfig` | from the configuration tree to a port and a route table |
| `HttpText`, `HttpRequest`, `HttpRequestLaws`, `HttpResponse` | the line structure of messages, parsing requests, printing responses |
| `Handlers`, `Session`, `SessionLaws` | the router with the handlers it makes over the one store; one connection as a machine over callbacks, and its runs |
| `Store`, `Json`, `CrudPath`, `CrudHandler`, `CrudRuns`, `CrudLists` | the nested store and the id allocator, the JSON field search, CRUD paths, the handler, and whole histories of requests |
| `PathRouter`, `FilePaths` | longest-prefix routing, `sanitize_path` |
| `World`, `EndToEnd`, `ServerAnswers` | the whole server: connections, callbacks in any order, and the shared store; messages through session, router, handler and store; what a client reads from the answers |
| `Example` | a server and two messages to it, on which a posted line feed is lost |

## Main results

* **Configuration.** The stack parser, run on linked objects, accepts a text exactly when its tokens
  are derived by `config := statement*`, `statement := token+ (";" | "{" config "}")`, and the tree it
  builds in place is that derivation. A tree survives printing and parsing if and only if every
  statement in it has tokens and every token is lexically valid; what the parser builds always is of
  that form, so parsing normalises. Comments reach just to the end of their lines. A configuration loads if and only
  if its first server block has ports that convert, the last of them positive, and a route. From any positive port and non-empty route table of valid tokens to
  text and back is the identity.
* **Connection.** In every run at most one operation is pending, the buffer is empty or waits for body
  bytes, no byte is lost, and a handler sees just the complete valid requests. A well-framed message gives
  the same single answer however it is cut into reads, if and only if the first read holds its head.
  This holds while the handlers change their state between callbacks.
* **CRUD.** The nested store behaves as a flat map. Over every history of requests a GET reads the last
  payload written, ids are canonical decimals no greater than the peak number of live entities, live
  entities are the 201 answers less the successful DELETEs, and a list reads back as just the ids that
  pass the filters, in increasing order.
* **Together.** The server is a machine in which callbacks on any number of connections occur in any order, and
  each dispatched request changes the one store. In every run, with arbitrary bytes and failures, the store is
  the result of the history of CRUD requests in the order of their dispatch, and every answer is the response
  that the history before it determines. So all that is proved about histories holds of what travels over the
  wire. A client that sends printed messages, in whatever chunks behind their heads, is answered message by
  message and never gets stuck, whatever happens on other connections. Each answer decodes to its response, and
  all that is sent on a connection splits back into its responses by their lengths.
* **Texts.** Requests, responses, CRUD paths with queries and lists are printed and read back exactly. What the
  code's search in JSON finds is stated for every flat object of quote-free strings, numbers and bare words, with
  any blanks around colons, commas and braces, carriage returns included; with the exact condition under which it
  is a lookup, and inputs of both kinds on which it is not.

## Reading the model

* Characters stand for bytes. A C++ exception that leaves a function is an `Option` or a `Conversion` result.
* A callback of the session and a call of `handle_request` is one step. An asynchronous operation is an
  entry in a log; its buffer is the text handed over at that time. For a write the code does not ensure this: it
  hands over a local string that ends with the callback (`src/session.cc:47-53`, `src/session.cc:177-183`), and the
  model assumes that its bytes are what is sent.
* The laws of one connection hold for handlers that may answer differently at each callback. Verdicts on the
  buffer enter them as arbitrary functions (`Judging`), and what handlers do to the store enters the laws of the
  server as an arbitrary function (`Serving`); the code's own are put in at the end.
* Functions defined by `Folded` (module `Folding`) equal the function folded everywhere; proofs learn so only where
  they call `Unfold`, or a lemma such as `WireIsText` or `JudgingIsJudge` that does.
* The functions share helpers and classes of characters. The lemmas whose names end in `Exactly` or `OnWire` say what
  they give by the characters of the input and of the output alone, and for all inputs.
* Hash maps and the route table are visited in any order.
* Some methods of the source are cut into smaller ones; each names the lines it stands for.
* `ghost` parameters of the parser's methods (`Shadow`, `objs`) say what tree the objects stand for.

### Where code and documentation differ

* `Parse` returns true although a bare token that is cut off by the end of the text is dropped without a
  word (`src/config_parser.cc:142-148`). `ConfigText.WordIsLost` says for every text when that happens, and
  that the same text with a line feed behind it is then rejected.
* The comment at `src/session.cc:68` accepts an empty line of bare line feeds, and `src/session.cc:194-204`
  reads on without one; both are unreachable, because `src/session.cc:39-66` answers 400 before
  (`SessionLaws.CheckedIsDetected`, `SessionLaws.WholeHeadIsNeeded`).
* Bytes of a second message in the same read are not kept for it; they become body of the first
  (`SessionLaws.SurplusIsSwallowed`), whose request is its own only if there are none, or a line feed that is
  dropped again (`SessionLaws.SurplusJoinsAnyBody`).
* The repository's README promises the stored entity back; what is stored is the body without one final line feed
  (`src/http_request.cc:59-62`). So it comes back if and only if it does not end in one (`EndToEnd.PostThenGet`);
  `Example.LineFeedIsLost` is a run in which it does not.
* `extract_json_field` takes a value that equals the field's name for the field (`Json.ValueMisleads`), and does
  not skip a carriage return behind a colon, which JSON allows there (`Json.CarriageReturnHides`); just when it is
  right is `Json.ExtractIsLookupIff`.

## Model

| member | source | states |
|---|---|---|
| ConfigLexer.ParseToken | src/config_parser.cc:67-149 | on any stream the character loop with one character of pushback returns kind and text of the maximal lexeme where reading goes on, and stops exactly behind it; errors, the end of the text and streams that are not good included |
| ConfigLexer.NextLexeme | src/config_parser.cc:67-149 | a lexeme lies inside the text and, unless it is the end of the text, takes at least one character, an error too, so lexing makes progress |
| ConfigLexer.NextLexemeExactly | src/config_parser.cc:67-149 | the lexeme found is the one that the characters of the text make: blanks are skipped, `#` reaches to the end of its line, a quotation mark to the next of its kind, a bare token to a blank, `;`, a brace or, in error, a quotation mark |
| ConfigGrammar.StepConsumes | src/config_parser.cc:173-212 | one accepted transition of the stack machine adds exactly its token to what the stack stands for and keeps the open statements non-empty |
| ConfigGrammar.RunConsumes | src/config_parser.cc:156-235 | in every accepted run the stack stands for exactly the tokens read |
| ConfigGrammar.RunYield | src/config_parser.cc:156-235 | on the tokens of any derivation the machine, from any state between statements, finishes exactly that forest |
| ConfigGrammar.MachineIsGrammar | src/config_parser.cc:156-235 | the machine accepts a token sequence with tree c if and only if c is a derivation and the sequence is its yield |
| ConfigGrammar.GrammarUnambiguous | src/config_parser.cc:156-235 | two derivations of one token sequence are the same tree |
| ConfigText.ParseIsGrammar | src/config_parser.cc:151-236 | a text parses to c if and only if its comment-free tokens reach end of file without error and are the yield of the derivation c |
| ConfigText.ParseExactly | src/config_parser.cc:151-236 | cut up by its characters into lexemes up to its end or an error, a text parses to c if and only if there is no error and its tokens are the yield of the derivation c |
| ConfigText.ReadsComment | src/config_parser.cc:121-126 | wherever it stands, a comment of any characters but line feed and carriage return is read up to the first of these, as no token |
| ConfigText.CommentIsLeftOut | src/config_parser.cc:164-170 | a comment line put between printed statements leaves the parsed tree as it is |
| ConfigText.TokensAreThese | src/config_parser.cc:87-149 | the tokens the round trip is exact for: bare ones without blanks, `;`, braces and quotation marks that begin with neither `#` nor carriage return, and quoted ones without their quotation mark inside |
| ConfigText.PrintedLines | src/config_parser.cc:28-51 | a statement is printed with two blanks for each open block, its tokens between single blanks, and `;` or its block between braces, each on lines of their own |
| ConfigParser.Transition | src/config_parser.cc:173-216 | one token on the heap: the legality test, the in-place update of the tree, and `open_block` against the stack size agree with the pure machine; the frame is the parser's own objects |
| ConfigParser.PushToken | src/config_parser.cc:176-185 | a word starts or extends the statement on the top node, in place |
| ConfigParser.FinishStatement | src/config_parser.cc:186-194 | at a semicolon the objects already built are the finished statement |
| ConfigParser.PushBlock | src/config_parser.cc:195-203 | an opening brace hangs a fresh node below the open statement, whose existence the code relies on, and makes it the top |
| ConfigParser.FinishBlock | src/config_parser.cc:204-212 | at a closing brace the popped node is the finished block of the statement below |
| ConfigParser.ReadToken | src/config_parser.cc:156-172 | reading a token leaves the tree alone, advances the stream unless the text is at its end, and moves the outcome one token on |
| ConfigParser.Parse | src/config_parser.cc:151-236 | for every stream, good or not: true exactly when what can still be read parses, and then the statements appended to the node represent the parsed tree; the loop ends because each token takes net input |
| ConfigParser.NginxConfig.ToString | src/config_parser.cc:20-26 | on any represented tree, at any depth, the recursion over the objects yields the printed text of the value |
| ConfigParser.NginxConfigStatement.ToString | src/config_parser.cc:28-51 | likewise for one statement: indentation, tokens joined by blanks, semicolon or braced block |
| ConfigText.ReadsPrinted | src/config_parser.cc:20-51 | in any surrounding text, printed statements lex to exactly their yield |
| ConfigText.ParseOfPrinted | src/config_parser.cc:20-51 | print then parse is the identity for printable trees at any depth, even with a dropped bare tail |
| ConfigText.RoundTripExactly | src/config_parser.cc:20-51 | a tree comes back from its print if and only if all its statements have tokens and all tokens are lexically valid |
| ConfigText.ParsedIsPrintable | src/config_parser.cc:173-203 | every tree the parser builds meets the printer's condition |
| ConfigText.ParseNormalises | src/config_parser.cc:28-236 | parse, print, parse equals parse |
| ConfigText.WordIsLost | src/config_parser.cc:142-148 | for every text: the text with a line feed behind it parses as without, unless the text is accepted and ends in an open word, and then it is rejected |
| ConfigParser.PrintThenParse | src/config_parser.cc:20-236 | printing linked objects and parsing the text into a new node gives fresh objects for the same tree, if the tree is printable |
| ConfigText.PrintInjective | src/config_parser.cc:20-51 | equal prints, at whatever depths, come from equal trees |
| ServerConfig.ParseHandlerConfig | src/server_config.cc:43-62 | the loop over a block's objects yields type and settings of the value it represents |
| ServerConfig.ServerConfig.LoadFromNginxConfig | src/server_config.cc:6-42 | loading from the objects gives result, port and routes of the loading function, which `LoadsExactly` characterises |
| ServerConfig.ServerConfig.LoadServerStatement | src/server_config.cc:15-33 | one statement of the block sets port or route in place, or reports an invalid port |
| ServerConfig.ServerConfig.LoadServerBlock | src/server_config.cc:12-36 | the loop over the server block does the same for its statements |
| ServerConfig.LoadsExactly | src/server_config.cc:6-42 | for every readable tree: loading answers true if and only if there is a first `server` with a block, in which every `listen` with a value converts, the last of these ports, or without one the initial port, is positive, and there is a `location` with a path and a block, or there were routes; the port is then the last one, and each route that of its last location |
| ServerConfig.FirstBadPort | src/server_config.cc:15-24 | at the first port that does not convert loading fails, with port and routes as the statements in front of it set them |
| ServerConfig.HandlerExactly | src/server_config.cc:43-62 | type and settings of a handler are the second tokens of the last statements with these keys |
| ServerConfig.ParsedIsReadable | src/server_config.cc:10-16 | on every parsed tree the unguarded reads of `tokens_[0]` are defined |
| ServerConfig.HandlerRoundTrip | src/server_config.cc:43-62 | a handler configuration is read back from the block written from it |
| ServerConfig.LoadServerTree | src/server_config.cc:6-42 | a server block written from any positive int port and non-empty route table loads to just these |
| ServerConfig.TextToRoutes | src/server_config.cc:6-62 | the same through text: built, printed at any depth, parsed and loaded |
| HttpRequest.HttpRequest.Parse | src/http_request.cc:7-67 | parsing with streams and loops gives the request the parsing function gives, for every text, malformed ones included |
| HttpRequest.HttpRequest.ParseHeaders | src/http_request.cc:28-50 | the header loop stops at the first empty line or the end, and leaves the rest of the stream for the body |
| HttpRequest.HttpRequest.ParseBody | src/http_request.cc:53-64 | reading line by line and putting line feeds back yields the rest less one final line feed |
| HttpRequest.HttpRequest.ParsePathAndQuery | src/http_request.cc:164-186 | base path and parameters, added to those already there |
| HttpRequest.LinesAgainText | src/http_request.cc:53-57 | the lines of a text, each with a line feed behind it, are the text with a final line feed |
| Streams.WordExactly | src/http_request.cc:12-19 | the word read from a stream is the first run of characters that are none of the six blanks of the C locale |
| HttpRequestLaws.TrimSplits | src/http_request.cc:147-155 | trimming takes only blanks away, at both ends, and leaves none there |
| HttpRequestLaws.TrimExactly | src/http_request.cc:147-155 | the trimmed text is the only one that stands between blanks, tabs, carriage returns and line feeds and has none of them at its ends |
| HttpRequestLaws.HeaderFound | src/http_request.cc:69-77 | a header is found if and only if some name has the given one's length and its characters, or these as capital or small letters, and of those names the first in the order of the map gives its value |
| HttpRequestLaws.PlainLengthIsFound | src/session.cc:75-79 | among header fields in which each Content-Length up to case is spelled so and has the same decimal, the length is found |
| HttpRequestLaws.ReadHeaderLines | src/http_request.cc:28-50 | printed header fields read back, trimmed, the last of equal names winning, on top of any earlier fields |
| HttpRequestLaws.HeadersExactly | src/http_request.cc:28-50 | of any lines in front of the empty one, each with a colon sets the name in front of its first colon to the trimmed text behind it, the last such line counts, and lines without a colon set nothing |
| HttpRequestLaws.ParamsExactly | src/http_request.cc:175-185 | of the pieces of any query, each with an equals sign sets the key in front of its first one to the text behind it, the last counts, and pieces without one set nothing |
| HttpRequestLaws.ParsedFields | src/http_request.cc:9-22 | verb, path and version are the first three words of any text; of a text with fewer nothing is taken |
| HttpRequestLaws.AnyLinesParsed | src/http_request.cc:7-67 | words, header fields, parameters and body of a message of three words and any lines, without reference to how it was printed |
| HttpRequestLaws.ValidExactly | src/http_request.cc:88-126 | a text is a valid request if and only if its first three words are GET, POST, PUT or DELETE, a path that begins with a slash, and HTTP/1.1, and CRLFCRLF occurs in it |
| HttpRequestLaws.ParseOfRequestText | src/http_request.cc:7-67 | parsing inverts a message printed in the form of section 2.1 of RFC 9112: words, trimmed header fields with the last duplicate winning, body less one final LF, query |
| HttpRequestLaws.HeadDecides | src/http_request.cc:7-67 | bytes appended behind a complete head change neither words nor header fields nor parameters |
| HttpResponse.HttpResponse.constructor | src/http_response.cc:7-12 | Content-Length is the body's length, whatever the caller's map says |
| HttpResponse.HttpResponse.SetMessageBody | src/http_response.cc:32-37 | a new body renews Content-Length |
| HttpResponse.HttpResponse.ConvertToString | src/http_response.cc:65-85 | the appending loop over the header map yields the message text with the fields in name order |
| HttpResponse.WireFraming | src/http_response.cc:7-85 | without CR and LF in version, reason and fields, the first CRLFCRLF separates head and body, whatever the body, and Content-Length decodes to the body's length (section 6.2 of RFC 9112) |
| HttpResponse.DecodeOfWire | src/http_response.cc:65-85 | an independent decoder gives back the response from its wire text |
| HttpResponse.WireInjective | src/http_response.cc:65-85 | equal wire texts come from equal responses |
| HttpResponse.ReadAll | src/http_response.cc:7-85 | the wire texts of constructor-built responses, one behind the other, split back into just these by CRLFCRLF and Content-Length (section 6.3 of RFC 9112) |
| Handlers.Handlers.HandleRequest | src/path_router.cc:11-32 | matching the route, making the handler and handling the request, with the shared store changed in place, is the handling function of routes, store and request |
| Handlers.ServedByRoute | src/path_router.cc:11-32 | a request goes to the CRUD handler with the route as prefix if and only if its route is of type CrudHandler; any other leaves the store alone |
| Session.Session.Start | src/session.cc:21-28 | starting issues one read |
| Session.Session.HandleRead | src/session.cc:30-207 | a read callback does what the step function says with the verdict on the grown buffer: read on, or write one answer and clear; the store is changed by the request it dispatched, and not otherwise |
| Session.Session.HandleLength | src/session.cc:76-129 | the 400 for an unreadable length, and else the wait or the dispatch |
| Session.Session.AwaitBody | src/session.cc:107-129 | the wait for body bytes, with a difference of lengths that never is negative |
| Session.Session.HandleDispatch | src/session.cc:131-194 | invalid requests are answered 400, missing handlers 404, all others by the handler, whose effect on the shared store is the only one |
| Session.Session.HandleWrite | src/session.cc:209-220 | a write callback issues the next read unless it failed |
| SessionLaws.RunKeeps | src/session.cc:21-220 | for any verdicts on the buffer, changing with time, every run keeps the shape of the state and all bytes received |
| SessionLaws.EveryRun | src/session.cc:21-220 | in every run, whatever the handlers answer at each time, at most one operation is pending, the buffer is empty or holds a complete head and fewer body bytes than announced, and consumed buffers in order followed by the buffer are the bytes received |
| SessionLaws.EveryAnswer | src/session.cc:36-194 | in every run a request is dispatched if and only if its bytes are all there and it is valid, it is the parse of what its answer consumes, it is answered by the handlers as they are at the callback that wrote the answer, and any other answer is a 400 |
| SessionLaws.FailureIsLast | src/session.cc:205-220 | in every run a failed read or write is the last callback: nothing is pending any more |
| SessionLaws.CheckedIsDetected | src/http_helper.cc:4-16 | what the check and the detection say of a buffer, by what occurs in it; a buffer that passes the check is always detected, so the branch that reads on is dead |
| SessionLaws.JudgePrefix | src/session.cc:71-129 | every part of a well-framed message that has the whole head is read on, and parsing it again sees the same head |
| SessionLaws.FragmentsLikeWhole | src/session.cc:30-207 | any split into non-empty chunks whose first holds the head: reads up to the last chunk, then one dispatch on the identical whole request (section 6.2 of RFC 9112) |
| SessionLaws.SplitHeadIsRejected | src/session.cc:39-66 | a first chunk that ends inside the head is answered 400 at once |
| SessionLaws.WholeHeadIsNeeded | src/session.cc:39-66 | the chunks of a well-framed message can all be read if and only if the first holds the whole head |
| SessionLaws.PrintedIsWellFramed | src/session.cc:75-116 | a printed message with the decimal length of its body as Content-Length is well framed |
| SessionLaws.ConversationAnswers | src/session.cc:21-220 | a client that sends its next message when the last is answered gets one answer for each, in order, and the session ends up waiting with an empty buffer |
| SessionLaws.SurplusIsSwallowed | src/session.cc:107-129 | bytes behind a well-framed message are dispatched with it in one request with the same head |
| SessionLaws.SurplusJoinsAnyBody | src/http_request.cc:52-64 | bytes behind any message with a complete head, malformed header lines included, leave its head alone and join its body, and the request is the message's own if and only if there are none, or one line feed behind a body that does not end in one |
| SessionLaws.SurplusJoinsBody | src/http_request.cc:52-64 | the same for printed messages, in terms of the body that was printed |
| SessionLaws.RunIsConversation | src/session.cc:21-220 | a run whose callbacks are those of messages being sent is a conversation of them, whatever verdicts change in between |
| Store.MockFilesystem.EntityExists | src/mock_filesystem.cc:11-17 | membership of the pair in the flat map |
| Store.MockFilesystem.WriteEntity | src/mock_filesystem.cc:19-23 | writes just that pair of the flat map |
| Store.MockFilesystem.ReadEntity | src/mock_filesystem.cc:25-37 | the payload of the pair, or the error |
| Store.MockFilesystem.DeleteEntity | src/mock_filesystem.cc:39-61 | removes just that pair and says whether it was there |
| Store.MockFilesystem.ListEntityIds | src/mock_filesystem.cc:63-76 | each id of the type once, in an order left open |
| Store.MockFilesystem.NextEntityId | src/mock_filesystem.cc:78-117 | collecting used numbers and counting up gives the allocator's function of the set of ids |
| Store.MockFilesystem.Reset | src/mock_filesystem.cc:119-122 | the store is empty |
| Store.FlattenWrite | src/mock_filesystem.cc:19-23 | writing into the map of maps is writing one pair of the flat map |
| Store.FlattenErase | src/mock_filesystem.cc:39-61 | erasing likewise |
| Store.EmptiedTypeIsAbsent | src/mock_filesystem.cc:11-76 | a type without entities is indistinguishable from one that never had any |
| Store.NextIdNumber | src/mock_filesystem.cc:78-117 | the number found is the least positive int no id converts to, at most one above the number of ids, and its text is no id |
| Store.NextIdIsLeast | src/mock_filesystem.cc:78-117 | such an id is given unless, and the error is raised exactly when, every positive int is taken, for arbitrary string ids |
| Numbers.StoiOfToString | src/mock_filesystem.cc:85-103 | `stoi` inverts `to_string` on every int |
| Numbers.StoiExactly | src/mock_filesystem.cc:85-103 | `stoi` succeeds on just the texts that begin, behind blanks, with an optional sign and digits of an int, with that int; without digits there is no conversion, and beyond the ints none either |
| Numbers.StoullExactly | src/session.cc:76-103 | `stoull` likewise up to 2 to the 64th, where a minus sign wraps around |
| Json.ExtractField | src/crud_handler.cc:387-415 | the searches with their early returns find what the function says |
| Json.ExtractExactly | src/crud_handler.cc:387-415 | in any text at all the search finds the first string behind the first colon behind the first occurrence of the field in quotation marks, with blanks, tabs and line feeds alone in between, and nothing if there is none |
| Json.ExtractIsHit | src/crud_handler.cc:387-415 | what the search finds in any flat object of quote-free strings and bare words, with any text without quotation marks and colons around colons, commas and braces, so all the blanks of JSON: the first string equal to the field decides, behind a key what is read of its value, and behind a value what follows it |
| Json.ExtractIsLookup | src/crud_handler.cc:387-415 | when no value equals the field, it is the first matching key's value if the search skips what stands between colon and value, and empty if not; so it is the lookup if and only if that is skipped or the value is empty |
| Json.ExtractIsLookupIff | src/crud_handler.cc:387-415 | exactly when it is the lookup, for all such objects: when the key comes first, if what stands in front of its value is skipped or the value is empty; else if what is taken behind the misleading value is what is looked for |
| Json.ValueMisleads | src/crud_handler.cc:387-415 | an object in which a value equal to the field makes the search wrong |
| Json.CarriageReturnHides | src/crud_handler.cc:403-406 | an object in which a carriage return behind the colon makes the search wrong |
| CrudPath.AcceptedExactly | src/crud_handler.cc:325-381 | a path is accepted as entity and id if and only if its part before the query is the prefix, at most one slash, the entity, and the id behind a slash, or nothing or one slash |
| CrudPath.PathAndQueryInvert | src/crud_handler.cc:325-381 | entity, presence of an id, id and parameters come back from the printed path and query |
| CrudPath.ReadQueryText | src/http_request.cc:175-185 | printed parameters read back on top of any earlier ones, the last of equal keys winning |
| CrudHandler.CrudHandler.ParseEntityAndIdFromPath | src/crud_handler.cc:325-381 | the out-parameters are those of the parsing function |
| CrudHandler.CrudHandler.HandleRequest | src/crud_handler.cc:18-101 | response and new flat store are those of the serving function, for every request, so they depend on the flat store alone |
| CrudHandler.StatusExactly | src/crud_handler.cc:18-250 | the status of every answer: 400 for paths that name nothing, a POST with an id, and a PUT or DELETE without one; 404 for what is not there; 201 or 500 for a POST as a free id is left or not; 501 for other verbs; else 200 |
| CrudHandler.PostExactly | src/crud_handler.cc:103-143 | answer and store of a POST, with status, type and text |
| CrudHandler.GetExactly | src/crud_handler.cc:145-171 | answer of a GET, with status, type and text; the store stays |
| CrudHandler.PutExactly | src/crud_handler.cc:173-212 | answer and store of a PUT, with status, type and text |
| CrudHandler.DeleteExactly | src/crud_handler.cc:214-250 | answer and store of a DELETE, with status, type and text |
| CrudHandler.ReplyOnWire | src/http_response.cc:65-85 | an answer of the handler byte by byte: status line, length, type, empty line and body |
| CrudHandler.CrudHandler.HandlePost | src/crud_handler.cc:103-143 | a fresh id is written and answered 201, or nothing is and the answer is 500 |
| CrudHandler.CrudHandler.HandleGet | src/crud_handler.cc:145-171 | the payload or 404 |
| CrudHandler.CrudHandler.HandlePut | src/crud_handler.cc:173-212 | overwrites an entity that is there, or answers 404 and writes nothing |
| CrudHandler.CrudHandler.HandleDelete | src/crud_handler.cc:214-250 | removes an entity that is there, or answers 404 |
| CrudHandler.CrudHandler.HandleList | src/crud_handler.cc:252-323 | whatever the order of the hash map, the answer lists the matching ids sorted |
| CrudHandler.CrudHandler.FilterIds | src/crud_handler.cc:262-297 | the loop keeps just the ids whose payload passes the filters, each once |
| CrudHandler.CrudHandler.FormatList | src/crud_handler.cc:303-313 | the appending loop yields the quoted ids joined by commas |
| CrudRuns.StepRefines | src/crud_handler.cc:18-250 | a request changes the flat store by what its response tells, at the one pair it addresses; a POST's id was free, a PUT's and a DELETE's taken; answers outside 2xx and GETs change nothing |
| CrudRuns.StoreIsLastWrite | src/crud_handler.cc:18-250 | in every run the store is what requests and responses say was last written and not deleted |
| CrudRuns.OtherTypesKept | src/crud_handler.cc:18-250 | a request to one entity type leaves ids and payloads of all others as they are |
| CrudRuns.GetReadsLastWrite | src/crud_handler.cc:145-171 | in every run a GET answers the last payload written, or 404 |
| CrudRuns.RunKeepsIds | src/crud_handler.cc:103-143 | in every run the ids of a type are canonical decimals of ints from 1 to its peak number of live entities, and live entities are 201 answers less successful DELETEs |
| CrudLists.ListInRun | src/crud_handler.cc:252-323 | in every run a list reads back as just the live ids whose last payload passes the filters, strictly increasing |
| CrudLists.ListSelects | src/crud_handler.cc:252-323 | in every run, for every printed query: of the live entities whose last payload is a flat object in which no value is `name` or `tag`, the list has just those whose field `name` holds the value of the parameter `name` and whose field `tag` that of `tag`, where these are given |
| CrudLists.ListTextExactly | src/crud_handler.cc:301-313 | the list byte by byte: ids in quotation marks, between brackets, with a comma and a blank between two |
| CrudLists.ListReadsBack | src/crud_handler.cc:301-313 | the JSON array of quote-free ids decodes to them |
| CrudLists.TwoFiltersIntersect | src/crud_handler.cc:278-292 | two filters give the intersection |
| CrudLists.EmptyFilterIsNone | src/crud_handler.cc:278-292 | an empty filter changes nothing |
| CrudLists.FilterIsLookup | src/crud_handler.cc:278-292 | on such objects in which no value equals the field a filter looks at the field's value, or at nothing where the search cannot skip what stands in front of it |
| PathRouter.PathRouter.MatchHandler | src/path_router.cc:11-32 | the loop, in any order of the routes, picks the longest non-empty route that begins the path, and NotFoundHandler without one |
| PathRouter.LongestIsLongest | src/path_router.cc:15-22 | the choice is a longest route that applies |
| PathRouter.LongestIsUnique | src/path_router.cc:15-22 | there is no other |
| PathRouter.AddingRoute | src/path_router.cc:15-22 | a new route changes the choice only for paths that begin with it, where it beats the old one |
| PathRouter.ChosenPrefixIsAccepted | src/crud_handler.cc:329-344 | a chosen route passes the handler's prefix check after the query is removed if and only if it has no question mark |
| FilePaths.FileHandler.SanitizePath | src/file_handler.cc:93-122 | stripping, splitting, filtering and rebuilding in loops yields the joined components |
| FilePaths.SanitizedSplits | src/file_handler.cc:93-122 | a sanitised path has no leading slash, and no part of it is empty, `.` or `..` |
| FilePaths.PartsKeptInOrder | src/file_handler.cc:101-122 | every part of a path that is neither empty nor `.` nor `..` is kept, all in their order, and no other |
| FilePaths.Idempotent | src/file_handler.cc:93-122 | sanitising twice is sanitising once |
| FilePaths.ComponentsConcat | src/file_handler.cc:93-122 | components of paths joined by a slash are joined, for all texts |
| FilePaths.FileHandler.FileOf | src/file_handler.cc:127-147 | query, prefix and sanitising steps yield the full path function |
| FilePaths.FullPathExactly | src/file_handler.cc:127-147 | the full path is the root, ended by a slash, and the sanitised rest of the path behind the prefix and in front of the query; just the root where the path does not begin with the prefix |
| FilePaths.FullPathStaysBelow | src/file_handler.cc:127-147 | behind the parts of the root come only parts that are neither empty nor `.` nor `..`; the query has no effect |
| World.RunIsCoherent | src/session.cc:30-220 | for any handlers over a store: in every run of the server the store is what the dispatched requests lead to in the order of their dispatch, each answer was given with the store at its time, and each session's log is its part of the server's |
| World.ConnectionRuns | src/session.cc:21-220 | on each connection a run of the server is a run of its session alone, so all laws of one connection hold |
| World.EveryConnection | src/session.cc:21-220 | on each connection at most one operation is pending, the buffer is empty or waits for its body, and no byte is lost |
| EndToEnd.StoreOfServer | src/crud_handler.cc:18-250 | in every run of the server the store is the result of the history of CRUD requests, over all connections in the order of their dispatch |
| EndToEnd.EveryServerRun | src/session.cc:36-194 | in every run of the server the dispatched requests are the complete valid ones, each answered with the response that the history before it determines, and all else is answered 400 |
| EndToEnd.PrintedIsDispatched | src/session.cc:71-129 | a printed message is read on until it is whole and then dispatched, whatever the handlers |
| EndToEnd.ConversationInServer | src/session.cc:30-220 | whatever happens on other connections: a connection on which printed messages to CRUD routes are sent answers each, in order and whole, with the response of the history of all requests dispatched before |
| EndToEnd.NextCanOccur | src/session.cc:21-220 | such a conversation never gets stuck |
| EndToEnd.ConversationIsHistory | src/session.cc:30-220 | on the only connection any sequence of such messages can be sent, and store and answers are those of their history from an empty store |
| EndToEnd.PostThenGet | src/crud_handler.cc:103-171 | in any conversation, a POST message is answered with an id, and a GET message of that id behind it with what was posted, less one final line feed, read back from the wire; so the posted body comes back if and only if it does not end in a line feed |
| Example.LineFeedIsLost | src/http_request.cc:52-64 | a run of a server in which a body that ends in a line feed is posted and comes back without it |
| CrudHandler.ServedIsSound | src/crud_handler.cc:18-323 | whatever request and store, ids and payloads, the answer of the handler is framed and announces its length |
| ServerAnswers.RejectedWithRejection | src/session.cc:39-150 | which 400 an undispatched buffer gets is determined by its bytes alone, whatever the handlers |
| ServerAnswers.RejectionOnWire | src/session.cc:39-150 | a rejection byte by byte: 400, with the text about the length if the head is complete and has one that does not convert, and else the general one |
| ServerAnswers.NotFoundOnWire | src/session.cc:159-180 | the 404 without a handler byte by byte |
| ServerAnswers.EveryAnswerDecodes | src/session.cc:36-194 | in every run of the server each answer is the wire text of one response, determined by what went before; the answers of CRUD handlers and the 400s always, and all others if the handlers' own responses allow it, decode to that response |
| ServerAnswers.AnswersSplit | src/session.cc:36-220 | in every run of the server whose other handlers give framed responses with their lengths, whatever happens on other connections, all bytes sent on a connection split, by heads and announced lengths, into one response for each answer, in order |

## Left out

- Boost.Asio sockets, the acceptor, the thread pool and the logger: library plumbing; asynchronous calls are logged operations.
- Interleaving of threads inside a callback or on the shared store: the code has no locks; each callback and each handler call is one step.
- The bound of 1024 bytes on one read: chunks are arbitrary texts.
- Exceptions thrown by handlers inside a callback.
- Echo, Health, NotFound and Sleep handlers: constant or thin; handlers other than the CRUD handler are an arbitrary function of the request in `Handlers.Site`.
- Nested objects and arrays as values in JSON objects, and escapes in strings, which `extract_json_field` does not know.
- Shutting down a connection after a failed callback: its session just has nothing pending.
- The file system behind `FileHandler`: existence, extensions, MIME types and reading of files.
- `HttpRequest::to_string`, `config_parser_main.cc`, `server_main.cc` and the overload of `Parse` that opens a file.
- `set_path` called again on one request, which keeps old parameters: requests are those parsed from a text.
- Failures of `write_entity` and `delete_entity` that only other filesystems have: the model's store always writes, so the branches behind them are dead.
- `stoull` and `stoi` in other locales, and numbers in bases other than ten.
- Messages on `std::cerr` and the names of token types.
