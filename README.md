# netty-learning handlers in Dafny

This project models the two message handlers of the netty-learning demos and proves what they
answer to each inbound message.

- **Line echo server** (`ServerHandler`). On connect it writes a welcome line and a time line, then
  flushes. For each decoded text line it writes exactly one reply:
  - an empty line gets a prompt;
  - `bye` in any ASCII casing gets a farewell, and the channel closes after that write;
  - any other line is echoed back in quotes.

  The handler is `@Sharable` and has no fields, so module `LineServer` models each callback as a
  pure function. The function returns the channel actions the callback requests.
- **HTTP server** (`HttpServerHandler`). `channelRead0` stores the request and its headers in two
  fields. It then runs a chain of private steps, each of which requests actions on the channel
  context. Module `HttpServer` models the handler as a class with those two fields. The channel
  context is `Channel.Context`, a class whose `events` sequence logs every requested action
  (`WriteAndFlush(response)`, `AddListener(CLOSE | CLOSE_ON_FAILURE)`, `Flush`, `CloseChannel`) in
  order. Every method is proved to append exactly the actions that the pure functions of module
  `HttpSpec` give for it. The lemmas of `HttpSpec` prove the properties about those functions.
- **java.lang.String** (`JavaText`). The handlers rely on `toLowerCase`, `trim` and
  `split(";")[0]`. This module gives them the JDK's semantics, down to the corner cases:
  - `split` returns the whole input when the separator is absent;
  - `split` drops trailing empty pieces;
  - a value made only of `;` splits to nothing, so the `[0]` lookup throws.

Things the code does that are easy to miss, all reproduced and proved:
- The unsupported-media-type path writes the 415 with a CLOSE listener. It then still falls
  through to the 200 write (`PostOutcomes`, `TextPlainIsRejected`).
- The close policy is the reverse of keep-alive. A keep-alive request gets the CLOSE listener and
  any other request gets CLOSE_ON_FAILURE (`ClosePolicyInverted`). With Netty 4.1 the
  CLOSE_ON_FAILURE branch is not reached in practice: for a request that is not keep-alive, line 89
  sets the Connection header to null, which Netty rejects with a NullPointerException (see
  "## Left out").
- A GET whose query holds a malformed `%` escape makes `QueryStringDecoder` throw in
  `handleGetRequest`, before the 200 is written; `exceptionCaught` then closes the channel
  (`GetMalformedQueryCloses`).
- A Content-Type header made only of `;` makes `getContentType` throw
  ArrayIndexOutOfBoundsException. The pipeline then hands the exception to `exceptionCaught`,
  which closes the channel.
- An empty Content-Type value does not throw. It normalises to the empty media type, which gets
  the 415.

All of these are modelled as the code has them, not corrected.

Inputs the source takes from its environment are parameters of the model:
- the host name and the date text of the greeting;
- the time stored in the user record;
- the JSON serializer, as a function from `User` to bytes;
- the verdict of `HttpUtil.isKeepAlive`, as the `keepAlive` field of a request;
- whether `QueryStringDecoder` decodes the query of the URI without throwing, as the
  `queryDecodes` field of a request.

## Model

| member | source | states |
|---|---|---|
| JavaText.Lower | netty-helloworld/src/main/java/com/example/netty/server/ServerHandler.java:37 | `toLowerCase` keeps the length and lower-cases each ASCII letter in place |
| JavaText.LowerPointwise | netty-http/src/main/java/com/example/netty/HttpServerHandler.java:124 | lower-casing is fixed character by character: a string whose characters lower-case one by one to those of t lower-cases to t |
| LineServer.ByeIgnoresCase | netty-helloworld/src/main/java/com/example/netty/server/ServerHandler.java:37 | the lower-cased line equals "bye" if and only if the line is a three-letter ASCII casing of b, y, e |
| LineServer.Respond | netty-helloworld/src/main/java/com/example/netty/server/ServerHandler.java:32-42 | the reply chosen for a line: every reply ends with "\r\n", and a reply that closes the channel is the farewell to a non-empty line |
| LineServer.ReplyCases | netty-helloworld/src/main/java/com/example/netty/server/ServerHandler.java:32-42 | exactly one reply per line: an empty line gets "Please type something.\r\n" without close; a bye in any casing gets "Have a good day!\r\n" with close; any other line r gets "Did you say '" + r + "'?\r\n" without close |
| LineServer.ReadEvents | netty-helloworld/src/main/java/com/example/netty/server/ServerHandler.java:44-48 | the actions of one read: first the write of the reply, and after it nothing but CLOSE listeners |
| LineServer.ReadWritesOnce | netty-helloworld/src/main/java/com/example/netty/server/ServerHandler.java:44-48 | one read requests two actions for a bye line and one otherwise; it writes exactly one message, the reply; a CLOSE listener is attached if and only if the line was a bye; the handler never closes the channel itself |
| LineServer.ActiveEvents | netty-helloworld/src/main/java/com/example/netty/server/ServerHandler.java:18-26 | the actions on connect: every action before the last is a write of a line ending in "\r\n", and the last is a flush |
| LineServer.GreetingShape | netty-helloworld/src/main/java/com/example/netty/server/ServerHandler.java:18-26 | on connect exactly three actions are requested: the writes of "Welcome to " + host + "!\r\n" and then "It is " + date + " now.\r\n", both ending in CR LF, and then one flush |
| LineServer.ReadCompleteEvents | netty-helloworld/src/main/java/com/example/netty/server/ServerHandler.java:53-56 | channelReadComplete: a flush, which writes nothing and does not close the channel |
| LineServer.ExceptionEvents | netty-helloworld/src/main/java/com/example/netty/server/ServerHandler.java:60-65 | exceptionCaught: a close of the channel, which writes nothing |
| LineServer.Session | netty-helloworld/src/main/java/com/example/netty/server/ServerHandler.java:30-49 | the actions for a run of lines, one read after another: at least one action per line, and never a direct close of the channel |
| LineServer.SessionConcat | netty-helloworld/src/main/java/com/example/netty/server/ServerHandler.java:13-14 | the handler has no fields, so it keeps no state between lines: the actions for two runs of lines are those of the first run followed by those of the second |
| LineServer.SessionReplies | netty-helloworld/src/main/java/com/example/netty/server/ServerHandler.java:30-49 | over any run of lines, exactly one reply is written per line, in order, each the reply to that line alone |
| LineServer.SessionClosesOnBye | netty-helloworld/src/main/java/com/example/netty/server/ServerHandler.java:37-48 | over any run of lines, a CLOSE listener is requested if and only if some line is a bye |
| JavaText.TrimStart | netty-http/src/main/java/com/example/netty/HttpServerHandler.java:124 | the leading half of `trim`: the result is a suffix of the input, everything dropped is at most U+0020, and the result does not start with such a character |
| JavaText.TrimEnd | netty-http/src/main/java/com/example/netty/HttpServerHandler.java:124 | the trailing half of `trim`: the result is a prefix of the input, everything dropped is at most U+0020, and the result does not end with such a character |
| JavaText.Trim | netty-http/src/main/java/com/example/netty/HttpServerHandler.java:124 | `trim` as the trailing half applied after the leading half: the result is no longer than the input and neither starts nor ends with a character up to U+0020 |
| JavaText.TrimSlice | netty-http/src/main/java/com/example/netty/HttpServerHandler.java:124 | `trim` returns one contiguous slice of its input; it drops only characters up to U+0020 on either side; a non-empty slice starts and ends with a character above U+0020 |
| JavaText.UntilFirst | netty-http/src/main/java/com/example/netty/HttpServerHandler.java:124 | the text before the first separator is a prefix of the input, holds no separator, and is followed by a separator or by the end of the input |
| JavaText.Pieces | netty-http/src/main/java/com/example/netty/HttpServerHandler.java:124 | the pieces of the input between separators, empty pieces included: there is at least one piece, and no piece contains the separator |
| JavaText.DropTrailingEmpty | netty-http/src/main/java/com/example/netty/HttpServerHandler.java:124 | the step of `split` with limit 0 that removes trailing empty strings: the result is a prefix of the pieces, ends in a non-empty piece (or is empty), and every piece removed is empty |
| JavaText.Split | netty-http/src/main/java/com/example/netty/HttpServerHandler.java:124 | `split(sep)`: no element contains the separator, and when the separator occurs the last element is non-empty (trailing empty strings are removed); SplitHead states what its first element is |
| JavaText.SplitHead | netty-http/src/main/java/com/example/netty/HttpServerHandler.java:124 | `split(sep)` returns an empty array exactly when the input is non-empty and made only of separators; otherwise its first element is the text before the first separator |
| HttpSpec.GetHeaderFirstMatch | netty-http/src/main/java/com/example/netty/HttpServerHandler.java:124 | header lookup finds nothing exactly when no header name equals the looked-up name ignoring case; otherwise it finds the value of the first header whose name does |
| HttpSpec.GetHeader | netty-http/src/main/java/com/example/netty/HttpServerHandler.java:124 | `headers.get(CONTENT_TYPE_HDR)`: the value of the first header whose lower-cased name is the key, or null; it has no contract of its own, GetHeaderFirstMatch characterises it |
| HttpSpec.ContentTypeKey | netty-http/src/main/java/com/example/netty/HttpServerHandler.java:26 | the key the lookup uses, "content-type", is the header name "Content-Type" lower-cased |
| HttpSpec.NoContentTypeHeader | netty-http/src/main/java/com/example/netty/HttpServerHandler.java:123-124 | getContentType returns null exactly when no header is named "Content-Type" in any ASCII casing |
| HttpSpec.ContentTypeOf | netty-http/src/main/java/com/example/netty/HttpServerHandler.java:123-125 | getContentType: the only exception it throws is ArrayIndexOutOfBounds, and only when the header is present; a media type it returns neither starts nor ends with a character up to U+0020 |
| HttpSpec.ContentTypeOutcomes | netty-http/src/main/java/com/example/netty/HttpServerHandler.java:123-125 | the normalised content type is null without a Content-Type header; it throws ArrayIndexOutOfBounds exactly when the value is non-empty and only ';'; otherwise it is the text before the first ';', trimmed |
| HttpSpec.ContentTypeWithParameters | netty-http/src/main/java/com/example/netty/HttpServerHandler.java:124 | "application/json; charset=UTF-8" normalises to "application/json" |
| HttpSpec.MediaTypeWithParameters | netty-http/src/main/java/com/example/netty/HttpServerHandler.java:124 | a media type without ';' or surrounding blanks, followed by ';' and parameters, normalises to the media type |
| HttpSpec.BareMediaType | netty-http/src/main/java/com/example/netty/HttpServerHandler.java:124 | a media type without ';' or surrounding blanks normalises to itself |
| HttpSpec.ContentTypeOnlySeparators | netty-http/src/main/java/com/example/netty/HttpServerHandler.java:124 | a Content-Type value ";;" makes getContentType throw |
| HttpSpec.ContentTypeReaction | netty-http/src/main/java/com/example/netty/HttpServerHandler.java:103-121 | dealWithContentType: when getContentType throws nothing is requested and the exception is ArrayIndexOutOfBounds; otherwise the actions are either none or exactly those of sendError |
| HttpSpec.SendsErrorIffUnsupported | netty-http/src/main/java/com/example/netty/HttpServerHandler.java:105-119 | dealWithContentType calls sendError if and only if the content type is present and is none of "application/json", "application/x-www-form-urlencoded" and "multipart/form-data" |
| HttpSpec.OkResponse | netty-http/src/main/java/com/example/netty/HttpServerHandler.java:84-89 | the 200 response: status 200, the content as body, Content-Length equal to the body's size, Content-Type "application/json; charset=UTF-8", and Connection "keep-alive" if and only if the request is keep-alive |
| HttpSpec.WriteResponseEvents | netty-http/src/main/java/com/example/netty/HttpServerHandler.java:83-92 | writeResponse: two actions, which write exactly the 200 response; the second is the CLOSE listener for a keep-alive request and CLOSE_ON_FAILURE otherwise |
| HttpSpec.ErrorResponse | netty-http/src/main/java/com/example/netty/HttpServerHandler.java:139 | the 415 response: status 415, no body, and no Content-Type, Content-Length or Connection header |
| HttpSpec.SendErrorEvents | netty-http/src/main/java/com/example/netty/HttpServerHandler.java:138-141 | sendError: two actions, which write exactly the 415 response; the second is a CLOSE listener |
| HttpSpec.RequestReaction | netty-http/src/main/java/com/example/netty/HttpServerHandler.java:48-66 | handleRequest: nothing is requested before an exception; the favicon gets no action and no exception; the handler never closes the channel itself |
| HttpSpec.ReadReaction | netty-http/src/main/java/com/example/netty/HttpServerHandler.java:35-46 | channelRead0: only a request can throw, and then nothing has been requested; the handler never closes the channel itself |
| HttpSpec.Delivered | netty-http/src/main/java/com/example/netty/HttpServerHandler.java:144-148 | one read as the pipeline runs it: the handler's actions come first, and a close appears if and only if the handler threw or requested one itself (ReadReaction states it never does) |
| HttpSpec.OtherObjectsIgnored | netty-http/src/main/java/com/example/netty/HttpServerHandler.java:37-39 | an HttpObject that is not a request produces no action and no exception |
| HttpSpec.FaviconIffSilent | netty-http/src/main/java/com/example/netty/HttpServerHandler.java:49-52 | a request produces no action at all if and only if its URI equals "/favicon.ico" exactly |
| HttpSpec.UnsupportedMethodCloses | netty-http/src/main/java/com/example/netty/HttpServerHandler.java:58-64 | a method other than GET or POST throws UnsupportedOperation before any write, and the only action is the close requested by exceptionCaught |
| HttpSpec.GetResponds | netty-http/src/main/java/com/example/netty/HttpServerHandler.java:58-65 | a GET whose query decodes gets the 200 response and its listener, and nothing else |
| HttpSpec.GetMalformedQueryCloses | netty-http/src/main/java/com/example/netty/HttpServerHandler.java:58-59 | a GET whose query does not decode throws before anything is written (QueryStringDecoder, lines 70-71), and the only action is the close requested by exceptionCaught |
| HttpSpec.PostOutcomes | netty-http/src/main/java/com/example/netty/HttpServerHandler.java:103-121 | for a POST: a content type that throws leads to close only; an absent or parsed type gets the 200 alone; any other type gets the 415 with CLOSE and then still the 200 |
| HttpSpec.TextPlainIsRejected | netty-http/src/main/java/com/example/netty/HttpServerHandler.java:116-119 | a POST declaring text/plain gets the 415 with a CLOSE listener ahead of the 200 response |
| HttpSpec.WrittenResponses | netty-http/src/main/java/com/example/netty/HttpServerHandler.java:48-66 | every response written for a read is the bodiless 415, or the 200 around the serialized user record naming the request's method |
| HttpSpec.ResponsesWellFormed | netty-http/src/main/java/com/example/netty/HttpServerHandler.java:83-92 | every response written is the bodiless 415, or a 200 with Content-Type "application/json; charset=UTF-8" and Content-Length equal to the body's byte count; its body is the serialized user named "pengtao" with the request's method; Connection is "keep-alive" for a keep-alive request and absent otherwise |
| HttpSpec.WriteCount | netty-http/src/main/java/com/example/netty/HttpServerHandler.java:48-66 | one read writes at most two responses; two exactly for a POST with an unsupported media type; none exactly for the favicon and for a read that throws |
| HttpSpec.ClosePolicyInverted | netty-http/src/main/java/com/example/netty/HttpServerHandler.java:88-91 | after a GET whose query decodes, or a POST whose content type does not throw, the last action is the listener, CLOSE for a keep-alive request and CLOSE_ON_FAILURE otherwise, and the channel is not closed directly; for a request that is not keep-alive, a CLOSE listener appears if and only if a POST declared an unsupported media type |
| HttpServer.HttpServerHandler.constructor | netty-http/src/main/java/com/example/netty/HttpServerHandler.java:31-32 | a new handler holds no request and no headers |
| HttpServer.HttpServerHandler.ChannelRead0 | netty-http/src/main/java/com/example/netty/HttpServerHandler.java:35-46 | appends exactly the actions of the read; a request is stored with its headers; any other object leaves both fields unchanged |
| HttpServer.HttpServerHandler.HandleRequest | netty-http/src/main/java/com/example/netty/HttpServerHandler.java:48-66 | appends exactly the actions `RequestReaction` gives for the stored request and returns its exception |
| HttpServer.HttpServerHandler.DealWithContentType | netty-http/src/main/java/com/example/netty/HttpServerHandler.java:103-121 | appends the 415 actions only for a present, unparsed media type, and returns getContentType's exception |
| HttpServer.HttpServerHandler.WriteResponse | netty-http/src/main/java/com/example/netty/HttpServerHandler.java:83-92 | appends the 200 response for the content, then the listener chosen from the stored request's keep-alive |
| HttpServer.HttpServerHandler.SendError | netty-http/src/main/java/com/example/netty/HttpServerHandler.java:138-141 | appends the bodiless 415 response, then a CLOSE listener |
| HttpServer.HttpServerHandler.ExceptionCaught | netty-http/src/main/java/com/example/netty/HttpServerHandler.java:145-148 | appends a close of the channel |
| HttpServer.HttpServerHandler.ChannelReadComplete | netty-http/src/main/java/com/example/netty/HttpServerHandler.java:151-153 | appends a flush |
| HttpServer.HttpServerHandler.Deliver | netty-http/src/main/java/com/example/netty/HttpServerHandler.java:35-46 | one read as the pipeline runs it: the actions of channelRead0, then a close when it throws |
| Channel.Context.WriteAndFlush | netty-http/src/main/java/com/example/netty/HttpServerHandler.java:90 | `ctx.writeAndFlush` appends exactly one write of the message to the log |
| Channel.Context.AddListener | netty-http/src/main/java/com/example/netty/HttpServerHandler.java:91 | `addListener` on the preceding write's future appends exactly that listener |
| Channel.Context.Close | netty-http/src/main/java/com/example/netty/HttpServerHandler.java:147 | `ctx.close` appends exactly one close |
| Channel.Context.Flush | netty-http/src/main/java/com/example/netty/HttpServerHandler.java:152 | `ctx.flush` appends exactly one flush |
| Channel.WrittenConcat | netty-helloworld/src/main/java/com/example/netty/server/ServerHandler.java:22-25 | the messages written by two logs in sequence are those of the first followed by those of the second |
| Channel.Written | netty-http/src/main/java/com/example/netty/HttpServerHandler.java:90 | the messages a log writes, in order: never more messages than actions |
| Channel.WrittenSingle | netty-helloworld/src/main/java/com/example/netty/server/ServerHandler.java:44 | a single write or write-and-flush writes its message, and a listener, flush or close writes nothing; with WrittenConcat this fixes what any log writes |

`HttpSpec.ExceptionCaughtEvents` is the close of HttpServerHandler.java:147.

The `ctx.write` calls of ServerHandler (lines 22-23 and 44) are the `Write` events in the logs
that `LineServer.ActiveEvents` and `LineServer.ReadEvents` return. The `Channel.Context` class
records only the actions that HttpServerHandler requests.

## Left out

- Frame decoding, the string codec, HTTP decoding and aggregation: these are Netty's pipeline
  stages, configured in ServerInitializer.java and HttpServerInitializer.java. Their code is not
  part of this model. A line reaches `LineServer` already decoded, and a request reaches `HttpSpec`
  already aggregated.
- Server, client and event-loop bootstrap (Server.java, HttpServer.java, Client.java), the
  client's console loop and ClientHandler: these are socket and console I/O.
- JSON serialization (JSONSerializer.java) is a parameter `serialize: User -> Bytes`. The body is
  treated as opaque bytes, and no round trip is claimed. `serializeUser` re-throwing a serializer
  failure is not modelled.
- `handleGetRequest` (HttpServerHandler.java:68-76) decodes the query and logs its parameters. The
  model keeps only whether decoding throws (the `queryDecodes` field): Netty's percent-decoding
  itself is not modelled. All logging and `printStackTrace` are left out.
- `HttpUtil.isKeepAlive` is taken as the request's `keepAlive` field. `InetAddress.getLocalHost()`
  and `new Date()` are taken as parameters.
- HttpSpec.GetHeader: it models `HttpHeaders.get` by ASCII case-insensitive name comparison,
  done by lower-casing. It is called with the lower-cased name "content-type" rather than with
  "Content-Type"; `ContentTypeKey` proves that the first is the second lower-cased. It carries no
  contract of its own: a quantified one made the proofs about content types too costly, so
  `GetHeaderFirstMatch` states what it finds. Netty's own hashing and comparison of `AsciiString`
  names is not modelled.
- JavaText.Lower: lower-cases ASCII letters only. Java's `toLowerCase` is locale-sensitive and
  Unicode-wide. No non-ASCII character lower-cases to b, y or e, so the bye decision is not
  affected.
- HttpSpec.OkResponse: a null Connection value is recorded as an absent header. Netty 4.1's
  `headers().set(name, null)` throws NullPointerException instead. So in practice a request that
  is not keep-alive throws at line 89 and is closed by `exceptionCaught`, without the 200 or the
  CLOSE_ON_FAILURE listener. The model, `WriteResponseEvents` and `ClosePolicyInverted` describe
  the code as written, as if the header set succeeded.
- When flushes, writes and listeners actually run on the event loop is not modelled: only the
  order in which the handlers request them.
- HttpServer.HttpServerHandler.HandleRequest: it requires the request field to be set and the
  headers field to hold its headers. `channelRead0`, its only caller, always sets them first.
