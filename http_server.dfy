/** HttpServerHandler as the stateful object it is: channelRead0 stores the request and its headers
    in two fields, and the private steps read them back while they append actions to the channel
    context. Each method is proved to request exactly the actions module HttpSpec assigns to it. */
module HttpServer {
  import opened Wrappers
  import opened JavaText
  import opened Channel
  import opened HttpSpec

  class HttpServerHandler {
    /** The request being handled (null before the first one). */
    var request: Option<HttpRequest>
    /** Its headers. */
    var headers: Option<Headers>

    constructor()
      ensures request.None? && headers.None?
    {
      request := None;
      headers := None;
    }

    /** channelRead0: ignore anything but a request; otherwise store it and its headers, then
        handle it. Returns the exception it throws, if any. */
    method ChannelRead0(ctx: Context<Response>, msg: HttpObject, now: int, serialize: User -> Bytes)
      returns (thrown: Option<Failure>)
      modifies this, ctx
      ensures ctx.events == old(ctx.events) + ReadReaction(msg, now, serialize).events
      ensures thrown == ReadReaction(msg, now, serialize).thrown
      ensures msg.Request? ==> request == Some(msg.request) && headers == Some(msg.request.headers)
      ensures msg.Other? ==> request == old(request) && headers == old(headers)
    {
      if !msg.Request? {
        return None;
      }
      request := Some(msg.request);
      headers := Some(msg.request.headers);
      thrown := HandleRequest(ctx, now, serialize);
    }

    /** handleRequest: drop the favicon, build the user record, branch on the method (GET decodes
        and logs its query parameters, which throws on a malformed query; POST checks the content
        type; anything else throws), then write the 200 response. */
    method HandleRequest(ctx: Context<Response>, now: int, serialize: User -> Bytes)
      returns (thrown: Option<Failure>)
      requires request.Some? && headers == Some(request.value.headers)
      modifies ctx
      ensures ctx.events == old(ctx.events) + RequestReaction(request.value, now, serialize).events
      ensures thrown == RequestReaction(request.value, now, serialize).thrown
    {
      var uri := request.value.uri;
      if uri == FAVICON_ICO {
        return None;
      }
      var httpMethod := request.value.httpMethod;
      var user := User(USER_NAME, now, httpMethod);
      if httpMethod == GET {
        // handleGetRequest decodes the query and logs its parameters; a malformed query throws.
        if !request.value.queryDecodes {
          return Some(MalformedQuery);
        }
      } else if httpMethod == POST {
        thrown := DealWithContentType(ctx);
        if thrown.Some? {
          return;
        }
      } else {
        return Some(UnsupportedMethod(httpMethod));
      }
      WriteResponse(ctx, serialize(user));
      thrown := None;
    }

    /** dealWithContentType (reached through handlePostRequest, which only logs): nothing for a
        missing or a parsed media type, sendError for any other; getContentType may throw. */
    method DealWithContentType(ctx: Context<Response>) returns (thrown: Option<Failure>)
      requires headers.Some?
      modifies ctx
      ensures ctx.events == old(ctx.events) + ContentTypeReaction(headers.value).events
      ensures thrown == ContentTypeReaction(headers.value).thrown
    {
      var contentType := ContentTypeOf(headers.value);
      match contentType
      case Err(e) =>
        thrown := Some(e);
      case Ok(None) =>
        thrown := None;
      case Ok(Some(ct)) =>
        if !IsParsedType(ct) {
          SendError(ctx);
        }
        // The JSON, form and multipart parsers are empty.
        thrown := None;
    }

    /** writeResponse: the 200 JSON response with its length, a Connection value only for a
        keep-alive request, and the close policy chosen from keep-alive. */
    method WriteResponse(ctx: Context<Response>, content: Bytes)
      requires request.Some?
      modifies ctx
      ensures ctx.events == old(ctx.events) + WriteResponseEvents(content, request.value.keepAlive)
    {
      var keepAlive := request.value.keepAlive;
      var response := Response(OK, Some(JSON_UTF8), Some(|content|),
                               if keepAlive then Some(KEEP_ALIVE_VAL) else None, content);
      ctx.WriteAndFlush(response);
      ctx.AddListener(if keepAlive then Close else CloseOnFailure);
    }

    /** sendError: a bodiless 415, and close once it is written. */
    method SendError(ctx: Context<Response>)
      modifies ctx
      ensures ctx.events == old(ctx.events) + SendErrorEvents()
    {
      ctx.WriteAndFlush(Response(UNSUPPORTED_MEDIA_TYPE, None, None, None, []));
      ctx.AddListener(Close);
    }

    /** exceptionCaught: close the channel. */
    method ExceptionCaught(ctx: Context<Response>)
      modifies ctx
      ensures ctx.events == old(ctx.events) + ExceptionCaughtEvents()
    {
      ctx.Close();
    }

    /** channelReadComplete: flush. */
    method ChannelReadComplete(ctx: Context<Response>)
      modifies ctx
      ensures ctx.events == old(ctx.events) + [Flush]
    {
      ctx.Flush();
    }

    /** How the pipeline delivers one read: channelRead0, and exceptionCaught if it throws. */
    method Deliver(ctx: Context<Response>, msg: HttpObject, now: int, serialize: User -> Bytes)
      modifies this, ctx
      ensures ctx.events == old(ctx.events) + Delivered(ReadReaction(msg, now, serialize))
      ensures msg.Request? ==> request == Some(msg.request) && headers == Some(msg.request.headers)
      ensures msg.Other? ==> request == old(request) && headers == old(headers)
    {
      var thrown := ChannelRead0(ctx, msg, now, serialize);
      if thrown.Some? {
        ExceptionCaught(ctx);
      }
    }
  }
}
