/** The part of a Netty channel handler context that the handlers use: an append-only log of the
    outbound actions they request, in the order they request them. What the event loop later does
    with each action (encoding, flushing to the socket, running a listener) is outside the model. */
module Channel {

  /** The two ChannelFutureListener constants the handlers attach to a write's future. */
  datatype Listener = Close | CloseOnFailure

  /** One requested action: `ctx.write(m)`, `ctx.writeAndFlush(m)`, `addListener(l)` on the future of
      the write just before it, `ctx.flush()`, `ctx.close()`. */
  datatype Event<M> =
    | Write(message: M)
    | WriteAndFlush(message: M)
    | AddListener(listener: Listener)
    | Flush
    | CloseChannel

  /** The message one action writes: its message for a write, nothing otherwise. */
  function WrittenBy<M>(e: Event<M>): seq<M> {
    match e
    case Write(m) => [m]
    case WriteAndFlush(m) => [m]
    case _ => []
  }

  /** The messages a log writes, in order. */
  function Written<M>(events: seq<Event<M>>): (ms: seq<M>)
    ensures |ms| <= |events|
  {
    if events == [] then [] else WrittenBy(events[0]) + Written(events[1..])
  }

  /** Writing two logs one after the other writes their messages one after the other. */
  lemma {:induction false} WrittenConcat<M>(a: seq<Event<M>>, b: seq<Event<M>>)
    ensures Written(a + b) == Written(a) + Written(b)
  {
    if a == [] {
      assert a + b == b;
    } else {
      assert (a + b)[0] == a[0];
      assert (a + b)[1..] == a[1..] + b;
      WrittenConcat(a[1..], b);
    }
  }

  /** One action writes its message if it is a write, and nothing otherwise. With WrittenConcat
      this determines Written on every log. */
  lemma WrittenSingle<M>(e: Event<M>)
    ensures e.Write? ==> Written([e]) == [e.message]
    ensures e.WriteAndFlush? ==> Written([e]) == [e.message]
    ensures e.AddListener? || e.Flush? || e.CloseChannel? ==> Written([e]) == []
  {
    assert [e][1..] == [];
  }

  /** The channel handler context: each call appends exactly its own action to `events`. */
  class Context<M> {
    var events: seq<Event<M>>

    constructor()
      ensures events == []
    {
      events := [];
    }

    method WriteAndFlush(m: M)
      modifies this
      ensures events == old(events) + [Event.WriteAndFlush(m)]
    {
      events := events + [Event.WriteAndFlush(m)];
    }

    /** Attach `l` to the future returned by the preceding write. */
    method AddListener(l: Listener)
      modifies this
      ensures events == old(events) + [Event.AddListener(l)]
    {
      events := events + [Event.AddListener(l)];
    }

    method Flush()
      modifies this
      ensures events == old(events) + [Event.Flush]
    {
      events := events + [Event.Flush];
    }

    method Close()
      modifies this
      ensures events == old(events) + [CloseChannel]
    {
      events := events + [CloseChannel];
    }
  }
}
