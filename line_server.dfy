/** ServerHandler of the line-based echo service. It is `@Sharable` and has no fields, so every
    callback is a function of its arguments: the reply to a line depends on that line alone. Each
    callback is modelled as the list of channel actions it requests. */
module LineServer {
  import opened JavaText
  import opened Channel

  const PROMPT := "Please type something.\r\n"
  const FAREWELL := "Have a good day!\r\n"
  const CRLF := "\r\n"

  /** The reply chosen for one line, and whether the channel is closed once it is written. */
  datatype Reply = Reply(response: string, close: bool)

  function Echo(request: string): string {
    "Did you say '" + request + "'?\r\n"
  }

  /** Any ASCII casing of "bye". */
  predicate IsBye(s: string) {
    |s| == 3 && s[0] in "bB" && s[1] in "yY" && s[2] in "eE"
  }

  /** The decision in channelRead0: prompt on an empty line, farewell and close on "bye" in any
      casing, otherwise echo the line back in quotes. */
  function Respond(request: string): (r: Reply)
    ensures EndsWithCrlf(r.response)
    ensures r.close ==> request != [] && r.response == FAREWELL
  {
    if request == [] then Reply(PROMPT, false)
    else if "bye" == Lower(request) then Reply(FAREWELL, true)
    else
      var echo := Echo(request);
      assert echo[|echo| - 2..] == CRLF;
      Reply(echo, false)
  }

  /** channelRead0: one write of the reply, and a CLOSE listener on its future when asked to close. */
  function ReadEvents(request: string): (evs: seq<Event<string>>)
    ensures |evs| >= 1 && evs[0] == Write(Respond(request).response)
    ensures forall k | 1 <= k < |evs| :: evs[k] == AddListener(Close)
  {
    var reply := Respond(request);
    [Write(reply.response)] + if reply.close then [AddListener(Close)] else []
  }

  /** channelActive: the welcome line, the time line, then a flush. */
  function ActiveEvents(hostname: string, date: string): (evs: seq<Event<string>>)
    ensures forall k | 0 <= k < |evs| - 1 :: evs[k].Write? && EndsWithCrlf(evs[k].message)
    ensures |evs| >= 1 && evs[|evs| - 1] == Flush
  {
    var welcome := "Welcome to " + hostname + "!\r\n";
    var time := "It is " + date + " now.\r\n";
    assert welcome[|welcome| - 2..] == CRLF;
    assert time[|time| - 2..] == CRLF;
    [Write(welcome), Write(time), Flush]
  }

  /** channelReadComplete flushes; exceptionCaught closes. */
  function ReadCompleteEvents(): (evs: seq<Event<string>>)
    ensures Written(evs) == [] && Flush in evs && CloseChannel !in evs
  {
    [Flush]
  }

  function ExceptionEvents(): (evs: seq<Event<string>>)
    ensures Written(evs) == [] && CloseChannel in evs
  {
    [CloseChannel]
  }

  /** The actions requested for a run of lines on one channel, line after line. */
  function Session(lines: seq<string>): (evs: seq<Event<string>>)
    ensures |evs| >= |lines|
    ensures CloseChannel !in evs
  {
    if lines == [] then [] else ReadEvents(lines[0]) + Session(lines[1..])
  }

  predicate EndsWithCrlf(s: string) {
    |s| >= 2 && s[|s| - 2..] == CRLF
  }

  /** Lower-casing gives "bye" exactly for the ASCII casings of "bye". */
  lemma ByeIgnoresCase(request: string)
    ensures "bye" == Lower(request) <==> IsBye(request)
  {
    if IsBye(request) {
      var l := Lower(request);
      assert l[0] == 'b' && l[1] == 'y' && l[2] == 'e';
      assert l == "bye";
    }
  }

  /** The three replies: which input gets which, exactly, and that they are exclusive and exhaustive. */
  lemma ReplyCases(request: string)
    ensures request == [] ==> Respond(request) == Reply(PROMPT, false)
    ensures IsBye(request) ==> Respond(request) == Reply(FAREWELL, true)
    ensures request != [] && !IsBye(request) ==> Respond(request) == Reply("Did you say '" + request + "'?\r\n", false)
  {
    ByeIgnoresCase(request);
  }

  /** Exactly one line is written per request, it is the reply, and a CLOSE listener is attached
      if and only if the line was a "bye". */
  lemma ReadWritesOnce(request: string)
    ensures |ReadEvents(request)| == if IsBye(request) then 2 else 1
    ensures Written(ReadEvents(request)) == [Respond(request).response]
    ensures AddListener(Close) in ReadEvents(request) <==> IsBye(request)
    ensures CloseChannel !in ReadEvents(request)
  {
    ByeIgnoresCase(request);
    var evs := ReadEvents(request);
    WrittenConcat([Write(Respond(request).response)], evs[1..]);
    assert evs == [Write(Respond(request).response)] + evs[1..];
  }

  /** On connect exactly two lines are written, welcome first, both terminated by CR LF, then one flush. */
  lemma GreetingShape(hostname: string, date: string)
    ensures |ActiveEvents(hostname, date)| == 3
    ensures Written(ActiveEvents(hostname, date)) == ["Welcome to " + hostname + "!\r\n", "It is " + date + " now.\r\n"]
    ensures ActiveEvents(hostname, date)[|ActiveEvents(hostname, date)| - 1] == Flush
    ensures forall l | l in Written(ActiveEvents(hostname, date)) :: EndsWithCrlf(l)
  {
    var w := "Welcome to " + hostname + "!\r\n";
    var t := "It is " + date + " now.\r\n";
    var evs := ActiveEvents(hostname, date);
    assert evs == [Write(w)] + ([Write(t)] + [Flush]);
    WrittenConcat([Write(w)], [Write(t)] + [Flush]);
    WrittenConcat([Write(t)], [Flush]);
    assert w[|w| - 2..] == CRLF;
    assert t[|t| - 2..] == CRLF;
  }

  /** The handler keeps nothing between lines: the actions for two runs of lines are the actions
      for the first run followed by those for the second. */
  lemma {:induction false} SessionConcat(a: seq<string>, b: seq<string>)
    ensures Session(a + b) == Session(a) + Session(b)
  {
    if a == [] {
      assert a + b == b;
    } else {
      assert (a + b)[0] == a[0];
      assert (a + b)[1..] == a[1..] + b;
      SessionConcat(a[1..], b);
    }
  }

  /** Over a run of lines, the written replies are the replies to the lines, one each, in order. */
  lemma {:induction false} SessionReplies(lines: seq<string>)
    ensures |Written(Session(lines))| == |lines|
    ensures forall i | 0 <= i < |lines| :: Written(Session(lines))[i] == Respond(lines[i]).response
  {
    if lines != [] {
      SessionReplies(lines[1..]);
      ReadWritesOnce(lines[0]);
      WrittenConcat(ReadEvents(lines[0]), Session(lines[1..]));
      var w := Written(Session(lines));
      forall i | 0 <= i < |lines| ensures w[i] == Respond(lines[i]).response {
        if i > 0 {
          assert lines[1..][i - 1] == lines[i];
        }
      }
    }
  }

  /** Over a run of lines, a CLOSE listener is requested if and only if one of the lines was a "bye". */
  lemma {:induction false} SessionClosesOnBye(lines: seq<string>)
    ensures AddListener(Close) in Session(lines) <==> exists i | 0 <= i < |lines| :: IsBye(lines[i])
  {
    if lines != [] {
      SessionClosesOnBye(lines[1..]);
      ReadWritesOnce(lines[0]);
      if exists i | 0 <= i < |lines[1..]| :: IsBye(lines[1..][i]) {
        var i :| 0 <= i < |lines[1..]| && IsBye(lines[1..][i]);
        assert IsBye(lines[i + 1]);
      }
      if exists i | 0 <= i < |lines| :: IsBye(lines[i]) {
        var i :| 0 <= i < |lines| && IsBye(lines[i]);
        if i > 0 {
          assert IsBye(lines[1..][i - 1]);
        }
      }
    }
  }
}
