/** What becomes of one connection: the meaning of the callbacks of connection.c, as functions on the outcomes of its calls
    to recv, send and epoll_ctl. */
module Lifecycle {
  import opened Decimal
  import opened Http
  import opened Chunks

  const WRITE_CHUNK: nat := 4096

  // What the calls of recv come to: bytes, nothing there yet, the peer has closed, or an error, for which a buffer that
  // cannot grow counts as well. When the outcomes are used up, the peer has closed.
  datatype Recv = Data(bytes: string) | RecvAgain | RecvEnd | RecvFailed

  // What the calls of send come to: room for so many bytes, none now, or an error. When the outcomes are used up, there is
  // no more room.
  datatype Send = Room(n: nat) | SendAgain | SendFailed

  // Everything that happens around one callback: what is received, the route callback's response, whether the socket can
  // be registered for sending and, after the response, for reading, and what is taken for sending
  datatype World = World(recvs: seq<Recv>, status: string, body: string, canSend: bool, sends: seq<Send>, canRead: bool)

  // A connection between callbacks
  datatype Conn =
    | In(keep: bool)
    | Out(keep: bool, buffer: string, done: nat)
    | Gone

  ghost predicate Proper(s: Conn)
  {
    s.Out? ==> s.done < |s.buffer|
  }

  // ---------- reading ----------

  // How the loop of read_data ends
  datatype Reading = Answer(req: Req, data: string) | Refused | Ended | Failed

  function Read(r: Req, d: string, recvs: seq<Recv>): Reading
    decreases |recvs|
  {
    if recvs == [] then Ended
    else
      match recvs[0]
      case Data(bytes) => Read(r, d + bytes, recvs[1..])
      case RecvAgain =>
        var (v, r1) := ParseAll(r, d);
        if v == ReqOk then Answer(r1, d) else if v == ReqErr then Refused else Read(r1, d, recvs[1..])
      case RecvEnd => Ended
      case RecvFailed => Failed
  }

  // The request of a connection that has been reset
  function Blank(keep: bool): Req
  {
    BLANK.(keepAlive := keep)
  }

  // All bytes of the first outcomes
  function Received(recvs: seq<Recv>): string
  {
    if recvs == [] then "" else (if recvs[0].Data? then recvs[0].bytes else "") + Received(recvs[1..])
  }

  // From the request r0, which is r when the bytes d have been parsed piece by piece, the rest is parsed as if it had
  // come at once.
  ghost predicate Resumes(r0: Req, r: Req, d: string)
  {
    Receiving(r, |d|) && forall e: string | d <= e && Settled0(r0, e) :: Settled0(r, e) && Same(ParseAll(r, e), ParseAll(r0, e))
  }

  ghost predicate Settled0(r: Req, d: string)
  {
    Receiving(r, |d|) && Settled(r, d)
  }

  lemma ReceivingOn(r: Req, d: string)
    requires Receiving(r, |d|) && ParseAll(r, d).0 == ReqUf
    ensures Receiving(ParseAll(r, d).1, |d|)
  {
    if r.state == Init || r.state == Headers {
      HeaderPhasePrefix(r, d, d);
      ParseIsPhases(r, d);
      AfterHeadersState(HeaderPhase(r, d).1, d);
    }
  }

  lemma Again(r0: Req, r: Req, d: string)
    requires Resumes(r0, r, d) && ParseAll(r, d).0 == ReqUf
    ensures Resumes(r0, ParseAll(r, d).1, d)
  {
    var r1 := ParseAll(r, d).1;
    ReceivingOn(r, d);
    forall e: string | d <= e && Settled0(r0, e) ensures Settled0(r1, e) && Same(ParseAll(r1, e), ParseAll(r0, e)) {
      assert Settled0(r, e);
      SettledPrefix(r, d, e);
      Resume(r, d, e);
      SettledNext(r, d, e);
    }
  }

  // The request that is answered is the one that parsing all received bytes at once finds, however they were cut up.
  lemma {:induction false} AnswerIsParsed(r0: Req, r: Req, d: string, recvs: seq<Recv>)
    requires Resumes(r0, r, d) && Read(r, d, recvs).Answer?
    ensures var a := Read(r, d, recvs);
      d <= a.data <= d + Received(recvs) && (Settled0(r0, a.data) ==> Same((ReqOk, a.req), ParseAll(r0, a.data)))
    decreases |recvs|
  {
    if recvs[0].Data? {
      var bytes := recvs[0].bytes;
      assert Receiving(r, |d + bytes|);
      AnswerIsParsed(r0, r, d + bytes, recvs[1..]);
      assert d + bytes + Received(recvs[1..]) == d + Received(recvs);
    } else if recvs[0].RecvAgain? && ParseAll(r, d).0 == ReqUf {
      Again(r0, r, d);
      AnswerIsParsed(r0, ParseAll(r, d).1, d, recvs[1..]);
      assert Received(recvs) == Received(recvs[1..]);
    } else {
      assert d <= d + Received(recvs);
    }
  }

  // What read_data answers is the request at the front of what has been received, as one parse of it finds it.
  lemma AnsweredAtOnce(keep: bool, recvs: seq<Recv>)
    requires Read(Blank(keep), "", recvs).Answer?
    ensures var a := Read(Blank(keep), "", recvs);
      a.data <= Received(recvs) && (Settled(Blank(keep), a.data) ==> Same((ReqOk, a.req), ParseAll(Blank(keep), a.data)))
  {
    AnswerIsParsed(Blank(keep), Blank(keep), "", recvs);
    assert "" + Received(recvs) == Received(recvs);
  }

  // Parsing the same bytes again leaves a request that waits for more of them as it is.
  lemma WaitsOn(r: Req, d: string)
    requires Receiving(r, |d|) && ParseAll(r, d).0 == ReqUf
    ensures ParseAll(ParseAll(r, d).1, d) == ParseAll(r, d)
  {
    if r.state == Init || r.state == Headers {
      HeaderPhasePrefix(r, d, d);
      ParseIsPhases(r, d);
      HeaderPhaseState(r, d);
      var (v, r1) := HeaderPhase(r, d);
      if v == ReqUf {
        ParseIsPhases(r1, d);
      } else {
        AfterHeadersState(r1, d);
      }
    }
  }

  // As long as a request is incomplete and nothing is received, read_data goes round: any number of empty calls of recv
  // changes nothing, so that the loop ends only with more bytes, with the end of the stream, or with an error.
  lemma {:induction false} GoesRound(r: Req, d: string, n: nat, recvs: seq<Recv>)
    requires ParseAll(r, d) == (ReqUf, r)
    ensures Read(r, d, seq(n, i => RecvAgain) + recvs) == Read(r, d, recvs)
    decreases n
  {
    var all := seq(n, i => RecvAgain) + recvs;
    if n == 0 {
      assert all == recvs;
    } else {
      assert all[0] == RecvAgain && all[1..] == seq(n - 1, i => RecvAgain) + recvs;
      GoesRound(r, d, n - 1, recvs);
    }
  }

  // From the first time that recv has nothing for an incomplete request
  lemma WaitsForMore(r: Req, d: string, n: nat, recvs: seq<Recv>)
    requires Receiving(r, |d|) && ParseAll(r, d).0 == ReqUf && n > 0
    ensures Read(r, d, seq(n, i => RecvAgain) + recvs) == Read(ParseAll(r, d).1, d, recvs)
  {
    var all := seq(n, i => RecvAgain) + recvs;
    assert all[0] == RecvAgain && all[1..] == seq(n - 1, i => RecvAgain) + recvs;
    WaitsOn(r, d);
    GoesRound(ParseAll(r, d).1, d, n - 1, recvs);
  }

  // ---------- responses ----------

  const CRLF: string := "\r\n"

  // The headers that send_response writes for a connection that is kept
  function KeepText(keep: bool): string
  {
    if keep then "Connection: keep-alive" + CRLF + "Keep-Alive: timeout=5" + CRLF else ""
  }

  // send_response
  function Response(version: nat, keep: bool, status: string, body: string): (s: string)
    ensures s != ""
  {
    (if version < |VERSIONS| then VERSIONS[version] else "") + " " + status + CRLF
    + KeepText(keep) + "Content-Length: " + Print(|body|) + CRLF + CRLF + body
  }

  // ---------- sending ----------

  // How the loop of send_data ends: with no more room, with the last byte, or with an error
  datatype Sending = Blocked | Complete | Broken

  function Min(a: nat, b: nat): nat
  {
    if a < b then a else b
  }

  // How far send_data gets in the buffer
  function SendAll(buffer: string, done: nat, sends: seq<Send>): (r: (nat, Sending))
    requires done < |buffer|
    ensures done <= r.0 <= |buffer| && (r.1 == Complete <==> r.0 == |buffer|)
    decreases |sends|
  {
    if sends == [] then (done, Blocked)
    else
      match sends[0]
      case SendAgain => (done, Blocked)
      case SendFailed => (done, Broken)
      case Room(n) =>
        var next := done + Min(n, Min(|buffer| - done, WRITE_CHUNK));
        if next == |buffer| then (next, Complete) else SendAll(buffer, next, sends[1..])
  }

  // The connection after send_data, and the bytes that have gone out
  function AfterSend(keep: bool, buffer: string, done: nat, sends: seq<Send>, canRead: bool): (Conn, string)
    requires done < |buffer|
  {
    var (n, e) := SendAll(buffer, done, sends);
    (match e
     case Blocked => Out(keep, buffer, n)
     case Complete => if keep && canRead then In(keep) else Gone
     case Broken => Gone,
     buffer[done..n])
  }

  // The connection after read_data, and the bytes that have gone out
  function AfterRead(keep: bool, w: World): (Conn, string)
  {
    match Read(Blank(keep), "", w.recvs)
    case Answer(r, d) =>
      if !w.canSend then (Gone, "")
      else AfterSend(r.keepAlive, Response(r.version, r.keepAlive, w.status, w.body), 0, w.sends, w.canRead)
    case _ => (Gone, "")
  }

  // io_callback
  function AfterIo(s: Conn, readable: bool, writable: bool, w: World): (Conn, string)
    requires Proper(s)
  {
    match s
    case In(keep) => if readable then AfterRead(keep, w) else (Gone, "")
    case Out(keep, buffer, done) => if writable then AfterSend(keep, buffer, done, w.sends, w.canRead) else (Gone, "")
    case Gone => (Gone, "")
  }

  // ---------- the life of a connection ----------

  datatype Callback = Io(readable: bool, writable: bool, world: World) | Timeout

  function After(s: Conn, cb: Callback): (r: (Conn, string))
    requires Proper(s)
    ensures Proper(r.0)
  {
    match cb
    case Io(readable, writable, w) => AfterIo(s, readable, writable, w)
    case Timeout => (Gone, "")
  }

  // The connection after a run of callbacks, and all bytes that have gone out
  function Life(s: Conn, cbs: seq<Callback>): (r: (Conn, string))
    requires Proper(s)
    ensures Proper(r.0)
    decreases |cbs|
  {
    if cbs == [] then (s, "")
    else
      var (s1, sent) := After(s, cbs[0]);
      var (s2, rest) := Life(s1, cbs[1..]);
      (s2, sent + rest)
  }

  // The responses that a run of callbacks puts into the buffer of the connection, one behind the other
  ghost function Begun(s: Conn, cb: Callback): string
  {
    if s.In? && cb.Io? && cb.readable && Read(Blank(s.keep), "", cb.world.recvs).Answer? && cb.world.canSend then
      var r := Read(Blank(s.keep), "", cb.world.recvs).req;
      Response(r.version, r.keepAlive, cb.world.status, cb.world.body)
    else ""
  }

  ghost function AllBegun(s: Conn, cbs: seq<Callback>): string
    requires Proper(s)
    decreases |cbs|
  {
    if cbs == [] then "" else Begun(s, cbs[0]) + AllBegun(After(s, cbs[0]).0, cbs[1..])
  }

  // What the buffer still has to send
  ghost function Pending(s: Conn): string
    requires Proper(s)
  {
    if s.Out? then s.buffer[s.done..] else ""
  }

  // `sent` and what is pending in s make up `all`; of a connection that is gone, the rest may have been lost.
  ghost predicate Conserved(s: Conn, sent: string, all: string)
    requires Proper(s)
  {
    if s.Gone? then sent <= all else sent + Pending(s) == all
  }

  lemma AfterSendConserves(keep: bool, buffer: string, done: nat, sends: seq<Send>, canRead: bool)
    requires done < |buffer|
    ensures var (s, sent) := AfterSend(keep, buffer, done, sends, canRead);
      Proper(s) && Conserved(s, sent, buffer[done..])
  {
    var (n, e) := SendAll(buffer, done, sends);
    assert buffer[done..n] + buffer[n..] == buffer[done..];
  }

  lemma AfterConserves(s: Conn, cb: Callback)
    requires Proper(s)
    ensures Conserved(After(s, cb).0, After(s, cb).1, Pending(s) + Begun(s, cb))
  {
    if cb.Io? && s.Out? && cb.writable {
      AfterSendConserves(s.keep, s.buffer, s.done, cb.world.sends, cb.world.canRead);
      assert Pending(s) + "" == Pending(s);
    } else if Begun(s, cb) != "" {
      var r := Read(Blank(s.keep), "", cb.world.recvs).req;
      AfterSendConserves(r.keepAlive, Begun(s, cb), 0, cb.world.sends, cb.world.canRead);
      assert Begun(s, cb)[0..] == Begun(s, cb) == Pending(s) + Begun(s, cb);
    }
  }

  // Whatever the partial sends: the bytes that go out are the responses, whole and in order, except that the last one may be
  // cut short when the connection is closed.
  lemma {:induction false} LifeConserves(s: Conn, cbs: seq<Callback>)
    requires Proper(s)
    ensures Conserved(Life(s, cbs).0, Life(s, cbs).1, Pending(s) + AllBegun(s, cbs))
    decreases |cbs|
  {
    if cbs != [] {
      AfterConserves(s, cbs[0]);
      var (s1, sent) := After(s, cbs[0]);
      LifeConserves(s1, cbs[1..]);
      if s1.Gone? {
        GoneForever(cbs[1..]);
      }
      Chain(s1, sent, Pending(s), Begun(s, cbs[0]), Life(s1, cbs[1..]).0, Life(s1, cbs[1..]).1, AllBegun(s1, cbs[1..]));
    }
  }

  lemma Chain(s1: Conn, sent: string, p: string, begun: string, s2: Conn, rest: string, more: string)
    requires Proper(s1) && Proper(s2) && Conserved(s1, sent, p + begun) && Conserved(s2, rest, Pending(s1) + more)
    requires s1.Gone? ==> s2.Gone? && rest == ""
    ensures Conserved(s2, sent + rest, p + (begun + more))
  {
    assert p + (begun + more) == (p + begun) + more;
    if s1.Gone? {
      assert sent + rest == sent;
    } else {
      assert (p + begun) + more == sent + (Pending(s1) + more);
      if !s2.Gone? {
        assert (sent + rest) + Pending(s2) == sent + (rest + Pending(s2));
      }
    }
  }

  lemma {:induction false} GoneForever(cbs: seq<Callback>)
    ensures Life(Gone, cbs) == (Gone, "")
  {
    if cbs != [] {
      assert After(Gone, cbs[0]) == (Gone, "") && "" + "" == "";
      GoneForever(cbs[1..]);
    }
  }

  // A connection that is sending goes back to reading, or is closed without a failure, only with its last byte.
  lemma LeavesWhole(s: Conn, w: World)
    requires s.Out? && Proper(s)
    ensures var (s1, sent) := AfterIo(s, false, true, w);
      && (!s1.Out? ==> sent == s.buffer[s.done..] || SendAll(s.buffer, s.done, w.sends).1 == Broken)
      && (s1.In? ==> s.keep && sent == s.buffer[s.done..])
      && (s1.Out? ==> s1.buffer == s.buffer && s1.keep == s.keep)
  {
  }

  // read_data goes on until a request is complete: a connection that is reading again afterwards has answered a whole
  // request with a whole response, and none ever waits for an event with a part of a request in its buffer.
  lemma ReadsWhole(keep: bool, w: World)
    ensures var (s, sent) := AfterRead(keep, w);
      var e := Read(Blank(keep), "", w.recvs);
      && (!e.Answer? ==> s == Gone && sent == "")
      && (s.In? ==> e.Answer? && s.keep == e.req.keepAlive && s.keep
                    && sent == Response(e.req.version, true, w.status, w.body))
      && (s.Out? ==> e.Answer? && sent + s.buffer[s.done..] == s.buffer
                     && s.buffer == Response(e.req.version, e.req.keepAlive, w.status, w.body))
  {
    var e := Read(Blank(keep), "", w.recvs);
    if e.Answer? && w.canSend {
      var reply := Response(e.req.version, e.req.keepAlive, w.status, w.body);
      AfterSendConserves(e.req.keepAlive, reply, 0, w.sends, w.canRead);
      assert reply[0..] == reply;
    }
  }
}
