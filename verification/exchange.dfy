/** Requests and responses as bytes: what a client that writes a request to a connection of a worker reads from it. */
module Exchange {
  import opened Common
  import opened Names
  import opened Decimal
  import H = Http
  import opened R = Render
  import opened Lifecycle
  import opened Outcomes
  import W = Replies
  import opened Connections
  import opened Workers
  import D = Database
  import Store
  import P = Pastes

  // ---------- one request ----------

  // The version number and the keep-alive flag of the response to a written request
  ghost function ResponseTo(keep: bool, p: Parts, w: World): string
  {
    Response(p.version, keep || p.version == 1, w.status, w.body)
  }

  lemma Served(keep: bool, p: Parts, writable: bool, w: World)
    requires WellFormed(p) && LengthMatches(p) && |p.headers| < 32 && Arrives(w.recvs, R.Render(p))
    requires w.canSend && Taken(w.sends) >= |ResponseTo(keep, p, w)|
    ensures ToSend(In(keep), true, writable, w) == SentBytes(In(keep), true, writable, w) == ResponseTo(keep, p, w)
    ensures Kept(In(keep), w) == (keep || p.version == 1)
    ensures Closes(In(keep), true, writable, w) <==> !((keep || p.version == 1) && w.canRead)
  {
    ArrivedIsParsed(keep, w.recvs, p);
  }

  lemma Reads(keep: bool, p: Parts, w: World)
    requires p.version < 3 && '\r' !in w.status
    ensures var kept := keep || VersionName(p.version) == "HTTP/1.1";
      W.ReadReply(ResponseTo(keep, p, w))
      == Some((W.Reply(VersionName(p.version), w.status, W.HeadersOf(kept, |w.body|), w.body), ""))
  {
    VersionIs11(p.version);
    W.ReplyIsRead(p.version, keep || p.version == 1, w.status, w.body, "");
    assert ResponseTo(keep, p, w) + "" == ResponseTo(keep, p, w);
  }

  // A written request arrives at a connection that is reading, cut up in any way and with pauses anywhere, and the event says
  // that there is something to read, whatever else it says. With room to send, the whole response goes out, and a client reads
  // from it the version of the request, the status and the body of the route callback, and whether the connection is kept.
  // It is kept, and reads again, exactly if it was kept before or the request is one of HTTP/1.1, and epoll takes it.
  method Serve(worker: Worker, c: Connection, ghost p: Parts, writable: bool, w: World)
    requires worker.Sound() && c in worker.conns && worker.Live(c) && c.state == StateIn
    requires WellFormed(p) && LengthMatches(p) && |p.headers| < 32 && Arrives(w.recvs, R.Render(p))
    requires w.canSend && Taken(w.sends) >= |ResponseTo(c.keepAlive, p, w)| && '\r' !in w.status
    modifies worker`numConns, worker`registered, worker`timers, worker`conns, worker`gone
    modifies worker.repr`prev, worker.repr`next, c
    ensures worker.Sound()
    ensures old(c.wire) <= c.wire
    ensures var keep := old(c.keepAlive) || VersionName(p.version) == "HTTP/1.1";
      && W.ReadReply(c.wire[|old(c.wire)|..])
         == Some((W.Reply(VersionName(p.version), w.status, W.HeadersOf(keep, |w.body|), w.body), ""))
      && (c in worker.conns <==> keep && w.canRead) && (c in worker.conns ==> c.state == StateIn && c.keepAlive)
  {
    ghost var reply := ResponseTo(c.keepAlive, p, w);
    Served(c.keepAlive, p, writable, w);
    Reads(c.keepAlive, p, w);
    VersionIs11(p.version);
    CallbackIs(c.View(), true, writable, w);
    worker.IoCallback(c, true, writable, w);
    assert c.wire[|old(c.wire)|..] == reply;
  }

  lemma VersionIs11(version: nat)
    requires version < 3
    ensures VersionName(version) == "HTTP/1.1" <==> version == 1
  {
    assert "HTTP/1.0"[7] == '0' && "HTTP/2.0"[5] == '2';
  }

  // ---------- a paste ----------

  ghost function PostText(body: string): string
  {
    "POST / HTTP/1.1\r\nContent-Length: " + Print(|body|) + "\r\n\r\n" + body
  }

  ghost function GetText(uri: string): string
  {
    "GET " + uri + " HTTP/1.1\r\n\r\n"
  }

  ghost function PostParts(body: string): Parts
  {
    Parts(2, 1, "/", [("Content-Length", Print(|body|))], body)
  }

  lemma PostIsWritten(body: string)
    requires |body| <= 131072
    ensures var p := PostParts(body);
      WellFormed(p) && LengthMatches(p) && |p.headers| < 32 && R.Render(p) == PostText(body)
  {
    var p, n := PostParts(body), Print(|body|);
    ValueOfPrint(|body|);
    LengthIsTidy(n);
    LengthIsFirst(p, n);
    assert p.headers[0] == ("Content-Length", n);
    assert R.Render(p) == PostText(body) by {
      PostRendered(p, n);
    }
  }

  lemma PostRendered(p: Parts, n: string)
    requires p.verb == 2 && p.version == 1 && p.uri == "/" && p.headers == [("Content-Length", n)]
    ensures R.Render(p) == "POST / HTTP/1.1\r\nContent-Length: " + n + "\r\n\r\n" + p.body
  {
    PostLine(p);
    OneHeader("Content-Length", n);
    Together("POST / HTTP/1.1\r\n", "Content-Length: ", n, p.body);
  }

  lemma LengthIsTidy(n: string)
    requires n != "" && AllDigits(n)
    ensures WellFormedHeader(("Content-Length", n))
  {
    DigitsTidy(n);
  }

  lemma LengthIsFirst(p: Parts, n: string)
    requires p.headers == [("Content-Length", n)] && n != "" && AllDigits(n) && Value(n) == |p.body| <= 131072
    ensures LengthMatches(p)
  {
    assert p.headers[0].0 == H.CONTENT_LENGTH;
  }

  lemma PostLine(p: Parts)
    requires p.verb == 2 && p.version == 1 && p.uri == "/"
    ensures StatusText(p) == "POST / HTTP/1.1\r\n"
  {
    assert StatusText(p) == "POST " + "/" + " " + "HTTP/1.1" + "\r\n";
  }

  lemma OneHeader(key: string, val: string)
    ensures HeadersText([(key, val)]) == (key + ": " + val + "\r\n") + ""
  {
    assert [(key, val)][1..] == [];
  }

  lemma DigitsTidy(n: string)
    requires n != "" && AllDigits(n)
    ensures Tidy(n) && '\n' !in n
  {
  }

  lemma Together(a: string, b: string, n: string, body: string)
    ensures a + ((b + n + "\r\n") + "") + "\r\n" + body == a + b + n + "\r\n\r\n" + body
  {
  }

  lemma GetIsWritten(uri: string)
    requires ' ' !in uri && '\n' !in uri
    ensures var q := Parts(0, 1, uri, [], "");
      WellFormed(q) && LengthMatches(q) && R.Render(q) == GetText(uri)
  {
    var q := Parts(0, 1, uri, [], "");
    assert StatusText(q) == "GET " + uri + " " + "HTTP/1.1" + "\r\n";
    assert R.Render(q) == StatusText(q) + "" + "\r\n" + "";
  }

  // Room for a response: 200 bytes and the body
  lemma ResponseSize(version: nat, keep: bool, body: string)
    requires version < 3 && |Print(|body|)| <= 19
    ensures |Response(version, keep, "200 OK", body)| <= 200 + |body|
  {
    assert |H.VERSIONS[version]| == 8;
  }

  // ---------- any written requests ----------

  // The reply of a route callback goes out in answer to a written request, and the connection reads again if it is to be kept.
  method Send(worker: Worker, c: Connection, ghost p: Parts, recvs: seq<Recv>, sends: seq<Send>, reply: P.Reply)
    returns (ghost wire: string)
    requires worker.Sound() && c in worker.conns && worker.Live(c) && c.state == StateIn
    requires WellFormed(p) && LengthMatches(p) && |p.headers| < 32 && Arrives(recvs, R.Render(p))
    requires reply.status == "200 OK" && Taken(sends) >= 200 + |reply.body| && |Print(|reply.body|)| <= 19
    modifies worker`numConns, worker`registered, worker`timers, worker`conns, worker`gone
    modifies worker.repr`prev, worker.repr`next, c
    ensures worker.Sound() && c.wire == old(c.wire) + wire
    ensures var keep := old(c.keepAlive) || VersionName(p.version) == "HTTP/1.1";
      && W.ReadReply(wire) == Some((W.Reply(VersionName(p.version), "200 OK", W.HeadersOf(keep, |reply.body|), reply.body), ""))
      && (c in worker.conns <==> keep) && (keep ==> c.state == StateIn && c.keepAlive && worker.Live(c))
  {
    ghost var before := c.wire;
    ResponseSize(p.version, c.keepAlive || p.version == 1, reply.body);
    Serve(worker, c, p, false, World(recvs, reply.status, reply.body, true, sends, true));
    wire := c.wire[|before|..];
  }

  // Reading the body of a post out of what has been received
  method PostedBody(keep: bool, recvs: seq<Recv>, ghost p: Parts) returns (text: string)
    requires WellFormed(p) && LengthMatches(p) && |p.headers| < 32 && Arrives(recvs, R.Render(p))
    ensures text == p.body
  {
    ArrivedIsParsed(keep, recvs, p);
    var (_, r) := Parsed(keep, recvs);
    text := H.Text(Received(recvs), r.body);
  }

  lemma Answered(f: string, b: nat, cs: seq<string>, body: string, link: nat)
    requires D.Valid(f, b, cs) && (link == 12 || (link == 20 && |cs| < b))
    requires 0 < |body| < 0x1_0000_0000 && |f| + 20 + |body| <= D.MAX_FILE
    ensures D.Mapped(f) && Store.WalkEnds(f)
    ensures var (g, reply) := P.Post(f, body, link);
      D.Valid(g, b, cs + [body]) && reply == P.Reply("200 OK", Print(|cs|))
    ensures |Print(|cs|)| <= 19 && |Print(|Print(|cs|)|)| <= 19
  {
    Store.ValidWalks(f, b, cs, 0);
    P.Posted(f, b, cs, body, link);
    ShortId(b, cs, P.Post(f, body, link).0, body);
  }

  lemma ShortId(b: nat, cs: seq<string>, f: string, body: string)
    requires D.Valid(f, b, cs + [body])
    ensures |Print(|cs|)| <= 19 && |Print(|Print(|cs|)|)| <= 19
  {
    D.ValidHeader(f, b, cs + [body]);
    P.Pow10Of19();
    PrintLength(|cs|, 19);
    PrintLength(|Print(|cs|)|, 2);
  }

  // A written request with a body, which post_callback answers: the body is stored under the next id, and a client reads this id
  // from the response.
  method Post(worker: Worker, c: Connection, db: Store.Db, recvs: seq<Recv>, sends: seq<Send>,
              ghost b: nat, ghost cs: seq<string>, ghost p: Parts)
    returns (ghost wire: string)
    requires worker.Sound() && c in worker.conns && worker.Live(c) && c.state == StateIn
    requires D.Valid(db.file, b, cs) && (db.link == 12 || (db.link == 20 && |cs| < b))
    requires WellFormed(p) && LengthMatches(p) && |p.headers| < 32 && p.body != "" && |db.file| + 20 + |p.body| <= D.MAX_FILE
    requires Arrives(recvs, R.Render(p)) && Taken(sends) >= 219
    modifies worker`numConns, worker`registered, worker`timers, worker`conns, worker`gone
    modifies worker.repr`prev, worker.repr`next, c, db
    ensures worker.Sound() && c.wire == old(c.wire) + wire
    ensures D.Valid(db.file, b, cs + [p.body])
    ensures var keep := old(c.keepAlive) || VersionName(p.version) == "HTTP/1.1";
      && W.ReadReply(wire)
         == Some((W.Reply(VersionName(p.version), "200 OK", W.HeadersOf(keep, |Print(|cs|)|), Print(|cs|)), ""))
      && (c in worker.conns <==> keep) && (keep ==> c.state == StateIn && c.keepAlive && worker.Live(c))
  {
    var text := PostedBody(c.keepAlive, recvs, p);
    Answered(db.file, b, cs, p.body, db.link);
    var reply := P.PostCallback(db, text);
    wire := Send(worker, c, p, recvs, sends, reply);
  }

  // What get_callback answers to what has been received
  method Asked(keep: bool, db: Store.Db, recvs: seq<Recv>, ghost b: nat, ghost cs: seq<string>, ghost id: nat, ghost q: Parts)
    returns (reply: P.Reply)
    requires D.Valid(db.file, b, cs) && id < |cs| && P.AsksFor(q.uri, Print(id))
    requires WellFormed(q) && LengthMatches(q) && |q.headers| < 32 && Arrives(recvs, R.Render(q))
    ensures reply == P.Reply("200 OK", cs[id]) && |Print(|reply.body|)| <= 19
  {
    ArrivedIsParsed(keep, recvs, q);
    var (_, r) := Parsed(keep, recvs);
    P.RequestUri(q);
    P.FetchedId(db.file, b, cs, id, q);
    forall i: nat ensures Store.FindEnds(db.file, i) {
      Store.ValidWalks(db.file, b, cs, i);
    }
    reply := P.GetCallback(db, Received(recvs), r.uri);
    ShortValue(db.file, b, cs, id);
  }

  lemma ShortValue(f: string, b: nat, cs: seq<string>, id: nat)
    requires D.Valid(f, b, cs) && id < |cs|
    ensures |Print(|cs[id]|)| <= 19
  {
    D.OffMono(b, cs, id, |cs|);
    P.Pow10Of19();
    PrintLength(|cs[id]|, 19);
  }

  // A written request for the id of a paste, which get_callback answers: a client reads the paste from the response.
  method Get(worker: Worker, c: Connection, db: Store.Db, recvs: seq<Recv>, sends: seq<Send>,
             ghost b: nat, ghost cs: seq<string>, ghost id: nat, ghost q: Parts)
    returns (ghost wire: string)
    requires worker.Sound() && c in worker.conns && worker.Live(c) && c.state == StateIn
    requires D.Valid(db.file, b, cs) && id < |cs| && P.AsksFor(q.uri, Print(id))
    requires WellFormed(q) && LengthMatches(q) && |q.headers| < 32
    requires Arrives(recvs, R.Render(q)) && Taken(sends) >= 200 + |cs[id]|
    modifies worker`numConns, worker`registered, worker`timers, worker`conns, worker`gone
    modifies worker.repr`prev, worker.repr`next, c
    ensures worker.Sound() && c.wire == old(c.wire) + wire
    ensures var keep := old(c.keepAlive) || VersionName(q.version) == "HTTP/1.1";
      && W.ReadReply(wire) == Some((W.Reply(VersionName(q.version), "200 OK", W.HeadersOf(keep, |cs[id]|), cs[id]), ""))
      && (c in worker.conns <==> keep) && (keep ==> c.state == StateIn && c.keepAlive && worker.Live(c))
  {
    var reply := Asked(c.keepAlive, db, recvs, b, cs, id, q);
    wire := Send(worker, c, q, recvs, sends, reply);
  }

  // ---------- two requests in full ----------

  ghost function UriFor(id: nat, slash: bool): string
  {
    "/" + Print(id) + if slash then "/" else ""
  }

  ghost function AskParts(id: nat, slash: bool): Parts
  {
    Parts(0, 1, UriFor(id, slash), [], "")
  }

  lemma AskIsWritten(id: nat, slash: bool)
    ensures var q := AskParts(id, slash);
      && WellFormed(q) && LengthMatches(q) && |q.headers| < 32 && P.AsksFor(q.uri, Print(id))
      && R.Render(q) == GetText(UriFor(id, slash))
  {
    PlainUri(UriFor(id, slash), Print(id));
    GetIsWritten(UriFor(id, slash));
  }

  lemma PlainUri(uri: string, id: string)
    requires P.AsksFor(uri, id) && AllDigits(id)
    ensures ' ' !in uri && '\n' !in uri
  {
  }

  // From bytes to bytes, with the texts of the requests. On one connection, a client posts a body and then asks for the id that
  // it reads from the response, with or without a slash behind it; the bytes of both requests arrive cut up in any way, and there
  // is room for the responses. It reads "200 OK" twice, the id the first time, and its body the second time.
  method PostAndGet(worker: Worker, c: Connection, db: Store.Db, posted: seq<Recv>, asked: seq<Recv>, first: seq<Send>,
                    second: seq<Send>, ghost b: nat, ghost cs: seq<string>, ghost body: string, ghost slash: bool)
    returns (ghost wire1: string, ghost wire2: string)
    requires worker.Sound() && c in worker.conns && worker.Live(c) && c.state == StateIn
    requires D.Valid(db.file, b, cs) && (db.link == 12 || (db.link == 20 && |cs| < b))
    requires 0 < |body| <= 131072 && |db.file| + 20 + |body| <= D.MAX_FILE
    requires Arrives(posted, PostText(body)) && Taken(first) >= 219
    requires Arrives(asked, GetText(UriFor(|cs|, slash))) && Taken(second) >= 200 + |body|
    modifies worker`numConns, worker`registered, worker`timers, worker`conns, worker`gone
    modifies worker.repr`prev, worker.repr`next, c, db
    ensures worker.Sound() && c in worker.conns && c.state == StateIn && c.wire == old(c.wire) + wire1 + wire2
    ensures D.Valid(db.file, b, cs + [body])
    ensures W.ReadReply(wire1) == Some((W.Reply("HTTP/1.1", "200 OK", W.HeadersOf(true, |Print(|cs|)|), Print(|cs|)), ""))
    ensures W.ReadReply(wire2) == Some((W.Reply("HTTP/1.1", "200 OK", W.HeadersOf(true, |body|), body), ""))
  {
    ghost var p, q := PostParts(body), AskParts(|cs|, slash);
    PostIsWritten(body);
    AskIsWritten(|cs|, slash);
    wire1 := Post(worker, c, db, posted, first, b, cs, p);
    wire2 := Get(worker, c, db, asked, second, b, cs + [body], |cs|, q);
  }
}
