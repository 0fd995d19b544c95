/** What becomes of a connection in a callback, said of the outcomes alone: how much send takes, what the request parsed so
    far comes to whenever recv has nothing more, and when the connection ends. */
module Outcomes {
  import opened Common
  import opened Http
  import opened Chunks
  import opened R = Render
  import opened Lifecycle

  // ---------- sending ----------

  // How many calls of send take bytes, before one does not
  function Calls(sends: seq<Send>): (n: nat)
    ensures n <= |sends|
  {
    if sends == [] || !sends[0].Room? then 0 else 1 + Calls(sends[1..])
  }

  // What these calls take, at most 4096 bytes each, if there is as much
  function Taken(sends: seq<Send>): nat
  {
    if sends == [] || !sends[0].Room? then 0
    else (if sends[0].n < 4096 then sends[0].n else 4096) + Taken(sends[1..])
  }

  // With n bytes left to send, a call of send fails before all have been taken.
  predicate SendFails(sends: seq<Send>, n: nat)
  {
    Taken(sends) < n && Calls(sends) < |sends| && sends[Calls(sends)].SendFailed?
  }

  lemma {:induction false} SendAllIs(buffer: string, done: nat, sends: seq<Send>)
    requires done < |buffer|
    ensures var n := |buffer| - done;
      SendAll(buffer, done, sends)
        == if Taken(sends) >= n then (|buffer|, Complete)
           else (done + Taken(sends), if SendFails(sends, n) then Broken else Blocked)
    decreases |sends|
  {
    if sends != [] && sends[0].Room? {
      var next := done + Min(sends[0].n, Min(|buffer| - done, 4096));
      if next < |buffer| {
        SendAllIs(buffer, next, sends[1..]);
        assert Calls(sends) < |sends| ==> sends[Calls(sends)] == sends[1..][Calls(sends[1..])];
      }
    }
  }

  // ---------- receiving ----------

  // What has been received whenever recv has nothing more, until it ends or fails
  function Pauses(d: string, recvs: seq<Recv>): seq<string>
    decreases |recvs|
  {
    if recvs == [] || recvs[0].RecvEnd? || recvs[0].RecvFailed? then []
    else if recvs[0].Data? then Pauses(d + recvs[0].bytes, recvs[1..])
    else [d] + Pauses(d, recvs[1..])
  }

  // Parsing at every pause, until there is a verdict; without one, recv has ended or failed.
  function Parsed(keep: bool, recvs: seq<Recv>): (Verdict, Req)
  {
    Run(Blank(keep), Pauses("", recvs))
  }

  lemma {:induction false} ReadIsRun(r: Req, d: string, recvs: seq<Recv>)
    ensures var (v, r1) := Run(r, Pauses(d, recvs));
      var e := Read(r, d, recvs);
      && (v == ReqOk <==> e.Answer?) && (e.Answer? ==> e.req == r1)
      && (v == ReqErr <==> e == Refused)
    decreases |recvs|
  {
    if recvs == [] || recvs[0].RecvEnd? || recvs[0].RecvFailed? {
    } else if recvs[0].Data? {
      ReadIsRun(r, d + recvs[0].bytes, recvs[1..]);
    } else {
      var ds := Pauses(d, recvs);
      assert ds[0] == d && ds[1..] == Pauses(d, recvs[1..]);
      var (v, r1) := ParseAll(r, d);
      if v == ReqUf {
        ReadIsRun(r1, d, recvs[1..]);
      }
    }
  }

  // ---------- a callback ----------

  // What is to be sent in a callback: the response to the request that has been received, or what is left in the buffer
  function ToSend(s: Conn, readable: bool, writable: bool, w: World): string
    requires s.Out? ==> s.done < |s.buffer|
  {
    match s
    case In(keep) =>
      var (v, r) := Parsed(keep, w.recvs);
      if readable && v == ReqOk && w.canSend then Response(r.version, r.keepAlive, w.status, w.body) else ""
    case Out(_, buffer, done) => if writable then buffer[done..] else ""
    case Gone => ""
  }

  // Whether the connection is to be kept after that
  function Kept(s: Conn, w: World): bool
  {
    match s
    case In(keep) => Parsed(keep, w.recvs).1.keepAlive
    case Out(keep, _, _) => keep
    case Gone => false
  }

  // When a callback ends a connection: the event is not what it waits for; recv ends or fails before a request is complete, or
  // the request is refused; epoll does not take the registration for sending; send fails; or the last byte has been sent, and
  // the connection is not to be kept, or epoll does not take its registration for reading.
  predicate Closes(s: Conn, readable: bool, writable: bool, w: World)
    requires s.Out? ==> s.done < |s.buffer|
  {
    var n := |ToSend(s, readable, writable, w)|;
    || s.Gone?
    || (s.In? && (!readable || Parsed(s.keep, w.recvs).0 != ReqOk || !w.canSend))
    || (s.Out? && !writable)
    || SendFails(w.sends, n)
    || (Taken(w.sends) >= n && !(Kept(s, w) && w.canRead))
  }

  // The bytes that go out
  function SentBytes(s: Conn, readable: bool, writable: bool, w: World): string
    requires s.Out? ==> s.done < |s.buffer|
  {
    var all := ToSend(s, readable, writable, w);
    if Taken(w.sends) < |all| then all[..Taken(w.sends)] else all
  }

  lemma AfterSendIs(keep: bool, buffer: string, done: nat, sends: seq<Send>, canRead: bool)
    requires done < |buffer|
    ensures var n, (s, sent) := |buffer| - done, AfterSend(keep, buffer, done, sends, canRead);
      && (s.Gone? <==> SendFails(sends, n) || (Taken(sends) >= n && !(keep && canRead)))
      && (s.In? <==> Taken(sends) >= n && keep && canRead)
      && sent == (if Taken(sends) < n then buffer[done..][..Taken(sends)] else buffer[done..])
      && (s.In? ==> s.keep == keep) && (s.Out? ==> s == Out(keep, buffer, done + Taken(sends)))
  {
    SendAllIs(buffer, done, sends);
  }

  ghost predicate IsCallback(s: Conn, readable: bool, writable: bool, w: World, after: (Conn, string))
    requires Proper(s)
  {
    && (after.0.Gone? <==> Closes(s, readable, writable, w))
    && (after.0.In? <==> !Closes(s, readable, writable, w) && Taken(w.sends) >= |ToSend(s, readable, writable, w)|)
    && after.1 == SentBytes(s, readable, writable, w)
    && (!after.0.Gone? ==> after.0.keep == Kept(s, w))
    && (after.0.Out? ==>
          && after.0.buffer == (if s.Out? then s.buffer else ToSend(s, readable, writable, w))
          && after.0.done == (if s.Out? then s.done else 0) + Taken(w.sends))
  }

  lemma ReadingIs(keep: bool, readable: bool, writable: bool, w: World)
    ensures IsCallback(In(keep), readable, writable, w, AfterIo(In(keep), readable, writable, w))
  {
    ReadIsRun(Blank(keep), "", w.recvs);
    var (v, r) := Parsed(keep, w.recvs);
    if readable && v == ReqOk && w.canSend {
      var reply := Response(r.version, r.keepAlive, w.status, w.body);
      AfterSendIs(r.keepAlive, reply, 0, w.sends, w.canRead);
      assert reply[0..] == reply;
    }
  }

  lemma CallbackIs(s: Conn, readable: bool, writable: bool, w: World)
    requires Proper(s)
    ensures IsCallback(s, readable, writable, w, AfterIo(s, readable, writable, w))
  {
    match s
    case In(keep) => ReadingIs(keep, readable, writable, w);
    case Out(keep, buffer, done) =>
      if writable {
        AfterSendIs(keep, buffer, done, w.sends, w.canRead);
      }
    case Gone =>
  }

  // ---------- a written request ----------

  // The bytes of a text arrive, cut up in any way and with pauses anywhere, and then nothing more for now.
  ghost predicate Arrives(recvs: seq<Recv>, text: string)
  {
    && recvs != [] && recvs[|recvs| - 1] == RecvAgain && Received(recvs) == text
    && forall i :: 0 <= i < |recvs| ==> recvs[i].Data? || recvs[i].RecvAgain?
  }

  // All of them begin with d, and each begins with the one before it.
  ghost predicate GrowFrom(d: string, ds: seq<string>)
  {
    Growing(ds) && forall i :: 0 <= i < |ds| ==> d <= ds[i]
  }

  lemma GrowFront(d: string, ds: seq<string>)
    requires GrowFrom(d, ds)
    ensures GrowFrom(d, [d] + ds)
  {
    forall i, j | 0 <= i <= j < |[d] + ds| ensures ([d] + ds)[i] <= ([d] + ds)[j] {
      if i > 0 {
        assert ds[i - 1] <= ds[j - 1];
      }
    }
  }

  lemma GrowLess(d: string, e: string, ds: seq<string>)
    requires d <= e && GrowFrom(e, ds)
    ensures GrowFrom(d, ds)
  {
  }

  lemma {:induction false} PausesGrow(d: string, recvs: seq<Recv>)
    requires forall i :: 0 <= i < |recvs| ==> recvs[i].Data? || recvs[i].RecvAgain?
    ensures GrowFrom(d, Pauses(d, recvs))
    decreases |recvs|
  {
    if recvs != [] {
      if recvs[0].Data? {
        PausesGrow(d + recvs[0].bytes, recvs[1..]);
        GrowLess(d, d + recvs[0].bytes, Pauses(d + recvs[0].bytes, recvs[1..]));
      } else {
        PausesGrow(d, recvs[1..]);
        GrowFront(d, Pauses(d, recvs[1..]));
      }
    }
  }

  lemma Glue(a: string, b: string, c: string)
    ensures (a + b) + c == a + (b + c) && "" + c == c
  {
  }

  // With a pause at the end, all bytes have been received there.
  lemma {:induction false} LastPause(d: string, recvs: seq<Recv>)
    requires forall i :: 0 <= i < |recvs| ==> recvs[i].Data? || recvs[i].RecvAgain?
    requires recvs != [] && recvs[|recvs| - 1].RecvAgain?
    ensures var ds := Pauses(d, recvs); ds != [] && ds[|ds| - 1] == d + Received(recvs)
    decreases |recvs|
  {
    var rest := recvs[1..];
    if recvs[0].Data? {
      LastPause(d + recvs[0].bytes, rest);
      Glue(d, recvs[0].bytes, Received(rest));
    } else if rest != [] {
      LastPause(d, rest);
      Glue("", "", Received(rest));
      assert Pauses(d, recvs) == [d] + Pauses(d, rest);
    } else {
      assert Received(recvs) == "" + Received(rest) == "";
      assert Pauses(d, recvs) == [d] && d + "" == d;
    }
  }

  // The keep-alive flag plays no part in parsing.
  function With(r: Req, keep: bool): Req
  {
    r.(keepAlive := keep)
  }

  lemma {:induction false} HeadersKeep(r: Req, keep: bool, d: string)
    ensures HeaderLines(With(r, keep), d, |d|) == (HeaderLines(r, d, |d|).0, With(HeaderLines(r, d, |d|).1, keep))
    decreases MAX_HEADERS - |r.headers|
  {
    if |r.headers| < MAX_HEADERS {
      StepKeep(r, keep, d);
      var s := HeaderStep(r, d, |d|);
      if s.Go? {
        HeadersKeep(s.req, keep, d);
      }
    }
  }

  lemma StepKeep(r: Req, keep: bool, d: string)
    ensures var s, t := HeaderStep(r, d, |d|), HeaderStep(With(r, keep), d, |d|);
      t == if s.Go? then Go(With(s.req, keep)) else Stop(s.verdict, With(s.req, keep))
  {
  }

  lemma StatusKeep(r: Req, keep: bool, d: string)
    ensures StatusLine(With(r, keep), d, |d|) == (StatusLine(r, d, |d|).0, With(StatusLine(r, d, |d|).1, keep))
  {
  }

  lemma PhaseKeep(keep: bool, d: string)
    ensures HeaderPhase(Blank(keep), d) == (HeaderPhase(BLANK, d).0, With(HeaderPhase(BLANK, d).1, keep))
  {
    StatusKeep(BLANK, keep, d);
    var (v, r1) := StatusLine(BLANK, d, |d|);
    if v == ReqOk {
      HeadersKeep(r1.(state := Headers), keep, d);
    }
  }

  lemma AfterKeep(r: Req, keep: bool, d: string)
    requires !r.keepAlive
    ensures var (v, r1) := AfterHeaders(r, d);
      AfterHeaders(With(r, keep), d) == (v, With(r1, keep || r1.keepAlive))
  {
  }

  lemma ParseKeep(keep: bool, d: string)
    requires !HeaderPhase(BLANK, d).1.keepAlive
    ensures var (v, r) := ParseAll(BLANK, d);
      ParseAll(Blank(keep), d) == (v, With(r, keep || r.keepAlive))
  {
    PhaseKeep(keep, d);
    ParseIsPhases(BLANK, d);
    ParseIsPhases(Blank(keep), d);
    AfterKeep(HeaderPhase(BLANK, d).1, keep, d);
  }

  lemma PrefixesSame(keep: bool, ds: seq<string>, d: string)
    requires ds != [] && Growing(ds) && ds[|ds| - 1] == d && Settled(BLANK, d)
    ensures Same(Run(Blank(keep), ds), ParseAll(Blank(keep), d))
  {
    SettledKeep(keep, d);
    ChunkIndependence(Blank(keep), ds);
  }

  lemma ArrivedSame(keep: bool, recvs: seq<Recv>, p: Parts)
    requires WellFormed(p) && LengthMatches(p) && |p.headers| < MAX_HEADERS && Arrives(recvs, R.Render(p))
    ensures Same(Parsed(keep, recvs), ParseAll(Blank(keep), R.Render(p)))
  {
    PausesGrow("", recvs);
    LastPause("", recvs);
    Glue("", "", Received(recvs));
    WrittenIsSettled(p);
    PrefixesSame(keep, Pauses("", recvs), R.Render(p));
  }

  lemma WrittenKeep(keep: bool, p: Parts)
    requires WellFormed(p) && LengthMatches(p) && |p.headers| < MAX_HEADERS
    ensures var (v, r) := ParseAll(Blank(keep), R.Render(p));
      && v == ReqOk && PartsOf(r, R.Render(p)) == p && r.keepAlive == (keep || p.version == 1)
      && r.uri == ParseAll(BLANK, R.Render(p)).1.uri
  {
    HeadersAreRead(p);
    AtHeadersIs(p);
    RenderIsParsed(p);
    ParsedBack(p);
    ParseKeep(keep, R.Render(p));
  }

  // A written request that arrives comes back in its parts, and makes the connection one to keep if its version is HTTP/1.1.
  lemma ArrivedIsParsed(keep: bool, recvs: seq<Recv>, p: Parts)
    requires WellFormed(p) && LengthMatches(p) && |p.headers| < MAX_HEADERS && Arrives(recvs, R.Render(p))
    ensures var (v, r) := Parsed(keep, recvs);
      && v == ReqOk && PartsOf(r, R.Render(p)) == p && r.keepAlive == (keep || p.version == 1) && r.version == p.version
      && r.uri == ParseAll(BLANK, R.Render(p)).1.uri
  {
    var a, b := Parsed(keep, recvs), ParseAll(Blank(keep), R.Render(p));
    ArrivedSame(keep, recvs, p);
    WrittenKeep(keep, p);
    SameParts(a, b, R.Render(p));
    SameFlag(a, b);
  }

  lemma SameFlag(a: (Verdict, Req), b: (Verdict, Req))
    requires Same(a, b)
    ensures a.1.keepAlive == b.1.keepAlive && a.1.version == b.1.version && a.1.uri == b.1.uri
  {
    assert a.1.keepAlive == a.1.(readBytes := 0).keepAlive && b.1.keepAlive == b.1.(readBytes := 0).keepAlive;
  }

  lemma SettledKeep(keep: bool, d: string)
    requires Settled(BLANK, d)
    ensures Settled(Blank(keep), d)
  {
    PhaseKeep(keep, d);
  }
}
