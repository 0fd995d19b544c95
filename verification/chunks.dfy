/** Parsing a request chunk by chunk, as its bytes arrive, against parsing it at once. */
module Chunks {
  import opened Decimal
  import opened Http

  // parse_request when the memory holds nothing but the received bytes d
  function ParseAll(r: Req, d: string): (Verdict, Req)
  {
    Parse(r, d, |d|)
  }

  // Equal but for the number of bytes read
  ghost predicate Same(a: (Verdict, Req), b: (Verdict, Req))
  {
    a.0 == b.0 && a.1.(readBytes := 0) == b.1.(readBytes := 0)
  }

  // The headers lie in the bytes that were read, and these have been received.
  ghost predicate ReadWithin(r: Req, n: nat)
  {
    && r.readBytes <= n
    && forall i :: 0 <= i < |r.headers| ==>
      && 0 <= r.headers[i].key.off <= r.headers[i].key.off + r.headers[i].key.len <= r.readBytes
      && 0 <= r.headers[i].val.off <= r.headers[i].val.off + r.headers[i].val.len <= r.readBytes
  }

  // ---------- a parse looks no further than the line it is at ----------

  lemma {:induction false} IndexOfPrefix(d: string, e: string, c: char, from: nat)
    requires d <= e && from <= |d| && IndexOf(d, c, from, |d|) < |d|
    ensures IndexOf(e, c, from, |e|) == IndexOf(d, c, from, |d|)
    decreases |d| - from
  {
    if d[from] != c {
      IndexOfPrefix(d, e, c, from + 1);
    }
  }

  lemma SlicePrefix(d: string, e: string, from: nat, end: nat)
    requires d <= e && from <= end <= |d|
    ensures e[from..end] == d[from..end]
  {
  }

  lemma StatusLinePrefix(r: Req, d: string, e: string)
    requires d <= e
    ensures var (v, r1) := StatusLine(r, d, |d|);
      && (v == ReqUf || StatusLine(r, e, |e|) == (v, r1))
      && (v != ReqOk ==> r1 == r)
      && (v == ReqOk ==> r1.readBytes <= |d|)
  {
    var n := IndexOf(d, '\n', 0, |d|);
    if n < |d| {
      IndexOfPrefix(d, e, '\n', 0);
      SlicePrefix(d, e, 0, n + 1);
    }
  }

  lemma ReadHeaderWithin(line: string, base: nat)
    ensures var o := ReadHeader(line, base);
      o.Some? ==>
        && base <= o.value.key.off <= o.value.key.off + o.value.key.len <= base + |line|
        && base <= o.value.val.off <= o.value.val.off + o.value.val.len <= base + |line|
  {
    if ReadHeader(line, base).Some? {
      TokenWithin(line, 0, |line|, ':', 2, 0);
      TokenWithin(line, 0, |line|, ':', 2, 1);
    }
  }

  lemma HeaderStepWithin(r: Req, d: string)
    requires ReadWithin(r, |d|)
    ensures var s := HeaderStep(r, d, |d|);
      ReadWithin(s.req, |d|) && s.req.state == r.state && r.readBytes <= s.req.readBytes
  {
    if r.readBytes < |d| {
      var n := IndexOf(d, '\n', r.readBytes, |d|);
      if n < |d| {
        ReadHeaderWithin(d[r.readBytes..n + 1], r.readBytes);
      }
    }
  }

  lemma HeaderStepPrefix(r: Req, d: string, e: string)
    requires d <= e && r.readBytes <= |d|
    ensures var s := HeaderStep(r, d, |d|);
      if s.Stop? && s.verdict == ReqUf then s.req == r else HeaderStep(r, e, |e|) == s
  {
    if r.readBytes < |d| {
      var n := IndexOf(d, '\n', r.readBytes, |d|);
      if n < |d| {
        IndexOfPrefix(d, e, '\n', r.readBytes);
        IndexOfFirst(d, '\n', r.readBytes, |d|);
        SlicePrefix(d, e, r.readBytes, n + 1);
      }
    }
  }

  lemma {:induction false} HeaderLinesPrefix(r: Req, d: string, e: string)
    requires d <= e && ReadWithin(r, |d|)
    ensures var (v, r1) := HeaderLines(r, d, |d|);
      && ReadWithin(r1, |d|) && r1.state == r.state && r.readBytes <= r1.readBytes
      && HeaderLines(r, e, |e|) == (if v == ReqUf then HeaderLines(r1, e, |e|) else (v, r1))
    decreases MAX_HEADERS - |r.headers|
  {
    if |r.headers| < MAX_HEADERS {
      HeaderStepPrefix(r, d, e);
      HeaderStepWithin(r, d);
      var s := HeaderStep(r, d, |d|);
      if s.Go? {
        HeaderLinesPrefix(s.req, d, e);
      }
    }
  }

  // ---------- the Content-Length header ----------

  // The header block of r, whose bytes are b, decides the number read from its Content-Length value:
  // the number ends before the block does.
  ghost predicate LengthSettled(r: Req, b: string)
    requires ReadWithin(r, |b|)
  {
    var i := FindHeader(b, r.headers, CONTENT_LENGTH);
    i < |r.headers| ==> NumberEnd(b, r.headers[i].val.off) < |b|
  }

  lemma {:induction false} FindHeaderPrefix(hs: seq<Header>, b: string, d: string, key: string)
    requires b <= d
    requires forall i :: 0 <= i < |hs| ==> Within(hs[i].key, b)
    ensures FindHeader(d, hs, key) == FindHeader(b, hs, key)
  {
    if hs != [] {
      SlicePrefix(b, d, hs[0].key.off, hs[0].key.off + hs[0].key.len);
      assert forall i :: 0 <= i < |hs[1..]| ==> hs[1..][i] == hs[i + 1];
      FindHeaderPrefix(hs[1..], b, d, key);
    }
  }

  lemma TakeLengthPrefix(r: Req, b: string, d: string)
    requires b <= d && ReadWithin(r, |b|) && LengthSettled(r, b)
    ensures TakeLength(r, d) == TakeLength(r, b)
  {
    FindHeaderPrefix(r.headers, b, d, CONTENT_LENGTH);
    var i := FindHeader(b, r.headers, CONTENT_LENGTH);
    if i < |r.headers| {
      NumberSettled(b, d, r.headers[i].val.off);
    }
  }

  // The state in which the headers are complete when d has been received, if they are
  function HeaderPhase(r: Req, d: string): (Verdict, Req)
  {
    match r.state
    case Init =>
      var (v, r1) := StatusLine(r, d, |d|);
      if v != ReqOk then (v, r1) else HeaderLines(r1.(state := Headers), d, |d|)
    case Headers => HeaderLines(r, d, |d|)
    case _ => (ReqUf, r)
  }

  // A request that is being received: its headers, read so far, lie in the n bytes received so far.
  ghost predicate Receiving(r: Req, n: nat)
  {
    && (r.state == Init ==> r.headers == [] && r.readBytes == 0)
    && (r.state == Headers ==> ReadWithin(r, n))
  }

  lemma HeaderPhasePrefix(r: Req, d: string, e: string)
    requires d <= e && Receiving(r, |d|)
    ensures var (v, r1) := HeaderPhase(r, d);
      && Receiving(r1, |d|)
      && (v == ReqOk ==> ReadWithin(r1, |d|) && r1.state == Headers)
      && HeaderPhase(r, e) == (if v == ReqUf then HeaderPhase(r1, e) else (v, r1))
      && (v == ReqUf ==> HeaderPhase(r1, d) == (v, r1))
  {
    match r.state
    case Init =>
      StatusLinePrefix(r, d, e);
      var (v, r1) := StatusLine(r, d, |d|);
      if v == ReqOk {
        HeaderLinesPrefix(r1.(state := Headers), d, e);
        HeaderLinesPrefix(r1.(state := Headers), d, d);
      }
    case Headers =>
      HeaderLinesPrefix(r, d, e);
      HeaderLinesPrefix(r, d, d);
    case _ =>
  }

  // Whenever the header block is complete in d, it settles the Content-Length.
  ghost predicate Settled(r: Req, d: string)
    requires Receiving(r, |d|)
  {
    HeaderPhasePrefix(r, d, d);
    var (v, r1) := HeaderPhase(r, d);
    v == ReqOk ==> LengthSettled(r1, d[..r1.readBytes])
  }

  // ---------- chunk independence ----------

  lemma TakeBodyPrefix(r: Req, m: nat, n: nat)
    requires m <= n && r.state == Body
    ensures var (v, r1) := TakeBody(r, m);
      && (if v == ReqUf then r1.state == Body && Same(TakeBody(r1, n), TakeBody(r, n))
          else Same(TakeBody(r, n), (v, r1)))
  {
  }

  // Two buffers with the same complete header block come to the same request body.
  lemma AfterHeadersPrefix(r: Req, d: string, e: string)
    requires d <= e && ReadWithin(r, |d|) && LengthSettled(r, d[..r.readBytes])
    ensures TakeLength(r, e) == TakeLength(r, d)
  {
    var b := d[..r.readBytes];
    TakeLengthPrefix(r, b, d);
    TakeLengthPrefix(r, b, e);
  }

  function AfterHeaders(r: Req, d: string): (Verdict, Req)
  {
    var (v, r1) := TakeLength(r, d);
    if v != ReqOk then (v, r1) else TakeBody(r1, |d|)
  }

  lemma ParseIsPhases(r: Req, d: string)
    requires r.state == Init || r.state == Headers
    ensures var (v, r1) := HeaderPhase(r, d);
      ParseAll(r, d) == (if v != ReqOk then (v, r1) else AfterHeaders(r1, d))
  {
  }

  lemma AfterHeadersResume(r: Req, d: string, e: string)
    requires d <= e && ReadWithin(r, |d|) && LengthSettled(r, d[..r.readBytes])
    ensures var (v, r1) := AfterHeaders(r, d);
      && (v == ReqUf ==> r1.state == Body && Same(TakeBody(r1, |e|), AfterHeaders(r, e)))
      && (v != ReqUf ==> Same(AfterHeaders(r, e), (v, r1)))
  {
    AfterHeadersPrefix(r, d, e);
    var (v, r1) := TakeLength(r, d);
    if v == ReqOk {
      TakeBodyPrefix(r1, |d|, |e|);
    }
  }

  lemma Resume(r: Req, d: string, e: string)
    requires d <= e && Receiving(r, |d|) && Settled(r, d)
    ensures var (v, r1) := ParseAll(r, d);
      && (v == ReqUf ==> Receiving(r1, |d|) && Same(ParseAll(r1, e), ParseAll(r, e)))
      && (v != ReqUf ==> Same(ParseAll(r, e), (v, r1)))
  {
    if r.state == Body {
      TakeBodyPrefix(r, |d|, |e|);
    } else if r.state != ReadComplete {
      HeaderPhasePrefix(r, d, e);
      ParseIsPhases(r, d);
      ParseIsPhases(r, e);
      var (v, r1) := HeaderPhase(r, d);
      if v == ReqOk {
        AfterHeadersResume(r1, d, e);
      } else if v == ReqUf {
        HeaderPhaseState(r, d);
        ParseIsPhases(r1, e);
      }
    }
  }

  lemma HeaderPhaseState(r: Req, d: string)
    requires r.state == Init || r.state == Headers
    ensures HeaderPhase(r, d).1.state == Init || HeaderPhase(r, d).1.state == Headers
  {
    HeaderLinesState(if r.state == Init then StatusLine(r, d, |d|).1.(state := Headers) else r, d);
    StatusLinePrefix(r, d, d);
  }

  lemma {:induction false} HeaderLinesState(r: Req, d: string)
    ensures HeaderLines(r, d, |d|).1.state == r.state
    decreases MAX_HEADERS - |r.headers|
  {
    if |r.headers| < MAX_HEADERS {
      var s := HeaderStep(r, d, |d|);
      if s.Go? {
        HeaderLinesState(s.req, d);
      }
    }
  }

  // Parsing again and again, each time more of the bytes have arrived, until there is a verdict
  function Run(r: Req, ds: seq<string>): (Verdict, Req)
    decreases |ds|
  {
    if ds == [] then (ReqUf, r)
    else
      var (v, r1) := ParseAll(r, ds[0]);
      if v != ReqUf then (v, r1) else Run(r1, ds[1..])
  }

  ghost predicate Growing(ds: seq<string>)
  {
    forall i, j :: 0 <= i <= j < |ds| ==> ds[i] <= ds[j]
  }

  lemma SettledPrefix(r: Req, d: string, e: string)
    requires d <= e && Receiving(r, |d|) && Settled(r, e)
    ensures Settled(r, d)
  {
    HeaderPhasePrefix(r, d, e);
    var (v, r1) := HeaderPhase(r, d);
    if v == ReqOk {
      SlicePrefix(d, e, 0, r1.readBytes);
    }
  }

  lemma SettledNext(r: Req, d: string, e: string)
    requires d <= e && Receiving(r, |d|) && Settled(r, e) && Receiving(ParseAll(r, d).1, |d|)
    ensures ParseAll(r, d).0 == ReqUf ==> Settled(ParseAll(r, d).1, e)
  {
    if r.state == Init || r.state == Headers {
      HeaderPhasePrefix(r, d, e);
      ParseIsPhases(r, d);
      var (v, r1) := HeaderPhase(r, d);
      if v == ReqOk {
        AfterHeadersState(r1, d);
      }
    }
  }

  lemma AfterHeadersState(r: Req, d: string)
    ensures AfterHeaders(r, d).0 == ReqUf ==> AfterHeaders(r, d).1.state == Body
  {
  }

  lemma {:induction false} ChunkIndependence(r: Req, ds: seq<string>)
    requires ds != [] && Growing(ds) && Receiving(r, |ds[0]|)
    requires Receiving(r, |ds[|ds| - 1]|) && Settled(r, ds[|ds| - 1])
    ensures Same(Run(r, ds), ParseAll(r, ds[|ds| - 1]))
    decreases |ds|
  {
    var d, e := ds[0], ds[|ds| - 1];
    SettledPrefix(r, d, e);
    Resume(r, d, e);
    var (v, r1) := ParseAll(r, d);
    if v == ReqUf && |ds| > 1 {
      assert ds[0] <= ds[1];
      SettledNext(r, d, e);
      ChunkIndependence(r1, ds[1..]);
    }
  }

  // ---------- when chunks do matter ----------

  // A pass of the loop that goes on, or that meets the blank line, has read up to a line feed.
  lemma HeaderStepEnd(r: Req, d: string)
    requires r.readBytes <= |d|
    ensures var s := HeaderStep(r, d, |d|);
      s.Go? || (s.Stop? && s.verdict == ReqOk) ==> 0 < s.req.readBytes <= |d| && d[s.req.readBytes - 1] == '\n'
  {
    IndexOfFirst(d, '\n', r.readBytes, |d|);
  }

  lemma {:induction false} HeaderLinesEnd(r: Req, d: string)
    requires 0 < r.readBytes <= |d| && d[r.readBytes - 1] == '\n' && ReadWithin(r, |d|)
    ensures var (v, r1) := HeaderLines(r, d, |d|);
      v == ReqOk ==> 0 < r1.readBytes <= |d| && d[r1.readBytes - 1] == '\n'
    decreases MAX_HEADERS - |r.headers|
  {
    if |r.headers| < MAX_HEADERS {
      HeaderStepWithin(r, d);
      HeaderStepEnd(r, d);
      var s := HeaderStep(r, d, |d|);
      if s.Go? {
        HeaderLinesEnd(s.req, d);
      }
    }
  }

  lemma StatusLineEnd(r: Req, d: string)
    requires StatusLine(r, d, |d|).0 == ReqOk
    ensures var r1 := StatusLine(r, d, |d|).1; 0 < r1.readBytes <= |d| && d[r1.readBytes - 1] == '\n'
  {
    IndexOfFirst(d, '\n', 0, |d|);
  }

  lemma HeaderPhaseEnd(r: Req, d: string)
    requires r.state == Init && Receiving(r, |d|) && HeaderPhase(r, d).0 == ReqOk
    ensures var r1 := HeaderPhase(r, d).1; 0 < r1.readBytes <= |d| && d[r1.readBytes - 1] == '\n'
  {
    StatusLineEnd(r, d);
    StatusLinePrefix(r, d, d);
    HeaderLinesEnd(StatusLine(r, d, |d|).1.(state := Headers), d);
  }

  lemma {:induction false} SkipSpacesOver(b: string, e: string, from: nat)
    requires b <= e && from <= |b| && SkipSpaces(b, from) == |b| && (|b| < |e| ==> !IsSpace(e[|b|]))
    ensures SkipSpaces(e, from) == |b|
    decreases |b| - from
  {
    if from < |b| {
      SkipSpacesOver(b, e, from + 1);
    }
  }

  // An unsettled number lets strtol run past the header block, into the body.
  lemma UnsettledNumber(b: string, from: nat)
    requires 0 < |b| && b[|b| - 1] == '\n' && from <= |b| && NumberEnd(b, from) == |b|
    ensures Strtol(b, from) == 0 && Strtol(b + "1", from) == 1
  {
    assert NumberStart(b, from) == |b| && SkipSpaces(b, from) == |b|;
    var e := b + "1";
    SkipSpacesOver(b, e, from);
    NumberRead(e, |b|, |e|);
    assert NumberStart(e, from) == |b| && NumberEnd(e, from) == |e|;
    assert e[|b|..|e|] == "1" && "1"[..0] == "";
  }

  // A header block that settles the Content-Length can come first.
  lemma SettledBlock(r: Req, b: string, e: string)
    requires r.state == Init && Receiving(r, |b|) && b <= e
    requires HeaderPhase(r, b).0 == ReqOk && HeaderPhase(r, b).1.readBytes == |b| && ReadWithin(HeaderPhase(r, b).1, |b|)
    requires LengthSettled(HeaderPhase(r, b).1, b)
    ensures Same(Run(r, [b, e]), ParseAll(r, e))
  {
    HeaderPhasePrefix(r, b, e);
    SlicePrefix(b, e, 0, |b|);
    assert b[..|b|] == b;
    ChunkIndependence(r, [b, e]);
  }

  // Receiving the header block b first and the rest later comes, whatever follows, to the same as receiving
  // everything at once, exactly when b settles the Content-Length.
  lemma ChunkIndependenceIff(r: Req, b: string)
    requires r.state == Init && Receiving(r, |b|)
    requires HeaderPhase(r, b).0 == ReqOk && HeaderPhase(r, b).1.readBytes == |b| && ReadWithin(HeaderPhase(r, b).1, |b|)
    ensures LengthSettled(HeaderPhase(r, b).1, b) <==> forall e | b <= e :: Same(Run(r, [b, e]), ParseAll(r, e))
  {
    if LengthSettled(HeaderPhase(r, b).1, b) {
      forall e | b <= e ensures Same(Run(r, [b, e]), ParseAll(r, e)) {
        SettledBlock(r, b, e);
      }
    } else {
      var e := b + "1";
      ChunksDiffer(r, b);
      assert b <= e && !Same(Run(r, [b, e]), ParseAll(r, e));
    }
  }

  lemma UnsettledBody(r: Req, b: string)
    requires 0 < |b| && b[|b| - 1] == '\n' && r.readBytes == |b| && ReadWithin(r, |b|) && !LengthSettled(r, b)
    ensures AfterHeaders(r, b).0 == ReqOk && AfterHeaders(r, b).1.body.len == 0
    ensures TakeLength(r, b + "1") == (ReqOk, r.(state := Body, body := Slice(|b|, 1)))
  {
    FindHeaderPrefix(r.headers, b, b + "1", CONTENT_LENGTH);
    UnsettledNumber(b, r.headers[FindHeader(b, r.headers, CONTENT_LENGTH)].val.off);
  }

  lemma ChunksDiffer(r: Req, b: string)
    requires r.state == Init && Receiving(r, |b|)
    requires HeaderPhase(r, b).0 == ReqOk && HeaderPhase(r, b).1.readBytes == |b| && ReadWithin(HeaderPhase(r, b).1, |b|)
    requires !LengthSettled(HeaderPhase(r, b).1, b)
    ensures !Same(Run(r, [b, b + "1"]), ParseAll(r, b + "1"))
  {
    var r1, e := HeaderPhase(r, b).1, b + "1";
    HeaderPhasePrefix(r, b, e);
    HeaderPhaseEnd(r, b);
    UnsettledBody(r1, b);
    DifferAfterHeaders(r, b, e, r1);
  }

  lemma DifferAfterHeaders(r: Req, b: string, e: string, r1: Req)
    requires r.state == Init && HeaderPhase(r, b) == (ReqOk, r1) && HeaderPhase(r, e) == (ReqOk, r1)
    requires AfterHeaders(r1, b).0 == ReqOk && AfterHeaders(r1, b).1.body.len == 0
    requires TakeLength(r1, e) == (ReqOk, r1.(state := Body, body := Slice(|b|, 1)))
    ensures !Same(Run(r, [b, e]), ParseAll(r, e))
  {
    ParseIsPhases(r, b);
    ParseIsPhases(r, e);
    assert ParseAll(r, e).1.body.len == 1;
  }
}
