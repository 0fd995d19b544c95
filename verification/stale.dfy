/** What the bytes behind the received ones, left in the buffer's memory by earlier requests, do to parse_request. */
module Stale {
  import opened Decimal
  import opened Http
  import opened Chunks

  // The bytes at position p make a blank line that has not been received as a whole.
  predicate FakeBlank(mem: string, size: nat, p: nat)
  {
    p + 2 > size && At(mem, p) == '\r' && At(mem, p + 1) == '\n'
  }

  lemma {:induction false} IndexOfStale(mem: string, size: nat, c: char, from: nat)
    requires from <= size <= |mem|
    ensures IndexOf(mem, c, from, size) == IndexOf(mem[..size], c, from, size)
    decreases size - from
  {
    if from < size && mem[from] != c {
      IndexOfStale(mem, size, c, from + 1);
    }
  }

  lemma StatusLineStale(r: Req, mem: string, size: nat)
    requires size <= |mem|
    ensures StatusLine(r, mem, size) == StatusLine(r, mem[..size], size)
  {
    IndexOfStale(mem, size, '\n', 0);
    var n := IndexOf(mem, '\n', 0, size);
    if n < size {
      assert mem[..n + 1] == mem[..size][..n + 1];
    }
  }

  lemma HeaderStepStale(r: Req, mem: string, size: nat)
    requires r.readBytes <= size <= |mem|
    ensures var s := HeaderStep(r, mem[..size], size);
      HeaderStep(r, mem, size) == (if FakeBlank(mem, size, r.readBytes) then Stop(ReqOk, r.(readBytes := r.readBytes + 2)) else s)
    ensures FakeBlank(mem, size, r.readBytes) ==> HeaderStep(r, mem[..size], size) == Stop(ReqUf, r)
  {
    IndexOfStale(mem, size, '\n', r.readBytes);
    var n := IndexOf(mem, '\n', r.readBytes, size);
    IndexOfFirst(mem, '\n', r.readBytes, size);
    if n < size {
      assert mem[r.readBytes..n + 1] == mem[..size][r.readBytes..n + 1];
    }
  }

  lemma {:induction false} HeaderLinesStale(r: Req, mem: string, size: nat)
    requires size <= |mem| && ReadWithin(r, size)
    ensures var (v, r1) := HeaderLines(r, mem[..size], size);
      && r1.readBytes <= size
      && HeaderLines(r, mem, size)
         == (if v == ReqUf && FakeBlank(mem, size, r1.readBytes) then (ReqOk, r1.(readBytes := r1.readBytes + 2)) else (v, r1))
    decreases MAX_HEADERS - |r.headers|
  {
    if |r.headers| < MAX_HEADERS {
      HeaderStepStale(r, mem, size);
      HeaderStepWithin(r, mem[..size]);
      HeaderStepPrefix(r, mem[..size], mem[..size]);
      var s := HeaderStep(r, mem[..size], size);
      if s.Go? {
        HeaderLinesStale(s.req, mem, size);
      }
    }
  }

  // parse_request waits for a header line, and the line seems to be blank.
  ghost predicate Misled(r: Req, mem: string, size: nat)
    requires size <= |mem|
  {
    var (v, r1) := HeaderPhase(r, mem[..size]);
    v == ReqUf && r1.state == Headers && FakeBlank(mem, size, r1.readBytes)
  }

  function AfterHeadersIn(r: Req, mem: string, size: nat): (Verdict, Req)
  {
    var (v, r1) := TakeLength(r, mem);
    if v != ReqOk then (v, r1) else TakeBody(r1, size)
  }

  // What parse_request makes of the state its header loop ends in
  function Continue(v: Verdict, r: Req, mem: string, size: nat): (Verdict, Req)
  {
    if v != ReqOk then (v, r) else AfterHeadersIn(r, mem, size)
  }

  // What parse_request comes to, when the header loop on the received bytes has ended with h
  function Outcome(h: (Verdict, Req), mem: string, size: nat): (Verdict, Req)
  {
    if h.0 == ReqUf && h.1.state == Headers && FakeBlank(mem, size, h.1.readBytes) then
      AfterHeadersIn(h.1.(readBytes := h.1.readBytes + 2), mem, size)
    else Continue(h.0, h.1, mem, size)
  }

  lemma ParseHeadersIs(r: Req, mem: string, size: nat, h: (Verdict, Req))
    requires size <= |mem| && HeaderLines(r, mem, size) == h
    ensures ParseHeaders(r, mem, size) == Continue(h.0, h.1, mem, size)
  {
  }

  lemma OutcomeIs(mem: string, size: nat, h: (Verdict, Req), g: (Verdict, Req))
    requires h.1.state == Headers
    requires g == if h.0 == ReqUf && FakeBlank(mem, size, h.1.readBytes) then (ReqOk, h.1.(readBytes := h.1.readBytes + 2)) else h
    ensures Continue(g.0, g.1, mem, size) == Outcome(h, mem, size)
  {
  }

  lemma ParseHeadersStale(r: Req, mem: string, size: nat)
    requires size <= |mem| && ReadWithin(r, size) && r.state == Headers
    ensures ParseHeaders(r, mem, size) == Outcome(HeaderLines(r, mem[..size], size), mem, size)
  {
    var h, g := HeaderLines(r, mem[..size], size), HeaderLines(r, mem, size);
    HeaderLinesStale(r, mem, size);
    HeaderLinesState(r, mem[..size]);
    ParseHeadersIs(r, mem, size, g);
    OutcomeIs(mem, size, h, g);
  }

  lemma InitStale(r: Req, mem: string, size: nat)
    requires size <= |mem| && Receiving(r, size) && r.state == Init
    ensures var (v, r1) := StatusLine(r, mem[..size], size);
      && StatusLine(r, mem, size) == (v, r1)
      && (v == ReqOk ==> ReadWithin(r1.(state := Headers), size))
      && (v != ReqOk ==> r1.state == Init)
  {
    StatusLineStale(r, mem, size);
    StatusLinePrefix(r, mem[..size], mem[..size]);
    StatusLineHeaders(r, mem[..size]);
  }

  lemma ParseInit(r: Req, mem: string, size: nat, v: Verdict, r1: Req)
    requires size <= |mem| && r.state == Init && StatusLine(r, mem, size) == (v, r1)
    ensures Parse(r, mem, size) == if v != ReqOk then (v, r1) else ParseHeaders(r1.(state := Headers), mem, size)
  {
  }

  lemma PhaseInit(r: Req, d: string, v: Verdict, r1: Req)
    requires r.state == Init && StatusLine(r, d, |d|) == (v, r1)
    ensures HeaderPhase(r, d) == if v != ReqOk then (v, r1) else HeaderLines(r1.(state := Headers), d, |d|)
  {
  }

  lemma ParseInitStale(r: Req, mem: string, size: nat)
    requires size <= |mem| && Receiving(r, size) && r.state == Init
    ensures Parse(r, mem, size) == Outcome(HeaderPhase(r, mem[..size]), mem, size)
  {
    InitStale(r, mem, size);
    var (v, r1) := StatusLine(r, mem[..size], size);
    ParseInit(r, mem, size, v, r1);
    PhaseInit(r, mem[..size], v, r1);
    if v == ReqOk {
      ParseHeadersStale(r1.(state := Headers), mem, size);
    }
  }

  lemma ParseStale(r: Req, mem: string, size: nat)
    requires size <= |mem| && Receiving(r, size) && (r.state == Init || r.state == Headers)
    ensures Parse(r, mem, size) == Outcome(HeaderPhase(r, mem[..size]), mem, size)
  {
    if r.state == Init {
      ParseInitStale(r, mem, size);
    } else {
      ParseHeadersStale(r, mem, size);
    }
  }

  lemma StatusLineHeaders(r: Req, d: string)
    ensures StatusLine(r, d, |d|).1.headers == r.headers
  {
  }

  lemma MisledDiffers(r: Req, mem: string, size: nat)
    ensures Continue(ReqOk, r, mem, size).0 != ReqUf || Continue(ReqOk, r, mem, size).1.state != Headers
  {
  }

  // Whenever the headers are complete in d, the number read from the Content-Length ends in d.
  ghost predicate NumberReceived(r: Req, d: string)
    requires Receiving(r, |d|)
  {
    HeaderPhasePrefix(r, d, d);
    var (v, r1) := HeaderPhase(r, d);
    v == ReqOk ==> LengthSettled(r1, d)
  }

  lemma ParseWhole(r: Req, mem: string, size: nat)
    requires size <= |mem| && Receiving(r, size) && NumberReceived(r, mem[..size])
    requires r.state == Init || r.state == Headers
    ensures var (v, r1) := HeaderPhase(r, mem[..size]);
      ParseAll(r, mem[..size]) == Continue(v, r1, mem, size)
  {
    var d := mem[..size];
    ParseIsPhases(r, d);
    HeaderPhasePrefix(r, d, d);
    var (v, r1) := HeaderPhase(r, d);
    if v == ReqOk {
      TakeLengthPrefix(r1, d, mem);
    }
  }

  // As long as the number of the Content-Length ends in the received bytes, stale bytes change what parse_request does
  // exactly when they, or the last received byte and they, make a blank line where it waits for the next header line.
  lemma StaleBytes(r: Req, mem: string, size: nat)
    requires size <= |mem| && Receiving(r, size) && NumberReceived(r, mem[..size])
    ensures Parse(r, mem, size) == ParseAll(r, mem[..size]) <==> !Misled(r, mem, size)
  {
    if r.state == Init || r.state == Headers {
      ParseStale(r, mem, size);
      ParseWhole(r, mem, size);
      var (v, r1) := HeaderPhase(r, mem[..size]);
      if Misled(r, mem, size) {
        MisledDiffers(r1.(readBytes := r1.readBytes + 2), mem, size);
      }
    }
  }

  // Written out for a header block b at the end of the received bytes: no bytes behind it can change what parse_request
  // does exactly when b ends the number.
  lemma StaleNumberIff(r: Req, b: string)
    requires r.state == Init && Receiving(r, |b|)
    requires HeaderPhase(r, b).0 == ReqOk && HeaderPhase(r, b).1.readBytes == |b| && ReadWithin(HeaderPhase(r, b).1, |b|)
    ensures LengthSettled(HeaderPhase(r, b).1, b) <==> forall mem | b <= mem :: Parse(r, mem, |b|) == ParseAll(r, b)
  {
    if LengthSettled(HeaderPhase(r, b).1, b) {
      forall mem | b <= mem ensures Parse(r, mem, |b|) == ParseAll(r, b) {
        SettledStale(r, b, mem);
      }
    } else {
      StaleDigit(r, b);
      assert b <= b + "1";
    }
  }

  lemma SettledStale(r: Req, b: string, mem: string)
    requires r.state == Init && Receiving(r, |b|) && b <= mem
    requires HeaderPhase(r, b).0 == ReqOk && ReadWithin(HeaderPhase(r, b).1, |b|) && LengthSettled(HeaderPhase(r, b).1, b)
    ensures Parse(r, mem, |b|) == ParseAll(r, b)
  {
    assert mem[..|b|] == b;
    StaleBytes(r, mem, |b|);
  }

  // A number that does not end in the header block takes in a digit behind it.
  lemma StaleDigit(r: Req, b: string)
    requires r.state == Init && Receiving(r, |b|)
    requires HeaderPhase(r, b).0 == ReqOk && HeaderPhase(r, b).1.readBytes == |b| && ReadWithin(HeaderPhase(r, b).1, |b|)
    requires !LengthSettled(HeaderPhase(r, b).1, b)
    ensures !Misled(r, b + "1", |b|) && Parse(r, b + "1", |b|) != ParseAll(r, b)
  {
    var r1 := HeaderPhase(r, b).1;
    assert (b + "1")[..|b|] == b;
    HeaderPhaseEnd(r, b);
    UnsettledBody(r1, b);
    ParseStale(r, b + "1", |b|);
    ParseIsPhases(r, b);
  }
}
