/** Concrete inputs on which the code does not do what it is meant to do. */
module Examples {
  import opened Common
  import opened Decimal
  import opened Http
  import opened Chunks
  import R = Render
  import S = Stale
  import opened Storage
  import D = Database
  import U = Runs
  import E = Event
  import T = RbTree

  // ---------- an empty Content-Length ----------

  const EMPTY_LENGTH: R.Parts := R.Parts(0, 1, "/", [(CONTENT_LENGTH, "")], "")

  // "GET / HTTP/1.1" with an empty Content-Length, received first, and then the byte '1': taken together, the number of
  // the header is 1, and the request has a body.
  lemma EmptyLength()
    ensures R.WellFormed(EMPTY_LENGTH)
    ensures var b := R.Render(EMPTY_LENGTH); !Same(Run(BLANK, [b, b + "1"]), ParseAll(BLANK, b + "1"))
  {
    EmptyBlock();
    ChunksDiffer(BLANK, R.Render(EMPTY_LENGTH));
  }

  // The request is a header block, and does not end the number of its Content-Length.
  lemma EmptyBlock()
    ensures R.WellFormed(EMPTY_LENGTH)
    ensures var b := R.Render(EMPTY_LENGTH);
      && Receiving(BLANK, |b|) && HeaderPhase(BLANK, b).0 == ReqOk && HeaderPhase(BLANK, b).1.readBytes == |b|
      && ReadWithin(HeaderPhase(BLANK, b).1, |b|) && !LengthSettled(HeaderPhase(BLANK, b).1, b)
  {
    var p, b := EMPTY_LENGTH, R.Render(EMPTY_LENGTH);
    assert p.headers == [(CONTENT_LENGTH, "")];
    R.HeadersAreRead(p);
    R.RenderLayout(p);
    R.AtHeadersIs(p);
    HeaderPhasePrefix(BLANK, b, b);
    EmptyUnsettled();
  }

  // strtol finds nothing but white space behind the empty value.
  lemma NothingBehind(b: string, from: nat)
    requires from + 2 == |b| && b[from] == '\r' && b[from + 1] == '\n'
    ensures NumberEnd(b, from) == |b|
  {
    assert SkipSpaces(b, |b|) == |b|;
    assert SkipSpaces(b, from + 1) == |b|;
    assert SkipSpaces(b, from) == |b|;
  }

  // Where a Content-Length that is the only header lies, if it is empty: behind its own line
  lemma EmptyPlace(p: R.Parts, b: string, n: nat)
    requires p.headers == [(CONTENT_LENGTH, "")] && p.body == "" && n <= |b|
    requires b[n..] == R.HeadersText(p.headers) + "\r\n" + p.body
    ensures var hs := R.Places(p.headers, n);
      |hs| == 1 && FindHeader(b, hs, CONTENT_LENGTH) == 0 && 0 <= hs[0].val.off <= |b| && NumberEnd(b, hs[0].val.off) == |b|
  {
    R.FindPlace(b, n, p.headers, p.body, CONTENT_LENGTH);
    R.HeadersTextSplit(b, n, p.headers, p.body);
    R.PlacesLength(p.headers, n);
    var from := n + |R.HeaderText(p.headers[0])|;
    assert b[from] == b[from..][0] && b[from + 1] == b[from..][1];
    NothingBehind(b, from);
  }

  lemma EmptyUnsettled()
    ensures R.WellFormed(EMPTY_LENGTH)
    ensures var b, r := R.Render(EMPTY_LENGTH), R.AtHeaders(EMPTY_LENGTH); ReadWithin(r, |b|) && !LengthSettled(r, b)
  {
    var p, b := EMPTY_LENGTH, R.Render(EMPTY_LENGTH);
    R.HeadersAreRead(p);
    HeaderPhasePrefix(BLANK, b, b);
    R.RenderLayout(p);
    R.AtHeadersIs(p);
    EmptyPlace(p, b, |R.StatusText(p)|);
  }

  // ---------- stale bytes ----------

  lemma StatusOnly(p: R.Parts)
    requires R.WellFormed(p)
    ensures var d := R.StatusText(p);
      HeaderPhase(BLANK, d) == (ReqUf, R.AfterStatus(BLANK, p).(state := Headers))
  {
    var d := R.StatusText(p);
    R.StatusLineIsLine(p);
    assert d[..|d|] == d;
    R.LineEnd(d, 0, d);
    R.ReadStatusIs(BLANK, p);
  }

  // The status line has been received, and an earlier request has left CR LF behind it in the buffer: the headers are taken
  // to be complete.
  lemma StaleBlankLine(p: R.Parts)
    requires R.WellFormed(p)
    ensures var d := R.StatusText(p); Parse(BLANK, d + "\r\n", |d|) != ParseAll(BLANK, d)
  {
    var d := R.StatusText(p);
    StatusOnly(p);
    assert (d + "\r\n")[..|d|] == d;
    S.StaleBytes(BLANK, d + "\r\n", |d|);
  }

  // The same request, received as a whole, with a stale '1' behind it: strtol reads that, and the request seems to have a
  // body. No blank line is taken for one here.
  lemma StaleLength()
    ensures R.WellFormed(EMPTY_LENGTH)
    ensures var d := R.Render(EMPTY_LENGTH);
      !S.Misled(BLANK, d + "1", |d|) && Parse(BLANK, d + "1", |d|) != ParseAll(BLANK, d)
  {
    var d := R.Render(EMPTY_LENGTH);
    EmptyBlock();
    S.StaleDigit(BLANK, d);
  }

  // ---------- 32 headers ----------

  function Many(n: nat): (hs: seq<(string, string)>)
    ensures |hs| == n
  {
    seq(n, i => ("A", ""))
  }

  const FULL: R.Parts := R.Parts(2, 1, "/", [(CONTENT_LENGTH, "1")] + Many(31), "x")

  // A request with 32 headers and the body "x" does not come back from parsing.
  lemma FullHeaders()
    ensures R.WellFormed(FULL) && R.LengthMatches(FULL) && !R.RoundTrips(FULL)
  {
    assert FULL.headers[0] == (CONTENT_LENGTH, "1");
    assert "1"[..0] == "";
    R.RoundTrip(FULL);
    assert ("\r\n" + FULL.body)[0] == '\r' && FULL.body[0] == 'x';
  }

  // ---------- the shipped link ----------

  lemma NextStep(f: string, v: string) returns (g: string)
    requires D.Mapped(f)
    ensures U.Step(f, v, 20, g)
  {
    g := D.Insert(f, v, 20).0;
  }

  // When every bucket has its record, the next value is lost.
  lemma NextLost(f: string, b: nat, c: seq<string>, v: string) returns (g: string)
    requires D.Valid(f, b, c) && |c| == b && |v| < 0x1_0000_0000 && |f| + D.REC_HDR_SIZE + |v| <= D.MAX_FILE
    ensures U.Step(f, v, 20, g) && D.Mapped(g) && D.Get(g, b) == None
  {
    U.ValidHeaded(f, b, c);
    g := NextStep(f, v);
    U.StepHeaded(f, b, v, g);
    U.LostValue(g, b);
  }

  // In a new file with one bucket, the first paste is found, and the second is not.
  lemma SecondPasteLost(v: string, w: string) returns (f: string, g: string)
    requires |v| < 0x1_0000_0000 && |w| < 0x1_0000_0000
    ensures U.Step(U.Fresh(1), v, 20, f) && U.Step(f, w, 20, g)
    ensures D.Get(f, 0) == Some(v) && D.Mapped(g) && D.Get(g, 1) == None
  {
    U.FreshIsValid(1);
    D.ValidHeader(U.Fresh(1), 1, []);
    f := NextStep(U.Fresh(1), v);
    U.StepIsValid(U.Fresh(1), 1, [], v, 20, f);
    assert [] + [v] == [v];
    D.GetIs(f, 1, [v], 0);
    g := NextLost(f, 1, [v], w);
  }

  // ---------- a deleted timer ----------

  method NewTimer(interval: nat) returns (t: T.Node<E.Timer>)
    ensures fresh(t) && t.payload == E.Timer(0, interval, false, true, 0, 0)
  {
    t := new T.Node(E.Timer(0, interval, false, true, 0, 0));
  }

  // Adding a timer to others that are due by then keeps them all due.
  lemma OneMoreDue(ts: seq<E.Timer>, t: E.Timer, k: nat, now: nat)
    requires E.AllDue(ts, now) && E.AllDue([t], now) && k <= |ts|
    ensures E.AllDue(ts[..k] + [t] + ts[k..], now)
  {
    assert [t][0] == t;
  }

  method AddNew(base: E.EventBase, interval: nat, ghost now: nat)
    requires base.Valid() && E.AllDue(base.timers.contents, now)
    requires interval * E.NANOS_PER_MILLI <= now < UINT64_RANGE
    modifies base.timers, base.timers.repr
    ensures base.Valid() && E.AllDue(base.timers.contents, now) && fresh(base.timers.repr - old(base.timers.repr))
    ensures |base.timers.contents| == old(|base.timers.contents|) + 1
  {
    var t := NewTimer(interval);
    ghost var ts := base.timers.contents;
    ghost var k;
    var status;
    status, k := base.AddTimer(t, 0);
    OneMoreDue(ts, t.payload, k, now);
  }

  // Three timers of 1, 2 and 3 milliseconds are added, and that at the root of the tree is deleted: the loop of run_timers
  // does not end any more when all of them are due.
  method DeletedTimerStalls(passes: nat) returns (ended: bool)
    requires passes > 2
    ensures !ended
  {
    var sentinel := new T.Node(E.Timer(0, 0, false, false, 0, 0));
    var base := new E.EventBase(sentinel);
    AddNew(base, 1, 3000000);
    AddNew(base, 2, 3000000);
    AddNew(base, 3, 3000000);
    ended := base.StallAtRoot(3000000, passes);
  }

  // A timer of 3 milliseconds that is the only one and was added at time 0: it is not called at 2,999,999 nanoseconds and is
  // called at 3,000,000.
  method ThreeMillis() returns (early: seq<(int, int)>, late: seq<(int, int)>)
    ensures early == [] && late == [(0, 0)]
  {
    early := OneTimer(3, 2_999_999);
    late := OneTimer(3, 3_000_000);
  }

  method OneTimer(interval: nat, now: nat) returns (calls: seq<(int, int)>)
    requires interval < 1_000_000
    ensures calls == if now >= interval * 1_000_000 then [(0, 0)] else []
  {
    var sentinel := new T.Node(E.Timer(0, 0, false, false, 0, 0));
    var base := new E.EventBase(sentinel);
    var t := NewTimer(interval);
    ghost var k;
    calls, k := base.AddAndRun(t, 0, now);
  }

  // ---------- the bytes of a database ----------

  const Z3: string := "\0\0\0"
  const Z7: string := "\0\0\0\0\0\0\0"
  const FREE8: string := "\U{FF}\U{FF}\U{FF}\U{FF}\U{FF}\U{FF}\U{FF}\U{FF}"

  // A small number has its byte first.
  lemma SmallNumber(n: nat)
    requires n < 256
    ensures Le(n, 8) == [n as char] + Z7 && Le(n, 4) == [n as char] + Z3
  {
    assert Le(0, 3) == Z3 by {
      assert Le(0, 2) == ['\0'] + Le(0, 1);
    }
    assert Le(0, 6) == ['\0'] + Le(0, 5) && Le(0, 4) == ['\0'] + Le(0, 3);
    assert Le(0, 7) == Z7;
  }

  // A record byte by byte: the length of the value, the id, the place of the next record, and the value
  ghost function RecordText(id: nat, next: string, v: string): string
    requires id < 256 && |v| < 256
  {
    [|v| as char] + Z3 + ([id as char] + Z7) + next + v
  }

  lemma RecordIsText(f: string, p: nat, id: nat, next: nat, v: string)
    requires D.RecordAt(f, p, id, next, v) && id < 256 && |v| < 256
    ensures Holds(f, p, RecordText(id, Le(next, 8), v))
  {
    SmallNumber(|v|);
    SmallNumber(id);
    HoldsPart(f, p, [|v| as char] + Z3, [id as char] + Z7);
    HoldsPart(f, p, [|v| as char] + Z3 + ([id as char] + Z7), Le(next, 8));
    HoldsPart(f, p, [|v| as char] + Z3 + ([id as char] + Z7) + Le(next, 8), v);
  }

  // A file of one bucket that holds two short values, byte by byte: two ids have been given out, there is one bucket, its chain
  // begins at byte 24, and goes on behind the first record.
  lemma TwoValues(f: string, v: string, w: string)
    requires D.Valid(f, 1, [v, w]) && |v| < 200 && |w| < 256
    ensures f == (['\U{2}'] + Z7) + (['\U{1}'] + Z7) + (['\U{18}'] + Z7)
                 + RecordText(0, [(44 + |v|) as char] + Z7, v) + RecordText(1, FREE8, w)
  {
    TwoHeld(f, [v, w]);
    SmallNumber(2);
    SmallNumber(1);
    SmallNumber(24);
    SmallNumber(44 + |v|);
    RecordIsText(f, 24, 0, 44 + |v|, v);
    FreeIsText();
    RecordIsText(f, 44 + |v|, 1, D.DBID_FREE, w);
    Joined(f, ['\U{2}'] + Z7, ['\U{1}'] + Z7, ['\U{18}'] + Z7, RecordText(0, [(44 + |v|) as char] + Z7, v),
           RecordText(1, FREE8, w));
  }

  lemma FreeIsText()
    ensures Le(D.DBID_FREE, 8) == FREE8
  {
    U.FreeBytes();
  }

  lemma TwoHeld(f: string, c: seq<string>)
    requires D.Valid(f, 1, c) && |c| == 2
    ensures var second := 44 + |c[0]|;
      && Holds(f, 0, Le(2, 8)) && Holds(f, 8, Le(1, 8)) && Holds(f, 16, Le(24, 8))
      && D.RecordAt(f, 24, 0, second, c[0]) && D.RecordAt(f, second, 1, D.DBID_FREE, c[1]) && |f| == second + 20 + |c[1]|
  {
    assert D.Off(1, c, 0) == 24;
    assert D.Off(1, c, 1) == 44 + |c[0]|;
    assert D.Off(1, c, 2) == 64 + |c[0]| + |c[1]|;
    assert D.BucketHeld(f, 1, c, 0) && D.RecordHeld(f, 1, c, 0) && D.RecordHeld(f, 1, c, 1);
  }

  // Pieces that stand one behind the other, and fill the file
  lemma Joined(f: string, a: string, b: string, c: string, d: string, e: string)
    requires Holds(f, 0, a) && Holds(f, |a|, b) && Holds(f, |a| + |b|, c) && Holds(f, |a| + |b| + |c|, d)
    requires Holds(f, |a| + |b| + |c| + |d|, e) && |f| == |a| + |b| + |c| + |d| + |e|
    ensures f == a + b + c + d + e
  {
    HoldsPart(f, 0, a, b);
    HoldsPart(f, 0, a + b, c);
    HoldsPart(f, 0, a + b + c, d);
    HoldsPart(f, 0, a + b + c + d, e);
  }
}
