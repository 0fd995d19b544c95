/** Requests as they are written (section 2.1 of RFC 9112), and what parsing a written request returns. */
module Render {
  import opened Common
  import opened Decimal
  import opened Http
  import opened Chunks

  datatype Parts = Parts(verb: nat, version: nat, uri: string, headers: seq<(string, string)>, body: string)

  ghost function StatusText(p: Parts): string
    requires p.verb < |METHODS| && p.version < |VERSIONS|
  {
    METHODS[p.verb] + " " + p.uri + " " + VERSIONS[p.version] + "\r\n"
  }

  ghost function HeaderText(h: (string, string)): string
  {
    h.0 + ": " + h.1 + "\r\n"
  }

  ghost function HeadersText(hs: seq<(string, string)>): string
  {
    if hs == [] then "" else HeaderText(hs[0]) + HeadersText(hs[1..])
  }

  ghost function Render(p: Parts): string
    requires p.verb < |METHODS| && p.version < |VERSIONS|
  {
    StatusText(p) + HeadersText(p.headers) + "\r\n" + p.body
  }

  // Neither end is a blank.
  ghost predicate Tidy(s: string)
  {
    s != "" ==> !IsBlank(s[0]) && !IsBlank(s[|s| - 1])
  }

  ghost predicate WellFormedHeader(h: (string, string))
  {
    && ':' !in h.0 && '\n' !in h.0 && Tidy(h.0)
    && '\n' !in h.1 && Tidy(h.1)
  }

  ghost predicate WellFormed(p: Parts)
  {
    && p.verb < |METHODS| && p.version < |VERSIONS|
    && ' ' !in p.uri && '\n' !in p.uri
    && forall i :: 0 <= i < |p.headers| ==> WellFormedHeader(p.headers[i])
  }

  // ---------- lines ----------

  // line ends with its only line feed
  ghost predicate IsLine(line: string)
  {
    line != "" && line[|line| - 1] == '\n' && '\n' !in line[..|line| - 1]
  }

  lemma LineEnd(d: string, from: nat, line: string)
    requires IsLine(line) && from + |line| <= |d| && d[from..from + |line|] == line
    ensures IndexOf(d, '\n', from, |d|) == from + |line| - 1
  {
    var n := from + |line| - 1;
    forall k | from <= k < n ensures d[k] != '\n' {
      assert d[k] == line[k - from] && line[k - from] in line[..|line| - 1];
    }
    assert d[n] == line[|line| - 1];
    IndexOfUnique(d, '\n', from, |d|, n);
  }

  lemma {:induction false} SkipBlanksIs(d: string, from: nat, end: nat, i: nat)
    requires from <= i <= end <= |d|
    requires forall k :: from <= k < i ==> IsBlank(d[k])
    requires i < end ==> !IsBlank(d[i])
    ensures SkipBlanks(d, from, end) == i
    decreases end - from
  {
    if from < i {
      SkipBlanksIs(d, from + 1, end, i);
    }
  }

  lemma {:induction false} DropBlanksIs(d: string, from: nat, end: nat, i: nat)
    requires from <= i <= end <= |d|
    requires forall k :: i <= k < end ==> IsBlank(d[k])
    requires from < i ==> !IsBlank(d[i - 1])
    ensures DropBlanks(d, from, end) == i
    decreases end - from
  {
    if i < end {
      DropBlanksIs(d, from, end - 1, i);
    }
  }

  // What trim leaves of `a` blanks, a tidy text of length n, and more blanks
  lemma TrimIs(d: string, off: nat, a: nat, n: nat, len: nat)
    requires a + n <= len && off + len <= |d|
    requires forall k :: off <= k < off + a || off + a + n <= k < off + len ==> IsBlank(d[k])
    requires n > 0 ==> !IsBlank(d[off + a]) && !IsBlank(d[off + a + n - 1])
    ensures Trim(d, Slice(off, len)) == if n > 0 then Slice(off + a, n) else Slice(off + len, 0)
  {
    if n > 0 {
      SkipBlanksIs(d, off, off + len, off + a);
      DropBlanksIs(d, off + a, off + len, off + a + n);
    } else {
      SkipBlanksIs(d, off, off + len, off + len);
    }
  }

  lemma HeaderLineIs(h: (string, string))
    requires WellFormedHeader(h)
    ensures IsLine(HeaderText(h)) && HeaderText(h)[0] != '\r'
    ensures IndexOf(HeaderText(h), ':', 0, |HeaderText(h)|) == |h.0|
  {
    var line := HeaderText(h);
    forall k | 0 <= k < |line| - 1 ensures line[k] != '\n' {
      if k < |h.0| {
        assert line[k] == h.0[k];
      } else if |h.0| + 2 <= k < |line| - 2 {
        assert line[k] == h.1[k - |h.0| - 2];
      }
    }
    forall k | 0 <= k < |h.0| ensures line[k] != ':' {
      assert line[k] == h.0[k];
    }
    assert line[|h.0|] == ':';
    IndexOfUnique(line, ':', 0, |line|, |h.0|);
    if h.0 != "" {
      assert line[0] == h.0[0];
    }
  }

  // Where the key and the value of a header written at `base` are found
  ghost function Place(h: (string, string), base: nat): Header
  {
    Header(Slice(base, |h.0|), Slice(base + |h.0| + (if h.1 == "" then 4 else 2), |h.1|))
  }

  lemma ReadHeaderIs(h: (string, string), base: nat)
    requires WellFormedHeader(h)
    ensures ReadHeader(HeaderText(h), base) == Some(Place(h, base))
  {
    var line := HeaderText(h);
    HeaderLineIs(h);
    var a := |h.0|;
    var ts := Split(line, 0, |line|, ':', 2);
    assert Split(line, a + 1, |line|, ':', 1) == [Slice(a + 1, |line| - a - 1)];
    assert ts == [Slice(0, a), Slice(a + 1, |line| - a - 1)];
    if a > 0 {
      assert line[0] == h.0[0] && line[a - 1] == h.0[a - 1];
    }
    TrimIs(line, 0, 0, a, a);
    assert line[a + 1] == ' ' && line[|line| - 2] == '\r' && line[|line| - 1] == '\n';
    if h.1 != "" {
      assert line[a + 2] == h.1[0] && line[a + 1 + |h.1|] == h.1[|h.1| - 1];
    }
    TrimIs(line, a + 1, 1, |h.1|, |line| - a - 1);
  }

  // ---------- the status line ----------

  lemma {:induction false} FindEntry(table: seq<string>, i: nat)
    requires i < |table| && forall j :: 0 <= j < i ==> table[j] != table[i]
    ensures Find(table, table[i]) == i
  {
    if i > 0 {
      assert table[0] != table[i];
      forall j | 0 <= j < i - 1 ensures table[1..][j] != table[1..][i - 1] {
        assert table[j + 1] != table[i];
      }
      FindEntry(table[1..], i - 1);
    }
  }

  lemma MethodsDiffer(j: nat, i: nat)
    requires j < i < |METHODS|
    ensures METHODS[j] != METHODS[i]
  {
    var a, b := METHODS[j], METHODS[i];
    assert a[0] != b[0] || a[1] != b[1];
  }

  // The methods are words without blanks, and distinct.
  lemma MethodWord(i: nat)
    requires i < |METHODS|
    ensures ' ' !in METHODS[i] && '\n' !in METHODS[i] && METHODS[i] != ""
  {
  }

  lemma MethodFound(i: nat)
    requires i < |METHODS|
    ensures Find(METHODS, METHODS[i]) == i
  {
    forall j | 0 <= j < i ensures METHODS[j] != METHODS[i] {
      MethodsDiffer(j, i);
    }
    FindEntry(METHODS, i);
  }

  lemma VersionWord(i: nat)
    requires i < |VERSIONS|
    ensures ' ' !in VERSIONS[i] && '\n' !in VERSIONS[i] && Tidy(VERSIONS[i]) && |VERSIONS[i]| == 8
    ensures Find(VERSIONS, VERSIONS[i]) == i
  {
    forall j | 0 <= j < i ensures VERSIONS[j] != VERSIONS[i] {
      var a, b := VERSIONS[j], VERSIONS[i];
      assert a[5] != b[5] || a[7] != b[7];
    }
    FindEntry(VERSIONS, i);
  }

  lemma StatusLineIsLine(p: Parts)
    requires WellFormed(p)
    ensures IsLine(StatusText(p))
  {
    var m, v, line := METHODS[p.verb], VERSIONS[p.version], StatusText(p);
    MethodWord(p.verb);
    VersionWord(p.version);
    forall k | 0 <= k < |line| - 1 ensures line[k] != '\n' {
      if k < |m| {
        assert line[k] == m[k];
      } else if |m| < k < |m| + 1 + |p.uri| {
        assert line[k] == p.uri[k - |m| - 1];
      } else if |m| + 1 + |p.uri| < k < |line| - 2 {
        assert line[k] == v[k - |m| - 2 - |p.uri|];
      }
    }
  }

  lemma StatusTokens(p: Parts)
    requires WellFormed(p)
    ensures var m, line := METHODS[p.verb], StatusText(p);
      Split(line, 0, |line|, ' ', 3)
        == [Slice(0, |m|), Slice(|m| + 1, |p.uri|), Slice(|m| + 2 + |p.uri|, |line| - |m| - 2 - |p.uri|)]
  {
    var m, line := METHODS[p.verb], StatusText(p);
    MethodWord(p.verb);
    forall k | 0 <= k < |m| ensures line[k] != ' ' {
      assert line[k] == m[k];
    }
    IndexOfUnique(line, ' ', 0, |line|, |m|);
    forall k | |m| + 1 <= k < |m| + 1 + |p.uri| ensures line[k] != ' ' {
      assert line[k] == p.uri[k - |m| - 1];
    }
    var n := |m| + 1 + |p.uri|;
    IndexOfUnique(line, ' ', |m| + 1, |line|, n);
    assert Split(line, n + 1, |line|, ' ', 1) == [Slice(n + 1, |line| - n - 1)];
    assert Split(line, |m| + 1, |line|, ' ', 2) == [Slice(|m| + 1, |p.uri|)] + Split(line, n + 1, |line|, ' ', 1);
  }

  ghost function AfterStatus(r: Req, p: Parts): Req
    requires WellFormed(p)
  {
    r.(verb := p.verb, version := p.version, uri := Slice(|METHODS[p.verb]| + 1, |p.uri|), readBytes := |StatusText(p)|)
  }

  // The last token of the status line is the version, when it has been trimmed.
  lemma VersionTrimmed(p: Parts)
    requires WellFormed(p)
    ensures var v, line := VERSIONS[p.version], StatusText(p);
      var b := |METHODS[p.verb]| + 2 + |p.uri|;
      b <= |line| && Trim(line, Slice(b, |line| - b)) == Slice(b, |v|) && Text(line, Slice(b, |v|)) == v
  {
    var v, line := VERSIONS[p.version], StatusText(p);
    VersionWord(p.version);
    var b := |METHODS[p.verb]| + 2 + |p.uri|;
    assert line[b..b + |v|] == v && line[b] == v[0] && line[b + |v| - 1] == v[|v| - 1];
    TrimIs(line, b, 0, |v|, |line| - b);
  }

  lemma ReadStatusIs(r: Req, p: Parts)
    requires WellFormed(p)
    ensures ReadStatus(r, StatusText(p)) == (ReqOk, AfterStatus(r, p))
  {
    var m, line := METHODS[p.verb], StatusText(p);
    StatusTokens(p);
    MethodFound(p.verb);
    VersionWord(p.version);
    VersionTrimmed(p);
    assert Text(line, Slice(0, |m|)) == m;
  }

  // ---------- the headers ----------

  ghost function Places(hs: seq<(string, string)>, base: nat): seq<Header>
  {
    if hs == [] then [] else [Place(hs[0], base)] + Places(hs[1..], base + |HeaderText(hs[0])|)
  }

  // One header line at the place r has read to
  lemma HeaderStepIs(r: Req, d: string, h: (string, string))
    requires WellFormedHeader(h) && r.readBytes + |HeaderText(h)| <= |d|
    requires d[r.readBytes..r.readBytes + |HeaderText(h)|] == HeaderText(h)
    ensures HeaderStep(r, d, |d|)
      == Go(r.(headers := r.headers + [Place(h, r.readBytes)], readBytes := r.readBytes + |HeaderText(h)|))
  {
    HeaderLineIs(h);
    LineEnd(d, r.readBytes, HeaderText(h));
    ReadHeaderIs(h, r.readBytes);
    assert d[r.readBytes] == HeaderText(h)[0];
  }

  // What the headers, the blank line and the body leave of d once its first line has been read
  lemma Rest(d: string, base: nat, line: string, more: string)
    requires base <= |d| && d[base..] == line + more
    ensures base + |line| <= |d| && d[base..base + |line|] == line && d[base + |line|..] == more
  {
    assert |d[base..]| == |line| + |more|;
    assert d[base..][..|line|] == line && d[base..][|line|..] == more;
  }

  lemma HeadersTextSplit(d: string, base: nat, hs: seq<(string, string)>, body: string)
    requires hs != [] && base <= |d| && d[base..] == HeadersText(hs) + "\r\n" + body
    ensures var next := base + |HeaderText(hs[0])|;
      next <= |d| && d[base..next] == HeaderText(hs[0]) && d[next..] == HeadersText(hs[1..]) + "\r\n" + body
  {
    var line, more := HeaderText(hs[0]), HeadersText(hs[1..]) + "\r\n" + body;
    assert HeadersText(hs) + "\r\n" + body == line + more;
    Rest(d, base, line, more);
  }

  // What parse_headers has read when it has come to the end of the headers hs
  ghost function AfterHeaderLines(r: Req, hs: seq<(string, string)>): Req
  {
    r.(headers := r.headers + Places(hs, r.readBytes),
       readBytes := r.readBytes + |HeadersText(hs)| + if |r.headers| + |hs| < MAX_HEADERS then 2 else 0)
  }

  lemma AfterHeaderLinesStep(r: Req, hs: seq<(string, string)>)
    requires hs != []
    ensures var next := r.readBytes + |HeaderText(hs[0])|;
      AfterHeaderLines(r, hs)
        == AfterHeaderLines(r.(headers := r.headers + [Place(hs[0], r.readBytes)], readBytes := next), hs[1..])
  {
  }

  lemma NoHeaderLines(r: Req, d: string, body: string)
    requires |r.headers| <= MAX_HEADERS && r.readBytes <= |d| && d[r.readBytes..] == "\r\n" + body
    ensures HeaderLines(r, d, |d|) == (ReqOk, AfterHeaderLines(r, []))
  {
    assert d[r.readBytes] == d[r.readBytes..][0] == '\r' && d[r.readBytes + 1] == d[r.readBytes..][1] == '\n';
    assert r.headers + Places([], r.readBytes) == r.headers;
  }

  lemma {:induction false} HeaderLinesIs(r: Req, d: string, hs: seq<(string, string)>, body: string)
    requires forall i :: 0 <= i < |hs| ==> WellFormedHeader(hs[i])
    requires |r.headers| + |hs| <= MAX_HEADERS
    requires r.readBytes <= |d| && d[r.readBytes..] == HeadersText(hs) + "\r\n" + body
    ensures HeaderLines(r, d, |d|) == (ReqOk, AfterHeaderLines(r, hs))
    decreases |hs|
  {
    if hs == [] {
      NoHeaderLines(r, d, body);
    } else {
      HeadersTextSplit(d, r.readBytes, hs, body);
      HeaderStepIs(r, d, hs[0]);
      AfterHeaderLinesStep(r, hs);
      var next := r.readBytes + |HeaderText(hs[0])|;
      HeaderLinesIs(r.(headers := r.headers + [Place(hs[0], r.readBytes)], readBytes := next), d, hs[1..], body);
    }
  }

  // The header h, as parsed from d, has the key and the value of t, and the value is followed by the end of its line.
  ghost predicate Placed(d: string, h: Header, t: (string, string))
  {
    && Text(d, h.key) == t.0 && Text(d, h.val) == t.1 && 0 <= h.val.off <= |d|
    && (t.1 != "" ==> h.val.len == |t.1| && h.val.off + |t.1| < |d| && d[h.val.off + |t.1|] == '\r')
  }

  lemma PlaceText(d: string, h: (string, string), base: nat)
    requires base + |HeaderText(h)| <= |d| && d[base..base + |HeaderText(h)|] == HeaderText(h)
    ensures Placed(d, Place(h, base), h)
  {
    var line := HeaderText(h);
    assert line[..|h.0|] == h.0 && line[|h.0| + 2..|h.0| + 2 + |h.1|] == h.1;
    forall k | 0 <= k < |line| ensures d[base + k] == line[k] {
    }
    assert d[base..base + |h.0|] == h.0;
    assert d[base + |h.0| + 2..base + |h.0| + 2 + |h.1|] == h.1;
  }

  lemma PlacesAt(hs: seq<(string, string)>, base: nat, j: nat)
    requires j < |hs|
    ensures |Places(hs, base)| == |hs| && |Places(hs[1..], base + |HeaderText(hs[0])|)| == |hs| - 1
    ensures Places(hs, base)[j]
      == if j == 0 then Place(hs[0], base) else Places(hs[1..], base + |HeaderText(hs[0])|)[j - 1]
  {
    PlacesLength(hs, base);
    PlacesLength(hs[1..], base + |HeaderText(hs[0])|);
  }

  lemma {:induction false} PlacesText(d: string, base: nat, hs: seq<(string, string)>, body: string, j: nat)
    requires base <= |d| && d[base..] == HeadersText(hs) + "\r\n" + body && j < |hs|
    ensures |Places(hs, base)| == |hs| && Placed(d, Places(hs, base)[j], hs[j])
    decreases |hs|
  {
    HeadersTextSplit(d, base, hs, body);
    PlacesAt(hs, base, j);
    if j == 0 {
      PlaceText(d, hs[0], base);
    } else {
      PlacesText(d, base + |HeaderText(hs[0])|, hs[1..], body, j - 1);
    }
  }

  lemma PlacesLength(hs: seq<(string, string)>, base: nat)
    ensures |Places(hs, base)| == |hs|
    decreases |hs|
  {
  }

  // The first header written with the given key
  ghost function FindKey(hs: seq<(string, string)>, key: string): (i: nat)
    ensures i <= |hs|
  {
    if hs == [] || hs[0].0 == key then 0 else 1 + FindKey(hs[1..], key)
  }

  lemma KeyText(d: string, h: (string, string), base: nat)
    requires base + |HeaderText(h)| <= |d| && d[base..base + |HeaderText(h)|] == HeaderText(h)
    ensures Text(d, Place(h, base).key) == h.0
  {
    PlaceText(d, h, base);
  }

  lemma FindFirst(d: string, h: Header, hs: seq<Header>, key: string)
    ensures FindHeader(d, [h] + hs, key) == if Text(d, h.key) == key then 0 else 1 + FindHeader(d, hs, key)
  {
    assert ([h] + hs)[1..] == hs;
  }

  lemma {:induction false} FindPlace(d: string, base: nat, hs: seq<(string, string)>, body: string, key: string)
    requires base <= |d| && d[base..] == HeadersText(hs) + "\r\n" + body
    ensures FindHeader(d, Places(hs, base), key) == FindKey(hs, key)
    decreases |hs|
  {
    if hs != [] {
      var next := base + |HeaderText(hs[0])|;
      HeadersTextSplit(d, base, hs, body);
      KeyText(d, hs[0], base);
      FindPlace(d, next, hs[1..], body, key);
      FindFirst(d, Place(hs[0], base), Places(hs[1..], next), key);
    }
  }

  // ---------- the whole request ----------

  // A Content-Length, if there is one, is written in digits and gives the length of the body; without one there is no body.
  ghost predicate LengthMatches(p: Parts)
  {
    var i := FindKey(p.headers, CONTENT_LENGTH);
    if i == |p.headers| then p.body == ""
    else
      var v := p.headers[i].1;
      v != "" && AllDigits(v) && Value(v) == |p.body| && |p.body| <= MAX_BODY
  }

  lemma LengthRead(d: string, off: nat, v: string)
    requires v != "" && AllDigits(v) && Value(v) <= MAX_BODY
    requires off + |v| < |d| && d[off..off + |v|] == v && !IsDigit(d[off + |v|])
    ensures ToInt(Strtol(d, off)) == Value(v) && NumberEnd(d, off) < |d|
  {
    NumberRead(d, off, off + |v|);
  }

  lemma TakeLengthIs(r: Req, d: string, base: nat, p: Parts)
    requires base <= |d| && d[base..] == HeadersText(p.headers) + "\r\n" + p.body
    requires r.headers == Places(p.headers, base) && r.body == Slice(0, 0) && LengthMatches(p)
    ensures var body := if FindKey(p.headers, CONTENT_LENGTH) == |p.headers| then Slice(0, 0) else Slice(r.readBytes, |p.body|);
      TakeLength(r, d) == (ReqOk, r.(state := Body, body := body))
  {
    FindPlace(d, base, p.headers, p.body, CONTENT_LENGTH);
    PlacesLength(p.headers, base);
    var i := FindKey(p.headers, CONTENT_LENGTH);
    if i < |p.headers| {
      PlacesText(d, base, p.headers, p.body, i);
      LengthRead(d, r.headers[i].val.off, p.headers[i].1);
    }
  }

  ghost function PartsOf(r: Req, d: string): Parts
  {
    Parts(r.verb, r.version, Text(d, r.uri),
          seq(|r.headers|, i requires 0 <= i < |r.headers| => (Text(d, r.headers[i].key), Text(d, r.headers[i].val))),
          Text(d, r.body))
  }

  ghost predicate RoundTrips(p: Parts)
    requires WellFormed(p)
  {
    var (v, r) := ParseAll(BLANK, Render(p));
    v == ReqOk && PartsOf(r, Render(p)) == p
  }

  // What comes behind the headers, as far as parse_headers has left it
  ghost function Remainder(p: Parts): string
  {
    if |p.headers| < MAX_HEADERS then p.body else "\r\n" + p.body
  }

  lemma RenderLayout(p: Parts)
    requires WellFormed(p)
    ensures var d, n := Render(p), |StatusText(p)|;
      && n <= |d| && d[..n] == StatusText(p) && d[n..] == HeadersText(p.headers) + "\r\n" + p.body
      && |d| == n + |HeadersText(p.headers)| + 2 + |p.body|
      && d[n + |HeadersText(p.headers)| + if |p.headers| < MAX_HEADERS then 2 else 0..] == Remainder(p)
  {
    var d, n := Render(p), |StatusText(p)|;
    assert d == StatusText(p) + (HeadersText(p.headers) + "\r\n" + p.body);
    assert d == StatusText(p) + HeadersText(p.headers) + ("\r\n" + p.body);
  }

  // The request when its headers have been read
  ghost function AtHeaders(p: Parts): Req
    requires WellFormed(p)
  {
    AfterHeaderLines(AfterStatus(BLANK, p).(state := Headers), p.headers)
  }

  lemma StatusIsRead(p: Parts)
    requires WellFormed(p)
    ensures StatusLine(BLANK, Render(p), |Render(p)|) == (ReqOk, AfterStatus(BLANK, p))
  {
    var d, n := Render(p), |StatusText(p)|;
    RenderLayout(p);
    StatusLineIsLine(p);
    LineEnd(d, 0, StatusText(p));
    ReadStatusIs(BLANK, p);
    assert d[..n - 1 + 1] == StatusText(p);
  }

  lemma HeadersAreRead(p: Parts)
    requires WellFormed(p) && |p.headers| <= MAX_HEADERS
    ensures HeaderPhase(BLANK, Render(p)) == (ReqOk, AtHeaders(p))
  {
    StatusIsRead(p);
    RenderLayout(p);
    HeaderLinesIs(AfterStatus(BLANK, p).(state := Headers), Render(p), p.headers, p.body);
  }

  lemma BodyIsTaken(r: Req, d: string, body: Slice, n: nat)
    requires r.readBytes + n <= |d| && (body == Slice(r.readBytes, n) || (body == Slice(0, 0) && n == 0))
    ensures var (v, r1) := TakeBody(r.(state := Body, body := body), |d|);
      && v == ReqOk && r1.body == body
      && r1.(readBytes := 0) == r.(readBytes := 0, state := ReadComplete, body := body,
                                   keepAlive := r.keepAlive || r.version == HTTP_VERSION_11)
    ensures Text(d, body) == d[r.readBytes..][..n]
  {
  }

  // Parsing a written request of at most MAX_HEADERS headers succeeds, and returns the headers and the next bytes as its body.
  lemma RenderIsParsed(p: Parts)
    requires WellFormed(p) && LengthMatches(p) && |p.headers| <= MAX_HEADERS
    ensures var (v, r) := ParseAll(BLANK, Render(p));
      && v == ReqOk
      && r.(readBytes := 0) == AtHeaders(p).(readBytes := 0, state := ReadComplete, body := r.body,
                                            keepAlive := p.version == HTTP_VERSION_11)
      && Text(Render(p), r.body) == Remainder(p)[..|p.body|]
  {
    var d, r := Render(p), AtHeaders(p);
    RenderLayout(p);
    HeadersAreRead(p);
    ParseIsPhases(BLANK, d);
    AtHeadersIs(p);
    TakeLengthIs(r, d, |StatusText(p)|, p);
    BodyIsTaken(r, d, TakeLength(r, d).1.body, |p.body|);
  }

  lemma AtHeadersIs(p: Parts)
    requires WellFormed(p)
    ensures var r := AtHeaders(p);
      && r.headers == Places(p.headers, |StatusText(p)|) && r.body == Slice(0, 0)
      && r.version == p.version && r.verb == p.verb && !r.keepAlive
      && r.uri == Slice(|METHODS[p.verb]| + 1, |p.uri|)
      && r.readBytes == |StatusText(p)| + |HeadersText(p.headers)| + if |p.headers| < MAX_HEADERS then 2 else 0
  {
  }

  lemma {:induction false} AtMostMaxHeaders(r: Req, d: string)
    requires |r.headers| <= MAX_HEADERS
    ensures |HeaderLines(r, d, |d|).1.headers| <= MAX_HEADERS
    decreases MAX_HEADERS - |r.headers|
  {
    if |r.headers| < MAX_HEADERS {
      var s := HeaderStep(r, d, |d|);
      if s.Go? {
        AtMostMaxHeaders(s.req, d);
      }
    }
  }

  lemma ParsedHeaders(r: Req, d: string)
    requires r.state == Init && |r.headers| <= MAX_HEADERS
    ensures |ParseAll(r, d).1.headers| <= MAX_HEADERS
  {
    StatusLinePrefix(r, d, d);
    AtMostMaxHeaders(StatusLine(r, d, |d|).1.(state := Headers), d);
    ParseIsPhases(r, d);
  }

  lemma HeadersTextBack(p: Parts, r: Req)
    requires WellFormed(p) && |p.headers| <= MAX_HEADERS && r.headers == AtHeaders(p).headers
    ensures PartsOf(r, Render(p)).headers == p.headers
  {
    RenderLayout(p);
    AtHeadersIs(p);
    PlacesLength(p.headers, |StatusText(p)|);
    forall j | 0 <= j < |p.headers| ensures PartsOf(r, Render(p)).headers[j] == p.headers[j] {
      PlacesText(Render(p), |StatusText(p)|, p.headers, p.body, j);
    }
  }

  lemma UriBack(p: Parts)
    requires WellFormed(p)
    ensures Text(Render(p), Slice(|METHODS[p.verb]| + 1, |p.uri|)) == p.uri
  {
    RenderLayout(p);
    var m := METHODS[p.verb];
    assert StatusText(p)[|m| + 1..|m| + 1 + |p.uri|] == p.uri;
    assert Render(p)[..|StatusText(p)|][|m| + 1..|m| + 1 + |p.uri|] == Render(p)[|m| + 1..|m| + 1 + |p.uri|];
  }

  lemma ParsedParts(p: Parts)
    requires WellFormed(p) && LengthMatches(p) && |p.headers| <= MAX_HEADERS
    ensures var (v, r) := ParseAll(BLANK, Render(p));
      v == ReqOk && PartsOf(r, Render(p)) == p.(body := Remainder(p)[..|p.body|])
  {
    RenderIsParsed(p);
    AtHeadersIs(p);
    HeadersTextBack(p, ParseAll(BLANK, Render(p)).1);
    UriBack(p);
  }

  // A written request comes back from parsing exactly when it has fewer than MAX_HEADERS headers, or has that many and a
  // body that is the same when the blank line that parse_headers then leaves unread is put before it.
  lemma RoundTrip(p: Parts)
    requires WellFormed(p) && LengthMatches(p)
    ensures RoundTrips(p) <==> |p.headers| < MAX_HEADERS || (|p.headers| == MAX_HEADERS && p.body <= "\r\n" + p.body)
  {
    if |p.headers| <= MAX_HEADERS {
      ParsedParts(p);
      assert p.body <= Remainder(p) <==> Remainder(p)[..|p.body|] == p.body;
    } else {
      ParsedHeaders(BLANK, Render(p));
      assert |PartsOf(ParseAll(BLANK, Render(p)).1, Render(p)).headers| <= MAX_HEADERS;
    }
  }

  // ---------- written requests that arrive in chunks ----------

  lemma HeaderBlock(p: Parts)
    requires WellFormed(p) && |p.headers| < MAX_HEADERS
    ensures var d, n, m := Render(p), |StatusText(p)|, AtHeaders(p).readBytes;
      n <= m <= |d| && d[..m][n..] == HeadersText(p.headers) + "\r\n" + ""
  {
    RenderLayout(p);
    AtHeadersIs(p);
    var d, n, m := Render(p), |StatusText(p)|, AtHeaders(p).readBytes;
    assert d[..m][n..] == d[n..][..m - n];
  }

  // A written Content-Length ends before the header block does.
  lemma LengthWritten(p: Parts, i: nat)
    requires LengthMatches(p) && i == FindKey(p.headers, CONTENT_LENGTH) && i < |p.headers|
    ensures var v := p.headers[i].1; v != "" && AllDigits(v) && Value(v) <= MAX_BODY
  {
  }

  lemma BlockSettled(r: Req, b: string, n: nat, p: Parts)
    requires n <= |b| && b[n..] == HeadersText(p.headers) + "\r\n" + "" && LengthMatches(p)
    requires r.headers == Places(p.headers, n) && ReadWithin(r, |b|)
    ensures LengthSettled(r, b)
  {
    FindPlace(b, n, p.headers, "", CONTENT_LENGTH);
    PlacesLength(p.headers, n);
    var i := FindKey(p.headers, CONTENT_LENGTH);
    if i < |p.headers| {
      LengthWritten(p, i);
      PlacesText(b, n, p.headers, "", i);
      NumberEnds(b, r.headers[i], p.headers[i]);
    }
  }

  // The number of a placed header ends with its value.
  lemma NumberEnds(b: string, h: Header, t: (string, string))
    requires Placed(b, h, t) && t.1 != "" && AllDigits(t.1) && Value(t.1) <= MAX_BODY
    ensures NumberEnd(b, h.val.off) < |b|
  {
    LengthRead(b, h.val.off, t.1);
  }

  lemma WrittenIsSettled(p: Parts)
    requires WellFormed(p) && LengthMatches(p) && |p.headers| < MAX_HEADERS
    ensures Settled(BLANK, Render(p))
  {
    HeadersAreRead(p);
    HeaderPhasePrefix(BLANK, Render(p), Render(p));
    AtHeadersIs(p);
    HeaderBlock(p);
    BlockSettled(AtHeaders(p), Render(p)[..AtHeaders(p).readBytes], |StatusText(p)|, p);
  }

  lemma SameParts(a: (Verdict, Req), b: (Verdict, Req), d: string)
    requires Same(a, b)
    ensures PartsOf(a.1, d) == PartsOf(b.1, d)
  {
    assert a.1.headers == a.1.(readBytes := 0).headers && b.1.headers == b.1.(readBytes := 0).headers;
  }

  lemma ParsedBack(p: Parts)
    requires WellFormed(p) && LengthMatches(p) && |p.headers| < MAX_HEADERS
    ensures var a := ParseAll(BLANK, Render(p)); a.0 == ReqOk && PartsOf(a.1, Render(p)) == p
  {
    RoundTrip(p);
  }

  lemma ChunkedSame(p: Parts, ds: seq<string>)
    requires WellFormed(p) && LengthMatches(p) && |p.headers| < MAX_HEADERS
    requires ds != [] && Growing(ds) && ds[|ds| - 1] == Render(p)
    ensures Same(Run(BLANK, ds), ParseAll(BLANK, Render(p)))
  {
    WrittenIsSettled(p);
    ChunkIndependence(BLANK, ds);
  }

  // Whatever the chunks in which a written request arrives, parsing comes to the parts it was written from.
  lemma ChunkedRoundTrip(p: Parts, ds: seq<string>)
    requires WellFormed(p) && LengthMatches(p) && |p.headers| < MAX_HEADERS
    requires ds != [] && Growing(ds) && ds[|ds| - 1] == Render(p)
    ensures var (v, r) := Run(BLANK, ds); v == ReqOk && PartsOf(r, Render(p)) == p
  {
    var a, w := Run(BLANK, ds), ParseAll(BLANK, Render(p));
    ChunkedSame(p, ds);
    ParsedBack(p);
    SameParts(a, w, Render(p));
  }
}
