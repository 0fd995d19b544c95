/** Request lines and headers by their literal texts. */
module Texts {
  import opened Common
  import opened Decimal
  import opened Http
  import opened Chunks
  import opened R = Render
  import opened Names

  lemma Tables()
    ensures |METHODS| == 9 && forall i :: 0 <= i < 9 ==> METHODS[i] == MethodName(i)
    ensures |VERSIONS| == 3 && forall i :: 0 <= i < 3 ==> VERSIONS[i] == VersionName(i)
  {
  }

  ghost predicate AllBlank(s: string)
  {
    forall i :: 0 <= i < |s| ==> s[i] == ' ' || s[i] == '\t' || s[i] == '\r' || s[i] == '\n'
  }

  // A request line: a method, a URI without spaces, and a version that blanks may surround, with spaces between them
  ghost predicate RequestLine(line: string, verb: nat, uri: string, before: string, version: nat, behind: string)
  {
    && verb < 9 && version < 3 && ' ' !in uri && AllBlank(before) && AllBlank(behind)
    && line == MethodName(verb) + " " + uri + " " + (before + VersionName(version) + behind)
  }

  // ---------- accepted lines are request lines ----------

  lemma {:induction false} Found(table: seq<string>, t: string)
    requires Find(table, t) < |table|
    ensures table[Find(table, t)] == t
    decreases |table|
  {
    if table[0] != t {
      Found(table[1..], t);
    }
  }

  lemma {:induction false} NotFound(table: seq<string>, t: string, i: nat)
    requires Find(table, t) == |table| && i < |table|
    ensures table[i] != t
    decreases |table|
  {
    if i > 0 {
      NotFound(table[1..], t, i - 1);
    }
  }

  // Three tokens of a line
  lemma ThreeTokens(line: string, ts: seq<Slice>)
    requires ts == Split(line, 0, |line|, ' ', 3) && |ts| == 3
    ensures line == Text(line, ts[0]) + " " + Text(line, ts[1]) + " " + Text(line, ts[2])
    ensures ' ' !in Text(line, ts[1]) && Within(ts[2], line)
  {
    SplitRejoins(line, 0, |line|, ' ', 3);
    TokenClean(line, 0, |line|, ' ', 3, 1);
    TokenWithin(line, 0, |line|, ' ', 3, 2);
    assert line[0..|line|] == line;
    JoinThree(line, ts);
  }

  lemma JoinThree(d: string, ts: seq<Slice>)
    requires |ts| == 3
    ensures Join(d, ts, ' ') == Text(d, ts[0]) + " " + Text(d, ts[1]) + " " + Text(d, ts[2])
  {
    assert ts[1..] == [ts[1], ts[2]] && ts[1..][1..] == [ts[2]];
    assert Join(d, [ts[2]], ' ') == Text(d, ts[2]);
    assert Join(d, [ts[1], ts[2]], ' ') == Text(d, ts[1]) + " " + Text(d, ts[2]);
  }

  // What trim cuts off on both sides is blank.
  lemma Trimmed(d: string, s: Slice) returns (before: string, behind: string)
    requires Within(s, d)
    ensures AllBlank(before) && AllBlank(behind) && Text(d, s) == before + Text(d, Trim(d, s)) + behind
  {
    var t := Trim(d, s);
    TrimMaximal(d, s);
    before, behind := d[s.off..t.off], d[t.off + t.len..s.off + s.len];
    assert d[s.off..t.off] + d[t.off..t.off + t.len] + d[t.off + t.len..s.off + s.len] == d[s.off..s.off + s.len];
  }

  // A status line that is accepted is a request line, with the method, URI and version that it says by their names.
  lemma AcceptedLine(r: Req, line: string) returns (before: string, behind: string)
    requires ReadStatus(r, line).0 == ReqOk
    ensures var r1 := ReadStatus(r, line).1;
      && RequestLine(line, r1.verb, Text(line, r1.uri), before, r1.version, behind)
      && r1 == r.(verb := r1.verb, version := r1.version, uri := r1.uri, readBytes := |line|)
  {
    var ts := Split(line, 0, |line|, ' ', 3);
    ThreeTokens(line, ts);
    var v := Text(line, Trim(line, ts[2]));
    before, behind := Trimmed(line, ts[2]);
    Found(METHODS, Text(line, ts[0]));
    Found(VERSIONS, v);
    Tables();
  }

  // ---------- request lines are accepted ----------

  lemma Tokens(a: string, u: string, rest: string)
    requires ' ' !in a && ' ' !in u
    ensures var line := a + " " + u + " " + rest;
      Split(line, 0, |line|, ' ', 3)
        == [Slice(0, |a|), Slice(|a| + 1, |u|), Slice(|a| + 2 + |u|, |rest|)]
  {
    var line, n := a + " " + u + " " + rest, |a| + 1 + |u|;
    forall k | 0 <= k < |a| ensures line[k] != ' ' {
      assert line[k] == a[k];
    }
    IndexOfUnique(line, ' ', 0, |line|, |a|);
    forall k | |a| + 1 <= k < n ensures line[k] != ' ' {
      assert line[k] == u[k - |a| - 1];
    }
    IndexOfUnique(line, ' ', |a| + 1, |line|, n);
    assert Split(line, n + 1, |line|, ' ', 1) == [Slice(n + 1, |line| - n - 1)];
    assert Split(line, |a| + 1, |line|, ' ', 2) == [Slice(|a| + 1, |u|)] + Split(line, n + 1, |line|, ' ', 1);
  }

  lemma VersionKept(line: string, off: nat, before: string, v: string, behind: string)
    requires AllBlank(before) && AllBlank(behind) && v != "" && !IsBlank(v[0]) && !IsBlank(v[|v| - 1])
    requires off + |before + v + behind| == |line| && line[off..] == before + v + behind
    ensures Text(line, Trim(line, Slice(off, |line| - off))) == v
  {
    var a, n := |before|, |v|;
    PartsAt(line, off, before, v, behind);
    TrimIs(line, off, a, n, |line| - off);
  }

  lemma PartsAt(line: string, off: nat, before: string, v: string, behind: string)
    requires off + |before + v + behind| == |line| && line[off..] == before + v + behind
    ensures forall k :: off <= k < off + |before| ==> line[k] == before[k - off]
    ensures line[off + |before|..off + |before| + |v|] == v
    ensures forall k :: 0 <= k < |v| ==> line[off + |before| + k] == v[k]
    ensures forall k :: off + |before| + |v| <= k < |line| ==> line[k] == behind[k - off - |before| - |v|]
  {
    forall k | off <= k < |line| ensures line[k] == (before + v + behind)[k - off] {
      assert line[k] == line[off..][k - off];
    }
  }

  lemma Pieces(m: string, u: string, rest: string)
    ensures var line := m + " " + u + " " + rest;
      Text(line, Slice(0, |m|)) == m && |line| == |m| + 2 + |u| + |rest| && line[|m| + 2 + |u|..] == rest
      && Text(line, Slice(|m| + 1, |u|)) == u
  {
  }

  lemma StatusFrom(r: Req, line: string, ts: seq<Slice>, verb: nat, version: nat)
    requires ts == Split(line, 0, |line|, ' ', 3) && |ts| == 3 && verb < |METHODS| && version < |VERSIONS|
    requires Find(METHODS, Text(line, ts[0])) == verb && Find(VERSIONS, Text(line, Trim(line, ts[2]))) == version
    ensures ReadStatus(r, line) == (ReqOk, r.(verb := verb, version := version, uri := ts[1], readBytes := |line|))
  {
  }

  lemma NamesFound(verb: nat, version: nat)
    requires verb < 9 && version < 3
    ensures verb < |METHODS| && Find(METHODS, MethodName(verb)) == verb && ' ' !in MethodName(verb)
    ensures version < |VERSIONS| && Find(VERSIONS, VersionName(version)) == version
    ensures var v := VersionName(version); |v| == 8 && !IsBlank(v[0]) && !IsBlank(v[7])
  {
    Tables();
    assert METHODS[verb] == MethodName(verb) && VERSIONS[version] == VersionName(version);
    MethodWord(verb);
    MethodFound(verb);
    VersionWord(version);
  }

  lemma LineFrom(r: Req, m: string, uri: string, before: string, v: string, behind: string, verb: nat, version: nat)
    requires ' ' !in m && ' ' !in uri && AllBlank(before) && AllBlank(behind)
    requires v != "" && !IsBlank(v[0]) && !IsBlank(v[|v| - 1])
    requires verb < |METHODS| && version < |VERSIONS| && Find(METHODS, m) == verb && Find(VERSIONS, v) == version
    ensures var line := m + " " + uri + " " + (before + v + behind);
      ReadStatus(r, line) == (ReqOk, r.(verb := verb, version := version, uri := Slice(|m| + 1, |uri|), readBytes := |line|))
  {
    var rest, off := before + v + behind, |m| + 2 + |uri|;
    var line := m + " " + uri + " " + rest;
    Tokens(m, uri, rest);
    Pieces(m, uri, rest);
    VersionKept(line, off, before, v, behind);
    StatusFrom(r, line, [Slice(0, |m|), Slice(|m| + 1, |uri|), Slice(off, |rest|)], verb, version);
  }

  // Every request line is accepted, with the numbers of the names it says.
  lemma LineAccepted(r: Req, line: string, verb: nat, uri: string, before: string, version: nat, behind: string)
    requires RequestLine(line, verb, uri, before, version, behind)
    ensures ReadStatus(r, line)
      == (ReqOk, r.(verb := verb, version := version, uri := Slice(|MethodName(verb)| + 1, |uri|), readBytes := |line|))
  {
    NamesFound(verb, version);
    LineFrom(r, MethodName(verb), uri, before, VersionName(version), behind, verb, version);
  }

  // A line is accepted exactly if it is a request line, and refused otherwise; an unknown method or version is neither.
  lemma LineExactly(r: Req, line: string)
    ensures ReadStatus(r, line).0 == ReqOk <==>
      exists verb, uri, before, version, behind :: RequestLine(line, verb, uri, before, version, behind)
    ensures ReadStatus(r, line).0 == ReqOk || ReadStatus(r, line) == (ReqErr, r)
  {
    if ReadStatus(r, line).0 == ReqOk {
      var before, behind := AcceptedLine(r, line);
    }
    forall verb, uri, before, version, behind | RequestLine(line, verb, uri, before, version, behind)
      ensures ReadStatus(r, line).0 == ReqOk
    {
      LineAccepted(r, line, verb, uri, before, version, behind);
    }
  }

  // ---------- whole requests ----------

  lemma {:induction false} HeadersKeepLine(r: Req, d: string)
    ensures var r1 := HeaderLines(r, d, |d|).1;
      r1.verb == r.verb && r1.version == r.version && r1.uri == r.uri && r1.keepAlive == r.keepAlive
    decreases MAX_HEADERS - |r.headers|
  {
    if |r.headers| < MAX_HEADERS {
      StepKeepsLine(r, d);
      var s := HeaderStep(r, d, |d|);
      if s.Go? {
        HeadersKeepLine(s.req, d);
      }
    }
  }

  lemma StepKeepsLine(r: Req, d: string)
    ensures var r1 := HeaderStep(r, d, |d|).req;
      r1.verb == r.verb && r1.version == r.version && r1.uri == r.uri && r1.keepAlive == r.keepAlive
  {
  }

  lemma AfterKeepsLine(r: Req, d: string)
    ensures var (v, r1) := AfterHeaders(r, d);
      && r1.verb == r.verb && r1.version == r.version && r1.uri == r.uri
      && (v == ReqOk ==> r1.keepAlive == (r.keepAlive || r.version == 1))
  {
  }

  // The first line of what has been received
  lemma FirstLine(d: string, line: string)
    requires IsLine(line) && line <= d
    ensures StatusLine(BLANK, d, |d|) == ReadStatus(BLANK, line)
  {
    LineEnd(d, 0, line);
    assert d[..|line|] == line;
  }

  lemma PhaseFields(d: string, r1: Req)
    requires StatusLine(BLANK, d, |d|) == (ReqOk, r1)
    ensures var h := HeaderPhase(BLANK, d).1;
      h.verb == r1.verb && h.version == r1.version && h.uri == r1.uri && h.keepAlive == r1.keepAlive
  {
    HeadersKeepLine(r1.(state := Headers), d);
  }

  lemma ParseFields(d: string, v1: Verdict, r1: Req)
    requires StatusLine(BLANK, d, |d|) == (v1, r1) && ParseAll(BLANK, d).0 == ReqOk
    ensures v1 == ReqOk
    ensures var r := ParseAll(BLANK, d).1;
      && r.verb == r1.verb && r.version == r1.version && r.uri == r1.uri
      && r.keepAlive == (r1.keepAlive || r1.version == 1)
  {
    ParseIsPhases(BLANK, d);
    if v1 == ReqOk {
      PhaseFields(d, r1);
      AfterKeepsLine(HeaderPhase(BLANK, d).1, d);
    }
  }

  // A request that is parsed has the method, the URI and the version of its first line, and its connection is to be kept exactly
  // if that version is HTTP/1.1.
  lemma ParsedLine(d: string, line: string) returns (before: string, behind: string)
    requires IsLine(line) && line <= d && ParseAll(BLANK, d).0 == ReqOk
    ensures var r := ParseAll(BLANK, d).1;
      && RequestLine(line, r.verb, Text(d, r.uri), before, r.version, behind)
      && (r.keepAlive <==> VersionName(r.version) == "HTTP/1.1")
  {
    var (v1, r1) := ReadStatus(BLANK, line);
    FirstLine(d, line);
    ParseFields(d, v1, r1);
    before, behind := AcceptedLine(BLANK, line);
    UriInLine(line);
    SameText(d, line, r1.uri);
    VersionNames(r1.version);
  }

  lemma UriInLine(line: string)
    requires ReadStatus(BLANK, line).0 == ReqOk
    ensures var s := ReadStatus(BLANK, line).1.uri; 0 <= s.off && 0 <= s.len && s.off + s.len <= |line|
  {
    TokenWithin(line, 0, |line|, ' ', 3, 1);
  }

  lemma SameText(d: string, line: string, s: Slice)
    requires line <= d && 0 <= s.off && 0 <= s.len && s.off + s.len <= |line|
    ensures Text(d, s) == Text(line, s)
  {
  }

  lemma VersionNames(version: nat)
    requires version < 3
    ensures VersionName(version) == "HTTP/1.1" <==> version == 1
  {
    assert "HTTP/1.0"[7] == '0' && "HTTP/2.0"[5] == '2';
  }

  // A first line that is no request line is refused, whatever follows.
  lemma RefusedLine(d: string, line: string)
    requires IsLine(line) && line <= d
    requires forall verb, uri, before, version, behind :: !RequestLine(line, verb, uri, before, version, behind)
    ensures ParseAll(BLANK, d).0 == ReqErr
  {
    FirstLine(d, line);
    LineExactly(BLANK, line);
    ParseIsPhases(BLANK, d);
  }

  // ---------- by the last and the first word ----------

  ghost predicate EndsWith(s: string, t: string)
  {
    |t| <= |s| && s[|s| - |t|..] == t
  }

  // Two texts without blanks at their ends, of the same length, each followed by blanks up to the end of the line
  lemma SameEnd(line: string, v: string, p: nat, w: string, q: nat)
    requires |v| == |w| > 0 && p + |v| <= |line| && q + |w| <= |line|
    requires line[p..p + |v|] == v && !IsBlank(v[|v| - 1]) && forall k :: p + |v| <= k < |line| ==> IsBlank(line[k])
    requires line[q..q + |w|] == w && !IsBlank(w[|w| - 1]) && forall k :: q + |w| <= k < |line| ==> IsBlank(line[k])
    ensures p == q && v == w
  {
    assert line[p + |v| - 1] == v[|v| - 1] && line[q + |w| - 1] == w[|w| - 1];
  }

  lemma LastParts(a: string, v: string, b: string)
    ensures var line := a + v + b;
      line[|a|..|a| + |v|] == v && forall k :: |a| + |v| <= k < |line| ==> line[k] == b[k - |a| - |v|]
  {
  }

  lemma SameVersion(a: string, v: string, behind: string, b: string, w: string)
    requires a + v + behind == b + w + "\r\n" && AllBlank(behind) && |v| == |w| > 0
    requires !IsBlank(v[|v| - 1]) && !IsBlank(w[|w| - 1])
    ensures v == w
  {
    LastParts(a, v, behind);
    LastParts(b, w, "\r\n");
    SameEnd(a + v + behind, v, |a|, w, |b|);
  }

  // The version of a request line is the one that it ends with.
  lemma VersionByEnd(line: string, verb: nat, uri: string, before: string, version: nat, behind: string, n: nat)
    requires RequestLine(line, verb, uri, before, version, behind) && n < 3 && EndsWith(line, VersionName(n) + "\r\n")
    ensures version == n
  {
    var v, w := VersionName(version), VersionName(n);
    var a, b := MethodName(verb) + " " + uri + " " + before, line[..|line| - 10];
    Ends(line, MethodName(verb) + " " + uri + " ", before, v, behind);
    EndParts(line, w);
    SameVersion(a, v, behind, b, w);
    VersionsDiffer(version, n);
  }

  lemma EndParts(line: string, w: string)
    requires |w| == 8 && EndsWith(line, w + "\r\n")
    ensures line == line[..|line| - 10] + w + "\r\n"
  {
    assert line == line[..|line| - 10] + line[|line| - 10..];
  }

  lemma Ends(line: string, a: string, b: string, v: string, c: string)
    requires line == a + (b + v + c)
    ensures line == (a + b) + v + c
  {
  }

  lemma VersionsDiffer(i: nat, j: nat)
    requires i < 3 && j < 3 && VersionName(i) == VersionName(j)
    ensures i == j
  {
    assert VersionName(i)[5] == VersionName(j)[5] && VersionName(i)[7] == VersionName(j)[7];
  }

  lemma VersionEnd(d: string, line: string, n: nat)
    requires IsLine(line) && line <= d && ParseAll(BLANK, d).0 == ReqOk && n < 3 && EndsWith(line, VersionName(n) + "\r\n")
    ensures ParseAll(BLANK, d).1.version == n && (ParseAll(BLANK, d).1.keepAlive <==> n == 1)
  {
    var before, behind := ParsedLine(d, line);
    var r := ParseAll(BLANK, d).1;
    VersionByEnd(line, r.verb, Text(d, r.uri), before, r.version, behind, n);
    VersionNames(n);
  }

  // A parsed request whose first line ends in HTTP/1.1 makes the connection one to keep; one whose first line ends in HTTP/1.0
  // or HTTP/2.0 does not.
  lemma KeepAliveByText(d: string, line: string)
    requires IsLine(line) && line <= d && ParseAll(BLANK, d).0 == ReqOk
    ensures EndsWith(line, "HTTP/1.1\r\n") ==> ParseAll(BLANK, d).1.keepAlive
    ensures EndsWith(line, "HTTP/1.0\r\n") || EndsWith(line, "HTTP/2.0\r\n") ==> !ParseAll(BLANK, d).1.keepAlive
  {
    assert VersionName(0) + "\r\n" == "HTTP/1.0\r\n" && VersionName(1) + "\r\n" == "HTTP/1.1\r\n";
    assert VersionName(2) + "\r\n" == "HTTP/2.0\r\n";
    if EndsWith(line, "HTTP/1.1\r\n") {
      VersionEnd(d, line, 1);
    }
    if EndsWith(line, "HTTP/1.0\r\n") {
      VersionEnd(d, line, 0);
    }
    if EndsWith(line, "HTTP/2.0\r\n") {
      VersionEnd(d, line, 2);
    }
  }

  lemma MethodsApart(i: nat, j: nat, line: string)
    requires i < 9 && j < 9 && MethodName(i) + " " <= line && MethodName(j) + " " <= line
    ensures i == j
  {
    var a, b := MethodName(i), MethodName(j);
    assert line[0] == a[0] == b[0] && line[1] == a[1] == b[1];
  }

  // A parsed request has the method that its first line begins with: number 0 is GET, number 2 is POST, and so on.
  lemma MethodByText(d: string, line: string, i: nat)
    requires IsLine(line) && line <= d && ParseAll(BLANK, d).0 == ReqOk && i < 9
    ensures ParseAll(BLANK, d).1.verb == i <==> MethodName(i) + " " <= line
  {
    var before, behind := ParsedLine(d, line);
    var r := ParseAll(BLANK, d).1;
    assert MethodName(r.verb) + " " <= line;
    if MethodName(i) + " " <= line {
      MethodsApart(i, r.verb, line);
    }
  }

  // Spelled out for the two methods that cask.c serves
  lemma GetAndPost(d: string, line: string)
    requires IsLine(line) && line <= d && ParseAll(BLANK, d).0 == ReqOk
    ensures ParseAll(BLANK, d).1.verb == 0 <==> "GET " <= line
    ensures ParseAll(BLANK, d).1.verb == 2 <==> "POST " <= line
  {
    MethodByText(d, line, 0);
    MethodByText(d, line, 2);
    assert MethodName(0) + " " == "GET " && MethodName(2) + " " == "POST ";
  }

  // ---------- headers ----------

  // A header line is refused exactly if it has no colon.
  lemma HeaderRefused(line: string, base: nat)
    ensures ReadHeader(line, base).None? <==> ':' !in line
  {
    var i := IndexOf(line, ':', 0, |line|);
    IndexOfFirst(line, ':', 0, |line|);
    if i < |line| {
      assert Split(line, 0, |line|, ':', 2) == [Slice(0, i)] + Split(line, i + 1, |line|, ':', 1);
      assert Split(line, i + 1, |line|, ':', 1) == [Slice(i + 1, |line| - i - 1)];
    } else {
      assert Split(line, 0, |line|, ':', 2) == [Slice(0, |line|)];
    }
  }

  // The first header that is spelled Content-Length
  ghost predicate FirstLength(hs: seq<(string, string)>, i: nat)
  {
    i < |hs| && hs[i].0 == "Content-Length" && forall j :: 0 <= j < i ==> hs[j].0 != "Content-Length"
  }

  lemma {:induction false} FindsLength(hs: seq<(string, string)>, i: nat)
    requires FirstLength(hs, i)
    ensures FindKey(hs, CONTENT_LENGTH) == i
    decreases i
  {
    if i > 0 {
      assert hs[0].0 != "Content-Length";
      FindsLength(hs[1..], i - 1);
    }
  }

  // A written request with a header that is spelled Content-Length, and says how long the body is in digits, comes back with
  // its body, if that has at most 128 KiB.
  lemma LengthByText(p: Parts, i: nat)
    requires WellFormed(p) && |p.headers| < 32 && FirstLength(p.headers, i)
    requires var v := p.headers[i].1; v != "" && AllDigits(v) && Value(v) == |p.body| <= 131072
    ensures RoundTrips(p)
  {
    FindsLength(p.headers, i);
    RoundTrip(p);
  }

  // A number that is too large is refused exactly if it is so in 32 bits with a sign, to which it is cut down after strtol has
  // cut it to 2^63 - 1: 4294967296 stands for no body.
  lemma TooLong(p: Parts, i: nat)
    requires WellFormed(p) && |p.headers| < 32 && FirstLength(p.headers, i)
    requires p.headers[i].1 != "" && AllDigits(p.headers[i].1)
    ensures var n := Value(p.headers[i].1);
      ParseAll(BLANK, R.Render(p)).0 == ReqErr
      <==> n < 0x8000_0000_0000_0000 && 131072 < n % 0x1_0000_0000 < 0x8000_0000
  {
    var d, n, r := R.Render(p), |StatusText(p)|, AtHeaders(p);
    HeadersAreRead(p);
    AtHeadersIs(p);
    RenderLayout(p);
    ParseIsPhases(BLANK, d);
    FindsLength(p.headers, i);
    FindPlace(d, n, p.headers, p.body, CONTENT_LENGTH);
    PlacesText(d, n, p.headers, p.body, i);
    LongNumber(d, r.headers[i], p.headers[i]);
    LengthRefused(r, d, i);
  }

  lemma LengthRefused(r: Req, d: string, i: nat)
    requires i < |r.headers| && FindHeader(d, r.headers, CONTENT_LENGTH) == i && 0 <= r.headers[i].val.off <= |d|
    ensures AfterHeaders(r, d).0 == ReqErr <==> ToInt(Strtol(d, r.headers[i].val.off)) > 131072
  {
  }

  lemma LongNumber(d: string, h: Header, t: (string, string))
    requires Placed(d, h, t) && t.1 != "" && AllDigits(t.1)
    ensures 0 <= h.val.off <= |d|
    ensures var n := Value(t.1);
      ToInt(Strtol(d, h.val.off)) > 131072 <==> n < 0x8000_0000_0000_0000 && 131072 < n % 0x1_0000_0000 < 0x8000_0000
  {
    NumberRead(d, h.val.off, h.val.off + |t.1|);
  }

  // ---------- a header line without a colon ----------

  lemma BadStep(r: Req, d: string, bad: string)
    requires IsLine(bad) && ':' !in bad && bad[0] != '\r'
    requires r.readBytes + |bad| <= |d| && d[r.readBytes..r.readBytes + |bad|] == bad
    ensures HeaderStep(r, d, |d|) == Stop(ReqErr, r)
  {
    LineEnd(d, r.readBytes, bad);
    HeaderRefused(bad, r.readBytes);
    assert d[r.readBytes] == bad[0];
  }

  lemma {:induction false} BadHeaders(r: Req, d: string, hs: seq<(string, string)>, bad: string, more: string)
    requires forall i :: 0 <= i < |hs| ==> WellFormedHeader(hs[i])
    requires |r.headers| + |hs| < MAX_HEADERS && IsLine(bad) && ':' !in bad && bad[0] != '\r'
    requires r.readBytes <= |d| && d[r.readBytes..] == HeadersText(hs) + (bad + more)
    ensures HeaderLines(r, d, |d|).0 == ReqErr
    decreases |hs|
  {
    if hs == [] {
      assert HeadersText(hs) + (bad + more) == bad + more;
      Rest(d, r.readBytes, bad, more);
      BadStep(r, d, bad);
    } else {
      var line, rest := HeaderText(hs[0]), HeadersText(hs[1..]) + (bad + more);
      assert HeadersText(hs) + (bad + more) == line + rest;
      Rest(d, r.readBytes, line, rest);
      HeaderStepIs(r, d, hs[0]);
      BadHeaders(r.(headers := r.headers + [Place(hs[0], r.readBytes)], readBytes := r.readBytes + |line|), d, hs[1..], bad, more);
    }
  }

  // A request with a header line that has no colon is refused, whatever comes before it and behind it.
  lemma NoColon(p: Parts, bad: string, more: string)
    requires WellFormed(p) && |p.headers| < 32 && IsLine(bad) && ':' !in bad && bad[0] != '\r'
    ensures ParseAll(BLANK, StatusText(p) + (HeadersText(p.headers) + (bad + more))).0 == ReqErr
  {
    var line := StatusText(p);
    var d := line + (HeadersText(p.headers) + (bad + more));
    StatusLineIsLine(p);
    FirstLine(d, line);
    ReadStatusIs(BLANK, p);
    assert d[|line|..] == HeadersText(p.headers) + (bad + more);
    BadHeaders(AfterStatus(BLANK, p).(state := Headers), d, p.headers, bad, more);
    ParseIsPhases(BLANK, d);
  }
}
