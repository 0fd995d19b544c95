/** The values of http.h and request.h, and the meaning of parsing as functions on the received bytes. */
module Http {
  import opened Common
  import opened Decimal

  // ---------- constants ----------

  const METHODS: seq<string> := ["GET", "HEAD", "POST", "PUT", "DELETE", "CONNECT", "OPTIONS", "TRACE", "PATCH"]
  const VERSIONS: seq<string> := ["HTTP/1.0", "HTTP/1.1", "HTTP/2.0"]
  const HTTP_VERSION_11: nat := 1
  const CONTENT_LENGTH: string := "Content-Length"
  const MAX_HEADERS: nat := 32
  const MAX_BODY: int := 128 * 1024

  // ---------- values ----------

  // A string_t: a stretch of the connection's buffer.
  datatype Slice = Slice(off: int, len: int)

  datatype Header = Header(key: Slice, val: Slice)

  datatype State = Init | Headers | Body | ReadComplete

  datatype Verdict = ReqErr | ReqOk | ReqUf

  // A struct request, with the keep-alive flag of its connection. The method and the version are indices
  // into METHODS and VERSIONS, and num_headers is the length of `headers`.
  datatype Req = Req(state: State, readBytes: nat, verb: nat, version: nat, uri: Slice,
                     headers: seq<Header>, body: Slice, keepAlive: bool)

  // zero_struct(c->req)
  const BLANK: Req := Req(Init, 0, 0, 0, Slice(0, 0), [], Slice(0, 0), false)

  ghost predicate Within(s: Slice, d: string)
  {
    0 <= s.off <= s.off + s.len <= |d|
  }

  function Text(d: string, s: Slice): string
  {
    if 0 <= s.off <= s.off + s.len <= |d| then d[s.off..s.off + s.len] else ""
  }

  // ---------- scanning ----------

  // The first position of c in d[from..end], or end
  function IndexOf(d: string, c: char, from: nat, end: nat): (i: nat)
    requires from <= end <= |d|
    ensures from <= i <= end
    decreases end - from
  {
    if from == end || d[from] == c then from else IndexOf(d, c, from + 1, end)
  }

  lemma {:induction false} IndexOfFirst(d: string, c: char, from: nat, end: nat)
    requires from <= end <= |d|
    ensures var i := IndexOf(d, c, from, end);
      && (forall k :: from <= k < i ==> d[k] != c)
      && (i < end ==> d[i] == c)
    decreases end - from
  {
    if from < end && d[from] != c {
      IndexOfFirst(d, c, from + 1, end);
    }
  }

  lemma IndexOfUnique(d: string, c: char, from: nat, end: nat, i: nat)
    requires from <= i <= end <= |d|
    requires forall k :: from <= k < i ==> d[k] != c
    requires i < end ==> d[i] == c
    ensures IndexOf(d, c, from, end) == i
    decreases end - from
  {
    if from < i {
      IndexOfUnique(d, c, from + 1, end, i);
    }
  }

  predicate IsBlank(c: char)
  {
    c == ' ' || c == '\t' || c == '\r' || c == '\n'
  }

  // The first position of d[from..end] that trim keeps, or end
  function SkipBlanks(d: string, from: nat, end: nat): (i: nat)
    requires from <= end <= |d|
    ensures from <= i <= end
    decreases end - from
  {
    if from == end || !IsBlank(d[from]) then from else SkipBlanks(d, from + 1, end)
  }

  // The end of d[from..end] without its last blanks
  function DropBlanks(d: string, from: nat, end: nat): (i: nat)
    requires from <= end <= |d|
    ensures from <= i <= end
    decreases end - from
  {
    if from == end || !IsBlank(d[end - 1]) then end else DropBlanks(d, from, end - 1)
  }

  function Trim(d: string, s: Slice): (t: Slice)
    ensures Within(s, d) ==> Within(t, d) && s.off <= t.off && t.off + t.len <= s.off + s.len
  {
    if 0 <= s.off <= s.off + s.len <= |d| then
      var a := SkipBlanks(d, s.off, s.off + s.len);
      Slice(a, DropBlanks(d, a, s.off + s.len) - a)
    else s
  }

  // trim keeps the one stretch of s that neither begins nor ends with a blank and is all that lies between blanks.
  lemma {:induction false} TrimMaximal(d: string, s: Slice)
    requires Within(s, d)
    ensures var t := Trim(d, s);
      && (forall k :: s.off <= k < t.off || t.off + t.len <= k < s.off + s.len ==> IsBlank(d[k]))
      && (t.len > 0 ==> !IsBlank(d[t.off]) && !IsBlank(d[t.off + t.len - 1]))
  {
    SkipBlanksSkips(d, s.off, s.off + s.len);
    DropBlanksDrops(d, SkipBlanks(d, s.off, s.off + s.len), s.off + s.len);
  }

  lemma SkipBlanksSkips(d: string, from: nat, end: nat)
    requires from <= end <= |d|
    ensures var i := SkipBlanks(d, from, end);
      && (forall k :: from <= k < i ==> IsBlank(d[k]))
      && (i < end ==> !IsBlank(d[i]))
    decreases end - from
  {
  }

  lemma DropBlanksDrops(d: string, from: nat, end: nat)
    requires from <= end <= |d|
    ensures var i := DropBlanks(d, from, end);
      && (forall k :: i <= k < end ==> IsBlank(d[k]))
      && (from < i ==> !IsBlank(d[i - 1]))
    decreases end - from
  {
  }

  // At most k tokens of d[from..end], cut at the first k - 1 delimiters
  function Split(d: string, from: nat, end: nat, delim: char, k: nat): (ts: seq<Slice>)
    requires from <= end <= |d|
    ensures |ts| <= k && (k > 0 ==> |ts| > 0)
    decreases k, end
  {
    if k == 0 then []
    else
      var i := if k == 1 then end else IndexOf(d, delim, from, end);
      if i == end then [Slice(from, end - from)]
      else [Slice(from, i - from)] + Split(d, i + 1, end, delim, k - 1)
  }

  lemma {:induction false} TokenWithin(d: string, from: nat, end: nat, delim: char, k: nat, j: nat)
    requires from <= end <= |d| && j < |Split(d, from, end, delim, k)|
    ensures var t := Split(d, from, end, delim, k)[j]; from <= t.off <= t.off + t.len <= end
    decreases k
  {
    if j > 0 {
      TokenWithin(d, IndexOf(d, delim, from, end) + 1, end, delim, k - 1, j - 1);
    }
  }

  // The tokens with the delimiters put back between them
  ghost function Join(d: string, ts: seq<Slice>, delim: char): string
  {
    if ts == [] then ""
    else if |ts| == 1 then Text(d, ts[0])
    else Text(d, ts[0]) + [delim] + Join(d, ts[1..], delim)
  }

  lemma Cut(d: string, from: nat, i: nat, end: nat)
    requires from <= i < end <= |d|
    ensures d[from..i] + [d[i]] + d[i + 1..end] == d[from..end]
  {
  }

  // The tokens rejoin to the line.
  lemma {:induction false} SplitRejoins(d: string, from: nat, end: nat, delim: char, k: nat)
    requires from <= end <= |d| && k > 0
    ensures 0 < |Split(d, from, end, delim, k)| <= k
    ensures Join(d, Split(d, from, end, delim, k), delim) == d[from..end]
    decreases k
  {
    var us := Split(d, from, end, delim, k);
    if |us| > 1 {
      var i := IndexOf(d, delim, from, end);
      IndexOfFirst(d, delim, from, end);
      SplitRejoins(d, i + 1, end, delim, k - 1);
      Cut(d, from, i, end);
      assert us[1..] == Split(d, i + 1, end, delim, k - 1);
    } else {
      assert us == [Slice(from, end - from)];
    }
  }

  // No token but the last of the k that fit holds a delimiter.
  lemma {:induction false} TokenClean(d: string, from: nat, end: nat, delim: char, k: nat, j: nat)
    requires from <= end <= |d| && j < |Split(d, from, end, delim, k)| && j < k - 1
    ensures delim !in Text(d, Split(d, from, end, delim, k)[j])
    decreases k
  {
    IndexOfFirst(d, delim, from, end);
    if j == 0 {
      assert Text(d, Split(d, from, end, delim, k)[0]) == d[from..IndexOf(d, delim, from, end)];
    } else {
      TokenClean(d, IndexOf(d, delim, from, end) + 1, end, delim, k - 1, j - 1);
    }
  }

  // ---------- parsing ----------

  // The byte at position i of the buffer's memory, which may lie beyond the received bytes
  function At(mem: string, i: nat): char
  {
    if i < |mem| then mem[i] else '\0'
  }

  // The first entry of a table that equals t, or the table's length
  function Find(table: seq<string>, t: string): (i: nat)
    ensures i <= |table|
  {
    if table == [] || table[0] == t then 0 else 1 + Find(table[1..], t)
  }

  // The first header with the given key, or the number of headers
  function FindHeader(mem: string, hs: seq<Header>, key: string): (i: nat)
    ensures i <= |hs|
  {
    if hs == [] || Text(mem, hs[0].key) == key then 0 else 1 + FindHeader(mem, hs[1..], key)
  }

  // parse_status_line, once the line has been received
  function ReadStatus(r: Req, line: string): (Verdict, Req)
  {
    var ts := Split(line, 0, |line|, ' ', 3);
    if |ts| != 3 then (ReqErr, r)
    else
      var verb := Find(METHODS, Text(line, ts[0]));
      var version := Find(VERSIONS, Text(line, Trim(line, ts[2])));
      if verb == |METHODS| || version == |VERSIONS| then (ReqErr, r)
      else (ReqOk, r.(verb := verb, version := version, uri := ts[1], readBytes := |line|))
  }

  // parse_status_line on the first `size` bytes of `mem`
  function StatusLine(r: Req, mem: string, size: nat): (Verdict, Req)
    requires size <= |mem|
  {
    var n := IndexOf(mem, '\n', 0, size);
    if n == size then (ReqUf, r) else ReadStatus(r, mem[..n + 1])
  }

  function Shift(s: Slice, base: int): Slice
  {
    Slice(base + s.off, s.len)
  }

  // The key and the value of one header line that starts at position `base` of the buffer
  function ReadHeader(line: string, base: int): Option<Header>
  {
    var ts := Split(line, 0, |line|, ':', 2);
    if |ts| != 2 then None
    else Some(Header(Shift(Trim(line, ts[0]), base), Shift(Trim(line, ts[1]), base)))
  }

  // What one pass of the loop of parse_headers comes to: leaving it with a verdict, or another pass
  datatype Step = Stop(verdict: Verdict, req: Req) | Go(req: Req)

  function HeaderStep(r: Req, mem: string, size: nat): (s: Step)
    requires size <= |mem|
    ensures s.Go? ==> |s.req.headers| == |r.headers| + 1
  {
    if At(mem, r.readBytes) == '\r' && At(mem, r.readBytes + 1) == '\n' then
      Stop(ReqOk, r.(readBytes := r.readBytes + 2))
    else if r.readBytes >= size then Stop(ReqUf, r)
    else
      var n := IndexOf(mem, '\n', r.readBytes, size);
      if n == size then Stop(ReqUf, r)
      else
        match ReadHeader(mem[r.readBytes..n + 1], r.readBytes)
        case None => Stop(ReqErr, r)
        case Some(h) => Go(r.(headers := r.headers + [h], readBytes := n + 1))
  }

  // parse_headers, from where r has read to
  function HeaderLines(r: Req, mem: string, size: nat): (Verdict, Req)
    requires size <= |mem|
    decreases MAX_HEADERS - |r.headers|
  {
    if |r.headers| >= MAX_HEADERS then (ReqOk, r)
    else
      match HeaderStep(r, mem, size)
      case Stop(v, r1) => (v, r1)
      case Go(r1) => HeaderLines(r1, mem, size)
  }

  // The Content-Length step of parse_request, once the headers are complete
  function TakeLength(r: Req, mem: string): (Verdict, Req)
  {
    var i := FindHeader(mem, r.headers, CONTENT_LENGTH);
    if i == |r.headers| then (ReqOk, r.(state := Body))
    else
      var off := r.headers[i].val.off;
      var len := if 0 <= off <= |mem| then ToInt(Strtol(mem, off)) else 0;
      if len > MAX_BODY then (ReqErr, r)
      else (ReqOk, r.(state := Body, body := Slice(r.readBytes, len)))
  }

  function Finish(r: Req): (Verdict, Req)
  {
    (ReqOk, r.(state := ReadComplete, keepAlive := r.keepAlive || r.version == HTTP_VERSION_11))
  }

  function TakeBody(r: Req, size: nat): (Verdict, Req)
  {
    if r.body.len == 0 then Finish(r)
    else if size - r.body.off < r.body.len then (ReqUf, r.(readBytes := size))
    else Finish(r.(readBytes := size))
  }

  function ParseHeaders(r: Req, mem: string, size: nat): (Verdict, Req)
    requires size <= |mem|
  {
    var (v, r1) := HeaderLines(r, mem, size);
    if v != ReqOk then (v, r1)
    else
      var (v2, r2) := TakeLength(r1, mem);
      if v2 != ReqOk then (v2, r2) else TakeBody(r2, size)
  }

  // parse_request on a buffer that holds `size` received bytes at the front of its memory
  function Parse(r: Req, mem: string, size: nat): (Verdict, Req)
    requires size <= |mem|
  {
    match r.state
    case Init =>
      var (v, r1) := StatusLine(r, mem, size);
      if v != ReqOk then (v, r1) else ParseHeaders(r1.(state := Headers), mem, size)
    case Headers => ParseHeaders(r, mem, size)
    case Body => TakeBody(r, size)
    case ReadComplete => Finish(r)
  }
}
