/** The request parser of request.c, with its loops, over the memory of a connection's buffer. */
module Request {
  import opened Common
  import D = Decimal
  import H = Http

  // ---------- span, split and trim ----------

  // One more than the distance from `off` to the first c in s[off..len], or -1
  method Span(s: string, c: char, len: nat, off: nat) returns (n: int)
    requires len <= |s|
    ensures n == if off < len && H.IndexOf(s, c, off, len) < len then H.IndexOf(s, c, off, len) - off + 1 else -1
  {
    var p, i := off, 0;
    while p < len
      invariant p == off + i && (off <= len ==> p <= len)
      invariant off < len ==> H.IndexOf(s, c, off, len) == H.IndexOf(s, c, p, len)
      decreases len - p
    {
      if s[p] == c {
        return i + 1;
      }
      p, i := p + 1, i + 1;
    }
    n := -1;
  }

  function ShiftAll(ts: seq<H.Slice>, off: int): (us: seq<H.Slice>)
    ensures |us| == |ts|
  {
    seq(|ts|, i requires 0 <= i < |ts| => H.Shift(ts[i], off))
  }

  method Split(s: string, len: nat, off: int, delim: char, numTokens: nat) returns (tokens: seq<H.Slice>)
    requires len <= |s|
    ensures tokens == ShiftAll(H.Split(s, 0, len, delim, numTokens), off)
  {
    if numTokens == 0 {
      return [];
    }
    if numTokens == 1 {
      return [H.Slice(off, len)];
    }
    tokens := [];
    var start, stop := 0, 0;
    ghost var whole := ShiftAll(H.Split(s, 0, len, delim, numTokens), off);
    ghost var rest, k := whole, numTokens;
    while stop < len && |tokens| < numTokens - 1
      invariant 0 <= start <= stop <= len && k == numTokens - |tokens| >= 1
      invariant whole == tokens + rest && rest == ShiftAll(H.Split(s, start, len, delim, k), off)
      invariant k > 1 ==> H.IndexOf(s, delim, start, len) == H.IndexOf(s, delim, stop, len)
      decreases len - stop
    {
      if s[stop] == delim {
        SplitCut(s, start, stop, len, delim, k, off);
        Regroup(tokens, rest);
        tokens := tokens + [H.Slice(start + off, stop - start)];
        rest, k := rest[1..], k - 1;
        start := stop + 1;
      }
      stop := stop + 1;
    }
    SplitLast(s, start, stop, len, delim, k, off);
    tokens := tokens + [H.Slice(start + off, len - start)];
  }

  lemma Regroup(ts: seq<H.Slice>, rest: seq<H.Slice>)
    requires |rest| > 0
    ensures ts + rest == (ts + [rest[0]]) + rest[1..]
  {
  }

  lemma SplitCut(s: string, start: nat, stop: nat, len: nat, delim: char, k: nat, off: int)
    requires start <= stop < len <= |s| && k > 1 && s[stop] == delim
    requires H.IndexOf(s, delim, start, len) == H.IndexOf(s, delim, stop, len)
    ensures var rest := ShiftAll(H.Split(s, start, len, delim, k), off);
      && |rest| > 0 && rest[0] == H.Slice(start + off, stop - start)
      && rest[1..] == ShiftAll(H.Split(s, stop + 1, len, delim, k - 1), off)
  {
    assert H.Split(s, start, len, delim, k) == [H.Slice(start, stop - start)] + H.Split(s, stop + 1, len, delim, k - 1);
  }

  lemma SplitLast(s: string, start: nat, stop: nat, len: nat, delim: char, k: nat, off: int)
    requires start <= stop <= len <= |s| && k >= 1 && (k > 1 ==> stop == len)
    requires k > 1 ==> H.IndexOf(s, delim, start, len) == H.IndexOf(s, delim, stop, len)
    ensures ShiftAll(H.Split(s, start, len, delim, k), off) == [H.Slice(start + off, len - start)]
  {
    assert H.Split(s, start, len, delim, k) == [H.Slice(start, len - start)];
  }

  method Trim(buf: string, s: H.Slice) returns (t: H.Slice)
    requires H.Within(s, buf)
    ensures t == H.Trim(buf, s)
  {
    t := s;
    // Forwards
    var len, c, i := t.len, t.off, 0;
    while i < len
      invariant 0 <= i <= len && c == s.off + i
      invariant t == H.Slice(s.off + i, len - i)
      invariant H.SkipBlanks(buf, s.off, s.off + s.len) == H.SkipBlanks(buf, c, s.off + s.len)
    {
      if H.IsBlank(buf[c]) {
        t := H.Slice(t.off + 1, t.len - 1);
      } else {
        break;
      }
      i, c := i + 1, c + 1;
    }
    assert t.off == H.SkipBlanks(buf, s.off, s.off + s.len);
    // Backwards
    ghost var end := t.off + t.len;
    c := t.off + t.len - 1;
    len := t.len;
    i := len;
    while i > 0
      invariant 0 <= i <= len && c == t.off + i - 1 && t == H.Slice(t.off, i)
      invariant t.off == H.SkipBlanks(buf, s.off, s.off + s.len)
      invariant H.DropBlanks(buf, t.off, end) == H.DropBlanks(buf, t.off, t.off + i)
    {
      if H.IsBlank(buf[c]) {
        t := H.Slice(t.off, t.len - 1);
      } else {
        break;
      }
      i, c := i - 1, c - 1;
    }
  }

  // ---------- positions in a line and positions in the buffer ----------

  lemma {:induction false} SkipBlanksShift(mem: string, base: nat, line: string, from: nat, end: nat)
    requires base + |line| <= |mem| && mem[base..base + |line|] == line && from <= end <= |line|
    ensures H.SkipBlanks(mem, base + from, base + end) == base + H.SkipBlanks(line, from, end)
    decreases end - from
  {
    if from < end {
      assert mem[base + from] == line[from];
      if H.IsBlank(line[from]) {
        SkipBlanksShift(mem, base, line, from + 1, end);
      }
    }
  }

  lemma {:induction false} DropBlanksShift(mem: string, base: nat, line: string, from: nat, end: nat)
    requires base + |line| <= |mem| && mem[base..base + |line|] == line && from <= end <= |line|
    ensures H.DropBlanks(mem, base + from, base + end) == base + H.DropBlanks(line, from, end)
    decreases end - from
  {
    if from < end {
      assert mem[base + end - 1] == line[end - 1];
      if H.IsBlank(line[end - 1]) {
        DropBlanksShift(mem, base, line, from, end - 1);
      }
    }
  }

  lemma TrimShift(mem: string, base: nat, line: string, t: H.Slice)
    requires base + |line| <= |mem| && mem[base..base + |line|] == line && H.Within(t, line)
    ensures H.Within(H.Shift(t, base), mem) && H.Trim(mem, H.Shift(t, base)) == H.Shift(H.Trim(line, t), base)
  {
    SkipBlanksShift(mem, base, line, t.off, t.off + t.len);
    DropBlanksShift(mem, base, line, H.SkipBlanks(line, t.off, t.off + t.len), t.off + t.len);
  }

  lemma TextShift(mem: string, base: nat, line: string, t: H.Slice)
    requires base + |line| <= |mem| && mem[base..base + |line|] == line && H.Within(t, line)
    ensures H.Text(mem, H.Shift(t, base)) == H.Text(line, t)
  {
    var a, b := H.Text(mem, H.Shift(t, base)), H.Text(line, t);
    forall k | 0 <= k < t.len ensures a[k] == b[k] {
      assert b[k] == line[t.off + k] == mem[base..base + |line|][t.off + k];
    }
  }

  // The index of the entry that equals the text of t in the buffer
  method Lookup(table: seq<string>, data: string, t: H.Slice) returns (found: nat)
    requires H.Within(t, data)
    ensures found == H.Find(table, H.Text(data, t))
  {
    found := |table|;
    var i := 0;
    while i < |table|
      invariant 0 <= i <= |table| && found == |table|
      invariant H.Find(table, H.Text(data, t)) == i + H.Find(table[i..], H.Text(data, t))
    {
      if |table[i]| == t.len {
        if table[i] == data[t.off..t.off + t.len] {
          found := i;
          break;
        }
      }
      assert table[i..][1..] == table[i + 1..];
      i := i + 1;
    }
  }

  // ---------- the request ----------

  class Request {
    var state: H.State
    var readBytes: nat
    var verb: nat
    var version: nat
    var uri: H.Slice
    var headers: seq<H.Header>
    var body: H.Slice
    // of the connection: its keep-alive flag, and its buffer with `size` received bytes
    var keepAlive: bool
    var mem: string
    var size: nat

    constructor (mem: string, size: nat)
      requires size <= |mem|
      ensures View() == H.BLANK && this.mem == mem && this.size == size && Valid()
    {
      state, readBytes, verb, version, uri, headers, body, keepAlive
        := H.Init, 0, 0, 0, H.Slice(0, 0), [], H.Slice(0, 0), false;
      this.mem, this.size := mem, size;
    }

    ghost predicate Valid()
      reads this
    {
      && size <= |mem|
      && forall i :: 0 <= i < |headers| ==> H.Within(headers[i].key, mem) && 0 <= headers[i].val.off <= |mem|
    }

    ghost function View(): H.Req
      reads this
    {
      H.Req(state, readBytes, verb, version, uri, headers, body, keepAlive)
    }

    method ParseStatusLine() returns (v: H.Verdict)
      requires Valid()
      modifies `verb, `version, `uri, `readBytes
      ensures (v, View()) == H.StatusLine(old(View()), mem, size)
    {
      var lineLen := Span(mem, '\n', size, 0);
      if lineLen < 0 {
        return H.ReqUf;
      }
      v := ReadStatus(mem[..lineLen]);
    }

    method ReadStatus(line: string) returns (v: H.Verdict)
      requires Valid() && line <= mem
      modifies `verb, `version, `uri, `readBytes
      ensures (v, View()) == H.ReadStatus(old(View()), line)
    {
      var tokens := Split(line, |line|, 0, ' ', 3);
      StatusOutcome(View(), mem, line);
      if |tokens| != 3 {
        return H.ReqErr;
      }
      var m := Lookup(H.METHODS, mem, tokens[0]);
      var t := Trim(mem, tokens[2]);
      var w := Lookup(H.VERSIONS, mem, t);
      if m == |H.METHODS| || w == |H.VERSIONS| {
        return H.ReqErr;
      }
      verb, version, uri, readBytes := m, w, tokens[1], |line|;
      v := H.ReqOk;
    }

    // One pass of the loop of parse_headers
    method HeaderLine() returns (done: bool, v: H.Verdict)
      requires Valid()
      modifies `headers, `readBytes
      ensures Valid()
      ensures H.HeaderStep(old(View()), mem, size) == if done then H.Stop(v, View()) else H.Go(View())
    {
      if H.At(mem, readBytes) == '\r' && H.At(mem, readBytes + 1) == '\n' {
        readBytes := readBytes + 2;
        return true, H.ReqOk;
      }
      var lineLen := Span(mem, '\n', size, readBytes);
      if lineLen < 0 {
        return true, H.ReqUf;
      }
      LineIsRead(View(), mem, size, readBytes + lineLen);
      v := AddHeader(mem[readBytes..readBytes + lineLen]);
      done := v != H.ReqOk;
    }

    method AddHeader(line: string) returns (v: H.Verdict)
      requires Valid() && readBytes + |line| <= |mem| && mem[readBytes..readBytes + |line|] == line
      modifies `headers, `readBytes
      ensures Valid()
      ensures match H.ReadHeader(line, old(readBytes))
        case None => v == H.ReqErr && View() == old(View())
        case Some(h) => v == H.ReqOk && View() == old(View()).(headers := old(headers) + [h], readBytes := old(readBytes) + |line|)
    {
      var tokens := Split(line, |line|, readBytes, ':', 2);
      HeaderOutcome(mem, readBytes, line);
      if |tokens| != 2 {
        return H.ReqErr;
      }
      var key := Trim(mem, tokens[0]);
      var val := Trim(mem, tokens[1]);
      headers := headers + [H.Header(key, val)];
      readBytes := readBytes + |line|;
      v := H.ReqOk;
    }

    method ParseHeaders() returns (v: H.Verdict)
      requires Valid()
      modifies `headers, `readBytes
      ensures Valid()
      ensures (v, View()) == H.HeaderLines(old(View()), mem, size)
    {
      while |headers| < H.MAX_HEADERS
        invariant Valid()
        invariant H.HeaderLines(old(View()), mem, size) == H.HeaderLines(View(), mem, size)
        decreases H.MAX_HEADERS - |headers|
      {
        var done;
        done, v := HeaderLine();
        if done {
          return;
        }
      }
      v := H.ReqOk;
    }

    method FindHeader(key: string) returns (i: nat)
      requires Valid()
      ensures i == H.FindHeader(mem, headers, key)
    {
      i := 0;
      while i < |headers|
        invariant 0 <= i <= |headers|
        invariant H.FindHeader(mem, headers, key) == i + H.FindHeader(mem, headers[i..], key)
      {
        var k := headers[i].key;
        if k.len == |key| {
          if mem[k.off..k.off + k.len] == key {
            return;
          }
        }
        assert headers[i..][1..] == headers[i + 1..];
        i := i + 1;
      }
    }

    method TakeLength() returns (v: H.Verdict)
      requires Valid()
      modifies `body, `state
      ensures (v, View()) == H.TakeLength(old(View()), mem)
    {
      var i := FindHeader(H.CONTENT_LENGTH);
      if i < |headers| {
        var len := D.ToInt(D.Strtol(mem, headers[i].val.off));
        if len > H.MAX_BODY {
          return H.ReqErr;
        }
        body := H.Slice(readBytes, len);
      }
      state := H.Body;
      v := H.ReqOk;
    }

    // The last two cases of parse_request
    method TakeBody() returns (v: H.Verdict)
      requires state == H.Body || state == H.ReadComplete
      modifies `state, `readBytes, `keepAlive
      ensures (v, View()) == if old(state) == H.Body then H.TakeBody(old(View()), size) else H.Finish(old(View()))
    {
      if state == H.Body {
        if body.len != 0 {
          readBytes := size;
          if readBytes - body.off < body.len {
            return H.ReqUf;
          }
        }
        state := H.ReadComplete;
      }
      if version == H.HTTP_VERSION_11 {
        keepAlive := true;
      }
      v := H.ReqOk;
    }

    method ParseRequest() returns (v: H.Verdict)
      requires Valid()
      modifies `state, `readBytes, `verb, `version, `uri, `headers, `body, `keepAlive
      ensures Valid()
      ensures (v, View()) == H.Parse(old(View()), mem, size)
    {
      if state == H.Init {
        v := ParseStatusLine();
        if v != H.ReqOk {
          return;
        }
        state := H.Headers;
      }
      if state == H.Headers {
        v := ParseHeaders();
        if v != H.ReqOk {
          return;
        }
        v := TakeLength();
        if v != H.ReqOk {
          return;
        }
      }
      v := TakeBody();
    }
  }

  lemma HeaderOutcome(mem: string, base: nat, line: string)
    requires base + |line| <= |mem| && mem[base..base + |line|] == line
    ensures var ts := ShiftAll(H.Split(line, 0, |line|, ':', 2), base);
      if |ts| != 2 then H.ReadHeader(line, base) == None
      else
        && H.Within(ts[0], mem) && H.Within(ts[1], mem)
        && H.Within(H.Trim(mem, ts[0]), mem) && H.Within(H.Trim(mem, ts[1]), mem)
        && H.ReadHeader(line, base) == Some(H.Header(H.Trim(mem, ts[0]), H.Trim(mem, ts[1])))
  {
    if |H.Split(line, 0, |line|, ':', 2)| == 2 {
      TokenShift(mem, base, line, ':', 2, 0);
      TokenShift(mem, base, line, ':', 2, 1);
    }
  }

  lemma StatusOutcome(r: H.Req, mem: string, line: string)
    requires line <= mem
    ensures var ts := ShiftAll(H.Split(line, 0, |line|, ' ', 3), 0);
      if |ts| != 3 then H.ReadStatus(r, line) == (H.ReqErr, r)
      else
        var t := H.Trim(mem, ts[2]);
        var m, w := H.Find(H.METHODS, H.Text(mem, ts[0])), H.Find(H.VERSIONS, H.Text(mem, t));
        && H.Within(ts[0], mem) && H.Within(ts[2], mem) && H.Within(t, mem)
        && H.ReadStatus(r, line) == (
          if m == |H.METHODS| || w == |H.VERSIONS| then (H.ReqErr, r)
          else (H.ReqOk, r.(verb := m, version := w, uri := ts[1], readBytes := |line|)))
  {
    if |H.Split(line, 0, |line|, ' ', 3)| == 3 {
      StatusTokens(mem, line);
    }
  }

  // The tokens of a status line at the front of the buffer
  lemma StatusTokens(mem: string, line: string)
    requires line <= mem && |H.Split(line, 0, |line|, ' ', 3)| == 3
    ensures var ts := H.Split(line, 0, |line|, ' ', 3);
      && ShiftAll(ts, 0) == ts
      && H.Within(ts[0], mem) && H.Text(mem, ts[0]) == H.Text(line, ts[0])
      && H.Within(ts[2], mem) && H.Trim(mem, ts[2]) == H.Trim(line, ts[2])
      && H.Within(H.Trim(line, ts[2]), mem) && H.Text(mem, H.Trim(line, ts[2])) == H.Text(line, H.Trim(line, ts[2]))
  {
    var ts := H.Split(line, 0, |line|, ' ', 3);
    TokenShift(mem, 0, line, ' ', 3, 0);
    TokenShift(mem, 0, line, ' ', 3, 2);
    assert H.Shift(ts[0], 0) == ts[0] && H.Shift(ts[2], 0) == ts[2];
    assert H.Shift(H.Trim(line, ts[2]), 0) == H.Trim(line, ts[2]);
  }

  // A token of a line that lies at position `base` of the buffer
  lemma TokenShift(mem: string, base: nat, line: string, delim: char, k: nat, j: nat)
    requires base + |line| <= |mem| && mem[base..base + |line|] == line && j < |H.Split(line, 0, |line|, delim, k)|
    ensures var t := H.Split(line, 0, |line|, delim, k)[j];
      && H.Within(t, line) && H.Within(H.Shift(t, base), mem) && H.Text(mem, H.Shift(t, base)) == H.Text(line, t)
      && H.Trim(mem, H.Shift(t, base)) == H.Shift(H.Trim(line, t), base)
      && H.Within(H.Shift(H.Trim(line, t), base), mem)
      && H.Text(mem, H.Shift(H.Trim(line, t), base)) == H.Text(line, H.Trim(line, t))
  {
    H.TokenWithin(line, 0, |line|, delim, k, j);
    var t := H.Split(line, 0, |line|, delim, k)[j];
    TextShift(mem, base, line, t);
    TrimShift(mem, base, line, t);
    TextShift(mem, base, line, H.Trim(line, t));
  }

  // One header line, when its line feed has been found
  lemma LineIsRead(r: H.Req, mem: string, size: nat, end: nat)
    requires r.readBytes < end <= size <= |mem| && H.IndexOf(mem, '\n', r.readBytes, size) == end - 1
    requires !(H.At(mem, r.readBytes) == '\r' && H.At(mem, r.readBytes + 1) == '\n')
    ensures H.HeaderStep(r, mem, size) ==
      match H.ReadHeader(mem[r.readBytes..end], r.readBytes)
      case None => H.Stop(H.ReqErr, r)
      case Some(h) => H.Go(r.(headers := r.headers + [h], readBytes := end))
  {
  }
}
