/** A client's reading of responses (sections 2.1 and 4 of RFC 9112), and that it gets back what send_response has put in. */
module Replies {
  import opened Common
  import opened Decimal
  import opened Http
  import opened Lifecycle
  import opened Names

  datatype Reply = Reply(version: string, status: string, headers: seq<string>, body: string)

  // ---------- a reader of responses ----------

  // How many bytes stand in front of the first CR LF
  function LineLength(w: string): Option<nat>
  {
    if |w| < 2 then None
    else if w[0] == '\r' && w[1] == '\n' then Some(0)
    else
      match LineLength(w[1..])
      case Some(n) => Some(n + 1)
      case None => None
  }

  // The header lines at the front of w, and what stands behind the blank line that ends them
  function ReadHeaders(w: string): Option<(seq<string>, string)>
    decreases |w|
  {
    match LineLength(w)
    case None => None
    case Some(n) =>
      if n + 2 > |w| then None
      else if n == 0 then Some(([], w[2..]))
      else
        match ReadHeaders(w[n + 2..])
        case None => None
        case Some((hs, rest)) => Some(([w[..n]] + hs, rest))
  }

  // The number behind "Content-Length: "
  ghost function ReadLength(hs: seq<string>): Option<nat>
  {
    if hs == [] then None
    else if "Content-Length: " <= hs[0] && AllDigits(hs[0][16..]) then Some(Value(hs[0][16..]))
    else ReadLength(hs[1..])
  }

  // The response at the front of w, and what stands behind it
  ghost function ReadReply(w: string): Option<(Reply, string)>
  {
    match LineLength(w)
    case None => None
    case Some(n) =>
      if n < 9 || n + 2 > |w| || w[8] != ' ' then None
      else
        match ReadHeaders(w[n + 2..])
        case None => None
        case Some((hs, rest)) =>
          match ReadLength(hs)
          case None => None
          case Some(k) => if k > |rest| then None else Some((Reply(w[..8], w[9..n], hs, rest[..k]), rest[k..]))
  }

  // ---------- reading back ----------

  lemma {:induction false} LineIsRead(line: string, rest: string)
    requires '\r' !in line
    ensures LineLength(line + "\r\n" + rest) == Some(|line|)
  {
    var w := line + "\r\n" + rest;
    if line != "" {
      assert w[0] == line[0] && line[0] in line;
      assert w[1..] == line[1..] + "\r\n" + rest;
      LineIsRead(line[1..], rest);
    } else {
      assert w[0] == '\r' && w[1] == '\n';
    }
  }

  lemma LineParts(line: string, rest: string)
    ensures var w := line + "\r\n" + rest; |w| >= |line| + 2 && w[..|line|] == line && w[|line| + 2..] == rest
  {
  }

  ghost function Lines(hs: seq<string>): string
  {
    if hs == [] then "" else hs[0] + "\r\n" + Lines(hs[1..])
  }

  lemma {:induction false} HeadersAreRead(hs: seq<string>, rest: string)
    requires forall i :: 0 <= i < |hs| ==> hs[i] != "" && '\r' !in hs[i]
    ensures ReadHeaders(Lines(hs) + "\r\n" + rest) == Some((hs, rest))
    decreases |hs|
  {
    var w := Lines(hs) + "\r\n" + rest;
    if hs == [] {
      assert w == "" + "\r\n" + rest;
      LineIsRead("", rest);
      assert w[2..] == rest;
    } else {
      var more := Lines(hs[1..]) + "\r\n" + rest;
      assert w == hs[0] + "\r\n" + more;
      LineIsRead(hs[0], more);
      var n := |hs[0]|;
      LineParts(hs[0], more);
      HeadersAreRead(hs[1..], rest);
      assert ReadHeaders(w[n + 2..]) == Some((hs[1..], rest));
      assert [hs[0]] + hs[1..] == hs;
    }
  }

  ghost function HeadersOf(keep: bool, n: nat): seq<string>
  {
    (if keep then ["Connection: keep-alive", "Keep-Alive: timeout=5"] else []) + ["Content-Length: " + Print(n)]
  }

  lemma LengthIsRead(keep: bool, n: nat)
    ensures ReadLength(HeadersOf(keep, n)) == Some(n)
  {
    ValueOfPrint(n);
    var h := "Content-Length: " + Print(n);
    assert h[16..] == Print(n);
    assert ReadLength([h]) == Some(n);
    if keep {
      var hs := HeadersOf(true, n);
      assert hs[1..] == ["Keep-Alive: timeout=5", h] && hs[1..][1..] == [h];
      assert hs[0][1] == 'o' && hs[0][2] == 'n' && hs[0][3] == 'n';
      assert hs[1][0] == 'K';
    }
  }

  lemma DigitsOnly(s: string)
    requires AllDigits(s)
    ensures '\r' !in s
  {
  }

  lemma HeadersPlain(keep: bool, n: nat)
    ensures forall i :: 0 <= i < |HeadersOf(keep, n)| ==> HeadersOf(keep, n)[i] != "" && '\r' !in HeadersOf(keep, n)[i]
  {
    DigitsOnly(Print(n));
  }

  lemma LinesOf(keep: bool, n: nat)
    ensures Lines(HeadersOf(keep, n)) == KeepText(keep) + (("Content-Length: " + Print(n)) + CRLF)
  {
    var h := "Content-Length: " + Print(n);
    LastLine(h);
    if keep {
      var hs := HeadersOf(true, n);
      assert hs[1..] == ["Keep-Alive: timeout=5", h] && hs[1..][1..] == [h];
      TwoLines("Connection: keep-alive", "Keep-Alive: timeout=5", h);
      assert hs == ["Connection: keep-alive", "Keep-Alive: timeout=5", h];
    } else {
      assert HeadersOf(false, n) == [h];
    }
  }

  lemma LastLine(h: string)
    ensures Lines([h]) == h + CRLF
  {
    assert [h][1..] == [];
  }

  lemma TwoLines(a: string, b: string, h: string)
    ensures Lines([a, b, h]) == a + CRLF + b + CRLF + (h + CRLF)
  {
    LastLine(h);
    assert [a, b, h][1..] == [b, h] && [b, h][1..] == [h];
    assert Lines([b, h]) == b + CRLF + (h + CRLF);
  }

  lemma Regroup(a: string, k: string, c: string, p: string, body: string)
    ensures a + CRLF + k + c + p + CRLF + CRLF + body == a + CRLF + (k + ((c + p) + CRLF) + CRLF + body)
  {
  }

  // The text of a response, in the order of its parts
  lemma ResponseText(version: nat, keep: bool, status: string, body: string)
    requires version < 3
    ensures Response(version, keep, status, body)
      == (VersionName(version) + " " + status) + CRLF + (Lines(HeadersOf(keep, |body|)) + CRLF + body)
  {
    LinesOf(keep, |body|);
    Regroup(VersionName(version) + " " + status, KeepText(keep), "Content-Length: ", Print(|body|), body);
    assert VERSIONS[version] == VersionName(version);
  }

  lemma FirstLine(version: string, status: string, rest: string)
    requires |version| == 8
    ensures var first := version + " " + status; var w := first + CRLF + rest;
      |first| >= 9 && w[..8] == version && w[8] == ' ' && w[9..|first|] == status
  {
    var first := version + " " + status;
    assert (first + CRLF + rest)[..|first|] == first;
    assert first[..8] == version && first[9..] == status;
  }

  lemma Assemble(w: string, n: nat, hs: seq<string>, body: string, more: string)
    requires 9 <= n && n + 2 <= |w| && w[8] == ' ' && LineLength(w) == Some(n)
    requires ReadHeaders(w[n + 2..]) == Some((hs, body + more)) && ReadLength(hs) == Some(|body|)
    ensures ReadReply(w) == Some((Reply(w[..8], w[9..n], hs, body), more))
  {
    assert (body + more)[..|body|] == body && (body + more)[|body|..] == more;
  }

  lemma PartsAreRead(first: string, hs: seq<string>, body: string, more: string, version: string, status: string)
    requires first == version + " " + status && |version| == 8 && '\r' !in first
    requires forall i :: 0 <= i < |hs| ==> hs[i] != "" && '\r' !in hs[i]
    requires ReadLength(hs) == Some(|body|)
    ensures ReadReply(first + CRLF + (Lines(hs) + CRLF + (body + more))) == Some((Reply(version, status, hs, body), more))
  {
    var rest := Lines(hs) + CRLF + (body + more);
    LineIsRead(first, rest);
    LineParts(first, rest);
    HeadersAreRead(hs, body + more);
    FirstLine(version, status, rest);
    Assemble(first + CRLF + rest, |first|, hs, body, more);
  }

  lemma Behind(first: string, lines: string, body: string, more: string)
    ensures first + CRLF + (lines + CRLF + body) + more == first + CRLF + (lines + CRLF + (body + more))
  {
  }

  // Whatever follows on the wire, a client that reads a response gets the version, the status and the body that were put in,
  // and the keep-alive headers exactly if the connection is kept.
  lemma ReplyIsRead(version: nat, keep: bool, status: string, body: string, more: string)
    requires version < 3 && '\r' !in status
    ensures ReadReply(Response(version, keep, status, body) + more)
      == Some((Reply(VersionName(version), status, HeadersOf(keep, |body|), body), more))
  {
    var first, hs := VersionName(version) + " " + status, HeadersOf(keep, |body|);
    ResponseText(version, keep, status, body);
    Behind(first, Lines(hs), body, more);
    HeadersPlain(keep, |body|);
    LengthIsRead(keep, |body|);
    PartsAreRead(first, hs, body, more, VersionName(version), status);
  }
}
