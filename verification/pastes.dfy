/** The callbacks of cask.c that store a paste and return it, from the bytes of the requests to the database and back. */
module Pastes {
  import opened Common
  import opened Decimal
  import H = Http
  import C = Chunks
  import opened R = Render
  import opened Storage
  import opened Database
  import opened Runs
  import Store

  datatype Reply = Reply(status: string, body: string)

  const OK200: string := "200 OK"
  const BAD400: string := "400 Bad Request"
  const MISSING404: string := "404 Not Found"
  const ERROR500: string := "500 Internal Server Error"

  // ---------- GET ----------

  // A character that get_callback lets pass at position i of a URI
  predicate Passes(t: string, i: nat)
    requires i < |t|
  {
    IsDigit(t[i]) || (t[i] == '/' && |t| > 2 && i == |t| - 1)
  }

  ghost predicate UriOk(t: string)
  {
    forall i :: 1 <= i < |t| ==> Passes(t, i)
  }

  lemma DigitsWithin(t: string, from: nat, end: nat)
    requires from <= end <= |t|
    ensures AllDigits(t[from..end]) <==> forall i :: from <= i < end ==> IsDigit(t[i])
  {
    if AllDigits(t[from..end]) {
      forall i | from <= i < end ensures IsDigit(t[i]) {
        assert t[i] == t[from..end][i - from];
      }
    }
  }

  // A URI passes when it is one character long, or that and digits, of which a slash may follow at least one.
  lemma UriForms(t: string)
    ensures UriOk(t) <==>
      || |t| <= 1
      || AllDigits(t[1..])
      || (|t| > 2 && AllDigits(t[1..|t| - 1]) && t[|t| - 1] == '/')
  {
    if |t| > 1 {
      DigitsWithin(t, 1, |t|);
      assert t[1..] == t[1..|t|];
      DigitsWithin(t, 1, |t| - 1);
      if UriOk(t) {
        assert Passes(t, |t| - 1);
        forall i | 1 <= i < |t| - 1 ensures IsDigit(t[i]) {
          assert Passes(t, i);
        }
      } else {
        var i :| 1 <= i < |t| && !Passes(t, i);
        assert !IsDigit(t[i]);
      }
    }
  }

  // The URI of a parsed request lies in the received bytes, and others follow it.
  ghost predicate UriWithin(d: string, uri: H.Slice)
  {
    0 <= uri.off && 0 <= uri.len && uri.off + uri.len < |d|
  }

  // What get_callback answers to a request in d
  ghost function Fetch(f: string, d: string, uri: H.Slice): Reply
    requires Mapped(f) && UriWithin(d, uri)
  {
    if !UriOk(H.Text(d, uri)) then Reply(MISSING404, "")
    else
      match Get(f, Strtoull(d, uri.off + 1))
      case Some(v) => Reply(OK200, v)
      case None => Reply(MISSING404, "Paste not found")
  }

  method GetCallback(db: Store.Db, d: string, uri: H.Slice) returns (reply: Reply)
    requires Mapped(db.file) && UriWithin(d, uri) && forall id: nat :: Store.FindEnds(db.file, id)
    ensures reply == Fetch(db.file, d, uri)
  {
    var i := 1;
    ghost var t := H.Text(d, uri);
    while i < uri.len
      invariant 1 <= i && forall j :: 1 <= j < i && j < |t| ==> Passes(t, j)
    {
      var c := d[uri.off + i];
      assert c == t[i];
      if !IsDigit(c) {
        if c == '/' && uri.len > 2 && i == uri.len - 1 {
          break;
        }
        assert !Passes(t, i);
        return Reply(MISSING404, "");
      }
      i := i + 1;
    }
    assert forall j :: 1 <= j < |t| ==> Passes(t, j);
    var entry := db.Get(Strtoull(d, uri.off + 1));
    match entry
    case Some(v) => reply := Reply(OK200, v);
    case None => reply := Reply(MISSING404, "Paste not found");
  }

  // ---------- POST ----------

  // The bytes of the 20-byte buffer of post_callback that are sent for an id: snprintf cuts a number of 20 digits short
  // and ends it with a NUL, but returns its full length.
  function Printed(id: nat): string
  {
    var s := Print(id);
    if |s| < 20 then s else s[..19] + "\0"
  }

  lemma {:induction false} PrintLonger(n: nat, k: nat)
    requires n >= Pow10(k)
    ensures |Print(n)| > k
    decreases k
  {
    if k > 0 {
      Pow10Positive(k - 1);
      PrintLonger(n / 10, k - 1);
    }
  }

  lemma Pow10Positive(k: nat)
    ensures Pow10(k) >= 1
  {
  }

  // The reply to a post is the decimal id exactly when that has fewer than 20 digits. An id of 20 digits loses its last one to
  // a NUL.
  lemma PrintedIsId(id: nat)
    ensures Printed(id) == Print(id) <==> id < 10_000_000_000_000_000_000
    ensures 10_000_000_000_000_000_000 <= id < UINT64_RANGE ==> Printed(id) == Print(id / 10) + "\0"
  {
    Pow10Of19();
    if id < Pow10(19) {
      PrintLength(id, 19);
    } else {
      PrintLonger(id, 19);
      var s := Print(id);
      assert |s| == 20 ==> IsDigit(s[19]) && Printed(id)[19] == '\0';
      if id < UINT64_RANGE {
        PrintLength(id, 20);
        assert s[..19] == Print(id / 10);
      }
    }
  }

  // What post_callback answers to a body, and the file it leaves
  function Post(f: string, body: string, link: nat): (string, Reply)
    requires Mapped(f)
  {
    if body == "" then (f, Reply(BAD400, "Error: Zero length paste"))
    else
      match Insert(f, body, link)
      case (g, None) => (g, Reply(ERROR500, ""))
      case (g, Some(id)) => (g, Reply(OK200, Printed(id)))
  }

  method PostCallback(db: Store.Db, body: string) returns (reply: Reply)
    requires Mapped(db.file) && Store.WalkEnds(db.file)
    modifies db`file
    ensures (db.file, reply) == Post(old(db.file), body, db.link)
  {
    if |body| == 0 {
      return Reply(BAD400, "Error: Zero length paste");
    }
    var ok, id := db.Insert(body);
    if !ok {
      return Reply(ERROR500, "");
    }
    reply := Reply(OK200, Printed(id));
  }

  // ---------- there and back ----------

  // The URI under which a client asks for the paste whose id it was given
  ghost predicate AsksFor(uri: string, id: string)
  {
    uri == "/" + id || uri == "/" + id + "/"
  }

  lemma UriPasses(t: string, p: string)
    requires AsksFor(t, p) && p != "" && AllDigits(p)
    ensures UriOk(t) && t[1..|p| + 1] == p && (|p| + 1 < |t| ==> t[|p| + 1] == '/')
  {
    forall i | 1 <= i < |t| ensures Passes(t, i) {
      if i <= |p| {
        assert t[i] == p[i - 1];
      }
    }
  }

  lemma SliceOfSlice(d: string, a: nat, b: nat, x: nat, y: nat)
    requires a <= b <= |d| && x <= y <= b - a
    ensures d[a..b][x..y] == d[a + x..a + y]
  {
    var s := d[a..b];
    forall k | 0 <= k < y - x ensures s[x..y][k] == d[a + x..a + y][k] {
      assert s[x + k] == d[a + (x + k)];
    }
  }

  // A request line that asks for the digits s
  lemma UriIsRead(d: string, uri: H.Slice, s: string)
    requires UriWithin(d, uri) && AsksFor(H.Text(d, uri), s) && !IsDigit(d[uri.off + uri.len])
    requires s != "" && AllDigits(s)
    ensures UriOk(H.Text(d, uri))
    ensures Strtoull(d, uri.off + 1) == if Value(s) < UINT64_RANGE then Value(s) else UINT64_RANGE - 1
  {
    var t, from := H.Text(d, uri), uri.off + 1;
    UriPasses(t, s);
    var end := from + |s|;
    SliceOfSlice(d, uri.off, uri.off + uri.len, 1, |s| + 1);
    assert d[from..end] == s;
    assert end < uri.off + uri.len ==> d[end] == t[|s| + 1];
    NumberRead(d, from, end);
  }

  // Whatever digits a request names, the paste of that number is returned, if the database holds it; if not, none is found.
  lemma Fetched(f: string, b: nat, c: seq<string>, s: string, d: string, uri: H.Slice)
    requires Valid(f, b, c) && s != "" && AllDigits(s)
    requires UriWithin(d, uri) && AsksFor(H.Text(d, uri), s) && !IsDigit(d[uri.off + uri.len])
    ensures Mapped(f)
    ensures Fetch(f, d, uri)
      == if Value(s) < |c| then Reply("200 OK", c[Value(s)]) else Reply("404 Not Found", "Paste not found")
  {
    ValidHeader(f, b, c);
    GetIs(f, b, c, Strtoull(d, uri.off + 1));
    UriIsRead(d, uri, s);
  }

  // Posting a body adds it to the database and answers with the printed id.
  lemma Posted(f: string, b: nat, c: seq<string>, body: string, link: nat)
    requires Valid(f, b, c) && 0 < |body| < 0x1_0000_0000 && |f| + REC_HDR_SIZE + |body| <= MAX_FILE
    requires link == INTENDED_LINK || |c| < b
    ensures Mapped(f)
    ensures var (g, reply) := Post(f, body, link); Valid(g, b, c + [body]) && reply == Reply("200 OK", Print(|c|))
  {
    InsertIs(f, b, c, body, link);
    ValidHeader(f, b, c);
    Pow10Of19();
    PrintedIsId(|c|);
  }

  lemma Pow10Of19()
    ensures Pow10(19) == 10_000_000_000_000_000_000
  {
    assert Pow10(9) == 1_000_000_000;
    assert Pow10(14) == 100_000 * Pow10(9);
    assert Pow10(19) == 100_000 * Pow10(14);
  }

  // The URI of a written request, as it is parsed
  lemma RequestUri(q: Parts)
    requires WellFormed(q) && LengthMatches(q) && |q.headers| < H.MAX_HEADERS
    ensures var (v, r) := C.ParseAll(H.BLANK, Render(q));
      && v == H.ReqOk && UriWithin(Render(q), r.uri) && H.Text(Render(q), r.uri) == q.uri
      && Render(q)[r.uri.off + r.uri.len] == ' '
  {
    RenderIsParsed(q);
    AtHeadersIs(q);
    UriBack(q);
    BehindUri(q);
  }

  lemma BehindUri(q: Parts)
    requires WellFormed(q)
    ensures var k := |H.METHODS[q.verb]| + 1 + |q.uri|; k < |Render(q)| && Render(q)[k] == ' '
  {
    RenderLayout(q);
    var k := |H.METHODS[q.verb]| + 1 + |q.uri|;
    assert Render(q)[k] == Render(q)[..|StatusText(q)|][k] == StatusText(q)[k] == ' ';
  }

  lemma BodyBack(p: Parts)
    requires WellFormed(p) && LengthMatches(p) && |p.headers| < H.MAX_HEADERS
    ensures H.Text(Render(p), C.ParseAll(H.BLANK, Render(p)).1.body) == p.body
  {
    RenderIsParsed(p);
  }

  // The answer to a written POST request with a body
  lemma PostedParts(f: string, b: nat, c: seq<string>, link: nat, p: Parts)
    requires Valid(f, b, c) && (link == INTENDED_LINK || |c| < b) && |f| + REC_HDR_SIZE + |p.body| <= MAX_FILE
    requires WellFormed(p) && LengthMatches(p) && |p.headers| < H.MAX_HEADERS && p.body != ""
    ensures var (_, r) := C.ParseAll(H.BLANK, Render(p));
      Mapped(f) && Post(f, H.Text(Render(p), r.body), link).1 == Reply(OK200, Print(|c|))
  {
    BodyBack(p);
    Posted(f, b, c, p.body, link);
  }

  // The answer to a written request for digits
  lemma FetchedParts(g: string, b: nat, c: seq<string>, s: string, q: Parts)
    requires Valid(g, b, c) && s != "" && AllDigits(s)
    requires WellFormed(q) && LengthMatches(q) && |q.headers| < H.MAX_HEADERS && AsksFor(q.uri, s)
    ensures var (_, r) := C.ParseAll(H.BLANK, Render(q));
      && Mapped(g) && UriWithin(Render(q), r.uri)
      && Fetch(g, Render(q), r.uri)
         == if Value(s) < |c| then Reply("200 OK", c[Value(s)]) else Reply("404 Not Found", "Paste not found")
  {
    RequestUri(q);
    Fetched(g, b, c, s, Render(q), C.ParseAll(H.BLANK, Render(q)).1.uri);
  }

  lemma FetchedId(g: string, b: nat, c: seq<string>, id: nat, q: Parts)
    requires Valid(g, b, c) && id < |c|
    requires WellFormed(q) && LengthMatches(q) && |q.headers| < H.MAX_HEADERS && AsksFor(q.uri, Print(id))
    ensures var (_, r) := C.ParseAll(H.BLANK, Render(q));
      Mapped(g) && UriWithin(Render(q), r.uri) && Fetch(g, Render(q), r.uri) == Reply("200 OK", c[id])
  {
    ValueOfPrint(id);
    FetchedParts(g, b, c, Print(id), q);
  }

  // A written request whose URI has a character behind the first that is no digit, and is not a slash at the end behind a digit,
  // is answered by an empty 404, whatever the database holds.
  lemma BadUri(g: string, q: Parts, i: nat)
    requires Mapped(g) && WellFormed(q) && LengthMatches(q) && |q.headers| < H.MAX_HEADERS
    requires 1 <= i < |q.uri| && !('0' <= q.uri[i] <= '9') && !(q.uri[i] == '/' && i == |q.uri| - 1 && i > 1)
    ensures var (_, r) := C.ParseAll(H.BLANK, Render(q));
      UriWithin(Render(q), r.uri) && Fetch(g, Render(q), r.uri) == Reply("404 Not Found", "")
  {
    RequestUri(q);
    assert !Passes(q.uri, i);
  }

  // A written request without a body stores nothing, and is answered by a 400.
  lemma EmptyPost(f: string, link: nat, p: Parts)
    requires Mapped(f) && WellFormed(p) && LengthMatches(p) && |p.headers| < H.MAX_HEADERS && p.body == ""
    ensures var (_, r) := C.ParseAll(H.BLANK, Render(p));
      Post(f, H.Text(Render(p), r.body), link) == (f, Reply("400 Bad Request", "Error: Zero length paste"))
  {
    BodyBack(p);
  }

  // A written request with a body is answered by an empty 500 when the chain of its bucket begins with a record that cannot be
  // read whole; the id has been used up all the same.
  lemma BrokenPost(f: string, link: nat, p: Parts)
    requires Mapped(f) && WellFormed(p) && LengthMatches(p) && |p.headers| < H.MAX_HEADERS && p.body != ""
    requires var first := Bucket(f, NextId(f) % NumBuckets(f)); first != DBID_FREE && first + 20 > |f|
    ensures var (_, r) := C.ParseAll(H.BLANK, Render(p));
      Post(f, H.Text(Render(p), r.body), link)
      == (PWrite(f, 0, Le((NextId(f) + 1) % UINT64_RANGE, 8)), Reply("500 Internal Server Error", ""))
  {
    BodyBack(p);
    BrokenInsert(f, p.body, link);
  }

  lemma BrokenInsert(f: string, body: string, link: nat)
    requires Mapped(f)
    requires var first := Bucket(f, NextId(f) % NumBuckets(f)); first != DBID_FREE && first + 20 > |f|
    ensures Insert(f, body, link) == (Bumped(f), None)
  {
    var first := Bucket(f, NextId(f) % NumBuckets(f));
    assert LastRecord(Bumped(f), first, |f|) == Short;
  }

  // Posting and going on with insertions of `more` leaves the body under its id.
  lemma PostedAndKept(f: string, b: nat, c: seq<string>, link: nat, body: string, fs: seq<string>, more: seq<string>)
    requires Valid(f, b, c) && 0 < |body| < 0x1_0000_0000 && (link == INTENDED_LINK || |c| + 1 + |more| <= b)
    requires Fits(|f| + REC_HDR_SIZE + |body|, more)
    requires IsRun(fs, more, link) && (Mapped(f) ==> fs[0] == Post(f, body, link).0)
    ensures Valid(fs[|more|], b, c + [body] + more)
  {
    InsertIs(f, b, c, body, link);
    RunKeeps(b, c + [body], fs, more, link, |more|);
    assert more[..|more|] == more;
  }

  // From bytes to bytes: when a written POST request with a body is received and answered, and other pastes are stored after
  // it, every written request for the id in the answer returns that body. With the shipped link, this holds as long as there
  // are no more pastes than buckets.
  lemma PasteRoundTrip(f: string, b: nat, c: seq<string>, link: nat, p: Parts, fs: seq<string>, more: seq<string>)
    requires Valid(f, b, c) && (link == INTENDED_LINK || |c| + 1 + |more| <= b)
    requires WellFormed(p) && LengthMatches(p) && |p.headers| < H.MAX_HEADERS && p.body != ""
    requires Fits(|f| + REC_HDR_SIZE + |p.body|, more) && IsRun(fs, more, link)
    requires Mapped(f) ==> fs[0] == Post(f, H.Text(Render(p), C.ParseAll(H.BLANK, Render(p)).1.body), link).0
    ensures Mapped(f) && Mapped(fs[|more|])
    ensures var id := Post(f, H.Text(Render(p), C.ParseAll(H.BLANK, Render(p)).1.body), link).1.body;
      forall q {:trigger Render(q)} | WellFormed(q) && LengthMatches(q) && |q.headers| < H.MAX_HEADERS && AsksFor(q.uri, id) ::
        var uri := C.ParseAll(H.BLANK, Render(q)).1.uri;
        UriWithin(Render(q), uri) && Fetch(fs[|more|], Render(q), uri) == Reply(OK200, p.body)
  {
    var g := fs[|more|];
    BodyBack(p);
    PostedParts(f, b, c, link, p);
    PostedAndKept(f, b, c, link, p.body, fs, more);
    ValidHeader(g, b, c + [p.body] + more);
    forall q | WellFormed(q) && LengthMatches(q) && |q.headers| < H.MAX_HEADERS && AsksFor(q.uri, Print(|c|))
      ensures var uri := C.ParseAll(H.BLANK, Render(q)).1.uri;
        UriWithin(Render(q), uri) && Fetch(g, Render(q), uri) == Reply(OK200, p.body)
    {
      FetchedId(g, b, c + [p.body] + more, |c|, q);
    }
  }
}
