/** Whole runs of insertions into a database, with the link where it is meant to be and where the shipped code puts it. */
module Runs {
  import opened Common
  import opened Storage
  import opened Database

  // ---------- a new database ----------

  // The file that open_db creates
  function Fresh(b: nat): string
  {
    Le(0, 8) + Le(b, 8) + seq(8 * b, i => 255 as char)
  }

  lemma FreeBytes()
    ensures Le(DBID_FREE, 8) == seq(8, i => 255 as char)
  {
  }

  lemma FreshBucket(b: nat, k: nat)
    requires k < b
    ensures BucketHeld(Fresh(b), b, [], k)
  {
    var f := Fresh(b);
    FreeBytes();
    assert f[BucketPos(k)..BucketPos(k) + 8] == seq(8, i => 255 as char);
  }

  lemma FreshHeader(b: nat)
    ensures Holds(Fresh(b), 0, Le(0, 8)) && Holds(Fresh(b), 8, Le(b, 8))
  {
    assert Fresh(b)[0..8] == Le(0, 8) && Fresh(b)[8..16] == Le(b, 8);
  }

  lemma FreshIsValid(b: nat)
    requires 0 < b && BucketPos(b) <= MAX_FILE
    ensures Valid(Fresh(b), b, [])
  {
    FreshHeader(b);
    forall k | 0 <= k < b ensures BucketHeld(Fresh(b), b, [], k) {
      FreshBucket(b, k);
    }
  }

  // ---------- runs ----------

  // The files that a run of insertions of vals goes through, from the one it begins with
  ghost predicate Step(f: string, v: string, link: nat, g: string)
  {
    Mapped(f) && g == Insert(f, v, link).0
  }

  ghost predicate IsRun(fs: seq<string>, vals: seq<string>, link: nat)
  {
    && |fs| == |vals| + 1
    && forall i {:trigger Step(fs[i], vals[i], link, fs[i + 1])} :: 0 <= i < |vals| ==> Step(fs[i], vals[i], link, fs[i + 1])
  }

  // What the records of the values take up
  ghost function Total(vals: seq<string>): nat
  {
    if vals == [] then 0 else Total(vals[..|vals| - 1]) + REC_HDR_SIZE + |vals[|vals| - 1]|
  }

  // The values have 32-bit lengths, and n bytes and their records fit into a file.
  ghost predicate Fits(n: nat, vals: seq<string>)
  {
    n + Total(vals) <= MAX_FILE && forall i :: 0 <= i < |vals| ==> |vals[i]| < 0x1_0000_0000
  }

  lemma {:induction false} TotalMono(vals: seq<string>, i: nat)
    requires i < |vals|
    ensures Total(vals[..i + 1]) == Total(vals[..i]) + REC_HDR_SIZE + |vals[i]| <= Total(vals)
    decreases |vals|
  {
    assert vals[..i + 1][..i] == vals[..i];
    if i + 1 < |vals| {
      var init := vals[..|vals| - 1];
      TotalMono(init, i);
      assert init[..i + 1] == vals[..i + 1] && init[..i] == vals[..i];
    } else {
      assert vals[..i + 1] == vals;
    }
  }

  lemma FitsStep(n: nat, vals: seq<string>, i: nat)
    requires Fits(n, vals) && i < |vals|
    ensures |vals[i]| < 0x1_0000_0000 && n + Total(vals[..i]) + REC_HDR_SIZE + |vals[i]| <= MAX_FILE
    ensures n + Total(vals[..i + 1]) == n + Total(vals[..i]) + REC_HDR_SIZE + |vals[i]|
    ensures vals[..i] + [vals[i]] == vals[..i + 1]
  {
    TotalMono(vals, i);
  }

  // db_get as it is meant to be
  ghost predicate Answers(f: string, vals: seq<string>)
  {
    Mapped(f) && forall id: nat :: Get(f, id) == if id < |vals| then Some(vals[id]) else None
  }

  lemma ValidAnswers(f: string, b: nat, c: seq<string>)
    requires Valid(f, b, c)
    ensures Answers(f, c)
  {
    ValidHeader(f, b, c);
    forall id: nat ensures Get(f, id) == if id < |c| then Some(c[id]) else None {
      GetIs(f, b, c, id);
    }
  }


  lemma StepIsValid(f: string, b: nat, c: seq<string>, v: string, link: nat, g: string)
    requires Valid(f, b, c) && |v| < 0x1_0000_0000 && |f| + REC_HDR_SIZE + |v| <= MAX_FILE
    requires (link == INTENDED_LINK || |c| < b) && Step(f, v, link, g)
    ensures Valid(g, b, c + [v]) && |g| == |f| + REC_HDR_SIZE + |v|
  {
    InsertIs(f, b, c, v, link);
  }

  lemma Longer(c: seq<string>, vals: seq<string>, i: nat)
    requires 0 < i <= |vals|
    ensures (c + vals[..i - 1]) + [vals[i - 1]] == c + vals[..i]
  {
  }

  // The i-th file of a run that begins with a database holds the first i values besides what was there before.
  lemma {:induction false} RunKeeps(b: nat, c: seq<string>, fs: seq<string>, vals: seq<string>, link: nat, i: nat)
    requires IsRun(fs, vals, link) && Valid(fs[0], b, c) && Fits(|fs[0]|, vals)
    requires i <= |vals| && (link == INTENDED_LINK || |c| + i <= b)
    ensures Valid(fs[i], b, c + vals[..i]) && |fs[i]| == |fs[0]| + Total(vals[..i])
    decreases i
  {
    if i == 0 {
      assert c + vals[..0] == c;
    } else {
      RunKeeps(b, c, fs, vals, link, i - 1);
      FitsStep(|fs[0]|, vals, i - 1);
      assert Step(fs[i - 1], vals[i - 1], link, fs[i - 1 + 1]);
      StepIsValid(fs[i - 1], b, c + vals[..i - 1], vals[i - 1], link, fs[i]);
      Longer(c, vals, i);
    }
  }

  // The file after i insertions into a new one holds the first i values.
  lemma RunIsValid(b: nat, fs: seq<string>, vals: seq<string>, link: nat, i: nat)
    requires 0 < b && Fits(BucketPos(b), vals) && IsRun(fs, vals, link) && fs[0] == Fresh(b)
    requires i <= |vals| && (link == INTENDED_LINK || i <= b)
    ensures Valid(fs[i], b, vals[..i]) && |fs[i]| == BucketPos(b) + Total(vals[..i])
  {
    FreshIsValid(b);
    RunKeeps(b, [], fs, vals, link, i);
    assert [] + vals[..i] == vals[..i];
  }

  // With the link in `next`, every run of insertions into a new database refines the map from ids to bytes, at every step.
  lemma IntendedRefines(b: nat, fs: seq<string>, vals: seq<string>, i: nat)
    requires 0 < b && Fits(BucketPos(b), vals) && IsRun(fs, vals, INTENDED_LINK) && fs[0] == Fresh(b) && i <= |vals|
    ensures Answers(fs[i], vals[..i])
  {
    RunIsValid(b, fs, vals, INTENDED_LINK, i);
    ValidAnswers(fs[i], b, vals[..i]);
  }

  // ---------- the shipped link ----------

  // Record p can be read and is the last of its chain.
  ghost predicate IsTail(f: string, p: nat)
  {
    p + REC_HDR_SIZE <= |f| && U64(f, p + NEXT_OFFSET) == DBID_FREE
  }

  // What the shipped code makes of a database of b buckets: no chain is longer than one record, ...
  ghost predicate Headed(f: string, b: nat)
  {
    && Mapped(f) && NumBuckets(f) == b && |f| <= MAX_FILE
    && (forall k :: 0 <= k < b && Bucket(f, k) != DBID_FREE ==> BucketPos(b) <= Bucket(f, k) && IsTail(f, Bucket(f, k)))
    && (forall k, l :: 0 <= k < b && 0 <= l < b && Bucket(f, k) != DBID_FREE && Bucket(f, l) != DBID_FREE ==>
          Bucket(f, k) == Bucket(f, l) || Bucket(f, k) + REC_HDR_SIZE <= Bucket(f, l) || Bucket(f, l) + REC_HDR_SIZE <= Bucket(f, k))
  }

  // ... and bucket 0 goes on holding the record with id 0.
  ghost predicate ZeroFirst(f: string, b: nat)
  {
    Headed(f, b) && Bucket(f, 0) == BucketPos(b) && U64(f, BucketPos(b) + ID_OFFSET) == 0
  }

  // A chain of one record ends where it begins.
  lemma TailIsLast(f: string, p: nat, steps: nat)
    requires IsTail(f, p) && steps > 0
    ensures LastRecord(f, p, steps) == Record(p)
  {
  }

  // The value with id b cannot be found any more, whatever was stored under it: the search ends at the record with id 0.
  lemma LostValue(f: string, b: nat)
    requires b > 0 && ZeroFirst(f, b)
    ensures b % b == 0 && Bucket(f, 0) != DBID_FREE && FindRecord(f, Bucket(f, 0), b, |f|) == NotFound
    ensures Get(f, b) == None
  {
    ModUnique(b, 1, b, 0);
    assert FindRecord(f, Bucket(f, 0), b, |f|) == NotFound;
  }

  // The three writes of db_insert: the next id m, the link at `at`, and the record r
  ghost function Writes(f: string, m: nat, at: nat, r: string): string
  {
    PWrite(PWrite(PWrite(f, 0, Le(m, 8)), at, Le(|f|, 8)), |f|, r)
  }

  lemma WritesKeep(f: string, m: nat, at: nat, r: string, p: nat)
    requires 8 <= at && 8 <= p && p + 8 <= |f| && (p + 8 <= at || at + 8 <= p)
    ensures p + 8 <= |Writes(f, m, at, r)| && U64(Writes(f, m, at, r), p) == U64(f, p)
  {
    var g := PWrite(f, 0, Le(m, 8));
    var h := PWrite(g, at, Le(|f|, 8));
    U64Kept(f, 0, Le(m, 8), p);
    U64Kept(g, at, Le(|f|, 8), p);
    U64Kept(h, |f|, r, p);
  }

  lemma WritesLink(f: string, m: nat, at: nat, r: string)
    requires 8 <= at && at + 8 <= |f| < UINT64_RANGE
    ensures U64(Writes(f, m, at, r), at) == |f|
  {
    var g := PWrite(f, 0, Le(m, 8));
    var h := PWrite(g, at, Le(|f|, 8));
    U64Written(g, at, |f|);
    U64Kept(h, |f|, r, at);
  }

  lemma WritesTail(f: string, m: nat, at: nat, id: nat, v: string)
    requires 8 <= at <= |f| && 8 <= |f| && |v| < 0x1_0000_0000
    ensures var g := Writes(f, m, at, RecordBytes(id, DBID_FREE, v)); IsTail(g, |f|) && |g| == |f| + REC_HDR_SIZE + |v|
  {
    var r := RecordBytes(id, DBID_FREE, v);
    var h := PWrite(PWrite(f, 0, Le(m, 8)), at, Le(|f|, 8));
    HoldsWritten(h, |f|, r);
    RecordParts(PWrite(h, |f|, r), |f|, id, DBID_FREE, v);
    U64Held(PWrite(h, |f|, r), |f| + NEXT_OFFSET, DBID_FREE);
  }

  // Where the shipped code links a record into bucket k: in the bucket, or behind the `next` field of its only record
  ghost predicate LinksInto(f: string, b: nat, k: nat, at: nat)
    requires Headed(f, b)
  {
    && k < b
    && at == if Bucket(f, k) == DBID_FREE then BucketPos(k) else Bucket(f, k) + SHIPPED_LINK
  }

  lemma ShippedInsert(f: string, b: nat, v: string) returns (k: nat, at: nat)
    requires Headed(f, b)
    ensures LinksInto(f, b, k, at)
    ensures Insert(f, v, SHIPPED_LINK).0
      == Writes(f, (NextId(f) + 1) % UINT64_RANGE, at, RecordBytes(NextId(f), DBID_FREE, v))
  {
    k := NextId(f) % b;
    if Bucket(f, k) == DBID_FREE {
      at := BucketPos(k);
      LinksBucket(f, SHIPPED_LINK, k);
    } else {
      at := Bucket(f, k) + SHIPPED_LINK;
      U64Kept(f, 0, Le((NextId(f) + 1) % UINT64_RANGE, 8), Bucket(f, k) + NEXT_OFFSET);
      TailIsLast(Bumped(f), Bucket(f, k), |f|);
      LinksRecord(f, SHIPPED_LINK, k, Bucket(f, k), Bucket(f, k), at);
    }
  }

  // The buckets after an insertion
  lemma BucketAfter(f: string, b: nat, k: nat, at: nat, m: nat, r: string, j: nat)
    requires Headed(f, b) && LinksInto(f, b, k, at) && j < b
    ensures var g := Writes(f, m, at, r);
      && BucketPos(j) + 8 <= |g|
      && U64(g, BucketPos(j)) == if j == k && Bucket(f, k) == DBID_FREE then |f| else Bucket(f, j)
  {
    if j == k && Bucket(f, k) == DBID_FREE {
      WritesLink(f, m, at, r);
    } else {
      WritesKeep(f, m, at, r, BucketPos(j));
    }
  }

  // The only record of a bucket after an insertion
  lemma TailAfter(f: string, b: nat, k: nat, at: nat, m: nat, r: string, j: nat)
    requires Headed(f, b) && LinksInto(f, b, k, at) && j < b && Bucket(f, j) != DBID_FREE
    ensures IsTail(Writes(f, m, at, r), Bucket(f, j))
  {
    WritesKeep(f, m, at, r, Bucket(f, j) + NEXT_OFFSET);
  }

  // How the buckets of g come from those of f, when the record at |f| is new and bucket k is the one it belongs to
  ghost predicate BucketsFrom(f: string, g: string, b: nat, k: nat)
    requires Headed(f, b) && k < b && BucketPos(b) <= |g|
  {
    forall j: nat {:trigger BucketPos(j)} :: j < b ==>
      && U64(g, BucketPos(j)) == (if j == k && Bucket(f, k) == DBID_FREE then |f| else Bucket(f, j))
      && (Bucket(f, j) != DBID_FREE ==> IsTail(g, Bucket(f, j)))
  }

  lemma HeadedFrom(f: string, g: string, b: nat, k: nat)
    requires Headed(f, b) && k < b && |f| + REC_HDR_SIZE <= |g| <= MAX_FILE && IsTail(g, |f|)
    requires U64(g, 8) == b && BucketsFrom(f, g, b, k)
    ensures Headed(g, b)
  {
  }

  lemma HeadedAfter(f: string, b: nat, k: nat, at: nat, m: nat, id: nat, v: string)
    requires Headed(f, b) && LinksInto(f, b, k, at) && |v| < 0x1_0000_0000 && |f| + REC_HDR_SIZE + |v| <= MAX_FILE
    ensures var g := Writes(f, m, at, RecordBytes(id, DBID_FREE, v));
      Headed(g, b) && |g| == |f| + REC_HDR_SIZE + |v| && (ZeroFirst(f, b) ==> ZeroFirst(g, b))
  {
    var r := RecordBytes(id, DBID_FREE, v);
    var g := Writes(f, m, at, r);
    WritesTail(f, m, at, id, v);
    WritesKeep(f, m, at, r, 8);
    forall j: nat | j < b
      ensures U64(g, BucketPos(j)) == if j == k && Bucket(f, k) == DBID_FREE then |f| else Bucket(f, j)
      ensures Bucket(f, j) != DBID_FREE ==> IsTail(g, Bucket(f, j))
    {
      BucketAfter(f, b, k, at, m, r, j);
      if Bucket(f, j) != DBID_FREE {
        TailAfter(f, b, k, at, m, r, j);
      }
    }
    HeadedFrom(f, g, b, k);
    if ZeroFirst(f, b) {
      WritesKeep(f, m, at, r, BucketPos(b) + ID_OFFSET);
    }
  }

  // One insertion by the shipped code
  lemma StepHeaded(f: string, b: nat, v: string, g: string)
    requires Headed(f, b) && Step(f, v, SHIPPED_LINK, g)
    requires |v| < 0x1_0000_0000 && |f| + REC_HDR_SIZE + |v| <= MAX_FILE
    ensures Headed(g, b) && |g| == |f| + REC_HDR_SIZE + |v| && (ZeroFirst(f, b) ==> ZeroFirst(g, b))
  {
    var k, at := ShippedInsert(f, b, v);
    HeadedAfter(f, b, k, at, (NextId(f) + 1) % UINT64_RANGE, NextId(f), v);
  }

  lemma HeadAt(f: string, b: nat, c: seq<string>, k: nat)
    requires Valid(f, b, c) && |c| == b && k < b
    ensures Mapped(f) && NumBuckets(f) == b && Bucket(f, k) == Off(b, c, k) && IsTail(f, Off(b, c, k))
    ensures BucketPos(b) <= Off(b, c, k)
  {
    ValidBucket(f, b, c, k);
    ValidRecord(f, b, c, k);
    OffLow(b, c, k);
  }

  lemma HeadsApart(b: nat, c: seq<string>, k: nat, l: nat)
    requires k < |c| && l < |c|
    ensures k == l || Off(b, c, k) + REC_HDR_SIZE <= Off(b, c, l) || Off(b, c, l) + REC_HDR_SIZE <= Off(b, c, k)
  {
    if k < l {
      OffMono(b, c, k, l);
    } else if l < k {
      OffMono(b, c, l, k);
    }
  }

  // As long as there is no more than one record to a bucket, a database is what the shipped code keeps up.
  lemma ValidHeaded(f: string, b: nat, c: seq<string>)
    requires Valid(f, b, c) && |c| == b
    ensures ZeroFirst(f, b)
  {
    ValidHeader(f, b, c);
    forall k: nat | k < b ensures Bucket(f, k) == Off(b, c, k) && IsTail(f, Off(b, c, k)) && BucketPos(b) <= Off(b, c, k) {
      HeadAt(f, b, c, k);
    }
    forall k: nat, l: nat | k < b && l < b
      ensures k == l || Off(b, c, k) + REC_HDR_SIZE <= Off(b, c, l) || Off(b, c, l) + REC_HDR_SIZE <= Off(b, c, k)
    {
      HeadsApart(b, c, k, l);
    }
    ValidRecord(f, b, c, 0);
  }

  lemma {:induction false} RunZeroFirst(b: nat, fs: seq<string>, vals: seq<string>, i: nat)
    requires 0 < b && Fits(BucketPos(b), vals) && IsRun(fs, vals, SHIPPED_LINK) && fs[0] == Fresh(b)
    requires b <= i <= |vals|
    ensures ZeroFirst(fs[i], b) && |fs[i]| == BucketPos(b) + Total(vals[..i])
    decreases i
  {
    if i == b {
      RunIsValid(b, fs, vals, SHIPPED_LINK, b);
      ValidHeaded(fs[b], b, vals[..b]);
    } else {
      RunZeroFirst(b, fs, vals, i - 1);
      FitsStep(BucketPos(b), vals, i - 1);
      assert Step(fs[i - 1], vals[i - 1], SHIPPED_LINK, fs[i - 1 + 1]);
      StepHeaded(fs[i - 1], b, vals[i - 1], fs[i]);
    }
  }

  // With the link where the shipped code puts it, a run of insertions refines the map exactly as long as it does not fill
  // more than every bucket once.
  lemma ShippedRefines(b: nat, fs: seq<string>, vals: seq<string>, i: nat)
    requires 0 < b && Fits(BucketPos(b), vals) && IsRun(fs, vals, SHIPPED_LINK) && fs[0] == Fresh(b) && i <= |vals|
    ensures Answers(fs[i], vals[..i]) <==> i <= b
  {
    if i <= b {
      RunIsValid(b, fs, vals, SHIPPED_LINK, i);
      ValidAnswers(fs[i], b, vals[..i]);
    } else {
      RunZeroFirst(b, fs, vals, i);
      LostValue(fs[i], b);
      assert Get(fs[i], b) != Some(vals[..i][b]);
    }
  }
}
