/** The hash table of db.c, which lives in one file: a header, the buckets, and the chained records behind them. */
module Database {
  import opened Common
  import opened Storage

  const DBID_FREE: nat := 0xFFFF_FFFF_FFFF_FFFF
  const HEADER_SIZE: nat := 16
  const REC_HDR_SIZE: nat := 20
  const MAX_FILE: nat := 0x7fff_ffff_ffff_ffff

  // Offsets in a record header
  const ID_OFFSET: nat := 4
  const NEXT_OFFSET: nat := 12

  // Where db_insert links a new record into the last one of its chain: at the `next` field, as it is meant to, or at the
  // field behind it, as the shipped expression offsetof(struct record, offset) says.
  const INTENDED_LINK: nat := NEXT_OFFSET
  const SHIPPED_LINK: nat := REC_HDR_SIZE

  // ---------- what the file says ----------

  function NextId(f: string): nat
    requires |f| >= HEADER_SIZE
  {
    U64(f, 0)
  }

  function NumBuckets(f: string): nat
    requires |f| >= HEADER_SIZE
  {
    U64(f, 8)
  }

  // The header and the buckets, which are mapped into memory, are there.
  predicate Mapped(f: string)
  {
    |f| >= HEADER_SIZE && NumBuckets(f) > 0 && |f| >= HEADER_SIZE + 8 * NumBuckets(f)
  }

  function BucketPos(k: nat): nat
  {
    HEADER_SIZE + 8 * k
  }

  function Bucket(f: string, k: nat): nat
    requires Mapped(f) && k < NumBuckets(f)
  {
    U64(f, BucketPos(k))
  }

  // ---------- what db_insert and db_get do to it ----------

  // Where a walk along a chain comes to: a record, the end of the chain without a match, a record that cannot be read,
  // or nowhere after as many steps as were allowed
  datatype Walk = Record(pos: nat) | NotFound | Short | Endless

  // The last record of the chain that begins at pos
  function LastRecord(f: string, pos: nat, steps: nat): (w: Walk)
    ensures w.Record? ==> w.pos + REC_HDR_SIZE <= |f|
    decreases steps
  {
    if steps == 0 then Endless
    else if pos + REC_HDR_SIZE > |f| then Short
    else
      var next := U64(f, pos + NEXT_OFFSET);
      if next != DBID_FREE then LastRecord(f, next, steps - 1) else Record(pos)
  }

  // The record of the chain that begins at pos with the given id
  function FindRecord(f: string, pos: nat, id: nat, steps: nat): (w: Walk)
    ensures w.Record? ==> w.pos + REC_HDR_SIZE <= |f|
    decreases steps
  {
    if steps == 0 then Endless
    else if pos + REC_HDR_SIZE > |f| then Short
    else if U64(f, pos + ID_OFFSET) == id then Record(pos)
    else
      var next := U64(f, pos + NEXT_OFFSET);
      if next != DBID_FREE then FindRecord(f, next, id, steps - 1) else NotFound
  }

  function RecordBytes(id: nat, next: nat, val: string): string
  {
    Le(|val|, 4) + Le(id, 8) + Le(next, 8) + val
  }

  function Bumped(f: string): (g: string)
    requires Mapped(f)
    ensures |g| == |f|
  {
    PWrite(f, 0, Le((NextId(f) + 1) % UINT64_RANGE, 8))
  }

  // The file g when the record that will stand at its end has been linked into bucket k, whose chain begins at `first`
  function Linking(g: string, first: nat, k: nat, link: nat): Option<string>
  {
    if first == DBID_FREE then Some(PWrite(g, BucketPos(k), Le(|g|, 8)))
    else
      match LastRecord(g, first, |g|)
      case Record(last) => Some(PWrite(g, last + link, Le(|g|, 8)))
      case _ => None
  }

  // The file of db_insert when the new record has been linked
  function Linked(f: string, link: nat): Option<string>
    requires Mapped(f)
  {
    var k := NextId(f) % NumBuckets(f);
    Linking(Bumped(f), Bucket(f, k), k, link)
  }

  // The file that db_insert leaves, and the new id if it succeeds
  function Insert(f: string, val: string, link: nat): (string, Option<nat>)
    requires Mapped(f)
  {
    match Linked(f, link)
    case Some(g) => (PWrite(g, |f|, RecordBytes(NextId(f), DBID_FREE, val)), Some(NextId(f)))
    case None => (Bumped(f), None)
  }

  // What db_get makes of the record it has found
  function ReadValue(f: string, p: nat): Option<string>
    requires p + REC_HDR_SIZE <= |f|
  {
    var vlen := U32(f, p);
    if p + REC_HDR_SIZE + vlen > |f| then None
    else Some(f[p + REC_HDR_SIZE..p + REC_HDR_SIZE + vlen])
  }

  function Get(f: string, id: nat): Option<string>
    requires Mapped(f)
  {
    var pos := Bucket(f, id % NumBuckets(f));
    if pos == DBID_FREE then None
    else
      match FindRecord(f, pos, id, |f|)
      case Record(p) => ReadValue(f, p)
      case _ => None
  }

  // ---------- the layout of a database that holds the values c ----------

  // Where record i stands, and for i == |c| where the file ends
  ghost function Off(b: nat, c: seq<string>, i: nat): nat
    requires i <= |c|
  {
    if i == 0 then BucketPos(b) else Off(b, c, i - 1) + REC_HDR_SIZE + |c[i - 1]|
  }

  ghost predicate BucketHeld(f: string, b: nat, c: seq<string>, k: nat)
  {
    Holds(f, BucketPos(k), Le(if k < |c| then Off(b, c, k) else DBID_FREE, 8))
  }

  ghost function NextOff(b: nat, c: seq<string>, i: nat): nat
  {
    if i + b < |c| then Off(b, c, i + b) else DBID_FREE
  }

  // A record with these fields stands at p.
  ghost predicate RecordAt(f: string, p: nat, id: nat, next: nat, val: string)
  {
    && |val| < 0x1_0000_0000
    && Holds(f, p, Le(|val|, 4)) && Holds(f, p + ID_OFFSET, Le(id, 8))
    && Holds(f, p + NEXT_OFFSET, Le(next, 8)) && Holds(f, p + REC_HDR_SIZE, val)
  }

  ghost predicate RecordHeld(f: string, b: nat, c: seq<string>, i: nat)
    requires i < |c|
  {
    RecordAt(f, Off(b, c, i), i, NextOff(b, c, i), c[i])
  }

  // Buckets and records are as they are to be: record i stands at Off(i), in the chain of bucket i % b, whose next record is
  // number i + b.
  ghost predicate Chained(f: string, b: nat, c: seq<string>)
  {
    && b > 0 && |f| == Off(b, c, |c|) <= MAX_FILE
    && Holds(f, 8, Le(b, 8))
    && (forall k {:trigger BucketHeld(f, b, c, k)} :: 0 <= k < b ==> BucketHeld(f, b, c, k))
    && (forall i {:trigger RecordHeld(f, b, c, i)} :: 0 <= i < |c| ==> RecordHeld(f, b, c, i))
  }

  // The file f is a database of b buckets that holds the values c under the ids 0, 1, ..., |c| - 1.
  ghost predicate Valid(f: string, b: nat, c: seq<string>)
  {
    Holds(f, 0, Le(|c|, 8)) && Chained(f, b, c)
  }

  // Records do not overlap, and stand in the order of their ids.
  lemma {:induction false} OffMono(b: nat, c: seq<string>, i: nat, j: nat)
    requires i < j <= |c|
    ensures BucketPos(b) <= Off(b, c, i) && Off(b, c, i) + REC_HDR_SIZE + |c[i]| <= Off(b, c, j)
    decreases j
  {
    if i < j - 1 {
      OffMono(b, c, i, j - 1);
    } else {
      OffLow(b, c, i);
    }
  }

  lemma OffLow(b: nat, c: seq<string>, i: nat)
    requires i <= |c|
    ensures BucketPos(b) + REC_HDR_SIZE * i <= Off(b, c, i)
  {
  }

  lemma {:induction false} OffPrefix(b: nat, c: seq<string>, v: string, i: nat)
    requires i <= |c|
    ensures Off(b, c + [v], i) == Off(b, c, i)
  {
    if i > 0 {
      OffPrefix(b, c, v, i - 1);
      assert (c + [v])[i - 1] == c[i - 1];
    }
  }

  lemma ChainedHeader(f: string, b: nat, c: seq<string>)
    requires Chained(f, b, c)
    ensures Mapped(f) && NumBuckets(f) == b && REC_HDR_SIZE * |c| < |f|
  {
    OffLow(b, c, |c|);
    U64Held(f, 8, b);
  }

  lemma ValidHeader(f: string, b: nat, c: seq<string>)
    requires Valid(f, b, c)
    ensures Mapped(f) && NumBuckets(f) == b && NextId(f) == |c| && REC_HDR_SIZE * |c| < |f|
  {
    ChainedHeader(f, b, c);
    U64Held(f, 0, |c|);
  }

  // ---------- reading ----------

  lemma ValidBucket(f: string, b: nat, c: seq<string>, k: nat)
    requires Chained(f, b, c) && k < b
    ensures Mapped(f) && NumBuckets(f) == b && Bucket(f, k) == if k < |c| then Off(b, c, k) else DBID_FREE
    ensures k < |c| ==> Off(b, c, k) + REC_HDR_SIZE <= |f| < DBID_FREE
  {
    ChainedHeader(f, b, c);
    assert BucketHeld(f, b, c, k);
    if k < |c| {
      OffMono(b, c, k, |c|);
    }
    U64Held(f, BucketPos(k), if k < |c| then Off(b, c, k) else DBID_FREE);
  }

  // Reading back the fields of a record at p
  lemma RecordReads(f: string, p: nat, id: nat, next: nat, val: string)
    requires RecordAt(f, p, id, next, val) && id < UINT64_RANGE && next < UINT64_RANGE
    ensures p + REC_HDR_SIZE + |val| <= |f| && U32(f, p) == |val|
    ensures U64(f, p + ID_OFFSET) == id && U64(f, p + NEXT_OFFSET) == next
    ensures f[p + REC_HDR_SIZE..p + REC_HDR_SIZE + |val|] == val
  {
    U32Held(f, p, |val|);
    U64Held(f, p + ID_OFFSET, id);
    U64Held(f, p + NEXT_OFFSET, next);
  }

  lemma OffBound(f: string, b: nat, c: seq<string>, i: nat)
    requires Chained(f, b, c) && i < |c|
    ensures Off(b, c, i) + REC_HDR_SIZE + |c[i]| <= |f| < DBID_FREE
    ensures REC_HDR_SIZE * |c| < |f|
  {
    OffMono(b, c, i, |c|);
    OffLow(b, c, |c|);
  }

  ghost predicate RecordRead(f: string, b: nat, c: seq<string>, i: nat)
    requires i < |c|
  {
    var p := Off(b, c, i);
    && p + REC_HDR_SIZE + |c[i]| <= |f|
    && U32(f, p) == |c[i]| && U64(f, p + ID_OFFSET) == i && U64(f, p + NEXT_OFFSET) == NextOff(b, c, i)
    && f[p + REC_HDR_SIZE..p + REC_HDR_SIZE + |c[i]|] == c[i]
  }

  lemma HeldIsRead(f: string, b: nat, c: seq<string>, i: nat)
    requires i < |c| && i < UINT64_RANGE && NextOff(b, c, i) < UINT64_RANGE && RecordHeld(f, b, c, i)
    ensures RecordRead(f, b, c, i)
  {
    RecordReads(f, Off(b, c, i), i, NextOff(b, c, i), c[i]);
  }

  lemma ValidNext(f: string, b: nat, c: seq<string>, i: nat)
    requires Chained(f, b, c) && i < |c|
    ensures i < UINT64_RANGE && NextOff(b, c, i) < UINT64_RANGE && (NextOff(b, c, i) == DBID_FREE <==> i + b >= |c|)
  {
    OffBound(f, b, c, i);
    if i + b < |c| {
      OffBound(f, b, c, i + b);
    }
  }

  lemma ValidRecord(f: string, b: nat, c: seq<string>, i: nat)
    requires Chained(f, b, c) && i < |c|
    ensures RecordRead(f, b, c, i) && (NextOff(b, c, i) == DBID_FREE <==> i + b >= |c|)
  {
    assert RecordHeld(f, b, c, i);
    ValidNext(f, b, c, i);
    HeldIsRead(f, b, c, i);
  }

  // Number `id` is reached from number j by steps of b.
  ghost predicate Reaches(j: nat, id: nat, b: nat)
    requires b > 0
    decreases id - j
  {
    j == id || (j < id && Reaches(j + b, id, b))
  }

  // From record j of its chain, the record with id `id` is found, unless the id is unknown.
  lemma {:induction false} FindIs(f: string, b: nat, c: seq<string>, j: nat, id: nat, steps: nat)
    requires Chained(f, b, c) && j < |c| && Reaches(j, id, b) && steps > |c| - j
    ensures FindRecord(f, Off(b, c, j), id, steps) == if id < |c| then Record(Off(b, c, id)) else NotFound
    decreases |c| - j
  {
    ValidRecord(f, b, c, j);
    if j != id {
      ReachesOrder(j + b, id, b);
      if j + b < |c| {
        FindIs(f, b, c, j + b, id, steps - 1);
      }
    }
  }

  lemma ReachesOrder(j: nat, id: nat, b: nat)
    requires b > 0 && Reaches(j, id, b)
    ensures j <= id
  {
  }

  lemma {:induction false} ReachesExtend(j: nat, id: nat, b: nat)
    requires b > 0 && Reaches(j, id, b)
    ensures Reaches(j, id + b, b)
    decreases id - j
  {
    if j < id {
      ReachesExtend(j + b, id, b);
    } else {
      assert Reaches(j + b, id + b, b);
    }
  }

  lemma MulGap(x: int, y: int, b: int)
    requires x < y && b > 0
    ensures x * b + b <= y * b
  {
    assert (y - x - 1) * b >= 0;
    assert (y - x - 1) * b == y * b - x * b - b;
  }

  lemma ModUnique(n: int, q: int, b: int, m: int)
    requires b > 0 && n == q * b + m && 0 <= m < b
    ensures n % b == m
  {
    var q' := n / b;
    assert n == q' * b + n % b;
    if q' < q {
      MulGap(q', q, b);
    } else if q' > q {
      MulGap(q, q', b);
    }
  }

  lemma ModStep(id: nat, b: nat)
    requires 0 < b <= id
    ensures (id - b) % b == id % b
  {
    var q, m := (id - b) / b, (id - b) % b;
    assert id - b == q * b + m;
    assert (q + 1) * b == q * b + b;
    ModUnique(id, q + 1, b, m);
  }

  // The first number of the chain in which id lies is id % b.
  lemma {:induction false} ModReaches(id: nat, b: nat)
    requires b > 0
    ensures id % b < b && Reaches(id % b, id, b)
    decreases id
  {
    if id < b {
      ModUnique(id, 0, b, id);
    } else {
      ModReaches(id - b, b);
      ModStep(id, b);
      ReachesExtend(id % b, id - b, b);
    }
  }

  lemma ReadValueIs(f: string, b: nat, c: seq<string>, i: nat)
    requires i < |c| && RecordRead(f, b, c, i)
    ensures ReadValue(f, Off(b, c, i)) == Some(c[i])
  {
  }

  // db_get returns the bytes that stand under the id, and nothing under an unknown one.
  lemma GetIs(f: string, b: nat, c: seq<string>, id: nat)
    requires Valid(f, b, c)
    ensures Mapped(f) && Get(f, id) == if id < |c| then Some(c[id]) else None
  {
    ValidHeader(f, b, c);
    ModReaches(id, b);
    ReachesOrder(id % b, id, b);
    ValidBucket(f, b, c, id % b);
    if id % b < |c| {
      FindIs(f, b, c, id % b, id, |f|);
      if id < |c| {
        ValidRecord(f, b, c, id);
        ReadValueIs(f, b, c, id);
      }
    }
  }

  // ---------- the chains ----------

  // Where n links lead to from the record at pos
  ghost function Follow(f: string, pos: nat, n: nat): (w: Walk)
    ensures w.Record? ==> w.pos + REC_HDR_SIZE <= |f|
    decreases n
  {
    if pos + REC_HDR_SIZE > |f| then Short
    else if n == 0 then Record(pos)
    else
      var next := U64(f, pos + NEXT_OFFSET);
      if next == DBID_FREE then NotFound else Follow(f, next, n - 1)
  }

  // The number of the n-th record after j in its chain
  ghost function Nth(j: nat, b: nat, n: nat): nat
    decreases n
  {
    if n == 0 then j else Nth(j + b, b, n - 1)
  }

  lemma {:induction false} NthIs(j: nat, b: nat, n: nat)
    ensures Nth(j, b, n) == j + n * b
    decreases n
  {
    if n > 0 {
      NthIs(j + b, b, n - 1);
      assert (n - 1) * b == n * b - b;
    }
  }

  lemma {:induction false} NthNext(j: nat, b: nat, n: nat)
    ensures Nth(j, b, n + 1) == Nth(j, b, n) + b
    decreases n
  {
    if n > 0 {
      NthNext(j + b, b, n - 1);
    } else {
      assert Nth(j + b, b, 0) == j + b;
    }
  }

  lemma {:induction false} NthGrows(j: nat, b: nat, n: nat)
    ensures j <= Nth(j, b, n)
    decreases n
  {
    if n > 0 {
      NthGrows(j + b, b, n - 1);
    }
  }

  lemma ChainLink(f: string, b: nat, c: seq<string>, j: nat)
    requires Chained(f, b, c) && j < |c|
    ensures Off(b, c, j) + REC_HDR_SIZE <= |f| && U64(f, Off(b, c, j) + ID_OFFSET) == j
    ensures U64(f, Off(b, c, j) + NEXT_OFFSET) == NextOff(b, c, j)
    ensures U64(f, Off(b, c, j) + NEXT_OFFSET) == DBID_FREE <==> j + b >= |c|
  {
    ValidRecord(f, b, c, j);
  }

  lemma FollowStep(f: string, pos: nat, next: nat, n: nat)
    requires pos + REC_HDR_SIZE <= |f| && U64(f, pos + NEXT_OFFSET) == next && n > 0
    ensures Follow(f, pos, n) == if next == DBID_FREE then NotFound else Follow(f, next, n - 1)
  {
  }

  lemma {:induction false} FollowIs(f: string, b: nat, c: seq<string>, j: nat, n: nat)
    requires Chained(f, b, c) && j < |c|
    ensures Follow(f, Off(b, c, j), n) == if Nth(j, b, n) < |c| then Record(Off(b, c, Nth(j, b, n))) else NotFound
    decreases n
  {
    ChainLink(f, b, c, j);
    if n > 0 {
      FollowStep(f, Off(b, c, j), NextOff(b, c, j), n);
      if j + b < |c| {
        FollowIs(f, b, c, j + b, n - 1);
      } else {
        NthGrows(j + b, b, n - 1);
      }
    }
  }

  lemma BucketFollows(f: string, b: nat, c: seq<string>, k: nat, n: nat, i: nat)
    requires Valid(f, b, c) && k < b && i == Nth(k, b, n)
    ensures Mapped(f) && NumBuckets(f) == b && (Bucket(f, k) == DBID_FREE <==> k >= |c|)
    ensures k < |c| ==>
      && Follow(f, Bucket(f, k), n) == (if i < |c| then Record(Off(b, c, i)) else NotFound)
      && (i < |c| ==> Off(b, c, i) + REC_HDR_SIZE <= |f| && U64(f, Off(b, c, i) + ID_OFFSET) == i)
  {
    ValidHeader(f, b, c);
    ValidBucket(f, b, c, k);
    if k < |c| {
      FollowIs(f, b, c, k, n);
      if i < |c| {
        ChainLink(f, b, c, i);
      }
    }
  }

  // In every database, the chain of bucket k holds exactly the ids k, k + b, k + 2b, ... that have been given out, in this
  // order, and ends behind the last of them.
  lemma BucketChain(f: string, b: nat, c: seq<string>, k: nat, n: nat)
    requires Valid(f, b, c) && k < b
    ensures Mapped(f) && NumBuckets(f) == b && (Bucket(f, k) == DBID_FREE <==> k >= |c|)
    ensures k < |c| ==>
      var i, w := k + n * b, Follow(f, Bucket(f, k), n);
      w == (if i < |c| then Record(Off(b, c, i)) else NotFound) && (w.Record? ==> U64(f, w.pos + ID_OFFSET) == i)
  {
    NthIs(k, b, n);
    BucketFollows(f, b, c, k, n, k + n * b);
  }

  lemma RecordSize(f: string, b: nat, c: seq<string>, i: nat)
    requires Chained(f, b, c) && i < |c|
    ensures Off(b, c, i) + REC_HDR_SIZE <= |f| && U32(f, Off(b, c, i)) == |c[i]|
    ensures Off(b, c, i) + REC_HDR_SIZE + |c[i]| <= |f|
    ensures i + b < |c| ==> Off(b, c, i) + REC_HDR_SIZE + |c[i]| <= Off(b, c, i + b)
  {
    ValidRecord(f, b, c, i);
    OffBound(f, b, c, i);
    if i + b < |c| {
      OffMono(b, c, i, i + b);
    }
  }

  // Along a chain the places grow, and each record ends in front of the next, and inside the file.
  lemma ChainSpread(f: string, b: nat, c: seq<string>, k: nat, n: nat)
    requires Valid(f, b, c) && k < b && k < |c|
    ensures Mapped(f) && NumBuckets(f) == b
    ensures var w, w1 := Follow(f, Bucket(f, k), n), Follow(f, Bucket(f, k), n + 1);
      && (w.Record? ==> w.pos + REC_HDR_SIZE + U32(f, w.pos) <= |f|)
      && (w1.Record? ==> w.Record? && w.pos + REC_HDR_SIZE + U32(f, w.pos) <= w1.pos)
  {
    var i := Nth(k, b, n);
    NthNext(k, b, n);
    BucketFollows(f, b, c, k, n, i);
    BucketFollows(f, b, c, k, n + 1, i + b);
    if i < |c| {
      RecordSize(f, b, c, i);
    }
  }

  // ---------- inserting ----------

  // The number of the last record of the chain that goes through j
  ghost function LastOf(j: nat, n: nat, b: nat): nat
    requires b > 0
    decreases n - j
  {
    if j + b < n then LastOf(j + b, n, b) else j
  }

  lemma {:induction false} LastIs(f: string, b: nat, c: seq<string>, j: nat, steps: nat)
    requires Chained(f, b, c) && j < |c| && steps > |c| - j
    ensures LastOf(j, |c|, b) < |c| && LastRecord(f, Off(b, c, j), steps) == Record(Off(b, c, LastOf(j, |c|, b)))
    decreases |c| - j
  {
    ValidRecord(f, b, c, j);
    if j + b < |c| {
      LastIs(f, b, c, j + b, steps - 1);
    }
  }

  lemma {:induction false} LastBefore(j: nat, n: nat, b: nat)
    requires b > 0 && j < n && Reaches(j, n, b)
    ensures n >= b && LastOf(j, n, b) == n - b
    decreases n - j
  {
    ReachesOrder(j + b, n, b);
    if j + b < n {
      LastBefore(j + b, n, b);
    }
  }

  lemma BumpedIs(f: string, b: nat, c: seq<string>)
    requires Valid(f, b, c)
    ensures Mapped(f) && Bumped(f) == PWrite(f, 0, Le(|c| + 1, 8))
  {
    ValidHeader(f, b, c);
    NoWrap(|c| + 1);
    assert (NextId(f) + 1) % UINT64_RANGE == |c| + 1;
  }

  lemma NoWrap(n: nat)
    requires n < UINT64_RANGE
    ensures n % UINT64_RANGE == n
  {
  }

  lemma BucketKept(f: string, b: nat, c: seq<string>, k: nat, pos: nat, w: string)
    requires BucketHeld(f, b, c, k)
    requires pos + |w| <= BucketPos(k) || BucketPos(k) + 8 <= pos
    ensures BucketHeld(PWrite(f, pos, w), b, c, k)
  {
    HoldsKept(f, pos, w, BucketPos(k), Le(if k < |c| then Off(b, c, k) else DBID_FREE, 8));
  }

  lemma BumpedChained(f: string, b: nat, c: seq<string>, w: string)
    requires Chained(f, b, c) && |w| == 8
    ensures Chained(PWrite(f, 0, w), b, c)
  {
    OffLow(b, c, |c|);
    HoldsKept(f, 0, w, 8, Le(b, 8));
    forall k | 0 <= k < b ensures BucketHeld(PWrite(f, 0, w), b, c, k) {
      assert BucketHeld(f, b, c, k);
      BucketKept(f, b, c, k, 0, w);
    }
    forall i | 0 <= i < |c| ensures RecordHeld(PWrite(f, 0, w), b, c, i) {
      assert RecordHeld(f, b, c, i);
      OffLow(b, c, i);
      RecordKept(f, Off(b, c, i), i, NextOff(b, c, i), c[i], 0, w);
    }
  }

  // A write that misses the fields of the record at p
  lemma RecordKept(f: string, p: nat, id: nat, next: nat, val: string, pos: nat, w: string)
    requires RecordAt(f, p, id, next, val)
    requires pos + |w| <= p || p + REC_HDR_SIZE + |val| <= pos
    ensures RecordAt(PWrite(f, pos, w), p, id, next, val)
  {
    HoldsKept(f, pos, w, p, Le(|val|, 4));
    HoldsKept(f, pos, w, p + ID_OFFSET, Le(id, 8));
    HoldsKept(f, pos, w, p + NEXT_OFFSET, Le(next, 8));
    HoldsKept(f, pos, w, p + REC_HDR_SIZE, val);
  }

  lemma FirstBucket(f: string, b: nat, c: seq<string>)
    requires Valid(f, b, c)
    ensures Mapped(f) && NumBuckets(f) == b && NextId(f) == |c|
    ensures if |c| < b then |c| % b == |c| && Bucket(f, |c| % b) == DBID_FREE
      else |c| % b < |c| && Bucket(f, |c| % b) == Off(b, c, |c| % b) != DBID_FREE
  {
    ValidHeader(f, b, c);
    ModReaches(|c|, b);
    ReachesOrder(|c| % b, |c|, b);
    ValidBucket(f, b, c, |c| % b);
    if |c| < b {
      ModUnique(|c|, 0, b, |c|);
    }
  }

  lemma LastInBumped(f: string, b: nat, c: seq<string>, j: nat)
    requires Valid(f, b, c) && j < |c| && Reaches(j, |c|, b)
    ensures Mapped(f) && |c| >= b
    ensures LastRecord(Bumped(f), Off(b, c, j), |f|) == Record(Off(b, c, |c| - b))
  {
    LastBefore(j, |c|, b);
    ValidHeader(f, b, c);
    BumpedIs(f, b, c);
    BumpedChained(f, b, c, Le(|c| + 1, 8));
    LastIs(Bumped(f), b, c, j, |f|);
  }

  // db_insert links the new record at `at`.
  ghost predicate LinksAt(f: string, link: nat, at: nat)
  {
    Mapped(f) && Linked(f, link) == Some(PWrite(Bumped(f), at, Le(|f|, 8)))
  }

  lemma LinksBucket(f: string, link: nat, k: nat)
    requires Mapped(f) && k < NumBuckets(f) && k == NextId(f) % NumBuckets(f) && Bucket(f, k) == DBID_FREE
    ensures LinksAt(f, link, BucketPos(k))
  {
  }

  lemma LinkingRecord(g: string, first: nat, k: nat, link: nat, last: nat, at: nat, n: nat)
    requires first != DBID_FREE && LastRecord(g, first, n) == Record(last) && at == last + link && n == |g|
    ensures Linking(g, first, k, link) == Some(PWrite(g, at, Le(n, 8)))
  {
  }

  lemma LinkedIs(f: string, link: nat, k: nat, first: nat)
    requires Mapped(f) && k < NumBuckets(f) && k == NextId(f) % NumBuckets(f) && Bucket(f, k) == first
    ensures Linked(f, link) == Linking(Bumped(f), first, k, link)
  {
  }

  lemma LinksRecord(f: string, link: nat, k: nat, first: nat, last: nat, at: nat)
    requires Mapped(f) && k < NumBuckets(f) && k == NextId(f) % NumBuckets(f) && Bucket(f, k) == first != DBID_FREE
    requires LastRecord(Bumped(f), first, |f|) == Record(last) && at == last + link
    ensures LinksAt(f, link, at)
  {
    LinkedIs(f, link, k, first);
    LinkingRecord(Bumped(f), first, k, link, last, at, |f|);
  }

  lemma LinkedFree(f: string, b: nat, c: seq<string>, link: nat)
    requires Valid(f, b, c) && |c| < b
    ensures LinksAt(f, link, BucketPos(|c|))
  {
    FirstBucket(f, b, c);
    LinksBucket(f, link, |c|);
  }

  // The chain of the next id, if it is not empty: its bucket, its first and its last record
  lemma ChainEnd(f: string, b: nat, c: seq<string>) returns (k: nat, first: nat, last: nat)
    requires Valid(f, b, c) && |c| >= b
    ensures Mapped(f) && k < NumBuckets(f) && k == NextId(f) % NumBuckets(f) && Bucket(f, k) == first != DBID_FREE
    ensures LastRecord(Bumped(f), first, |f|) == Record(last) && last == Off(b, c, |c| - b)
  {
    k := |c| % b;
    FirstBucket(f, b, c);
    ModReaches(|c|, b);
    first, last := Off(b, c, k), Off(b, c, |c| - b);
    LastInBumped(f, b, c, k);
  }

  lemma LinkedChain(f: string, b: nat, c: seq<string>, link: nat, at: nat)
    requires Valid(f, b, c) && |c| >= b && at == Off(b, c, |c| - b) + link
    ensures LinksAt(f, link, at)
  {
    var k, first, last := ChainEnd(f, b, c);
    LinksRecord(f, link, k, first, last, at);
  }

  // ---------- the three writes of db_insert ----------

  // The file after the next id has been counted up, the new record has been linked at `at`, and has been appended
  ghost function Written(f: string, n: nat, at: nat, v: string): string
  {
    PWrite(PWrite(PWrite(f, 0, Le(n + 1, 8)), at, Le(|f|, 8)), |f|, RecordBytes(n, DBID_FREE, v))
  }

  // Behind the next id, what stood in f and is not overwritten at `at` still stands in g.
  ghost predicate Keeps(f: string, g: string, at: nat)
  {
    forall p: nat, x: string {:trigger Holds(f, p, x)} ::
      Holds(f, p, x) && 8 <= p && (p + |x| <= at || at + 8 <= p) ==> Holds(g, p, x)
  }

  // What db_insert makes of the file f, as far as it can be read: g
  ghost predicate Updated(f: string, g: string, n: nat, at: nat, v: string)
  {
    && |g| == |f| + REC_HDR_SIZE + |v| && Keeps(f, g, at)
    && Holds(g, 0, Le(n + 1, 8)) && Holds(g, at, Le(|f|, 8)) && Holds(g, |f|, RecordBytes(n, DBID_FREE, v))
  }

  lemma WrittenKeeps(f: string, n: nat, at: nat, v: string, p: nat, x: string)
    requires Holds(f, p, x) && 8 <= p && 8 <= at && at + 8 <= |f| && (p + |x| <= at || at + 8 <= p)
    ensures Holds(Written(f, n, at, v), p, x)
  {
    var g := PWrite(f, 0, Le(n + 1, 8));
    var h := PWrite(g, at, Le(|f|, 8));
    HoldsKept(f, 0, Le(n + 1, 8), p, x);
    HoldsKept(g, at, Le(|f|, 8), p, x);
    HoldsKept(h, |f|, RecordBytes(n, DBID_FREE, v), p, x);
  }

  lemma WrittenHolds(f: string, n: nat, at: nat, v: string)
    requires 8 <= at && at + 8 <= |f|
    ensures Holds(Written(f, n, at, v), 0, Le(n + 1, 8)) && Holds(Written(f, n, at, v), at, Le(|f|, 8))
    ensures Holds(Written(f, n, at, v), |f|, RecordBytes(n, DBID_FREE, v))
  {
    var g := PWrite(f, 0, Le(n + 1, 8));
    var h := PWrite(g, at, Le(|f|, 8));
    var r := RecordBytes(n, DBID_FREE, v);
    HoldsWritten(f, 0, Le(n + 1, 8));
    HoldsKept(g, at, Le(|f|, 8), 0, Le(n + 1, 8));
    HoldsKept(h, |f|, r, 0, Le(n + 1, 8));
    HoldsWritten(g, at, Le(|f|, 8));
    HoldsKept(h, |f|, r, at, Le(|f|, 8));
    HoldsWritten(h, |f|, r);
  }

  lemma WrittenUpdates(f: string, n: nat, at: nat, v: string)
    requires 8 <= at && at + 8 <= |f|
    ensures Updated(f, Written(f, n, at, v), n, at, v)
  {
    WrittenHolds(f, n, at, v);
    var g := Written(f, n, at, v);
    forall p: nat, x: string | Holds(f, p, x) && 8 <= p && (p + |x| <= at || at + 8 <= p) ensures Holds(g, p, x) {
      WrittenKeeps(f, n, at, v, p, x);
    }
  }

  lemma RecordParts(f: string, p: nat, id: nat, next: nat, v: string)
    requires Holds(f, p, RecordBytes(id, next, v)) && |v| < 0x1_0000_0000
    ensures RecordAt(f, p, id, next, v)
  {
    HoldsPart(f, p, Le(|v|, 4) + Le(id, 8) + Le(next, 8), v);
    HoldsPart(f, p, Le(|v|, 4) + Le(id, 8), Le(next, 8));
    HoldsPart(f, p, Le(|v|, 4), Le(id, 8));
  }

  // The new record
  lemma NewRecord(f: string, g: string, b: nat, c: seq<string>, at: nat, v: string)
    requires Updated(f, g, |c|, at, v) && b > 0 && |f| == Off(b, c, |c|) && |v| < 0x1_0000_0000
    ensures RecordHeld(g, b, c + [v], |c|)
  {
    RecordParts(g, |f|, |c|, DBID_FREE, v);
    OffPrefix(b, c, v, |c|);
  }

  // A bucket that is not written
  lemma OldBucket(f: string, g: string, b: nat, c: seq<string>, at: nat, v: string, k: nat)
    requires BucketHeld(f, b, c, k) && k != |c| && Keeps(f, g, at)
    requires at + 8 <= BucketPos(k) || BucketPos(k) + 8 <= at
    ensures BucketHeld(g, b, c + [v], k)
  {
    if k < |c| {
      OffPrefix(b, c, v, k);
    }
  }

  lemma RecordSurvives(f: string, g: string, at: nat, p: nat, id: nat, next: nat, val: string)
    requires RecordAt(f, p, id, next, val) && 8 <= p && Keeps(f, g, at)
    requires at + 8 <= p || p + REC_HDR_SIZE + |val| <= at
    ensures RecordAt(g, p, id, next, val)
  {
  }

  // The record whose `next` field is written
  lemma RecordRelinked(f: string, g: string, p: nat, id: nat, next: nat, to: nat, val: string)
    requires RecordAt(f, p, id, next, val) && 8 <= p
    requires Keeps(f, g, p + NEXT_OFFSET) && Holds(g, p + NEXT_OFFSET, Le(to, 8))
    ensures RecordAt(g, p, id, to, val)
  {
  }

  lemma OldOffsets(b: nat, c: seq<string>, v: string, i: nat)
    requires i < |c|
    ensures Off(b, c + [v], i) == Off(b, c, i) && (c + [v])[i] == c[i]
    ensures NextOff(b, c + [v], i) == if i + b == |c| then Off(b, c, |c|) else NextOff(b, c, i)
  {
    OffPrefix(b, c, v, i);
    if i + b <= |c| {
      OffPrefix(b, c, v, i + b);
    }
  }

  // The place of the link to the new record: its bucket, or the `next` field of the last record of its chain
  ghost function LinkPos(b: nat, c: seq<string>): nat
  {
    if |c| < b then BucketPos(|c|) else Off(b, c, |c| - b) + NEXT_OFFSET
  }

  lemma LinkPosFits(f: string, b: nat, c: seq<string>)
    requires Chained(f, b, c)
    ensures HEADER_SIZE <= LinkPos(b, c) && LinkPos(b, c) + 8 <= |f|
    ensures |c| < b ==> LinkPos(b, c) + 8 <= BucketPos(b)
  {
    OffLow(b, c, |c|);
    if |c| >= b {
      OffMono(b, c, |c| - b, |c|);
    }
  }

  lemma NewBuckets(f: string, g: string, b: nat, c: seq<string>, v: string, k: nat)
    requires Chained(f, b, c) && k < b && Updated(f, g, |c|, LinkPos(b, c), v)
    ensures BucketHeld(g, b, c + [v], k)
  {
    if k == |c| {
      OffPrefix(b, c, v, k);
    } else {
      assert BucketHeld(f, b, c, k);
      if |c| >= b {
        OffLow(b, c, |c| - b);
      }
      OldBucket(f, g, b, c, LinkPos(b, c), v, k);
    }
  }

  // A record of the old database at its place in the new one
  lemma RecordMoves(g: string, b: nat, c: seq<string>, v: string, i: nat)
    requires i < |c|
    requires RecordAt(g, Off(b, c, i), i, if i + b == |c| then Off(b, c, |c|) else NextOff(b, c, i), c[i])
    ensures RecordHeld(g, b, c + [v], i)
  {
    OldOffsets(b, c, v, i);
  }

  lemma OldRecords(f: string, g: string, b: nat, c: seq<string>, v: string, i: nat)
    requires Chained(f, b, c) && i < |c| && Updated(f, g, |c|, LinkPos(b, c), v)
    ensures RecordHeld(g, b, c + [v], i)
  {
    assert RecordHeld(f, b, c, i);
    LinkMisses(f, b, c, i);
    OffLow(b, c, i);
    if i + b == |c| {
      RecordRelinked(f, g, Off(b, c, i), i, NextOff(b, c, i), |f|, c[i]);
    } else {
      RecordSurvives(f, g, LinkPos(b, c), Off(b, c, i), i, NextOff(b, c, i), c[i]);
    }
    RecordMoves(g, b, c, v, i);
  }

  lemma LinkMisses(f: string, b: nat, c: seq<string>, i: nat)
    requires Chained(f, b, c) && i < |c|
    ensures i + b != |c| ==> LinkPos(b, c) + 8 <= Off(b, c, i) || Off(b, c, i) + REC_HDR_SIZE + |c[i]| <= LinkPos(b, c)
    ensures i + b == |c| ==> LinkPos(b, c) == Off(b, c, i) + NEXT_OFFSET
  {
    LinkPosFits(f, b, c);
    OffLow(b, c, i);
    if |c| >= b {
      if i < |c| - b {
        OffMono(b, c, i, |c| - b);
      } else if i > |c| - b {
        OffMono(b, c, |c| - b, i);
      }
    }
  }

  lemma UpdatedIsValid(f: string, g: string, b: nat, c: seq<string>, v: string)
    requires Chained(f, b, c) && Updated(f, g, |c|, LinkPos(b, c), v)
    requires |v| < 0x1_0000_0000 && |f| + REC_HDR_SIZE + |v| <= MAX_FILE
    ensures Valid(g, b, c + [v])
  {
    LinkPosFits(f, b, c);
    OffPrefix(b, c, v, |c|);
    forall k | 0 <= k < b ensures BucketHeld(g, b, c + [v], k) {
      NewBuckets(f, g, b, c, v, k);
    }
    forall i | 0 <= i < |c + [v]| ensures RecordHeld(g, b, c + [v], i) {
      if i < |c| {
        OldRecords(f, g, b, c, v, i);
      } else {
        NewRecord(f, g, b, c, LinkPos(b, c), v);
      }
    }
  }

  // The file that db_insert leaves, when the place of the link is known
  lemma InsertFrom(f: string, v: string, link: nat, n: nat, at: nat)
    requires LinksAt(f, link, at) && NextId(f) == n && Bumped(f) == PWrite(f, 0, Le(n + 1, 8))
    ensures Insert(f, v, link) == (Written(f, n, at, v), Some(n))
  {
  }

  lemma InsertOutcome(f: string, b: nat, c: seq<string>, v: string, link: nat)
    requires Valid(f, b, c) && (link == INTENDED_LINK || |c| < b)
    ensures Mapped(f) && Insert(f, v, link).0 == Written(f, |c|, LinkPos(b, c), v) && Insert(f, v, link).1 == Some(|c|)
  {
    LinksAtLinkPos(f, b, c, link);
    ValidHeader(f, b, c);
    BumpedIs(f, b, c);
    InsertFrom(f, v, link, |c|, LinkPos(b, c));
  }

  lemma LinksAtLinkPos(f: string, b: nat, c: seq<string>, link: nat)
    requires Valid(f, b, c) && (link == INTENDED_LINK || |c| < b)
    ensures LinksAt(f, link, LinkPos(b, c))
  {
    if |c| < b {
      LinkedFree(f, b, c, link);
    } else {
      LinkedChain(f, b, c, link, LinkPos(b, c));
    }
  }

  // db_insert stores the bytes under the next id and keeps all others, if the link is put where it is meant to be or the
  // new record is the first of its bucket.
  lemma InsertIs(f: string, b: nat, c: seq<string>, v: string, link: nat)
    requires Valid(f, b, c) && |v| < 0x1_0000_0000 && |f| + REC_HDR_SIZE + |v| <= MAX_FILE
    requires link == INTENDED_LINK || |c| < b
    ensures Mapped(f) && Insert(f, v, link).1 == Some(|c|) && Valid(Insert(f, v, link).0, b, c + [v])
    ensures |Insert(f, v, link).0| == |f| + REC_HDR_SIZE + |v|
  {
    InsertOutcome(f, b, c, v, link);
    LinkPosFits(f, b, c);
    WrittenUpdates(f, |c|, LinkPos(b, c), v);
    UpdatedIsValid(f, Written(f, |c|, LinkPos(b, c), v), b, c, v);
  }
}
