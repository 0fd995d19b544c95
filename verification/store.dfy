/** The database of db.c as it runs: the mapped file is a field, and db_insert and db_get walk and change it in place. */
module Store {
  import opened Common
  import opened Storage
  import opened Database
  import opened Runs
  import opened Walks

  class Db {
    // The bytes of the file. The header and the buckets are mapped from it, so that what the code does to them it does to
    // these bytes.
    var file: string

    // Where db_insert puts the link to a new record, counted from the last record of its chain
    const link: nat

    // open_db when there is no file: it is stretched to its size, and the header and the buckets are filled in.
    constructor Create(numBuckets: nat, link: nat)
      requires 0 < numBuckets < UINT64_RANGE
      ensures file == Fresh(numBuckets) && this.link == link
    {
      var f := Zeros(HEADER_SIZE + 8 * numBuckets);
      f := PWrite(f, 0, Le(0, 8));
      f := PWrite(f, 8, Le(numBuckets, 8));
      f := PWrite(f, HEADER_SIZE, seq(8 * numBuckets, i => 255 as char));
      assert f == Fresh(numBuckets) by {
        FreshParts(numBuckets);
      }
      file := f;
      this.link := link;
    }

    // A database on the bytes of an open file
    constructor On(f: string, link: nat)
      ensures file == f && this.link == link
    {
      file := f;
      this.link := link;
    }

    // open_db when there is a file. It reads the header, and fails if the file is too short for it; the next id and the number
    // of buckets are what the mapped header then says.
    static method Open(f: string, link: nat) returns (db: Db?, id: nat, numBuckets: nat)
      ensures db == null <==> |f| < HEADER_SIZE
      ensures db != null ==> fresh(db) && db.file == f && db.link == link
      ensures db != null ==> id == NextId(f) && numBuckets == NumBuckets(f)
      ensures forall b, c :: Valid(f, b, c) ==> db != null && id == |c| && numBuckets == b && Answers(db.file, c)
    {
      forall b, c | Valid(f, b, c) ensures |f| >= HEADER_SIZE && NextId(f) == |c| && NumBuckets(f) == b && Answers(f, c) {
        ValidHeader(f, b, c);
        ValidAnswers(f, b, c);
      }
      if |f| < HEADER_SIZE {
        return null, 0, 0;
      }
      id, numBuckets := UnLe(f[0..8]), UnLe(f[8..16]);
      db := new Db.On(f, link);
    }

    // The loop of db_insert: the last record of the chain that begins at `first`, unless one of its records cannot be read
    method Last(first: nat) returns (ok: bool, offset: nat)
      requires !LastRecord(file, first, |file|).Endless?
      ensures LastRecord(file, first, |file|) == if ok then Record(offset) else Short
    {
      offset := first;
      ghost var steps: nat := |file|;
      while true
        invariant LastRecord(file, offset, steps) == LastRecord(file, first, |file|)
        decreases steps
      {
        if offset + REC_HDR_SIZE > |file| {
          return false, offset;
        }
        var next := U64(file, offset + NEXT_OFFSET);
        if next == DBID_FREE {
          return true, offset;
        }
        offset := next;
        steps := steps - 1;
      }
    }

    // How db_insert links the record that will stand at the end of the file into a bucket
    method Link(index: nat, pos: nat) returns (ok: bool)
      requires Mapped(file) && index < NumBuckets(file) && pos == |file|
      requires Bucket(file, index) != DBID_FREE ==> !LastRecord(file, Bucket(file, index), |file|).Endless?
      modifies this`file
      ensures Linking(old(file), old(Bucket(file, index)), index, link) == if ok then Some(file) else None
      ensures !ok ==> file == old(file)
    {
      ok := true;
      var offset := Bucket(file, index);
      if offset == DBID_FREE {
        file := PWrite(file, BucketPos(index), Le(pos, 8));
      } else {
        ok, offset := Last(offset);
        if ok {
          file := PWrite(file, offset + link, Le(pos, 8));
        }
      }
    }

    method Insert(val: string) returns (ok: bool, result: nat)
      requires Mapped(file) && WalkEnds(file)
      modifies this`file
      ensures file == Database.Insert(old(file), val, link).0
      ensures Database.Insert(old(file), val, link).1 == if ok then Some(result) else None
    {
      var id := NextId(file);
      var index := id % NumBuckets(file);
      InsertIsLinking(file, val, link, index);
      BucketBumped(file, index);
      result := id;
      file := Bumped(file);
      var pos := |file|;
      ok := Link(index, pos);
      if ok {
        file := PWrite(file, pos, RecordBytes(id, DBID_FREE, val));
      }
    }

    method Get(id: nat) returns (val: Option<string>)
      requires Mapped(file) && FindEnds(file, id)
      ensures val == Database.Get(file, id)
    {
      var offset: nat := Bucket(file, id % NumBuckets(file));
      if offset == DBID_FREE {
        return None;
      }
      ghost var steps: nat := |file|;
      ghost var walk := FindRecord(file, offset, id, steps);
      while true
        invariant FindRecord(file, offset, id, steps) == walk
        decreases steps
      {
        if offset + REC_HDR_SIZE > |file| {
          return None;
        }
        if U64(file, offset + ID_OFFSET) == id {
          var vlen := U32(file, offset);
          if offset + REC_HDR_SIZE + vlen > |file| {
            return None;
          }
          return Some(file[offset + REC_HDR_SIZE..offset + REC_HDR_SIZE + vlen]);
        }
        var next := U64(file, offset + NEXT_OFFSET);
        if next != DBID_FREE {
          offset := next;
          steps := steps - 1;
        } else {
          return None;
        }
      }
    }
  }

  lemma InsertIsLinking(f: string, val: string, link: nat, k: nat)
    requires Mapped(f) && k == NextId(f) % NumBuckets(f)
    ensures k < NumBuckets(f)
    ensures Database.Insert(f, val, link) ==
      match Linking(Bumped(f), Bucket(f, k), k, link)
      case Some(h) => (PWrite(h, |f|, RecordBytes(NextId(f), DBID_FREE, val)), Some(NextId(f)))
      case None => (Bumped(f), None)
  {
    InsertByLinked(f, val, link, Linked(f, link));
  }

  lemma InsertByLinked(f: string, val: string, link: nat, h: Option<string>)
    requires Mapped(f) && h == Linked(f, link)
    ensures Database.Insert(f, val, link) ==
      if h.Some? then (PWrite(h.value, |f|, RecordBytes(NextId(f), DBID_FREE, val)), Some(NextId(f))) else (Bumped(f), None)
  {
  }

  lemma FreshParts(b: nat)
    ensures PWrite(PWrite(PWrite(Zeros(HEADER_SIZE + 8 * b), 0, Le(0, 8)), 8, Le(b, 8)), HEADER_SIZE,
                   seq(8 * b, i => 255 as char)) == Fresh(b)
  {
    var f := PWrite(Zeros(HEADER_SIZE + 8 * b), 0, Le(0, 8));
    assert f[..8] == Le(0, 8);
    var g := PWrite(f, 8, Le(b, 8));
    assert g[..8] == Le(0, 8) && g[8..16] == Le(b, 8);
    assert g[..16] == Le(0, 8) + Le(b, 8);
  }

  // The chain in which the next record goes has an end, as far as it can be read; the loop of db_insert runs forever
  // otherwise.
  ghost predicate WalkEnds(f: string)
    requires Mapped(f)
  {
    var first := Bucket(f, NextId(f) % NumBuckets(f));
    first != DBID_FREE ==> !LastRecord(Bumped(f), first, |f|).Endless?
  }

  // The search for the id has an end; the loop of db_get runs forever otherwise.
  ghost predicate FindEnds(f: string, id: nat)
    requires Mapped(f)
  {
    var first := Bucket(f, id % NumBuckets(f));
    first != DBID_FREE ==> !FindRecord(f, first, id, |f|).Endless?
  }

  // The record that the loop of db_insert looks at after the one at pos, if it goes on
  ghost function NextOfLast(f: string, pos: nat): Option<nat>
  {
    if pos + REC_HDR_SIZE > |f| || U64(f, pos + NEXT_OFFSET) == DBID_FREE then None
    else Some(U64(f, pos + NEXT_OFFSET))
  }

  // The record that the loop of db_get looks at after the one at pos, if it goes on
  ghost function NextOfFind(f: string, id: nat, pos: nat): Option<nat>
  {
    if pos + REC_HDR_SIZE <= |f| && U64(f, pos + ID_OFFSET) == id then None else NextOfLast(f, pos)
  }

  ghost function AfterLast(f: string): nat -> Option<nat>
  {
    (pos: nat) => NextOfLast(f, pos)
  }

  ghost function AfterFind(f: string, id: nat): nat -> Option<nat>
  {
    (pos: nat) => NextOfFind(f, id, pos)
  }

  lemma {:induction false} LastEnds(f: string, pos: nat, n: nat)
    ensures !LastRecord(f, pos, n).Endless? <==> Ends(AfterLast(f), pos, n)
    decreases n
  {
    if n > 0 && NextOfLast(f, pos).Some? {
      LastEnds(f, NextOfLast(f, pos).value, n - 1);
    }
  }

  lemma {:induction false} FindEndsAt(f: string, pos: nat, id: nat, n: nat)
    ensures !FindRecord(f, pos, id, n).Endless? <==> Ends(AfterFind(f, id), pos, n)
    decreases n
  {
    if n > 0 && NextOfFind(f, id, pos).Some? {
      FindEndsAt(f, NextOfFind(f, id, pos).value, id, n - 1);
    }
  }

  // As many steps as the file has bytes are enough for every walk of db_insert that ends at all.
  lemma LastEnough(f: string, pos: nat, n: nat, steps: nat)
    requires !LastRecord(f, pos, n).Endless? && 0 < |f| <= steps
    ensures !LastRecord(f, pos, steps).Endless?
  {
    LastEnds(f, pos, n);
    EndsWithin(AfterLast(f), pos, n, steps - 1);
    LastEnds(f, pos, steps);
  }

  // The same for db_get
  lemma FindEnough(f: string, pos: nat, id: nat, n: nat, steps: nat)
    requires !FindRecord(f, pos, id, n).Endless? && 0 < |f| <= steps
    ensures !FindRecord(f, pos, id, steps).Endless?
  {
    FindEndsAt(f, pos, id, n);
    EndsWithin(AfterFind(f, id), pos, n, steps - 1);
    FindEndsAt(f, pos, id, steps);
  }

  // WalkEnds leaves out exactly the files on which the loop of db_insert runs forever, ...
  lemma WalkEndsExactly(f: string)
    requires Mapped(f)
    ensures var first := Bucket(f, NextId(f) % NumBuckets(f));
      WalkEnds(f) <==> first == DBID_FREE || exists n: nat :: !LastRecord(Bumped(f), first, n).Endless?
  {
    LastExactly(Bumped(f), Bucket(f, NextId(f) % NumBuckets(f)), |f|);
  }

  lemma LastExactly(f: string, pos: nat, steps: nat)
    requires 0 < |f| <= steps
    ensures !LastRecord(f, pos, steps).Endless? <==> exists n: nat :: !LastRecord(f, pos, n).Endless?
  {
    forall n: nat | !LastRecord(f, pos, n).Endless? ensures !LastRecord(f, pos, steps).Endless? {
      LastEnough(f, pos, n, steps);
    }
  }

  // ... and FindEnds those on which the loop of db_get does.
  lemma FindEndsExactly(f: string, id: nat)
    requires Mapped(f)
    ensures var first := Bucket(f, id % NumBuckets(f));
      FindEnds(f, id) <==> first == DBID_FREE || exists n: nat :: !FindRecord(f, first, id, n).Endless?
  {
    FindExactly(f, Bucket(f, id % NumBuckets(f)), id, |f|);
  }

  lemma FindExactly(f: string, pos: nat, id: nat, steps: nat)
    requires 0 < |f| <= steps
    ensures !FindRecord(f, pos, id, steps).Endless? <==> exists n: nat :: !FindRecord(f, pos, id, n).Endless?
  {
    forall n: nat | !FindRecord(f, pos, id, n).Endless? ensures !FindRecord(f, pos, id, steps).Endless? {
      FindEnough(f, pos, id, n, steps);
    }
  }

  lemma BumpedHeader(f: string)
    requires Mapped(f)
    ensures Mapped(Bumped(f)) && NumBuckets(Bumped(f)) == NumBuckets(f) && |Bumped(f)| == |f|
  {
    U64Kept(f, 0, Le((NextId(f) + 1) % UINT64_RANGE, 8), 8);
  }

  lemma BucketBumped(f: string, k: nat)
    requires Mapped(f) && k < NumBuckets(f)
    ensures Mapped(Bumped(f)) && NumBuckets(Bumped(f)) == NumBuckets(f) && Bucket(Bumped(f), k) == Bucket(f, k)
  {
    BumpedHeader(f);
    U64Kept(f, 0, Le((NextId(f) + 1) % UINT64_RANGE, 8), BucketPos(k));
  }

  // Both walks come to an end in every database, ...
  lemma ValidWalks(f: string, b: nat, c: seq<string>, id: nat)
    requires Valid(f, b, c)
    ensures Mapped(f) && WalkEnds(f) && FindEnds(f, id)
  {
    ValidWalkEnds(f, b, c);
    ValidFindEnds(f, b, c, id);
  }

  lemma ValidWalkEnds(f: string, b: nat, c: seq<string>)
    requires Valid(f, b, c)
    ensures Mapped(f) && WalkEnds(f)
  {
    FirstBucket(f, b, c);
    if |c| >= b {
      ModReaches(|c|, b);
      LastInBumped(f, b, c, |c| % b);
    }
  }

  lemma ValidFindEnds(f: string, b: nat, c: seq<string>, id: nat)
    requires Valid(f, b, c)
    ensures Mapped(f) && FindEnds(f, id)
  {
    ValidHeader(f, b, c);
    ModReaches(id, b);
    ValidBucket(f, b, c, id % b);
    if id % b < |c| {
      FindIs(f, b, c, id % b, id, |f|);
    }
  }

  // ... and in whatever the shipped code has made of one.
  lemma HeadedWalks(f: string, b: nat, id: nat)
    requires b > 0 && Headed(f, b)
    ensures WalkEnds(f) && FindEnds(f, id)
  {
    var k := NextId(f) % b;
    if Bucket(f, k) != DBID_FREE {
      U64Kept(f, 0, Le((NextId(f) + 1) % UINT64_RANGE, 8), Bucket(f, k) + NEXT_OFFSET);
      TailIsLast(Bumped(f), Bucket(f, k), |f|);
    }
    if Bucket(f, id % b) != DBID_FREE {
      assert IsTail(f, Bucket(f, id % b));
    }
  }

  // So db_insert and db_get end on every file of every run that begins with a new one, wherever the link is put.
  lemma RunWalks(b: nat, fs: seq<string>, vals: seq<string>, link: nat, i: nat, id: nat)
    requires 0 < b && Fits(BucketPos(b), vals) && IsRun(fs, vals, link) && fs[0] == Fresh(b) && i <= |vals|
    requires link == INTENDED_LINK || link == SHIPPED_LINK
    ensures Mapped(fs[i]) && WalkEnds(fs[i]) && FindEnds(fs[i], id)
  {
    if link == INTENDED_LINK || i <= b {
      RunIsValid(b, fs, vals, link, i);
      ValidWalks(fs[i], b, vals[..i], id);
    } else {
      RunZeroFirst(b, fs, vals, i);
      HeadedWalks(fs[i], b, id);
    }
  }

  // The bytes say what the database holds: opening a file again finds the same number of buckets, next id and values.
  lemma {:induction false} ReopenedIsSame(f: string, b: nat, c: seq<string>, b': nat, c': seq<string>)
    requires Valid(f, b, c) && Valid(f, b', c')
    ensures b == b' && c == c'
  {
    ValidHeader(f, b, c);
    ValidHeader(f, b', c');
    forall i | 0 <= i < |c| ensures c[i] == c'[i] {
      GetIs(f, b, c, i);
      GetIs(f, b', c', i);
    }
  }
}
