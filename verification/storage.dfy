/** A file as its bytes, with the positioned reads and writes and the little-endian numbers that db.c puts in it. */
module Storage {
  import opened Common

  // ---------- numbers ----------

  // The k bytes of n, the lowest first
  function Le(n: nat, k: nat): (s: string)
    ensures |s| == k
    decreases k, n
  {
    if k == 0 then "" else [(n % 256) as char] + Le(n / 256, k - 1)
  }

  function UnLe(s: string): nat
  {
    if s == "" then 0 else s[0] as int + 256 * UnLe(s[1..])
  }

  function Pow256(k: nat): nat
  {
    if k == 0 then 1 else 256 * Pow256(k - 1)
  }

  lemma {:induction false} UnLeOfLe(n: nat, k: nat)
    requires n < Pow256(k)
    ensures UnLe(Le(n, k)) == n
    decreases k
  {
    if k > 0 {
      UnLeOfLe(n / 256, k - 1);
      assert Le(n, k)[1..] == Le(n / 256, k - 1);
    }
  }

  lemma Pow256Values()
    ensures Pow256(4) == 0x1_0000_0000 && Pow256(8) == UINT64_RANGE
  {
    assert Pow256(4) == 256 * 256 * 256 * 256;
    assert Pow256(8) == 256 * 256 * 256 * 256 * Pow256(4);
  }

  // ---------- positioned reads and writes ----------

  function Zeros(n: nat): (s: string)
    ensures |s| == n
  {
    seq(n, i => '\0')
  }

  // The first bytes of f, or f and zeros when it is shorter
  function Extend(f: string, n: nat): (g: string)
    ensures |g| >= |f| && |g| >= n && g[..|f|] == f
  {
    if n <= |f| then f else f + Zeros(n - |f|)
  }

  function PWrite(f: string, pos: nat, w: string): (g: string)
    ensures |g| == if pos + |w| > |f| then pos + |w| else |f|
  {
    var e := Extend(f, pos + |w|);
    e[..pos] + w + e[pos + |w|..]
  }

  // The bytes b stand in f at position pos.
  ghost predicate Holds(f: string, pos: nat, b: string)
  {
    pos + |b| <= |f| && f[pos..pos + |b|] == b
  }

  lemma HoldsWritten(f: string, pos: nat, w: string)
    ensures Holds(PWrite(f, pos, w), pos, w)
  {
  }

  lemma HoldsKept(f: string, pos: nat, w: string, p: nat, b: string)
    requires Holds(f, p, b) && (p + |b| <= pos || pos + |w| <= p)
    ensures Holds(PWrite(f, pos, w), p, b)
  {
    var g := PWrite(f, pos, w);
    var e := Extend(f, pos + |w|);
    forall i | 0 <= i < |b| ensures g[p + i] == b[i] {
      assert e[..|f|][p + i] == f[p + i] == f[p..p + |b|][i];
    }
  }

  lemma HoldsPart(f: string, pos: nat, a: string, b: string)
    ensures Holds(f, pos, a + b) <==> Holds(f, pos, a) && Holds(f, pos + |a|, b)
  {
    if Holds(f, pos, a + b) {
      assert f[pos..pos + |a|] == (a + b)[..|a|] && f[pos + |a|..pos + |a| + |b|] == (a + b)[|a|..];
    }
  }

  function U64(f: string, pos: nat): nat
    requires pos + 8 <= |f|
  {
    UnLe(f[pos..pos + 8])
  }

  function U32(f: string, pos: nat): nat
    requires pos + 4 <= |f|
  {
    UnLe(f[pos..pos + 4])
  }

  lemma U64Held(f: string, pos: nat, n: nat)
    requires Holds(f, pos, Le(n, 8)) && n < UINT64_RANGE
    ensures pos + 8 <= |f| && U64(f, pos) == n
  {
    Pow256Values();
    UnLeOfLe(n, 8);
  }

  lemma U32Held(f: string, pos: nat, n: nat)
    requires Holds(f, pos, Le(n, 4)) && n < 0x1_0000_0000
    ensures pos + 4 <= |f| && U32(f, pos) == n
  {
    Pow256Values();
    UnLeOfLe(n, 4);
  }

  lemma U64Kept(f: string, pos: nat, w: string, p: nat)
    requires p + 8 <= |f| && (p + 8 <= pos || pos + |w| <= p)
    ensures U64(PWrite(f, pos, w), p) == U64(f, p)
  {
    HoldsKept(f, pos, w, p, f[p..p + 8]);
  }

  lemma U64Written(f: string, pos: nat, n: nat)
    requires n < UINT64_RANGE
    ensures U64(PWrite(f, pos, Le(n, 8)), pos) == n
  {
    HoldsWritten(f, pos, Le(n, 8));
    U64Held(PWrite(f, pos, Le(n, 8)), pos, n);
  }
}
