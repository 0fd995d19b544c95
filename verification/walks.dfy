/** Walks along links, in general: a walk that ends at all ends within as many steps as there are places with a link. */
module Walks {
  import opened Common

  // From pos, less than n links lead to a place without a link.
  ghost predicate Ends(next: nat -> Option<nat>, pos: nat, n: nat)
    decreases n
  {
    n > 0 && (next(pos).None? || Ends(next, next(pos).value, n - 1))
  }

  // The number of places on the walk
  ghost function Length(next: nat -> Option<nat>, pos: nat, n: nat): nat
    requires Ends(next, pos, n)
    decreases n
  {
    if next(pos).None? then 1 else 1 + Length(next, next(pos).value, n - 1)
  }

  lemma {:induction false} EndsFrom(next: nat -> Option<nat>, pos: nat, n: nat, k: nat)
    requires Ends(next, pos, n)
    ensures Ends(next, pos, k) <==> k >= Length(next, pos, n)
    ensures Ends(next, pos, k) ==> Length(next, pos, k) == Length(next, pos, n)
    decreases n
  {
    if k > 0 && next(pos).Some? {
      EndsFrom(next, next(pos).value, n - 1, k - 1);
    }
  }

  // The places with a link that a walk passes. It passes none of them twice, since what is left of the walk gets shorter.
  lemma {:induction false} Passed(next: nat -> Option<nat>, pos: nat, n: nat) returns (s: set<nat>)
    requires Ends(next, pos, n)
    ensures |s| == Length(next, pos, n) - 1
    ensures forall p :: p in s ==> next(p).Some? && Ends(next, p, n) && Length(next, p, n) <= Length(next, pos, n)
    decreases n
  {
    if next(pos).None? {
      s := {};
    } else {
      s := Passed(next, next(pos).value, n - 1);
      forall p | p in s ensures Ends(next, p, n) && Length(next, p, n) < Length(next, pos, n) {
        EndsFrom(next, p, n - 1, n - 1);
        EndsFrom(next, p, n - 1, n);
      }
      s := s + {pos};
    }
  }

  lemma {:induction false} Below(s: set<nat>, m: nat)
    requires forall p :: p in s ==> p < m
    ensures |s| <= m
    decreases m
  {
    if m > 0 {
      var t := s - {m - 1};
      Below(t, m - 1);
      assert s <= t + {m - 1};
      assert |s| <= |t| + 1 by {
        if m - 1 in s {
          assert s == t + {m - 1};
        } else {
          assert s == t;
        }
      }
    } else {
      assert s == {};
    }
  }

  // If only places below m have links, a walk that ends does so within m + 1 places.
  lemma EndsWithin(next: nat -> Option<nat>, pos: nat, n: nat, m: nat)
    requires Ends(next, pos, n) && forall p: nat :: next(p).Some? ==> p < m
    ensures Ends(next, pos, m + 1)
  {
    var s := Passed(next, pos, n);
    Below(s, m);
    EndsFrom(next, pos, n, m + 1);
  }
}
