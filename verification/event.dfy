/** The timers of event.c, kept in a red-black tree that is ordered by trigger time. */
module Event {
  import opened Common
  import opened RbTree

  // The part of `struct timer` behind its tree node; flags are one boolean each.
  datatype Timer = Timer(trigger: nat, interval: nat, active: bool, oneshot: bool, cb: int, data: int)

  datatype Status = Ok | Err

  const NANOS_PER_MILLI: nat := 1000000

  function TimerCmp(a: Timer, b: Timer): int
  {
    if a.trigger < b.trigger then -1
    else if a.trigger == b.trigger then 0
    else 1
  }

  lemma TimerCmpIsComparator()
    ensures Comparator(TimerCmp)
  {
    forall a, b ensures AtMost(TimerCmp, a, b) <==> TimerCmp(b, a) >= 0 {
    }
  }

  // The trigger that update_trigger computes: `interval` milliseconds after `now`, in nanoseconds and in 64 bits
  function Trigger(now: nat, interval: nat): nat
  {
    (now + interval * NANOS_PER_MILLI) % UINT64_RANGE
  }

  // Every timer that is due has its ACTIVE flag set, ...
  ghost predicate DueActive(ts: seq<Timer>, now: nat)
  {
    forall i :: 0 <= i < |ts| && ts[i].trigger <= now ==> ts[i].active
  }

  // ... and is one-shot if it has.
  ghost predicate DueOneshot(ts: seq<Timer>, now: nat)
  {
    forall i :: 0 <= i < |ts| && ts[i].trigger <= now && ts[i].active ==> ts[i].oneshot
  }

  // The first k timers are due and active, and these are their callbacks, in order.
  ghost predicate Called(ts: seq<Timer>, now: nat, k: nat, calls: seq<(int, int)>)
  {
    && k <= |ts| && |calls| == k
    && forall i :: 0 <= i < k ==> ts[i].trigger <= now && ts[i].active && calls[i] == (ts[i].cb, ts[i].data)
  }

  // None of the timers from number k on is due.
  ghost predicate NotDue(ts: seq<Timer>, now: nat, k: nat)
  {
    forall i :: k <= i < |ts| ==> ts[i].trigger > now
  }

  class EventBase {
    const timers: Tree<Timer>

    constructor (sentinel: Node<Timer>)
      requires sentinel.color == Black && sentinel.left == sentinel && sentinel.right == sentinel && sentinel.bh == 0
      ensures Valid() && timers.contents == [] && fresh(timers) && timers.repr == {} && timers.nil == sentinel
    {
      TimerCmpIsComparator();
      timers := new Tree(sentinel, TimerCmp);
    }

    ghost predicate Valid()
      reads timers, timers.repr, timers.nil, timers.nodes
    {
      && timers.Valid()
      && forall a, b {:trigger timers.cmp(a, b)} :: timers.cmp(a, b) == TimerCmp(a, b)
    }

    // Every struct in the tree has its ACTIVE flag set.
    ghost predicate AllActive()
      reads timers`contents
    {
      forall i :: 0 <= i < |timers.contents| ==> timers.contents[i].active
    }

    method AddTimer(t: Node<Timer>, now: nat) returns (status: Status, ghost k: int)
      requires Valid() && t != timers.nil && (t.payload.active || t !in timers.repr)
      modifies timers, timers.repr, t
      ensures Valid() && (old(AllActive()) ==> AllActive())
      ensures status == if old(t.payload).active then Err else Ok
      ensures status == Err ==>
        timers.contents == old(timers.contents) && timers.repr == old(timers.repr) && t.payload == old(t.payload)
      ensures status == Ok ==>
        && t.payload == old(t.payload).(trigger := Trigger(now, old(t.payload).interval), active := true)
        && t.payload.trigger == (now + old(t.payload).interval * 1_000_000) % 0x1_0000_0000_0000_0000
        && timers.repr == old(timers.repr) + {t}
        && 0 <= k <= old(|timers.nodes|) && timers.nodes == old(timers.nodes)[..k] + [t] + old(timers.nodes)[k..]
        && 0 <= k <= old(|timers.contents|)
        && timers.contents == old(timers.contents)[..k] + [t.payload] + old(timers.contents)[k..]
        && (forall i :: 0 <= i < k ==> old(timers.contents)[i].trigger < t.payload.trigger)
        && (forall i :: k <= i < old(|timers.contents|) ==> t.payload.trigger <= old(timers.contents)[i].trigger)
    {
      k := 0;
      if t.payload.active {
        return Err, 0;
      }
      t.payload := t.payload.(trigger := Trigger(now, t.payload.interval));
      t.payload := t.payload.(active := true);
      k := timers.Insert(t);
      status := Ok;
    }

    lemma FlagKeepsOrder(k: int)
      requires 0 <= k < |timers.contents| && Sorted(timers.cmp, timers.contents)
      requires forall a, b {:trigger timers.cmp(a, b)} :: timers.cmp(a, b) == TimerCmp(a, b)
      ensures Sorted(timers.cmp, timers.contents[k := timers.contents[k].(active := false)])
    {
      var s := timers.contents;
      var s' := s[k := s[k].(active := false)];
      forall i, j | 0 <= i < j < |s'| ensures timers.cmp(s'[i], s'[j]) <= 0 {
        assert timers.cmp(s[i], s[j]) <= 0;
      }
    }

    // The node has a nil child, so that deleting it takes its own struct out of the tree and moves no payload.
    ghost predicate Outer(t: Node<Timer>)
      reads t`left, t`right
    {
      t.left == timers.nil || t.right == timers.nil
    }

    // Among three timers or more there is one whose node has two children.
    lemma NotAllOuter()
      requires Valid() && |timers.contents| >= 3
      ensures timers.root in timers.repr && !Outer(timers.root)
    {
      timers.RootHasTwo();
    }

    // rbtree_delete and the clearing of the flag, which is that of the payload then in t
    method Remove(t: Node<Timer>) returns (ghost k: int)
      requires Valid() && t in timers.repr
      modifies timers, timers.repr, timers.nil
      ensures Valid() && 0 <= k < old(|timers.nodes|) && old(timers.nodes)[k] == t
      ensures old(Outer(t)) ==>
        && timers.contents == old(timers.contents)[..k] + old(timers.contents)[k + 1..]
        && timers.nodes == old(timers.nodes)[..k] + old(timers.nodes)[k + 1..]
        && timers.repr == old(timers.repr) - {t} && t.payload == old(t.payload).(active := false)
      ensures !old(Outer(t)) ==>
        && k + 1 < old(|timers.nodes|)
        && timers.contents
           == old(timers.contents)[..k] + [old(timers.contents)[k + 1].(active := false)] + old(timers.contents)[k + 2..]
        && timers.repr == old(timers.repr) - {old(timers.nodes)[k + 1]} && t in timers.repr
        && t.payload == old(timers.contents)[k + 1].(active := false)
        && old(timers.nodes)[k + 1].payload == old(timers.contents)[k + 1]
    {
      ghost var next;
      ghost var outer := Outer(t);
      next, k := timers.Delete(t);
      assert !outer ==> timers.nodes[k] == t;
      ClearFlag(t, outer, k);
    }

    // The flag of a struct that has left the tree, or of number k in it
    method ClearFlag(t: Node<Timer>, ghost outside: bool, ghost k: int)
      requires Valid() && if outside then t !in timers.repr else 0 <= k < |timers.nodes| && timers.nodes[k] == t
      modifies t`payload, timers`contents
      ensures Valid() && t.payload == old(t.payload).(active := false)
      ensures timers.contents == if outside then old(timers.contents) else old(timers.contents)[k := t.payload]
    {
      if !outside {
        assert timers.contents[k] == t.payload;
        FlagKeepsOrder(k);
      }
      timers.SetPayload(t, t.payload.(active := false), outside, k);
    }

    // del_timer. Of a node with two children, the struct that leaves the tree is the successor's, which keeps its flag; t
    // stays, with the successor's payload and the flag cleared.
    method DelTimer(t: Node<Timer>) returns (status: Status, ghost k: int)
      requires Valid() && (t in timers.repr || !t.payload.active)
      modifies timers, timers.repr, timers.nil
      ensures Valid()
      ensures status == if old(t.payload).active then Ok else Err
      ensures status == Err ==>
        && timers.contents == old(timers.contents) && timers.nodes == old(timers.nodes)
        && timers.repr == old(timers.repr) && t.payload == old(t.payload)
      ensures status == Ok ==> 0 <= k < old(|timers.nodes|) && old(timers.nodes)[k] == t
      ensures status == Ok && old(Outer(t)) ==>
        && timers.contents == old(timers.contents)[..k] + old(timers.contents)[k + 1..]
        && timers.nodes == old(timers.nodes)[..k] + old(timers.nodes)[k + 1..]
        && timers.repr == old(timers.repr) - {t} && t.payload == old(t.payload).(active := false)
      ensures status == Ok && !old(Outer(t)) ==>
        && k + 1 < old(|timers.nodes|)
        && timers.contents
           == old(timers.contents)[..k] + [old(timers.contents)[k + 1].(active := false)] + old(timers.contents)[k + 2..]
        && timers.repr == old(timers.repr) - {old(timers.nodes)[k + 1]} && t in timers.repr
        && t.payload == old(timers.contents)[k + 1].(active := false)
        && old(timers.nodes)[k + 1].payload == old(timers.contents)[k + 1]
      // the tree goes on holding active timers only exactly when no payload had to be moved
      ensures status == Ok && old(AllActive()) ==> (AllActive() <==> old(Outer(t)))
    {
      k := 0;
      if !t.payload.active {
        return Err, 0;
      }
      k := Remove(t);
      status := Ok;
      assert !old(Outer(t)) ==> timers.contents[k] == t.payload;
    }

    // If the first timer is not due, none is.
    lemma FirstIsLeast(now: nat)
      requires Valid() && (timers.contents == [] || timers.contents[0].trigger > now)
      ensures NotDue(timers.contents, now, 0)
    {
      InOrder(timers.cmp, timers.contents);
    }

    // One pass of the loop of run_timers; `more` tells that it did not leave the loop, `calls` is the callback made, and
    // `seen` what the tree holds when it is made.
    method Iterate(now: nat) returns (more: bool, calls: seq<(int, int)>, ghost seen: seq<Timer>)
      requires Valid()
      requires timers.contents != [] && timers.contents[0].trigger <= now && timers.contents[0].active ==>
        timers.contents[0].oneshot
      modifies timers, timers.repr, timers.nil
      ensures Valid()
      ensures more <==> old(timers.contents) != [] && old(timers.contents)[0].trigger <= now
      ensures more && old(timers.contents)[0].active ==>
        && timers.contents == seen == old(timers.contents)[1..] && timers.nodes == old(timers.nodes)[1..]
        && old(timers.nodes)[0].payload == old(timers.contents)[0].(active := false)
        && calls == [(old(timers.contents)[0].cb, old(timers.contents)[0].data)]
      // an inactive timer at the front is neither called nor removed
      ensures !more || !old(timers.contents)[0].active ==>
        timers.contents == old(timers.contents) && timers.nodes == old(timers.nodes) && calls == []
      ensures timers.repr <= old(timers.repr)
    {
      more, calls, seen := false, [], [];
      ghost var steps, k;
      var t;
      t, steps := timers.Leftmost(timers.root);
      if t != null {
        assert timers.nodes[0] == t;
        if now >= t.payload.trigger {
          more := true;
          if t.payload.active {
            if t.payload.oneshot {
              var status;
              status, k := DelTimer(t);
              seen := timers.contents;
              calls := [(t.payload.cb, t.payload.data)];
            }
          } else {
            var status;
            status, k := DelTimer(t);
          }
        }
      }
    }

    // At most `passes` passes of the loop of run_timers. With more passes than there are timers, it is left if and only if
    // every timer that is due is active, and so it ends or runs forever. In either case it has called back timers that are due,
    // in their order and once each, and has removed these and no others.
    method RunPasses(now: nat, passes: nat) returns (ended: bool, calls: seq<(int, int)>, ghost k: nat)
      requires Valid() && DueOneshot(timers.contents, now)
      modifies timers, timers.repr, timers.nil
      ensures Valid() && Called(old(timers.contents), now, k, calls) && k <= old(|timers.nodes|)
      ensures timers.contents == old(timers.contents)[k..] && timers.nodes == old(timers.nodes)[k..]
      ensures ended ==> NotDue(old(timers.contents), now, k)
      ensures forall i, j :: 0 <= i < j < k ==> old(timers.contents)[i].trigger <= old(timers.contents)[j].trigger
      ensures passes > old(|timers.contents|) ==> (ended <==> DueActive(old(timers.contents), now))
    {
      ghost var ts, ns := timers.contents, timers.nodes;
      InOrder(timers.cmp, ts);
      ended, calls, k := false, [], 0;
      var n := 0;
      while !ended && n < passes
        invariant n <= passes && Valid() && Called(ts, now, k, calls) && k <= |ns|
        invariant timers.contents == ts[k..] && timers.nodes == ns[k..] && timers.repr <= old(timers.repr)
        invariant ended ==> NotDue(ts, now, k)
        invariant !ended && DueActive(ts, now) ==> k == n
        decreases passes - n, !ended
      {
        var more, made;
        ghost var seen;
        FirstNow(ts, k);
        more, made, seen := Iterate(now);
        if !more {
          ended := true;
          FirstIsLeast(now);
          NotDueFrom(ts, now, k);
        } else if made != [] {
          OneMoreCalled(ts, now, k, calls, made);
          calls, k := calls + made, k + 1;
        }
        n := n + 1;
      }
      if ended {
        CalledActive(ts, now, k, calls);
      }
    }

    // A one-shot timer of n milliseconds that is added at time `at` is called back by run_timers if and only if at least n
    // million nanoseconds have passed by then; otherwise it is still in the tree. Its call is number k.
    method AddAndRun(t: Node<Timer>, at: nat, now: nat) returns (calls: seq<(int, int)>, ghost k: nat)
      requires Valid() && t != timers.nil && t !in timers.repr && !t.payload.active && t.payload.oneshot
      requires DueOneshot(timers.contents, now) && DueActive(timers.contents, now)
      requires at + t.payload.interval * 1_000_000 < 0x1_0000_0000_0000_0000
      modifies timers, timers.repr, timers.nil, t
      ensures Valid() && k <= old(|timers.contents|)
      ensures k < |calls| <==> now >= at + old(t.payload.interval) * 1_000_000
      ensures k < |calls| ==> calls[k] == (old(t.payload.cb), old(t.payload.data))
      ensures k < |calls| <==> t !in timers.nodes
      ensures |calls| <= old(|timers.contents|) + 1
    {
      ghost var ts := timers.contents;
      var status;
      ghost var p, n;
      status, p := AddTimer(t, at);
      k := p;
      ghost var us, ns := timers.contents, timers.nodes;
      MoreDue(ts, t.payload, k, now, us);
      assert us[k] == t.payload && ns[k] == t;
      timers.NodesApart(t, false, k);
      calls, n := RunTimers(now);
      OnlyAt(ns, t, k, n);
    }

    // In every tree of three active timers or more, del_timer can bring this about: after it has been called for the timer at
    // the root, the loop of run_timers does not end once all timers are due.
    method StallAtRoot(now: nat, passes: nat) returns (ended: bool)
      requires Valid() && |timers.contents| >= 3 && passes >= |timers.contents|
      requires AllDue(timers.contents, now)
      modifies timers, timers.repr, timers.nil
      ensures !ended
    {
      NotAllOuter();
      assert timers.root.payload.active by {
        timers.InContents(timers.root);
      }
      ghost var ts := timers.contents;
      var status, calls;
      ghost var k;
      status, k := DelTimer(timers.root);
      StillDue(ts, timers.contents, now, k);
      ended, calls, k := RunPasses(now, passes);
    }

    // run_timers, when it ends: exactly the timers that are due are called back and removed.
    method RunTimers(now: nat) returns (calls: seq<(int, int)>, ghost k: nat)
      requires Valid() && DueOneshot(timers.contents, now) && DueActive(timers.contents, now)
      modifies timers, timers.repr, timers.nil
      ensures Valid() && Called(old(timers.contents), now, k, calls) && NotDue(old(timers.contents), now, k)
      ensures forall i, j :: 0 <= i < j < k ==> old(timers.contents)[i].trigger <= old(timers.contents)[j].trigger
      ensures k <= old(|timers.nodes|)
      ensures timers.contents == old(timers.contents)[k..] && timers.nodes == old(timers.nodes)[k..]
      ensures old(AllActive()) ==> AllActive()
    {
      ghost var ts, ns := timers.contents, timers.nodes;
      calls, k := [], 0;
      var more := true;
      while more
        invariant Valid() && Called(ts, now, k, calls) && k <= |ns|
        invariant timers.contents == ts[k..] && timers.nodes == ns[k..] && timers.repr <= old(timers.repr)
        invariant !more ==> NotDue(ts, now, k)
        decreases |timers.contents|, more
      {
        var made;
        ghost var seen;
        FirstNow(ts, k);
        more, made, seen := Iterate(now);
        if more {
          calls, k := calls + made, k + 1;
        } else {
          FirstIsLeast(now);
          NotDueFrom(ts, now, k);
        }
      }
      InOrder(timers.cmp, ts);
    }
  }

  lemma InOrder(cmp: (Timer, Timer) -> int, ts: seq<Timer>)
    requires Sorted(cmp, ts) && forall a, b {:trigger cmp(a, b)} :: cmp(a, b) == TimerCmp(a, b)
    ensures forall i, j :: 0 <= i < j < |ts| ==> ts[i].trigger <= ts[j].trigger
  {
    forall i, j | 0 <= i < j < |ts| ensures ts[i].trigger <= ts[j].trigger {
      assert cmp(ts[i], ts[j]) <= 0;
    }
  }

  // All timers are active, one-shot and due.
  ghost predicate AllDue(ts: seq<Timer>, now: nat)
  {
    forall i :: 0 <= i < |ts| ==> ts[i].active && ts[i].oneshot && ts[i].trigger <= now
  }

  lemma OnlyAt<T>(s: seq<T>, x: T, k: nat, n: nat)
    requires k < |s| && n <= |s| && s[k] == x && forall i {:trigger s[i]} :: 0 <= i < |s| && i != k ==> s[i] != x
    ensures x in s[n..] <==> n <= k
  {
    if n <= k {
      assert s[n..][k - n] == x;
    }
  }

  lemma MoreDue(ts: seq<Timer>, t: Timer, k: nat, now: nat, us: seq<Timer>)
    requires DueOneshot(ts, now) && DueActive(ts, now) && t.active && t.oneshot
    requires k <= |ts| && us == ts[..k] + [t] + ts[k..]
    ensures DueOneshot(us, now) && DueActive(us, now)
  {
    forall i | 0 <= i < |us| ensures us[i] == if i < k then ts[i] else if i == k then t else ts[i - 1] {
    }
  }

  lemma StillDue(ts: seq<Timer>, us: seq<Timer>, now: nat, k: nat)
    requires AllDue(ts, now) && k + 1 < |ts| && us == ts[..k] + [ts[k + 1].(active := false)] + ts[k + 2..]
    ensures |us| == |ts| - 1 && DueOneshot(us, now) && !DueActive(us, now)
  {
    forall i | 0 <= i < |us| ensures us[i].oneshot {
      assert us[i] == if i < k then ts[i] else if i == k then ts[k + 1].(active := false) else ts[i + 1];
    }
    assert us[k].trigger <= now && !us[k].active;
  }

  lemma OneMoreCalled(ts: seq<Timer>, now: nat, k: nat, calls: seq<(int, int)>, made: seq<(int, int)>)
    requires Called(ts, now, k, calls) && k < |ts| && ts[k].trigger <= now && ts[k].active && made == [(ts[k].cb, ts[k].data)]
    ensures Called(ts, now, k + 1, calls + made)
  {
  }

  lemma CalledActive(ts: seq<Timer>, now: nat, k: nat, calls: seq<(int, int)>)
    requires Called(ts, now, k, calls) && NotDue(ts, now, k)
    ensures DueActive(ts, now)
  {
  }

  lemma FirstNow(ts: seq<Timer>, k: nat)
    requires k <= |ts|
    ensures ts[k..] != [] ==> k < |ts| && ts[k..][0] == ts[k] && ts[k..][1..] == ts[k + 1..]
  {
  }

  lemma NotDueFrom(ts: seq<Timer>, now: nat, k: nat)
    requires k <= |ts| && NotDue(ts[k..], now, 0)
    ensures NotDue(ts, now, k)
  {
    forall i | k <= i < |ts| ensures ts[i].trigger > now {
      assert ts[k..][i - k] == ts[i];
    }
  }
}
