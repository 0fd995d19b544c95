/** A worker: the connections it serves, with their registrations and timers, and the loop over epoll's events. */
module Workers {
  import opened Http
  import opened Lists
  import opened Lifecycle
  import opened Outcomes
  import opened Common
  import opened Connections

  // The place of a connection in a list
  ghost function Index(s: seq<Connection>, c: Connection): (i: nat)
    requires c in s
    ensures i < |s| && s[i] == c
  {
    var i: nat :| i < |s| && s[i] == c;
    i
  }

  // s without c
  ghost function Without(s: seq<Connection>, c: Connection): (t: seq<Connection>)
    requires c in s
    ensures |t| == |s| - 1
  {
    Drop(s, Index(s, c))
  }

  ghost function Nodes(cs: seq<Connection>): (s: seq<Link<Connection?>>)
    ensures |s| == |cs|
  {
    seq(|cs|, i requires 0 <= i < |cs| => cs[i].node)
  }

  // Counting in a size_t
  function Wrapped(n: nat): nat
  {
    n % UINT64_RANGE
  }

  function Up(n: nat): nat
  {
    if n + 1 == UINT64_RANGE then 0 else n + 1
  }

  function Down(n: nat): nat
  {
    if n == 0 then UINT64_RANGE - 1 else n - 1
  }

  // What epoll_wait hands back, and what happens around the callback: the event of a connection, or that of the listening
  // socket
  datatype Ready =
    | Ready(conn: Connection, readable: bool, writable: bool, world: World)
    | Knock(readable: bool, accepted: bool, fd: int, granted: bool)

  class Worker {
    const head: Link<Connection?>
    // num_conns, a size_t
    var numConns: nat
    // What epoll watches, and the structure it hands back for it
    var registered: map<int, (Interest, Connection)>
    // The connections whose timers run
    var timers: set<Connection>
    // The links in the list, and those that have been in it
    ghost var repr: set<Link<Connection?>>
    // The connections in the list, in its order
    ghost var conns: seq<Connection>
    // The connections that have been freed, in this order
    ghost var gone: seq<Connection>

    constructor ()
      ensures Valid() && conns == [] && gone == [] && fresh(repr)
    {
      head := new Link<Connection?>();
      numConns, registered, timers, conns, gone := 0, map[], {}, [], [];
      repr := {head};
      new;
      head.InitHead();
      assert [head] == Links();
    }

    ghost function Links(): seq<Link<Connection?>>
      reads this`conns
    {
      [head] + Nodes(conns)
    }

    ghost predicate Listed()
      reads this`conns, this`repr, repr
    {
      && (forall l :: l in Links() ==> l in repr) && Ring(Links())
      && forall i {:trigger conns[i]} :: 0 <= i < |conns| ==> Links()[i + 1].entry == conns[i]
    }

    // The connection waits for what it is registered for, and its timer runs.
    ghost predicate Live(c: Connection)
      reads this`registered, this`timers, c
    {
      && c.fd in registered && registered[c.fd] == (c.interest, c) && c.eventActive
      && c in timers && c.timerActive
      && (if c.state == StateIn then c.interest == PollIn && c.buffer == "" && c.req == Blank(c.keepAlive)
          else c.state == StateOut && c.interest == PollOut && c.writeBytes < |c.buffer|)
    }

    // Only connections of this worker are registered or have timers, and none of the freed ones is left.
    ghost predicate Closed()
      reads this`registered, this`timers, this`conns, this`gone
    {
      && (forall f :: f in registered ==> registered[f].1 in conns && registered[f].1.fd == f)
      && (forall c :: c in timers ==> c in conns)
      && (forall c :: c in gone ==> c !in conns)
      && Distinct(gone)
    }

    // All is well but for c, which is being worked on, or is new, and is in the list.
    ghost predicate But(c: Connection)
      reads this`registered, this`timers, this`conns, this`gone, this`repr, repr, conns, c
    {
      && Listed() && Closed() && c in conns
      && (forall d {:trigger Live(d)} :: d in conns && d != c ==> Live(d) && d.fd != c.fd)
      && (c.eventActive <==> c.fd in registered) && (c.timerActive <==> c in timers)
      && (c.fd in registered ==> registered[c.fd].1 == c)
    }

    // Every connection in the list is live.
    ghost predicate Sound()
      reads this`registered, this`timers, this`conns, this`gone, this`repr, repr, conns
    {
      Listed() && Closed() && forall c {:trigger Live(c)} :: c in conns ==> Live(c)
    }

    // What holds between callbacks
    ghost predicate Valid()
      reads this`registered, this`timers, this`conns, this`gone, this`repr, repr, conns, this`numConns
    {
      Sound() && numConns == Wrapped(|conns|)
    }

    lemma SoundBut(c: Connection)
      requires Sound() && c in conns
      ensures But(c)
    {
      assert Live(c);
      forall d | d in conns && d != c ensures Live(d) && d.fd != c.fd {
        assert Live(d);
      }
    }

    lemma ButSound(c: Connection)
      requires But(c) && Live(c)
      ensures Sound()
    {
    }

    // ---------- event.c ----------

    // epoll_ctl refuses a descriptor that is registered already, and may fail for want of memory.
    method AddEvent(c: Connection, granted: bool) returns (ok: bool)
      modifies this`registered, c`eventActive
      ensures ok == (granted && c.fd !in old(registered))
      ensures registered == if ok then old(registered)[c.fd := (c.interest, c)] else old(registered)
      ensures c.eventActive == (ok || old(c.eventActive))
    {
      if c.fd in registered || !granted {
        return false;
      }
      registered := registered[c.fd := (c.interest, c)];
      c.eventActive := true;
      return true;
    }

    method DelEvent(c: Connection)
      modifies this`registered, c`eventActive
      ensures registered == old(registered) - {c.fd}
      ensures c.eventActive == (old(c.eventActive) && c.fd !in old(registered))
    {
      if c.fd in registered {
        registered := registered - {c.fd};
        c.eventActive := false;
      }
    }

    method AddTimer(c: Connection) returns (ok: bool)
      modifies this`timers, c`timerActive
      ensures ok == !old(c.timerActive) && c.timerActive
      ensures timers == if ok then old(timers) + {c} else old(timers)
    {
      if c.timerActive {
        return false;
      }
      c.timerActive := true;
      timers := timers + {c};
      return true;
    }

    method DelTimer(c: Connection)
      modifies this`timers, c`timerActive
      ensures timers == (if old(c.timerActive) then old(timers) - {c} else old(timers)) && !c.timerActive
    {
      if c.timerActive {
        timers := timers - {c};
        c.timerActive := false;
      }
    }

    // Nothing but c, its registration and its timer have changed.
    twostate predicate Own(c: Connection)
      reads this`registered, this`timers, this`conns, this`gone, this`repr, repr, conns
    {
      && conns == old(conns) && gone == old(gone)
      && registered - {c.fd} == old(registered) - {c.fd} && timers - {c} == old(timers) - {c}
      && (c.fd in registered ==> registered[c.fd].1 == c)
      && (forall d :: d in conns && d != c ==> unchanged(d))
      && repr == old(repr) && (forall l :: l in repr ==> unchanged(l))
    }

    twostate lemma ClosedStays(c: Connection)
      requires old(Closed()) && Own(c) && c in conns
      ensures Closed()
    {
      forall f | f in registered ensures registered[f].1 in conns && registered[f].1.fd == f {
        assert f == c.fd || f in registered - {c.fd};
      }
      forall d | d in timers ensures d in conns {
        assert d == c || d in timers - {c};
      }
    }

    twostate lemma ButStays(c: Connection)
      requires old(But(c)) && Own(c)
      requires (c.eventActive <==> c.fd in registered) && (c.timerActive <==> c in timers)
      ensures But(c)
    {
      forall d | d in conns && d != c ensures Live(d) && d.fd != c.fd {
        assert old(Live(d));
        assert d.fd in old(registered) - {c.fd} && d in old(timers) - {c};
      }
      ClosedStays(c);
      ListedStays();
    }

    twostate lemma ListedStays()
      requires old(Listed()) && conns == old(conns) && repr == old(repr) && forall l :: l in repr ==> unchanged(l)
      ensures Listed()
    {
      var ls := Links();
      forall i | 0 <= i < |ls| ensures JoinedAt(ls, i) {
        assert old(JoinedAt(ls, i)) && ls[i] in ls && ls[Lists.After(i, |ls|)] in ls;
      }
      forall i | 0 <= i < |conns| ensures ls[i + 1].entry == conns[i] {
        assert ls[i + 1] in ls;
      }
    }

    // ---------- connection.c ----------

    // The connection c has been freed.
    twostate predicate Left(c: Connection)
      requires c in old(conns)
      reads this`conns, this`gone, this`numConns
    {
      && conns == Without(old(conns), c) && gone == old(gone) + [c]
      && numConns == Down(old(numConns))
    }

    twostate predicate Stayed()
      reads this`conns, this`gone, this`numConns
    {
      conns == old(conns) && gone == old(gone) && numConns == old(numConns)
    }

    // list_del_entry
    method Unlist(c: Connection)
      requires Listed() && c in conns
      modifies this`conns, repr`prev, repr`next
      ensures Listed() && conns == Without(old(conns), c)
    {
      ghost var i := Index(conns, c);
      LinksDrop(head, conns, i);
      Delete(c.node, Links(), i + 1);
      conns := Without(conns, c);
    }

    // close_connection
    method Close(c: Connection)
      requires But(c)
      modifies this`numConns, this`registered, this`timers, this`conns, this`gone
      modifies repr`prev, repr`next, c`eventActive, c`timerActive
      ensures Sound() && Left(c)
    {
      ListedDistinct();
      WithoutHas(conns, c);
      numConns := Down(numConns);
      DelEvent(c);
      DelTimer(c);
      ButStays(c);
      label Undone:
      Unlist(c);
      gone := gone + [c];
      ClosedWithout@Undone(c);
      forall d | d in conns ensures Live(d) {
        assert old@Undone(Live(d));
      }
    }

    // Without registration and timer, c can leave the list.
    twostate lemma ClosedWithout(c: Connection)
      requires old(Closed()) && c !in old(timers) && c in old(conns) && c.fd !in old(registered)
      requires Distinct(old(conns)) && conns == Without(old(conns), c)
      requires registered == old(registered) && timers == old(timers) && gone == old(gone) + [c]
      ensures Closed()
    {
      WithoutHas(old(conns), c);
    }

    // reset_connection. Its add_timer cannot fail, for make_timer leaves the timer inactive.
    method Reset(c: Connection) returns (ok: bool)
      requires But(c)
      modifies this`registered, this`timers, c
      ensures ok && But(c) && Own(c)
      ensures c.timerActive && !c.eventActive && c.req == Blank(c.keepAlive) && c.writeBytes == 0
      ensures c.state == old(c.state) && c.keepAlive == old(c.keepAlive) && c.buffer == old(c.buffer) && c.wire == old(c.wire)
    {
      c.req := Blank(c.keepAlive);
      c.writeBytes := 0;
      if c.timerActive {
        DelTimer(c);
      }
      c.timerActive := false;
      ok := AddTimer(c);
      if c.eventActive {
        DelEvent(c);
      }
      ButStays(c);
    }

    // begin_read. `granted` says whether epoll_ctl registers the connection.
    method BeginRead(c: Connection, granted: bool)
      requires But(c)
      modifies this`numConns, this`registered, this`timers, this`conns, this`gone, repr`prev, repr`next, c
      ensures Sound() && c.wire == old(c.wire)
      ensures if granted then Stayed() && c.View() == In(old(c.keepAlive)) else Left(c)
    {
      var ok := Reset(c);
      assert ok;
      c.buffer := "";
      c.state := StateIn;
      c.interest, c.eventActive := PollIn, false;
      ok := AddEvent(c, granted);
      ButStays(c);
      if !ok {
        Close(c);
        return;
      }
      ButSound(c);
    }

    // send_data. `granted` says whether epoll_ctl registers the connection for the next request.
    method SendData(c: Connection, sends: seq<Send>, granted: bool)
      requires Sound() && c in conns && Live(c) && c.state == StateOut
      modifies this`numConns, this`registered, this`timers, this`conns, this`gone, repr`prev, repr`next, c
      ensures Sound()
      ensures var (s, sent) := AfterSend(old(c.keepAlive), old(c.buffer), old(c.writeBytes), sends, granted);
        c.wire == old(c.wire) + sent && if s.Gone? then Left(c) else Stayed() && c.View() == s
      ensures var rest := old(c.buffer)[old(c.writeBytes)..];
        && (c in conns && c.state == StateIn <==> old(c.keepAlive) && granted && c.wire == old(c.wire) + rest)
        && (c in conns && c.state == StateOut <==> c.wire != old(c.wire) + rest && !SendFails(sends, |rest|))
    {
      SoundBut(c);
      assert Live(c);
      AfterSendIs(c.keepAlive, c.buffer, c.writeBytes, sends, granted);
      SentWhole(c.wire, c.buffer, c.writeBytes, sends);
      var e := c.SendLoop(sends);
      ButStays(c);
      match e
      case Blocked =>
        ButSound(c);
      case Complete =>
        if c.keepAlive {
          BeginRead(c, granted);
        } else {
          Close(c);
        }
      case Broken =>
        Close(c);
    }

    // begin_send
    method BeginSend(c: Connection, w: World)
      requires But(c) && c.buffer != ""
      modifies this`numConns, this`registered, this`timers, this`conns, this`gone, repr`prev, repr`next, c
      ensures Sound()
      ensures var (s, sent) := if w.canSend then AfterSend(old(c.keepAlive), old(c.buffer), 0, w.sends, w.canRead) else (Gone, "");
        c.wire == old(c.wire) + sent && if s.Gone? then Left(c) else Stayed() && c.View() == s
    {
      var ok := Reset(c);
      assert ok;
      c.state := StateOut;
      c.interest, c.eventActive := PollOut, false;
      ok := AddEvent(c, w.canSend);
      ButStays(c);
      if !ok {
        Close(c);
        assert c.wire == old(c.wire) + "";
        return;
      }
      ButSound(c);
      SendData(c, w.sends, w.canRead);
    }

    // send_response
    method SendResponse(c: Connection, w: World)
      requires But(c)
      modifies this`numConns, this`registered, this`timers, this`conns, this`gone, repr`prev, repr`next, c
      ensures Sound()
      ensures var reply := Response(old(c.req.version), old(c.keepAlive), w.status, w.body);
        var (s, sent) := if w.canSend then AfterSend(old(c.keepAlive), reply, 0, w.sends, w.canRead) else (Gone, "");
        c.wire == old(c.wire) + sent && if s.Gone? then Left(c) else Stayed() && c.View() == s
    {
      c.buffer := Response(c.req.version, c.keepAlive, w.status, w.body);
      ButStays(c);
      BeginSend(c, w);
    }

    // read_data
    method ReadData(c: Connection, w: World)
      requires Sound() && c in conns && Live(c) && c.state == StateIn
      modifies this`numConns, this`registered, this`timers, this`conns, this`gone, repr`prev, repr`next, c
      ensures Sound()
      ensures var (s, sent) := AfterRead(old(c.keepAlive), w);
        c.wire == old(c.wire) + sent && if s.Gone? then Left(c) else Stayed() && c.View() == s
    {
      SoundBut(c);
      var e := c.ReadLoop(w.recvs);
      if e.Failed? {
        c.state := StateError;
      } else if e.Ended? {
        c.state := StateClosed;
      }
      ButStays(c);
      if e.Answer? {
        SendResponse(c, w);
      } else {
        Close(c);
      }
    }

    // io_callback
    method IoCallback(c: Connection, readable: bool, writable: bool, w: World)
      requires Sound() && c in conns && Live(c)
      modifies this`numConns, this`registered, this`timers, this`conns, this`gone, repr`prev, repr`next, c
      ensures Sound()
      ensures var (s, sent) := AfterIo(old(c.View()), readable, writable, w);
        c.wire == old(c.wire) + sent && if s.Gone? then Left(c) else Stayed() && c.View() == s
      ensures var s := old(c.View());
        && (c !in conns <==> Closes(s, readable, writable, w))
        && c.wire == old(c.wire) + SentBytes(s, readable, writable, w)
        && (c in conns && c.state == StateIn <==>
              !Closes(s, readable, writable, w) && Taken(w.sends) >= |ToSend(s, readable, writable, w)|)
    {
      CallbackIs(c.View(), readable, writable, w);
      SoundBut(c);
      match c.state
      case StateIn =>
        if readable {
          ReadData(c, w);
        } else {
          Close(c);
        }
      case StateOut =>
        if writable {
          SendData(c, w.sends, w.canRead);
        } else {
          Close(c);
        }
      case _ =>
        // Between callbacks, no connection is in another state.
        assert false;
    }

    // The timer of c has run out: run_timers takes it out of its tree and calls timeout_callback.
    method TimeOut(c: Connection)
      requires Valid() && c in conns
      modifies this`numConns, this`registered, this`timers, this`conns, this`gone
      modifies repr`prev, repr`next, c`eventActive, c`timerActive
      ensures Valid() && Left(c)
    {
      SoundBut(c);
      CountDown(|conns|);
      assert Live(c);
      DelTimer(c);
      ButStays(c);
      Close(c);
    }

    // accept_connection, when accept has returned fd and the allocations after it have succeeded. `granted` says whether
    // epoll_ctl registers the connection.
    method Accept(fd: int, granted: bool) returns (c: Connection)
      requires Sound() && fd !in registered
      modifies this`numConns, this`registered, this`timers, this`conns, this`gone, this`repr, repr`prev, repr`next
      ensures Sound() && fresh(c) && c.fd == fd && c.wire == ""
      ensures fresh(repr - old(repr))
      ensures conns == if granted then old(conns) + [c] else old(conns)
      ensures gone == if granted then old(gone) else old(gone) + [c]
      ensures numConns == if granted then old(numConns) else Down(old(numConns))
      ensures granted ==> c.View() == In(false)
    {
      c := new Connection(fd);
      WithoutLast(conns, c);
      Enlist(c);
      assert conns == old(conns) + [c] && c in conns;
      BeginRead(c, granted);
    }

    // on_accept when accept_connection returns OK
    method Admit(fd: int, granted: bool) returns (c: Connection)
      requires Valid() && fd !in registered
      modifies this`numConns, this`registered, this`timers, this`conns, this`gone, this`repr, repr`prev, repr`next
      ensures Valid() && fresh(c) && c.fd == fd && c.wire == "" && fresh(repr - old(repr))
      ensures conns == if granted then old(conns) + [c] else old(conns)
      ensures gone == if granted then old(gone) else old(gone) + [c]
      ensures granted ==> c.View() == In(false)
    {
      CountUp(|conns|);
      c := Accept(fd, granted);
      assert |conns| == old(|conns|) + if granted then 1 else 0;
      numConns := Up(numConns);
    }

    // on_accept
    method OnAccept(readable: bool, accepted: bool, fd: int, granted: bool) returns (c: Connection?)
      requires Valid() && (accepted ==> fd !in registered)
      modifies this`numConns, this`registered, this`timers, this`conns, this`gone, this`repr, repr`prev, repr`next
      ensures Valid() && fresh(repr - old(repr))
      ensures (c != null) == (readable && accepted) && (c != null ==> fresh(c) && c.fd == fd && c.wire == "")
      ensures conns == (if c != null && granted then old(conns) + [c] else old(conns))
      ensures gone == (if c != null && !granted then old(gone) + [c] else old(gone))
      ensures c != null && granted ==> c.View() == In(false)
    {
      if readable && accepted {
        c := Admit(fd, granted);
      } else {
        c := null;
      }
    }

    // list_add_entry_tail
    method Enlist(c: Connection)
      requires Sound() && c.fd !in registered && c !in conns && c !in timers && c !in gone && !c.eventActive && !c.timerActive
      requires c.node !in repr && c.node.entry == c
      modifies this`conns, this`repr, repr`prev, repr`next, c.node`prev, c.node`next
      ensures But(c) && conns == old(conns) + [c] && repr == old(repr) + {c.node}
    {
      AddTail(head, c.node, Links());
      assert Links() + [c.node] == [head] + Nodes(conns + [c]);
      conns := conns + [c];
      repr := repr + {c.node};
      forall d | d in conns && d != c ensures Live(d) && d.fd != c.fd {
        assert old(Live(d));
      }
    }

    ghost function ConnsOf(batch: seq<Ready>): set<Connection>
    {
      set e | e in batch && e.Ready? :: e.conn
    }

    // What has become of the connection of an event whose callback has run
    twostate predicate Done(e: Ready)
      requires e.Ready?
      reads this`conns, this`gone, e.conn
    {
      old(Proper(e.conn.View())) &&
      var (s, sent) := AfterIo(old(e.conn.View()), e.readable, e.writable, e.world);
      && e.conn.wire == old(e.conn.wire) + sent
      && (if s.Gone? then e.conn in gone && e.conn !in conns else e.conn in conns && e.conn.View() == s)
    }

    twostate predicate AllDone(batch: seq<Ready>)
      reads this`conns, this`gone, ConnsOf(batch)
    {
      forall i {:trigger batch[i]} :: 0 <= i < |batch| && batch[i].Ready? ==> Done(batch[i])
    }

    // A callback of epoll, with the count of connections. It concerns no connection but its own.
    method Serve(e: Ready)
      requires e.Ready? && Valid() && e.conn in conns && Live(e.conn)
      modifies this`numConns, this`registered, this`timers, this`conns, this`gone, repr`prev, repr`next, e.conn
      ensures Valid() && Done(e)
      ensures forall d :: d in conns ==> d in old(conns)
      ensures forall d :: d in old(conns) && d != e.conn ==> d in conns
      ensures forall d :: d in old(gone) ==> d in gone
    {
      ListedDistinct();
      WithoutHas(conns, e.conn);
      CountDown(|conns|);
      IoCallback(e.conn, e.readable, e.writable, e.world);
    }

    // One pass of the loop of run_io. An accept that names a descriptor in use cannot happen, and counts as failed.
    method Dispatch(e: Ready)
      requires Valid() && (e.Ready? ==> e.conn in conns)
      modifies this`numConns, this`registered, this`timers, this`conns, this`gone, this`repr, repr`prev, repr`next
      modifies if e.Ready? then {e.conn} else {}
      ensures Valid() && (e.Ready? ==> Done(e)) && fresh(repr - old(repr))
      ensures forall d :: d in conns ==> d in old(conns) || fresh(d)
      ensures forall d :: d in old(conns) && (e.Ready? ==> d != e.conn) ==> d in conns
      ensures forall d :: d in old(gone) ==> d in gone
    {
      if e.Ready? {
        assert Live(e.conn);
        Serve(e);
      } else {
        var c := OnAccept(e.readable, e.accepted && e.fd !in registered, e.fd, e.granted);
      }
    }

    // The connections of the events are in the list, each with one event.
    ghost predicate Batch(batch: seq<Ready>)
      reads this`conns
    {
      && (forall i :: 0 <= i < |batch| && batch[i].Ready? ==> batch[i].conn in conns)
      && (forall i, j :: 0 <= i < j < |batch| && batch[i].Ready? && batch[j].Ready? ==> batch[i].conn != batch[j].conn)
    }

    // An event whose callback has not run yet
    twostate predicate Waits(e: Ready)
      requires e.Ready?
      reads this`conns, e.conn
    {
      e.conn in conns && unchanged(e.conn)
    }

    // Before number i of a batch, its callbacks have run; from there on, the connections are as they were.
    twostate predicate Half(batch: seq<Ready>, i: nat)
      reads this`conns, this`gone, ConnsOf(batch)
    {
      && (forall j {:trigger batch[j]} :: i <= j < |batch| && batch[j].Ready? ==> Waits(batch[j]))
      && (forall j {:trigger batch[j]} :: 0 <= j < i <= |batch| && batch[j].Ready? ==> Done(batch[j]))
    }

    // Every connection in the list was there before, or is new.
    twostate predicate OldOrNew()
      reads this`conns
    {
      forall c :: c in conns ==> c in old(conns) || fresh(c)
    }

    // The loop of run_io: the callbacks of a batch of events do not get in each other's way, and none of them meets a
    // connection that has been freed before.
    method RunIo(batch: seq<Ready>)
      requires Valid() && Batch(batch)
      modifies this`numConns, this`registered, this`timers, this`conns, this`gone, this`repr, repr`prev, repr`next
      modifies ConnsOf(batch)
      ensures Valid() && AllDone(batch) && OldOrNew() && fresh(repr - old(repr))
      ensures forall c :: c in old(conns) && c !in ConnsOf(batch) ==> c in conns
    {
      ghost var named := ConnsOf(batch);
      Named(batch);
      var i := 0;
      while i < |batch|
        invariant 0 <= i <= |batch| && Valid() && OldOrNew() && fresh(repr - old(repr))
        invariant Half(batch, i)
        invariant forall c :: c in old(conns) && c !in named ==> c in conns
      {
        assert batch[i].Ready? ==> Waits(batch[i]);
        Dispatch(batch[i]);
        forall j | 0 <= j < |batch| && j != i && batch[j].Ready? ensures if j < i then Done(batch[j]) else Waits(batch[j]) {
          assert batch[i].Ready? ==> batch[j].conn != batch[i].conn;
        }
        i := i + 1;
      }
    }

    lemma Named(batch: seq<Ready>)
      ensures forall i {:trigger batch[i]} :: 0 <= i < |batch| && batch[i].Ready? ==> batch[i].conn in ConnsOf(batch)
    {
      forall i | 0 <= i < |batch| && batch[i].Ready? ensures batch[i].conn in ConnsOf(batch) {
        assert batch[i] in batch;
      }
    }

    // The link to go on with in a walk through the list
    ghost predicate Reached(iter: Link<Connection?>, next: Link<Connection?>)
      reads this`conns, iter`next
    {
      iter == Links()[Lists.After(0, |Links()|)] && iter.next == next
    }

    // One pass of the sweep. The link after the closed connection is known beforehand.
    method CloseFirst(iter: Link<Connection?>, next: Link<Connection?>) returns (p: Link<Connection?>, n: Link<Connection?>)
      requires Valid() && conns != [] && Reached(iter, next)
      modifies this`numConns, this`registered, this`timers, this`conns, this`gone, repr`prev, repr`next
      modifies conns`eventActive, conns`timerActive
      ensures Valid() && conns == old(conns)[1..] && gone == old(gone) + [old(conns)[0]] && Reached(p, n)
    {
      NextLink(1);
      var c := iter.entry;
      ListedDistinct();
      SoundBut(c);
      CountDown(|conns|);
      assert Index(conns, c) == 0;
      Close(c);
      p := next;
      NextLink(Lists.After(0, |Links()|));
      n := p.next;
    }

    // The sweep of destroy_worker: every connection is closed, once and in the order of the list.
    method Destroy()
      requires Valid()
      modifies this`numConns, this`registered, this`timers, this`conns, this`gone, repr`prev, repr`next, conns
      ensures Valid() && conns == [] && gone == old(gone) + old(conns) && numConns == 0 && registered == map[] && timers == {}
    {
      ghost var k := 0;
      NextLink(0);
      var iter: Link<Connection?> := head.next;
      NextLink(Lists.After(0, |Links()|));
      var next: Link<Connection?> := iter.next;
      while iter != head
        invariant Valid() && k <= |old(conns)| && Reached(iter, next)
        invariant conns == old(conns)[k..] && gone == old(gone) + old(conns)[..k]
        decreases |conns|
      {
        iter, next := CloseFirst(iter, next);
        k := k + 1;
      }
      NoneLeft();
    }

    lemma NextLink(i: nat)
      requires Listed() && i < |Links()|
      ensures Links()[i].next == Links()[Lists.After(i, |Links()|)]
    {
      assert JoinedAt(Links(), i);
    }

    lemma NoneLeft()
      requires Valid() && Links() == [head]
      ensures conns == [] && registered == map[] && timers == {} && numConns == 0
    {
      assert forall f :: f !in registered;
      assert forall c :: c !in timers;
    }

    lemma ListedDistinct()
      requires Listed()
      ensures Distinct(conns)
    {
      forall i, j | 0 <= i < j < |conns| ensures conns[i] != conns[j] {
        assert Links()[i + 1] != Links()[j + 1];
      }
    }
  }

  // What has gone out is the whole rest of the buffer exactly if as much has been taken.
  lemma SentWhole(wire: string, buffer: string, done: nat, sends: seq<Send>)
    requires done < |buffer|
    ensures var rest := buffer[done..];
      var sent := if Taken(sends) < |rest| then rest[..Taken(sends)] else rest;
      wire + sent == wire + rest <==> Taken(sends) >= |rest|
  {
    var rest := buffer[done..];
    if Taken(sends) < |rest| {
      assert |wire + rest[..Taken(sends)]| < |wire + rest|;
    }
  }

  lemma LinksDrop(head: Link<Connection?>, cs: seq<Connection>, i: nat)
    requires i < |cs|
    ensures Drop([head] + Nodes(cs), i + 1) == [head] + Nodes(Drop(cs, i))
  {
    assert Nodes(Drop(cs, i)) == Drop(Nodes(cs), i);
  }

  lemma WithoutHas(cs: seq<Connection>, c: Connection)
    requires Distinct(cs) && c in cs
    ensures forall d :: d in Without(cs, c) <==> d in cs && d != c
  {
    var i := Index(cs, c);
    forall d | d in cs && d != c ensures d in Without(cs, c) {
      var j := Index(cs, d);
      assert d == Drop(cs, i)[if j < i then j else j - 1];
    }
    DropDistinct(cs, i);
  }

  lemma WithoutLast(cs: seq<Connection>, c: Connection)
    requires c !in cs
    ensures Without(cs + [c], c) == cs
  {
    assert Index(cs + [c], c) == |cs|;
  }

  lemma CountUp(n: nat)
    ensures Up(Wrapped(n)) == Wrapped(n + 1) && Up(Down(Wrapped(n))) == Wrapped(n)
  {
  }

  lemma CountDown(n: nat)
    requires n > 0
    ensures Down(Wrapped(n)) == Wrapped(n - 1)
  {
  }
}
