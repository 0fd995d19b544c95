/** One connection of connection.c with its buffer, and the loops that receive and send. */
module Connections {
  import opened Http
  import opened Chunks
  import opened Lists
  import opened Lifecycle
  import opened Storage

  datatype ConnState = StateIn | StateOut | StateClosed | StateError

  // EPOLLIN or EPOLLOUT
  datatype Interest = PollIn | PollOut

  class Connection {
    const node: Link<Connection?>
    const fd: int
    var state: ConnState
    var interest: Interest
    var eventActive: bool
    var timerActive: bool
    // CONNECTION_FLAG_KEEPALIVE
    var keepAlive: bool
    var buffer: string
    var writeBytes: nat
    var req: Req
    // All bytes that send has taken
    ghost var wire: string

    constructor (fd: int)
      ensures fresh(node) && node.entry == this && this.fd == fd
      ensures !eventActive && !timerActive && !keepAlive && wire == ""
    {
      node := new Link<Connection?>();
      this.fd := fd;
      state, interest, eventActive, timerActive, keepAlive := StateIn, PollIn, false, false, false;
      buffer, writeBytes, req, wire := "", 0, BLANK, "";
      new;
      node.entry := this;
    }

    // What the connection is between callbacks
    function View(): Conn
      reads this
    {
      match state
      case StateIn => In(keepAlive)
      case StateOut => Out(keepAlive, buffer, writeBytes)
      case _ => Gone
    }

    // The loop of send_data
    method SendLoop(sends: seq<Send>) returns (e: Sending)
      requires writeBytes < |buffer|
      modifies `writeBytes, `wire
      ensures (writeBytes, e) == SendAll(buffer, old(writeBytes), sends)
      ensures old(writeBytes) <= writeBytes <= |buffer| && wire == old(wire) + buffer[old(writeBytes)..writeBytes]
    {
      ghost var start, gone := writeBytes, wire;
      var i := 0;
      while true
        invariant i <= |sends| && start <= writeBytes < |buffer|
        invariant SendAll(buffer, start, sends) == SendAll(buffer, writeBytes, sends[i..])
        invariant wire == gone + buffer[start..writeBytes]
        decreases |sends| - i
      {
        SendFrom(buffer, writeBytes, sends, i);
        var rem := |buffer| - writeBytes;
        var len := if rem < WRITE_CHUNK then rem else WRITE_CHUNK;
        if i == |sends| || sends[i].SendAgain? {
          return Blocked;
        } else if sends[i].SendFailed? {
          return Broken;
        } else {
          var sent := Min(sends[i].n, len);
          Sent(gone, buffer, start, writeBytes, writeBytes + sent);
          wire := wire + buffer[writeBytes..writeBytes + sent];
          writeBytes := writeBytes + sent;
          if writeBytes == |buffer| {
            return Complete;
          }
        }
        i := i + 1;
      }
    }

    // The loop of read_data, up to the call of the route callback
    method ReadLoop(recvs: seq<Recv>) returns (e: Reading)
      modifies `buffer, `req, `keepAlive
      ensures e == Read(old(req), old(buffer), recvs)
      ensures e.Answer? ==> req == e.req && buffer == e.data && keepAlive == req.keepAlive
    {
      var i := 0;
      while true
        invariant i <= |recvs| && Read(old(req), old(buffer), recvs) == Read(req, buffer, recvs[i..])
        decreases |recvs| - i
      {
        if i == |recvs| || recvs[i].RecvEnd? {
          return Ended;
        } else if recvs[i].RecvFailed? {
          return Failed;
        } else if recvs[i].RecvAgain? {
          var (v, r) := ParseAll(req, buffer);
          req := r;
          keepAlive := r.keepAlive;
          if v == ReqOk {
            return Answer(req, buffer);
          } else if v == ReqErr {
            return Refused;
          }
        } else {
          buffer := buffer + recvs[i].bytes;
        }
        i := i + 1;
      }
    }
  }

  lemma Sent(gone: string, s: string, i: nat, j: nat, k: nat)
    requires i <= j <= k <= |s|
    ensures (gone + s[i..j]) + s[j..k] == gone + s[i..k]
  {
    assert s[i..j] + s[j..k] == s[i..k];
  }

  // One pass of the loop of send_data
  lemma SendFrom(buffer: string, done: nat, sends: seq<Send>, i: nat)
    requires done < |buffer| && i <= |sends|
    ensures SendAll(buffer, done, sends[i..]) ==
      if i == |sends| || sends[i].SendAgain? then (done, Blocked)
      else if sends[i].SendFailed? then (done, Broken)
      else
        var next := done + Min(sends[i].n, Min(|buffer| - done, WRITE_CHUNK));
        if next == |buffer| then (next, Complete) else SendAll(buffer, next, sends[i + 1..])
  {
    if i < |sends| {
      assert sends[i..][0] == sends[i] && sends[i..][1..] == sends[i + 1..];
    }
  }
}
