/** The connection registry and the event loop of `server_program`: the
    `inputs` list (the listening socket and every open connection), the
    `outputs` list (connections with write interest) and `message_queues`
    (one FIFO queue of replies per connection), updated in place by the
    handlers for accept, data, end of stream, writability and exceptional
    conditions. Sockets are abstract ids; what `select`, `accept` and `recv`
    return is passed in. */
module Registry {
  import Response
  import Shutdown

  /** A socket, by identity. */
  type SocketId = nat

  /** A reply waiting in a connection's queue. */
  type Message = string

  datatype Option<T> = None | Some(value: T)

  /** No element of `xs` occurs twice. */
  predicate Distinct<T(==)>(xs: seq<T>)
  {
    forall i, j :: 0 <= i < j < |xs| ==> xs[i] != xs[j]
  }

  /** A list has no repeats exactly when its head is not in its tail and
      its tail has no repeats. */
  lemma DistinctCons<T>(a: T, rest: seq<T>)
    ensures Distinct([a] + rest) <==> a !in rest && Distinct(rest)
  {
    var xs := [a] + rest;
    assert xs[1..] == rest;
    if a !in rest && Distinct(rest) {
      forall i, j | 0 <= i < j < |xs| ensures xs[i] != xs[j] {
        if i > 0 {
          assert xs[i] == rest[i - 1] && xs[j] == rest[j - 1];
        } else {
          assert xs[j] == rest[j - 1];
        }
      }
    }
    if Distinct(xs) {
      forall i, j | 0 <= i < j < |rest| ensures rest[i] != rest[j] {
        assert rest[i] == xs[i + 1] && rest[j] == xs[j + 1];
      }
      forall k | 0 <= k < |rest| ensures rest[k] != a {
        assert rest[k] == xs[k + 1] && a == xs[0];
        assert xs[0] != xs[k + 1];
      }
    }
  }

  /** `xs.index(x)`: the position of the first occurrence of `x`. */
  function IndexOf<T(==)>(xs: seq<T>, x: T): (i: nat)
    requires x in xs
    ensures i < |xs| && xs[i] == x && x !in xs[..i]
    decreases |xs|
  {
    if xs[0] == x then 0
    else
      var k := IndexOf(xs[1..], x);
      assert xs[..k + 1] == [xs[0]] + xs[1..][..k];
      k + 1
  }

  /** `xs.remove(x)`: drops the first occurrence of `x`. A list without `x`
      is returned unchanged (Python raises `ValueError` there; no call site
      reaches that case). On a list without repeats, exactly `x` goes. */
  function RemoveFirst<T(==)>(xs: seq<T>, x: T): (r: seq<T>)
    ensures x !in xs ==> r == xs
    ensures x in xs ==> |r| == |xs| - 1
    ensures forall y :: y in r ==> y in xs
    ensures Distinct(xs) ==> Distinct(r) && x !in r && forall y :: y in xs && y != x ==> y in r
    decreases |xs|
  {
    if xs == [] then []
    else if xs[0] == x then
      DistinctCons(xs[0], xs[1..]);
      assert xs == [xs[0]] + xs[1..];
      xs[1..]
    else
      var rest := RemoveFirst(xs[1..], x);
      assert forall y :: y in xs && y != xs[0] ==> y in xs[1..];
      assert xs == [xs[0]] + xs[1..];
      DistinctCons(xs[0], xs[1..]);
      DistinctCons(xs[0], rest);
      [xs[0]] + rest
  }

  /** `RemoveFirst` keeps the order of what it leaves: the result is the list
      with its first occurrence of `x` cut out. */
  lemma {:induction false} RemoveFirstCuts<T>(xs: seq<T>, x: T)
    requires x in xs
    ensures RemoveFirst(xs, x) == xs[..IndexOf(xs, x)] + xs[IndexOf(xs, x) + 1..]
    decreases |xs|
  {
    if xs[0] != x {
      var tail := xs[1..];
      assert x in tail;
      RemoveFirstCuts(tail, x);
      var k := IndexOf(tail, x);
      calc {
        RemoveFirst(xs, x);
        [xs[0]] + RemoveFirst(tail, x);
        [xs[0]] + (tail[..k] + tail[k + 1..]);
        { assert xs[..k + 1] == [xs[0]] + tail[..k]; assert xs[k + 2..] == tail[k + 1..]; }
        xs[..k + 1] + xs[k + 2..];
      }
    }
  }

  /** The sockets of `xs` that are in `ready`, in the order of `xs`: what
      `select` reports out of the list it was given. */
  function Ready(xs: seq<SocketId>, ready: set<SocketId>): (r: seq<SocketId>)
    ensures forall y :: y in r <==> y in xs && y in ready
    ensures Distinct(xs) ==> Distinct(r)
    decreases |xs|
  {
    if xs == [] then []
    else
      var rest := Ready(xs[1..], ready);
      assert forall y :: y in xs <==> y == xs[0] || y in xs[1..];
      if xs[0] in ready then [xs[0]] + rest else rest
  }

  /** `done` holds exactly the first `i` of the sockets `xs`, which repeat
      none: the sockets a phase has handled so far. */
  ghost predicate Handled(xs: seq<SocketId>, i: int, done: set<SocketId>)
  {
    && 0 <= i <= |xs| && Distinct(xs)
    && (forall j :: 0 <= j < i ==> xs[j] in done)
    && (forall t :: t in done ==> t in xs)
    && (forall j :: i <= j < |xs| ==> xs[j] !in done)
  }

  /** Handling one more socket keeps `Handled`. */
  lemma HandledStep(xs: seq<SocketId>, i: int, done: set<SocketId>)
    requires Handled(xs, i, done) && i < |xs|
    ensures Handled(xs, i + 1, done + {xs[i]})
  {
    assert forall j :: i < j < |xs| ==> xs[j] != xs[i];
  }

  /** A reply as it goes out: the connection, the text sent, and whether
      the writer stalled before sending it. */
  type Delivery = (SocketId, Message, bool)

  /** What writable socket `t` sends, given the queues `q`: the front reply
      of a non-empty queue with the writer's stall test, and nothing for a
      socket without a queue or with an empty one. */
  function ReplyOf(t: SocketId, q: map<SocketId, seq<Message>>): seq<Delivery>
  {
    if t in q && q[t] != [] then [(t, q[t][0], Response.Stalls(q[t][0]))] else []
  }

  /** What the writable sockets `xs` send, in order, given the queues `q`
      before the first of them. */
  function Replies(xs: seq<SocketId>, q: map<SocketId, seq<Message>>): seq<Delivery>
    decreases |xs|
  {
    if xs == [] then [] else Replies(xs[..|xs| - 1], q) + ReplyOf(xs[|xs| - 1], q)
  }

  /** No two replies go to the same connection. */
  predicate OnePerSocket(r: seq<Delivery>)
  {
    forall i, j :: 0 <= i < j < |r| ==> r[i].0 != r[j].0
  }

  /** The writable sockets send exactly the fronts of their non-empty queues:
      every reply is such a front, carrying the writer's stall flag, and
      every such front is sent. */
  lemma {:induction false} RepliesFronts(xs: seq<SocketId>, q: map<SocketId, seq<Message>>)
    ensures |Replies(xs, q)| <= |xs|
    ensures forall p :: p in Replies(xs, q) ==>
      p.0 in xs && p.0 in q && q[p.0] != [] && p.1 == q[p.0][0] && p.2 == Response.Stalls(p.1)
    ensures forall t :: t in xs && t in q && q[t] != [] ==> (t, q[t][0], Response.Stalls(q[t][0])) in Replies(xs, q)
    decreases |xs|
  {
    if xs != [] {
      var front, t := xs[..|xs| - 1], xs[|xs| - 1];
      RepliesFronts(front, q);
      assert xs == front + [t];
      assert forall u :: u in xs <==> u in front || u == t;
    }
  }

  /** Writable sockets that do not repeat send at most one reply each. */
  lemma {:induction false} RepliesOnePerSocket(xs: seq<SocketId>, q: map<SocketId, seq<Message>>)
    requires Distinct(xs)
    ensures OnePerSocket(Replies(xs, q))
    decreases |xs|
  {
    if xs != [] {
      var front, t := xs[..|xs| - 1], xs[|xs| - 1];
      assert t !in front by {
        forall k | 0 <= k < |front| ensures front[k] != t {
          assert front[k] == xs[k];
        }
      }
      assert Distinct(front) by {
        forall i, j | 0 <= i < j < |front| ensures front[i] != front[j] {
          assert front[i] == xs[i] && front[j] == xs[j];
        }
      }
      RepliesOnePerSocket(front, q);
      RepliesFronts(front, q);
      var r := Replies(xs, q);
      var rf := Replies(front, q);
      assert r == rf + ReplyOf(t, q);
      forall i, j | 0 <= i < j < |r| ensures r[i].0 != r[j].0 {
        if j >= |rf| {
          assert r[j].0 == t && r[i] == rf[i] && rf[i] in rf;
        } else {
          assert r[i] == rf[i] && r[j] == rf[j];
        }
      }
    }
  }

  /** What one call of `select` and the I/O calls of one iteration return:
      the sockets ready for reading, writing and with an exceptional
      condition, the connection `accept` returns, what `recv` returns for
      each socket, the formatted clock reading, and the signal and timer
      events that happen while the iteration runs. */
  datatype Round = Round(
    readReady: set<SocketId>,
    writeReady: set<SocketId>,
    errorReady: set<SocketId>,
    accepted: SocketId,
    recv: SocketId -> string,
    date: string,
    events: seq<Shutdown.Event>)

  /** All signal and timer events of `rounds`, in order. */
  function Events(rounds: seq<Round>): seq<Shutdown.Event>
  {
    if rounds == [] then []
    else Events(rounds[..|rounds| - 1]) + rounds[|rounds| - 1].events
  }

  /** Connection `t` is closed in round `r`: it has an exceptional
      condition, or it is readable and `recv` returned nothing. */
  predicate Closes(r: Round, t: SocketId)
  {
    t in r.errorReady || (t in r.readReady && r.recv(t) == [])
  }

  /** The reply the read phase of round `r` queues for connection `t`: one
      when it is readable and `recv` returned data, none otherwise. */
  function Incoming(r: Round, t: SocketId): seq<Message>
  {
    if t in r.readReady && r.recv(t) != [] then [Response.MakeResponse(r.recv(t), r.date)] else []
  }

  /** Connection `t`'s queue in `q` once the read phase of round `r` ran. */
  function AfterRead(q: map<SocketId, seq<Message>>, r: Round, t: SocketId): seq<Message>
    requires t in q
  {
    q[t] + Incoming(r, t)
  }

  /** The replies of writable sockets `xs` whose queues went from `q0` to
      `q1` in the read phase of round `r`: each is the front of the queue
      after reading, for a connection the read phase did not close, and
      every such front is sent. */
  lemma RepliesAfterRead(xs: seq<SocketId>, q0: map<SocketId, seq<Message>>, q1: map<SocketId, seq<Message>>, r: Round)
    requires forall t :: t in xs ==> t in q0
    requires forall t :: t in xs && !(t in r.readReady && r.recv(t) == []) ==> t in q1 && q1[t] == AfterRead(q0, r, t)
    requires forall t :: t in xs && t in r.readReady && r.recv(t) == [] ==> t !in q1
    ensures forall p :: p in Replies(xs, q1) ==>
      && p.0 in xs && !(p.0 in r.readReady && r.recv(p.0) == [])
      && AfterRead(q0, r, p.0) != [] && p.1 == AfterRead(q0, r, p.0)[0] && p.2 == Response.Stalls(p.1)
    ensures forall t :: t in xs && !(t in r.readReady && r.recv(t) == []) && AfterRead(q0, r, t) != [] ==>
      (t, AfterRead(q0, r, t)[0], Response.Stalls(AfterRead(q0, r, t)[0])) in Replies(xs, q1)
  {
    RepliesFronts(xs, q1);
  }

  /** The registry of the event loop. `seen` records every socket ever
      registered, so that a connection `accept` returns is a new one. */
  class Server {
    const server: SocketId
    var inputs: seq<SocketId>
    var outputs: seq<SocketId>
    var queues: map<SocketId, seq<Message>>
    ghost var seen: set<SocketId>

    /** The bookkeeping invariant: the listening socket is in `inputs`;
        neither list repeats a socket; write interest only for open
        connections; a queue for exactly the open connections; every
        connection with a queued reply has write interest. */
    ghost predicate Valid()
      reads this
    {
      && server in inputs
      && Distinct(inputs)
      && Distinct(outputs)
      && (forall s :: s in outputs ==> s in inputs && s != server)
      && (forall s :: s in queues <==> s in inputs && s != server)
      && (forall s :: s in queues && queues[s] != [] ==> s in outputs)
      && (forall s :: s in inputs ==> s in seen)
    }

    /** `inputs = [server]`, `outputs = []`, `message_queues = {}`. */
    constructor (listener: SocketId)
      ensures Valid()
      ensures server == listener && inputs == [listener] && outputs == [] && queues == map[]
      ensures seen == {listener}
    {
      server := listener;
      inputs := [listener];
      outputs := [];
      queues := map[];
      seen := {listener};
    }

    /** The listening socket is readable: register the new connection `c`
        with an empty queue and no write interest. */
    method Accept(c: SocketId)
      requires Valid() && c !in seen
      modifies this
      ensures Valid() && seen == old(seen) + {c}
      ensures inputs == old(inputs) + [c]
      ensures outputs == old(outputs)
      ensures queues == old(queues)[c := []]
    {
      inputs := inputs + [c];
      queues := queues[c := []];
      seen := seen + {c};
    }

    /** Closes connection `s`: it leaves `inputs`, `outputs` (if there) and
        `message_queues`; every other connection keeps its queue and its
        write interest. Both the end-of-stream and the exceptional path. */
    method Close(s: SocketId)
      requires Valid() && s in inputs && s != server
      modifies this
      ensures Valid() && seen == old(seen)
      ensures inputs == RemoveFirst(old(inputs), s) && s !in inputs
      ensures outputs == RemoveFirst(old(outputs), s) && s !in outputs
      ensures queues == old(queues) - {s}
      ensures forall t :: t != s ==> (t in inputs <==> t in old(inputs)) && (t in outputs <==> t in old(outputs))
    {
      if s in outputs {
        outputs := RemoveFirst(outputs, s);
      }
      inputs := RemoveFirst(inputs, s);
      queues := queues - {s};
    }

    /** Connection `s` is readable and `recv` returned `data`. Data: one reply
        joins the back of its queue and it gets write interest (once). No
        data: the peer closed, so the connection is closed. */
    method Receive(s: SocketId, data: string, date: string)
      requires Valid() && s in inputs && s != server
      modifies this
      ensures Valid() && seen == old(seen)
      ensures |data| > 0 ==>
        && inputs == old(inputs)
        && queues == old(queues)[s := old(queues)[s] + [Response.MakeResponse(data, date)]]
        && outputs == (if s in old(outputs) then old(outputs) else old(outputs) + [s])
      ensures |data| == 0 ==>
        && inputs == RemoveFirst(old(inputs), s)
        && outputs == RemoveFirst(old(outputs), s)
        && queues == old(queues) - {s}
      ensures |data| == 0 ==> s !in inputs && s !in outputs && s !in queues
      ensures |data| > 0 ==> s in outputs
      ensures forall t :: t != s ==> (t in inputs <==> t in old(inputs)) && (t in outputs <==> t in old(outputs))
    {
      if |data| > 0 {
        queues := queues[s := queues[s] + [Response.MakeResponse(data, date)]];
        if s !in outputs {
          outputs := outputs + [s];
        }
      } else {
        Close(s);
      }
    }

    /** Socket `s` is writable. An empty queue loses its write interest; a
        non-empty one gives up its front reply, which is sent (after the
        in-flight stall when the writer's test says so); a socket without a
        queue (closed earlier in this iteration) is skipped. */
    method Writable(s: SocketId) returns (sent: Option<Message>, stalled: bool)
      requires Valid()
      requires s in queues ==> s in outputs
      modifies this
      ensures Valid() && seen == old(seen) && inputs == old(inputs)
      ensures s !in old(queues) ==>
        sent == None && !stalled && outputs == old(outputs) && queues == old(queues)
      ensures s in old(queues) && old(queues)[s] == [] ==>
        sent == None && !stalled && outputs == RemoveFirst(old(outputs), s) && queues == old(queues)
      ensures s in old(queues) && old(queues)[s] != [] ==>
        && sent == Some(old(queues)[s][0])
        && stalled == Response.Stalls(old(queues)[s][0])
        && queues == old(queues)[s := old(queues)[s][1..]]
        && outputs == old(outputs)
    {
      sent, stalled := None, false;
      if s !in queues {
        // the KeyError path: `outputs.remove(s)` fails too, and is swallowed
        return;
      }
      if queues[s] == [] {
        outputs := RemoveFirst(outputs, s);
      } else {
        var msg := queues[s][0];
        queues := queues[s := queues[s][1..]];
        stalled := Response.Stalls(msg);
        sent := Some(msg);
      }
    }

    /** The readable sockets of one iteration, in order: the listening socket
        accepts `accepted`, every other socket gets what `recv` returned. */
    method ReadPhase(readable: seq<SocketId>, accepted: SocketId, recv: SocketId -> string, date: string)
      requires Valid() && Distinct(readable) && accepted !in seen
      requires forall t :: t in readable ==> t in inputs
      modifies this
      ensures Valid() && seen == old(seen) + (if server in readable then {accepted} else {})
      ensures server in readable ==> accepted in inputs && accepted in queues && queues[accepted] == []
      ensures forall t :: t in inputs ==> t in old(inputs) || (server in readable && t == accepted)
      ensures forall t :: t in old(inputs) && t !in inputs ==> t in readable && recv(t) == []
      ensures forall t :: t in old(outputs) && t in queues ==> t in outputs
      ensures forall t :: t !in readable ==> (t in outputs <==> t in old(outputs))
      ensures server in readable ==> accepted !in outputs
      ensures forall t :: t in readable && t != server && recv(t) == [] ==>
        t !in inputs && t !in outputs && t !in queues
      ensures forall t :: t in readable && t != server && recv(t) != [] ==>
        t in queues && queues[t] == old(queues)[t] + [Response.MakeResponse(recv(t), date)] && t in outputs
      ensures forall t :: t in old(queues) && t !in readable ==> t in queues && queues[t] == old(queues)[t]
    {
      ghost var done: set<SocketId> := {};
      ghost var in0, out0, q0, seen0 := inputs, outputs, queues, seen;
      for i := 0 to |readable|
        invariant ReadProgress(done, accepted, recv, date, in0, out0, q0, seen0)
        invariant Handled(readable, i, done)
        invariant forall t :: t in readable ==> t in in0
        invariant forall j :: i <= j < |readable| ==> readable[j] in inputs
      {
        ReadOne(readable, i, accepted, recv, date, done, in0, out0, q0, seen0);
        HandledStep(readable, i, done);
        done := done + {readable[i]};
      }
      assert forall t :: t in readable <==> t in done;
    }

    /** What handling the readable sockets `done` has achieved, measured
        against the registry `in0`, `out0`, `q0`, `seen0` before the first. */
    ghost predicate ReadProgress(done: set<SocketId>, accepted: SocketId, recv: SocketId -> string, date: string,
                                 in0: seq<SocketId>, out0: seq<SocketId>, q0: map<SocketId, seq<Message>>,
                                 seen0: set<SocketId>)
      reads this
    {
      && (forall t :: t in out0 ==> t in in0)
      && (forall t :: t in q0 <==> t in in0 && t != server)
      && (forall t :: t in in0 ==> t in seen0)
      && (forall t :: t in done ==> t in in0)
      && accepted !in seen0
      && Valid() && seen == seen0 + (if server in done then {accepted} else {})
      && (server in done ==> accepted in inputs && accepted in queues && queues[accepted] == [])
      && (forall t :: t in inputs ==> t in in0 || (server in done && t == accepted))
      && (forall t :: t in in0 && t !in inputs ==> t in done && recv(t) == [])
      && (forall t :: t in out0 && t in queues ==> t in outputs)
      && (forall t :: t !in done ==> (t in outputs <==> t in out0))
      && (server in done ==> accepted !in outputs)
      && (forall t :: t in done && t != server && recv(t) == [] ==> t !in inputs && t !in outputs && t !in queues)
      && (forall t :: t in done && t != server && recv(t) != [] ==>
            t in queues && t in q0 && queues[t] == q0[t] + [Response.MakeResponse(recv(t), date)] && t in outputs)
      && (forall t :: t in q0 && t !in done ==> t in queues && queues[t] == q0[t])
    }

    /** Handles the readable socket `readable[i]` of `ReadPhase`: the
        listening socket accepts, a connection receives. The sockets still
        to handle stay open. */
    method ReadOne(readable: seq<SocketId>, i: nat, accepted: SocketId, recv: SocketId -> string, date: string,
                   ghost done: set<SocketId>, ghost in0: seq<SocketId>, ghost out0: seq<SocketId>,
                   ghost q0: map<SocketId, seq<Message>>, ghost seen0: set<SocketId>)
      requires ReadProgress(done, accepted, recv, date, in0, out0, q0, seen0)
      requires Handled(readable, i, done) && i < |readable|
      requires forall t :: t in readable ==> t in in0
      requires forall j :: i <= j < |readable| ==> readable[j] in inputs
      modifies this
      ensures ReadProgress(done + {readable[i]}, accepted, recv, date, in0, out0, q0, seen0)
      ensures forall j :: i + 1 <= j < |readable| ==> readable[j] in inputs
    {
      var s := readable[i];
      assert forall j :: i < j < |readable| ==> readable[j] != s;
      if s == server {
        AcceptOne(accepted, recv, date, done, in0, out0, q0, seen0);
      } else {
        ReceiveOne(s, accepted, recv, date, done, in0, out0, q0, seen0);
      }
    }

    /** `ReadOne` for the listening socket. */
    method AcceptOne(accepted: SocketId, recv: SocketId -> string, date: string,
                     ghost done: set<SocketId>, ghost in0: seq<SocketId>, ghost out0: seq<SocketId>,
                     ghost q0: map<SocketId, seq<Message>>, ghost seen0: set<SocketId>)
      requires ReadProgress(done, accepted, recv, date, in0, out0, q0, seen0)
      requires server !in done
      modifies this
      ensures ReadProgress(done + {server}, accepted, recv, date, in0, out0, q0, seen0)
      ensures forall t :: t in old(inputs) ==> t in inputs
    {
      Accept(accepted);
    }

    /** `ReadOne` for a connection. */
    method ReceiveOne(s: SocketId, accepted: SocketId, recv: SocketId -> string, date: string,
                      ghost done: set<SocketId>, ghost in0: seq<SocketId>, ghost out0: seq<SocketId>,
                      ghost q0: map<SocketId, seq<Message>>, ghost seen0: set<SocketId>)
      requires ReadProgress(done, accepted, recv, date, in0, out0, q0, seen0)
      requires s in inputs && s in in0 && s != server && s !in done
      modifies this
      ensures ReadProgress(done + {s}, accepted, recv, date, in0, out0, q0, seen0)
      ensures forall t :: t != s && t in old(inputs) ==> t in inputs
    {
      Receive(s, recv(s), date);
    }

    /** The writable sockets of one iteration, in order, each handled by
        `Writable`; returns the replies sent, with their stall flags. */
    method WritePhase(writable: seq<SocketId>) returns (replies: seq<Delivery>)
      requires Valid() && Distinct(writable)
      requires forall t :: t in writable && t in queues ==> t in outputs
      modifies this
      ensures Valid() && seen == old(seen) && inputs == old(inputs)
      ensures forall t :: t in writable && t in queues && old(queues)[t] == [] ==> t !in outputs && queues[t] == []
      ensures forall t :: t in writable && t in queues && old(queues)[t] != [] ==>
        queues[t] == old(queues)[t][1..] && t in outputs && (t, old(queues)[t][0], Response.Stalls(old(queues)[t][0])) in replies
      ensures forall t :: t in queues && t !in writable ==> queues[t] == old(queues)[t] && (t in outputs <==> t in old(outputs))
      ensures replies == Replies(writable, old(queues))
      ensures |replies| <= |writable| && OnePerSocket(replies)
      ensures forall p :: p in replies ==>
        p.0 in writable && p.0 in old(queues) && old(queues)[p.0] != [] &&
        p.1 == old(queues)[p.0][0] && p.2 == Response.Stalls(p.1)
    {
      replies := [];
      ghost var done: set<SocketId> := {};
      ghost var in0, out0, q0, seen0 := inputs, outputs, queues, seen;
      for i := 0 to |writable|
        invariant WriteProgress(done, in0, out0, q0, seen0)
        invariant Handled(writable, i, done)
        invariant forall t :: t in writable && t in q0 ==> t in out0
        invariant replies == Replies(writable[..i], q0)
      {
        replies := WriteOne(writable[i], replies, done, in0, out0, q0, seen0);
        assert writable[..i + 1][..i] == writable[..i];
        HandledStep(writable, i, done);
        done := done + {writable[i]};
      }
      assert forall t :: t in writable <==> t in done;
      assert writable[..|writable|] == writable;
      RepliesFronts(writable, q0);
      RepliesOnePerSocket(writable, q0);
    }

    /** What handling the writable sockets `done` has achieved, measured
        against the registry `in0`, `out0`, `q0`, `seen0` before the first. */
    ghost predicate WriteProgress(done: set<SocketId>,
                                  in0: seq<SocketId>, out0: seq<SocketId>, q0: map<SocketId, seq<Message>>,
                                  seen0: set<SocketId>)
      reads this
    {
      && Valid() && seen == seen0 && inputs == in0 && queues.Keys == q0.Keys
      && (forall t :: t in done && t in q0 && q0[t] == [] ==> t !in outputs && queues[t] == [])
      && (forall t :: t in done && t in q0 && q0[t] != [] ==> queues[t] == q0[t][1..] && t in outputs)
      && (forall t :: t in q0 && t !in done ==> queues[t] == q0[t] && (t in outputs <==> t in out0))
    }

    /** Handles the writable socket `s` of `WritePhase` and appends the
        reply it sends, if any, to `replies`. */
    method WriteOne(s: SocketId, replies: seq<Delivery>, ghost done: set<SocketId>,
                    ghost in0: seq<SocketId>, ghost out0: seq<SocketId>,
                    ghost q0: map<SocketId, seq<Message>>, ghost seen0: set<SocketId>)
      returns (replies': seq<Delivery>)
      requires WriteProgress(done, in0, out0, q0, seen0)
      requires s !in done && (s in q0 ==> s in out0)
      modifies this
      ensures WriteProgress(done + {s}, in0, out0, q0, seen0)
      ensures replies' == replies + ReplyOf(s, q0)
    {
      var sent, stalled := Writable(s);
      replies' := replies;
      if sent.Some? {
        replies' := replies + [(s, sent.value, stalled)];
      }
    }

    /** The sockets with an exceptional condition, in order: each is closed. */
    method ErrorPhase(exceptional: seq<SocketId>)
      requires Valid() && Distinct(exceptional)
      requires forall t :: t in exceptional ==> t in inputs && t != server
      modifies this
      ensures Valid() && seen == old(seen)
      ensures forall t :: t in inputs <==> t in old(inputs) && t !in exceptional
      ensures forall t :: t in outputs <==> t in old(outputs) && t !in exceptional
      ensures forall t :: t in queues ==> queues[t] == old(queues)[t]
    {
      ghost var done: set<SocketId> := {};
      ghost var in0, out0, q0 := inputs, outputs, queues;
      for i := 0 to |exceptional|
        invariant Valid() && seen == old(seen)
        invariant Handled(exceptional, i, done)
        invariant forall t :: t in exceptional ==> t in in0 && t != server
        invariant forall t :: t in inputs <==> t in in0 && t !in done
        invariant forall t :: t in outputs <==> t in out0 && t !in done
        invariant forall t :: t in queues ==> t in q0 && queues[t] == q0[t]
      {
        Close(exceptional[i]);
        HandledStep(exceptional, i, done);
        done := done + {exceptional[i]};
      }
      assert forall t :: t in exceptional <==> t in done;
    }

    /** One iteration of the loop body: `select` reports the sockets of
        `inputs`, `outputs` and `inputs` that are ready, then every readable,
        every writable and every exceptional socket is handled in turn. */
    method Iterate(r: Round) returns (replies: seq<Delivery>)
      requires Valid() && r.accepted !in seen
      // an exceptional condition on the listening socket crashes the loop
      requires server !in r.errorReady
      // so does one on a connection that the same iteration closed on end of stream
      requires forall t :: t in r.readReady && t in r.errorReady ==> r.recv(t) != []
      modifies this
      ensures Valid() && seen <= old(seen) + {r.accepted}
      ensures forall t :: t in inputs ==> t in old(inputs) || (server in r.readReady && t == r.accepted)
      ensures server in r.readReady ==>
        r.accepted in inputs && r.accepted in queues && queues[r.accepted] == [] && r.accepted !in outputs
      ensures forall t :: t in old(queues) && Closes(r, t) ==> t !in inputs && t !in outputs && t !in queues
      ensures forall t :: t in old(queues) && !Closes(r, t) && !(t in old(outputs) && t in r.writeReady) ==>
        && t in inputs && t in queues
        && queues[t] == AfterRead(old(queues), r, t)
        && (t in outputs <==> t in old(outputs) || Incoming(r, t) != [])
      ensures forall t :: t in old(queues) && !Closes(r, t) && t in old(outputs) && t in r.writeReady ==>
        && t in inputs && t in queues
        && (AfterRead(old(queues), r, t) == [] ==> queues[t] == [] && t !in outputs)
        && (AfterRead(old(queues), r, t) != [] ==>
              && queues[t] == AfterRead(old(queues), r, t)[1..] && t in outputs
              && (t, AfterRead(old(queues), r, t)[0], Response.Stalls(AfterRead(old(queues), r, t)[0])) in replies)
      ensures OnePerSocket(replies)
      ensures forall p :: p in replies ==>
        && p.0 in old(outputs) && p.0 in r.writeReady && p.0 in old(queues)
        && AfterRead(old(queues), r, p.0) != [] && p.1 == AfterRead(old(queues), r, p.0)[0]
        && p.2 == Response.Stalls(p.1)
      ensures forall p :: p in replies ==> !(p.0 in r.readReady && r.recv(p.0) == [])
      ensures forall t :: t in old(queues) && t in r.errorReady && t in old(outputs) && t in r.writeReady &&
                          AfterRead(old(queues), r, t) != [] ==>
        (t, AfterRead(old(queues), r, t)[0], Response.Stalls(AfterRead(old(queues), r, t)[0])) in replies
    {
      var readable := Ready(inputs, r.readReady);
      var writable := Ready(outputs, r.writeReady);
      var exceptional := Ready(inputs, r.errorReady);
      replies := ReadWrite(r, readable, writable);
      ErrorPhase(exceptional);
    }

    /** The read and the write phase of round `r`, on the readable and the
        writable sockets `select` reported at the start of the iteration. */
    method ReadWrite(r: Round, readable: seq<SocketId>, writable: seq<SocketId>) returns (replies: seq<Delivery>)
      requires Valid() && r.accepted !in seen
      requires readable == Ready(inputs, r.readReady) && writable == Ready(outputs, r.writeReady)
      modifies this
      ensures Valid() && seen <= old(seen) + {r.accepted}
      ensures forall t :: t in inputs ==> t in old(inputs) || (server in r.readReady && t == r.accepted)
      ensures forall t :: t in old(inputs) && t !in inputs ==> t in r.readReady && r.recv(t) == []
      ensures server in r.readReady ==>
        r.accepted in inputs && r.accepted in queues && queues[r.accepted] == [] && r.accepted !in outputs
      ensures forall t :: t in old(queues) && t in r.readReady && r.recv(t) == [] ==>
        t !in inputs && t !in outputs && t !in queues
      ensures forall t :: t in old(queues) && !(t in r.readReady && r.recv(t) == []) && !(t in old(outputs) && t in r.writeReady) ==>
        && t in inputs && t in queues
        && queues[t] == AfterRead(old(queues), r, t)
        && (t in outputs <==> t in old(outputs) || Incoming(r, t) != [])
      ensures forall t :: t in old(queues) && !(t in r.readReady && r.recv(t) == []) && t in old(outputs) && t in r.writeReady ==>
        && t in inputs && t in queues
        && (AfterRead(old(queues), r, t) == [] ==> queues[t] == [] && t !in outputs)
        && (AfterRead(old(queues), r, t) != [] ==>
              && queues[t] == AfterRead(old(queues), r, t)[1..] && t in outputs
              && (t, AfterRead(old(queues), r, t)[0], Response.Stalls(AfterRead(old(queues), r, t)[0])) in replies)
      ensures OnePerSocket(replies)
      ensures forall p :: p in replies ==>
        && p.0 in old(outputs) && p.0 in r.writeReady && p.0 in old(queues)
        && AfterRead(old(queues), r, p.0) != [] && p.1 == AfterRead(old(queues), r, p.0)[0]
        && p.2 == Response.Stalls(p.1)
      ensures forall p :: p in replies ==> !(p.0 in r.readReady && r.recv(p.0) == [])
    {
      ghost var q0 := queues;
      ReadStage(r, readable);
      ghost var q1 := queues;
      replies := WritePhase(writable);
      RepliesAfterRead(writable, q0, q1, r);
    }

    /** The read phase of round `r`, stated per connection in terms of the
        round: what `AfterRead` says joins each queue, and who is closed. */
    method ReadStage(r: Round, readable: seq<SocketId>)
      requires Valid() && r.accepted !in seen
      requires readable == Ready(inputs, r.readReady)
      modifies this
      ensures Valid() && seen <= old(seen) + {r.accepted}
      ensures forall t :: t in inputs ==> t in old(inputs) || (server in r.readReady && t == r.accepted)
      ensures forall t :: t in old(inputs) && t !in inputs ==> t in r.readReady && r.recv(t) == []
      ensures server in r.readReady ==>
        r.accepted in inputs && r.accepted in queues && queues[r.accepted] == [] && r.accepted !in outputs
      ensures r.accepted !in old(outputs)
      ensures forall t :: t in old(queues) && t in r.readReady && r.recv(t) == [] ==>
        t !in inputs && t !in outputs && t !in queues
      ensures forall t :: t in old(queues) && !(t in r.readReady && r.recv(t) == []) ==>
        && t in inputs && t in queues
        && queues[t] == AfterRead(old(queues), r, t)
        && (t in outputs <==> t in old(outputs) || Incoming(r, t) != [])
    {
      ReadPhase(readable, r.accepted, r.recv, r.date);
    }

    /** `server_program`'s loop: while `inputs` is non-empty and `abort` is
        not set, one iteration per round, after which the signal and timer
        events of that round reach the controller. Returns how many rounds
        ran: all of them, or as many as it took for `abort` to be set. */
    method Serve(ctl: Shutdown.Controller, rounds: seq<Round>) returns (n: nat)
      requires Valid() && ctl.State() == Shutdown.Initial
      requires forall k :: 0 <= k < |rounds| ==> rounds[k].accepted !in seen
      requires forall k, l :: 0 <= k < l < |rounds| ==> rounds[k].accepted != rounds[l].accepted
      requires forall k :: 0 <= k < |rounds| ==> server !in rounds[k].errorReady
      requires forall k, t :: 0 <= k < |rounds| && t in rounds[k].readReady && t in rounds[k].errorReady ==>
        rounds[k].recv(t) != []
      modifies this, ctl
      ensures Valid() && n <= |rounds|
      ensures ctl.State() == Shutdown.Run(Events(rounds[..n]))
      ensures n < |rounds| ==> ctl.abort
      ensures forall k :: 0 <= k < n ==> !Shutdown.Run(Events(rounds[..k])).abort
    {
      n := 0;
      while n < |rounds| && |inputs| > 0 && !ctl.abort
        invariant Valid() && n <= |rounds|
        invariant forall k :: n <= k < |rounds| ==> rounds[k].accepted !in seen
        invariant ctl.State() == Shutdown.Run(Events(rounds[..n]))
        invariant forall k :: 0 <= k < n ==> !Shutdown.Run(Events(rounds[..k])).abort
        decreases |rounds| - n
      {
        var r := rounds[n];
        ghost var before := Events(rounds[..n]);
        assert !Shutdown.Run(before).abort;
        var replies := Iterate(r);
        assert rounds[..n + 1][..n] == rounds[..n];
        assert Events(rounds[..n + 1]) == before + r.events;
        ctl.DeliverAll(before, r.events);
        n := n + 1;
        forall k | 0 <= k < n ensures !Shutdown.Run(Events(rounds[..k])).abort {
          if k == n - 1 {
            assert Events(rounds[..k]) == before;
          }
        }
        forall k | n <= k < |rounds| ensures rounds[k].accepted !in seen {
          assert rounds[k].accepted != rounds[n - 1].accepted;
        }
      }
    }
  }
}
