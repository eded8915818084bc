/** The API's registry of server-sent-event connections. */
module Events {
  import opened Values

  datatype Message = Notice(event: string, data: string) | Keepalive | TimedOut | End

  /** What a connection's owner sees: every write names its connection. */
  datatype Delivery = Delivery(conn: nat, message: Message)

  /**
   * The static map, the connections handed out so far with their users (a connection is its index),
   * the `closed` flags, and everything written.
   */
  datatype Registry = Registry(conns: map<string, seq<nat>>, owner: seq<string>, closed: set<nat>, sent: seq<Delivery>)

  const EMPTY: Registry := Registry(map[], [], {}, [])

  /** `broken` holds the connections whose write raises. */
  datatype Op =
    | Subscribe(user: string)
    | Close(conn: nat)
    | Timeout(conn: nat)
    | Tick(conn: nat)
    | Emit(user: string, event: string, data: string, broken: set<nat>)

  function Without(s: seq<nat>, x: nat): (r: seq<nat>)
    ensures x !in r
    ensures forall y :: y != x ==> (y in r <==> y in s)
  {
    if s == [] then []
    else
      var init, last := Without(s[..|s| - 1], x), s[|s| - 1];
      assert forall y :: y in s <==> y in s[..|s| - 1] || y == last;
      if last == x then init else init + [last]
  }

  function Existing(conns: map<string, seq<nat>>, user: string): seq<nat> {
    if user in conns then conns[user] else []
  }

  function Cleanup(r: Registry, c: nat): Registry
    requires c < |r.owner|
  {
    if c in r.closed then r
    else
      var filtered := Without(Existing(r.conns, r.owner[c]), c);
      Registry(if filtered == [] then r.conns - {r.owner[c]} else r.conns[r.owner[c] := filtered],
               r.owner, r.closed + {c}, r.sent + [Delivery(c, End)])
  }

  /** One frame to each connection, in order; a write that raises is skipped. */
  function Writes(conns: seq<nat>, m: Message, broken: set<nat>): seq<Delivery> {
    if conns == [] then []
    else
      var init, c := Writes(conns[..|conns| - 1], m, broken), conns[|conns| - 1];
      if c in broken then init else init + [Delivery(c, m)]
  }

  /** Timers and disconnects exist for connections that were handed out. */
  predicate Enabled(r: Registry, op: Op) {
    (op.Close? || op.Timeout? || op.Tick?) ==> op.conn < |r.owner|
  }

  function Apply(r: Registry, op: Op): Registry
    requires Enabled(r, op)
  {
    match op
    case Subscribe(user) =>
      if user == "" then r
      else r.(conns := r.conns[user := Existing(r.conns, user) + [|r.owner|]], owner := r.owner + [user])
    case Close(c) => Cleanup(r, c)
    case Timeout(c) => if c in r.closed then r else Cleanup(r.(sent := r.sent + [Delivery(c, TimedOut)]), c)
    case Tick(c) => if c in r.closed then r else r.(sent := r.sent + [Delivery(c, Keepalive)])
    case Emit(user, event, data, broken) =>
      r.(sent := r.sent + Writes(Existing(r.conns, user), Notice(event, data), broken))
  }

  // ---------------------------------------------------------------------------------------------
  // The controller

  class EventsController {
    var connections: map<string, seq<nat>>
    var owner: seq<string>
    var closed: set<nat>
    var sent: seq<Delivery>

    constructor ()
      ensures State() == EMPTY
    {
      connections, owner, closed, sent := map[], [], {}, [];
    }

    function State(): Registry
      reads this
    {
      Registry(connections, owner, closed, sent)
    }

    method Emit(user: string, event: string, data: string, broken: set<nat>)
      modifies this`sent
      ensures State() == Apply(old(State()), Op.Emit(user, event, data, broken))
    {
      if user !in connections || connections[user] == [] {
        return;
      }
      var conns := connections[user];
      var frame := Notice(event, data);
      for k := 0 to |conns|
        invariant sent == old(sent) + Writes(conns[..k], frame, broken)
      {
        assert conns[..k + 1][..k] == conns[..k];
        if conns[k] !in broken {
          sent := sent + [Delivery(conns[k], frame)];
        }
      }
      assert conns[..|conns|] == conns;
    }

    /** Without a user the request is refused and nothing is registered. */
    method Subscribe(user: string) returns (accepted: bool, conn: nat)
      modifies this
      ensures accepted <==> user != ""
      ensures accepted ==> conn == |old(owner)|
      ensures State() == Apply(old(State()), Op.Subscribe(user))
    {
      if user == "" {
        return false, 0;
      }
      conn := |owner|;
      var existing := if user in connections then connections[user] else [];
      existing := existing + [conn];
      connections := connections[user := existing];
      owner := owner + [user];
      accepted := true;
    }

    method Cleanup(c: nat)
      requires c < |owner|
      modifies this
      ensures State() == Apply(old(State()), Close(c))
    {
      if c in closed {
        return;
      }
      closed := closed + {c};
      var user := owner[c];
      var conns := if user in connections then connections[user] else [];
      var filtered := Without(conns, c);
      if |filtered| == 0 {
        connections := connections - {user};
      } else {
        connections := connections[user := filtered];
      }
      sent := sent + [Delivery(c, End)];
    }

    method OnKeepalive(c: nat)
      requires c < |owner|
      modifies this`sent
      ensures State() == Apply(old(State()), Tick(c))
    {
      if c !in closed {
        sent := sent + [Delivery(c, Keepalive)];
      }
    }

    method OnTimeout(c: nat)
      requires c < |owner|
      modifies this
      ensures State() == Apply(old(State()), Timeout(c))
    {
      if c !in closed {
        sent := sent + [Delivery(c, TimedOut)];
        Cleanup(c);
      }
    }
  }

  // ---------------------------------------------------------------------------------------------
  // Every history

  /** The registry after some operations, or None if one of them could not happen. */
  function Run(ops: seq<Op>): Option<Registry> {
    if ops == [] then Some(EMPTY)
    else
      match Run(ops[..|ops| - 1])
      case None => None
      case Some(r) => if Enabled(r, ops[|ops| - 1]) then Some(Apply(r, ops[|ops| - 1])) else None
  }

  predicate IsHistory(ops: seq<Op>) {
    Run(ops).Some?
  }

  function After(ops: seq<Op>): Registry
    requires IsHistory(ops)
  {
    Run(ops).value
  }

  /** The users of the accepted subscriptions, in order: user `c` owns connection `c`. */
  function Accepted(ops: seq<Op>): seq<string> {
    if ops == [] then []
    else
      var init, op := Accepted(ops[..|ops| - 1]), ops[|ops| - 1];
      if op.Subscribe? && op.user != "" then init + [op.user] else init
  }

  /** The connections that were closed or timed out. */
  function Ended(ops: seq<Op>): set<nat> {
    set k | 0 <= k < |ops| && (ops[k].Close? || ops[k].Timeout?) :: ops[k].conn
  }

  /** The connections of a user, in subscription order, that have not ended. */
  function OpenOf(users: seq<string>, ended: set<nat>, user: string): (r: seq<nat>)
    ensures forall c: nat :: c in r <==> c < |users| && users[c] == user && c !in ended
  {
    if users == [] then []
    else
      var n := |users| - 1;
      var init := OpenOf(users[..n], ended, user);
      if users[n] == user && n !in ended then init + [n] else init
  }

  lemma {:induction false} OpenIsOrdered(users: seq<string>, ended: set<nat>, user: string)
    ensures forall i, j :: 0 <= i < j < |OpenOf(users, ended, user)| ==>
              OpenOf(users, ended, user)[i] < OpenOf(users, ended, user)[j]
  {
    if users != [] {
      var n := |users| - 1;
      var init := OpenOf(users[..n], ended, user);
      OpenIsOrdered(users[..n], ended, user);
      forall i | 0 <= i < |init|
        ensures init[i] < n
      {
        assert init[i] in init;
      }
    }
  }

  /** A user is in the map exactly while it has an open connection, with those connections in order. */
  ghost predicate Faithful(conns: map<string, seq<nat>>, users: seq<string>, ended: set<nat>) {
    forall u :: Lists(conns, u, OpenOf(users, ended, u))
  }

  predicate Lists(conns: map<string, seq<nat>>, user: string, open: seq<nat>) {
    if open == [] then user !in conns else user in conns && conns[user] == open
  }

  lemma {:induction false} EndingOne(users: seq<string>, ended: set<nat>, c: nat, user: string)
    ensures OpenOf(users, ended + {c}, user) == Without(OpenOf(users, ended, user), c)
  {
    if users != [] {
      var n := |users| - 1;
      EndingOne(users[..n], ended, c, user);
      var init := OpenOf(users[..n], ended, user);
      assert (init + [n])[..|init + [n]| - 1] == init;
    }
  }

  lemma {:induction false} NothingToRemove(s: seq<nat>, c: nat)
    requires c !in s
    ensures Without(s, c) == s
  {
    if s != [] {
      NothingToRemove(s[..|s| - 1], c);
      assert s == s[..|s| - 1] + [s[|s| - 1]];
    }
  }

  lemma SubscribeIsFaithful(r: Registry, user: string)
    requires Faithful(r.conns, r.owner, r.closed) && user != "" && forall c :: c in r.closed ==> c < |r.owner|
    ensures var after := Apply(r, Subscribe(user)); Faithful(after.conns, after.owner, after.closed)
  {
    assert (r.owner + [user])[..|r.owner|] == r.owner;
  }

  lemma CleanupIsFaithful(r: Registry, c: nat)
    requires Faithful(r.conns, r.owner, r.closed) && c < |r.owner|
    ensures var after := Cleanup(r, c); Faithful(after.conns, after.owner, after.closed)
  {
    if c !in r.closed {
      hide OpenOf, Without;
      var after := Cleanup(r, c);
      forall u
        ensures Lists(after.conns, u, OpenOf(r.owner, r.closed + {c}, u))
      {
        assert Lists(r.conns, u, OpenOf(r.owner, r.closed, u));
        EndingOne(r.owner, r.closed, c, u);
        if u != r.owner[c] {
          NothingToRemove(OpenOf(r.owner, r.closed, u), c);
        }
      }
    }
  }

  /** After any history the map is a function of who subscribed and who left. */
  lemma {:induction false} RegistryIsHistory(ops: seq<Op>)
    requires IsHistory(ops)
    ensures var r := After(ops);
            && r.owner == Accepted(ops) && r.closed == Ended(ops)
            && Faithful(r.conns, Accepted(ops), Ended(ops))
            && forall c :: c in r.closed ==> c < |r.owner|
  {
    if ops == [] {
      return;
    }
    hide Faithful, OpenOf, Cleanup;
    var init, op := ops[..|ops| - 1], ops[|ops| - 1];
    RegistryIsHistory(init);
    EndedStep(ops);
    var r := After(init);
    match op
    case Subscribe(user) =>
      if user != "" {
        SubscribeIsFaithful(r, user);
      }
    case Close(c) =>
      CleanupEnds(r, c);
    case Timeout(c) =>
      CleanupEnds(r.(sent := r.sent + [Delivery(c, TimedOut)]), c);
    case _ =>
  }

  lemma CleanupEnds(r: Registry, c: nat)
    requires Faithful(r.conns, r.owner, r.closed) && c < |r.owner|
    ensures var after := Cleanup(r, c);
            after.owner == r.owner && after.closed == r.closed + {c} && Faithful(after.conns, after.owner, after.closed)
  {
    hide Faithful;
    CleanupIsFaithful(r, c);
  }

  lemma EndedStep(ops: seq<Op>)
    requires ops != []
    ensures var op := ops[|ops| - 1];
            Ended(ops) == Ended(ops[..|ops| - 1]) + (if op.Close? || op.Timeout? then {op.conn} else {})
  {
    var op := ops[|ops| - 1];
    if op.Close? || op.Timeout? {
      assert op.conn in Ended(ops);
    }
    forall c | c in Ended(ops[..|ops| - 1])
      ensures c in Ended(ops)
    {
      var k :| 0 <= k < |ops| - 1 && (ops[k].Close? || ops[k].Timeout?) && ops[k].conn == c;
    }
  }

  /** No user is ever listed with no connection. */
  lemma NeverEmpty(ops: seq<Op>, user: string)
    requires IsHistory(ops) && user in After(ops).conns
    ensures After(ops).conns[user] != [] && user != ""
  {
    RegistryIsHistory(ops);
    AcceptedNamed(ops);
    var open := OpenOf(Accepted(ops), Ended(ops), user);
    assert Lists(After(ops).conns, user, open);
    assert open[0] in open;
  }

  lemma {:induction false} AcceptedNamed(ops: seq<Op>)
    ensures "" !in Accepted(ops)
  {
    if ops != [] {
      AcceptedNamed(ops[..|ops| - 1]);
    }
  }

  /** Whichever of disconnect and timeout comes second, and however often, changes nothing. */
  lemma CleanupOnce(r: Registry, c: nat)
    requires c < |r.owner|
    ensures var r1 := Apply(r, Close(c));
            Apply(r1, Close(c)) == r1 && Apply(r1, Timeout(c)) == r1 && Apply(r1, Tick(c)) == r1
    ensures var r2 := Apply(r, Timeout(c));
            Apply(r2, Close(c)) == r2 && Apply(r2, Timeout(c)) == r2 && Apply(r2, Tick(c)) == r2
  {
  }

  function Received(sent: seq<Delivery>, c: nat): seq<Message> {
    if sent == [] then []
    else
      var init, d := Received(sent[..|sent| - 1], c), sent[|sent| - 1];
      if d.conn == c then init + [d.message] else init
  }

  lemma {:induction false} ReceivedConcat(a: seq<Delivery>, b: seq<Delivery>, c: nat)
    ensures Received(a + b, c) == Received(a, c) + Received(b, c)
  {
    if b == [] {
      assert a + b == a;
    } else {
      ReceivedConcat(a, b[..|b| - 1], c);
      assert (a + b)[..|a + b| - 1] == a + b[..|b| - 1];
    }
  }

  lemma {:induction false} WritesReach(conns: seq<nat>, m: Message, broken: set<nat>, c: nat)
    requires forall i, j :: 0 <= i < j < |conns| ==> conns[i] < conns[j]
    ensures Received(Writes(conns, m, broken), c) == if c in conns && c !in broken then [m] else []
  {
    if conns != [] {
      var n := |conns| - 1;
      WritesReach(conns[..n], m, broken, c);
      assert conns == conns[..n] + [conns[n]];
      var init := Writes(conns[..n], m, broken);
      ReceivedConcat(init, [Delivery(conns[n], m)], c);
      assert [Delivery(conns[n], m)][..0] == [];
    }
  }

  /** An emit reaches each open, writable connection of its user exactly once, and no other connection. */
  lemma EmitReachesOpen(ops: seq<Op>, user: string, event: string, data: string, broken: set<nat>, c: nat)
    requires IsHistory(ops)
    ensures var r := After(ops);
            Received(Apply(r, Emit(user, event, data, broken)).sent, c)
            == Received(r.sent, c)
               + if c < |Accepted(ops)| && Accepted(ops)[c] == user && c !in Ended(ops) && c !in broken
                 then [Notice(event, data)] else []
  {
    hide After, Accepted, Ended, Writes, Received;
    RegistryIsHistory(ops);
    var r := After(ops);
    var conns := Existing(r.conns, user);
    assert Lists(r.conns, user, OpenOf(Accepted(ops), Ended(ops), user));
    OpenIsOrdered(Accepted(ops), Ended(ops), user);
    WritesReach(conns, Notice(event, data), broken, c);
    ReceivedConcat(r.sent, Writes(conns, Notice(event, data), broken), c);
  }

  /** A connection hears nothing before it exists, one End, and nothing after that. */
  ghost predicate Quiet(r: Registry, c: nat) {
    var got := Received(r.sent, c);
    if c >= |r.owner| then got == []
    else if c in r.closed then got != [] && got[|got| - 1] == End && End !in got[..|got| - 1]
    else End !in got
  }

  lemma ReceivedOne(sent: seq<Delivery>, d: Delivery, c: nat)
    ensures Received(sent + [d], c) == if d.conn == c then Received(sent, c) + [d.message] else Received(sent, c)
  {
    assert (sent + [d])[..|sent|] == sent;
  }

  lemma CleanupIsQuiet(r: Registry, e: nat, c: nat)
    requires e < |r.owner| && Quiet(r, c)
    ensures Quiet(Cleanup(r, e), c)
  {
    hide Without, Received;
    ReceivedOne(r.sent, Delivery(e, End), c);
  }

  lemma StepIsQuiet(r: Registry, op: Op, c: nat)
    requires Enabled(r, op) && Quiet(r, c) && Faithful(r.conns, r.owner, r.closed)
    requires forall e :: e in r.closed ==> e < |r.owner|
    ensures Quiet(Apply(r, op), c)
  {
    hide Received, Cleanup, Writes;
    match op
    case Subscribe(_) =>
    case Close(e) => CleanupIsQuiet(r, e, c);
    case Timeout(e) =>
      if e !in r.closed {
        ReceivedOne(r.sent, Delivery(e, TimedOut), c);
        CleanupIsQuiet(r.(sent := r.sent + [Delivery(e, TimedOut)]), e, c);
      }
    case Tick(e) => ReceivedOne(r.sent, Delivery(e, Keepalive), c);
    case Emit(user, event, data, broken) =>
      var conns := Existing(r.conns, user);
      assert Lists(r.conns, user, OpenOf(r.owner, r.closed, user));
      OpenIsOrdered(r.owner, r.closed, user);
      WritesReach(conns, Notice(event, data), broken, c);
      ReceivedConcat(r.sent, Writes(conns, Notice(event, data), broken), c);
  }

  /** Over every history, a connection that has ended heard exactly one End, as its last message. */
  lemma {:induction false} EndIsLast(ops: seq<Op>, c: nat)
    requires IsHistory(ops)
    ensures Quiet(After(ops), c)
  {
    if ops == [] {
      return;
    }
    hide Faithful, Quiet, Received, Apply;
    var init := ops[..|ops| - 1];
    EndIsLast(init, c);
    RegistryIsHistory(init);
    StepIsQuiet(After(init), ops[|ops| - 1], c);
  }
}
