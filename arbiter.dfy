/**
 * The channel arbiter as functions on the simulation state: which nodes
 * are ready, one tick of transmission, a collision, one whole tick of the
 * protocol, and the state reached after a number of ticks. The lemmas state
 * what each branch of a tick does and what every tick preserves.
 */
module Arbiter {
  import opened CsmaState
  import opened Backoff

  /* ---------- ready set ---------- */

  /** The ids of the ready nodes, in the order the node vector holds them. */
  function ReadyIds(ns: seq<Node>): (ids: seq<int>)
    ensures |ids| <= |ns|
  {
    if ns == [] then []
    else
      var last := ns[|ns| - 1];
      ReadyIds(ns[..|ns| - 1]) + (if IsReady(last) then [last.id] else [])
  }

  /**
   * When node i has id i, the ready ids are exactly the indices of the
   * nodes whose backoff is zero, strictly ascending (so without duplicates).
   */
  lemma {:induction false} ReadyIdsExact(ns: seq<Node>)
    requires forall i :: 0 <= i < |ns| ==> ns[i].id == i
    ensures forall k :: 0 <= k < |ReadyIds(ns)| ==>
              0 <= ReadyIds(ns)[k] < |ns| && IsReady(ns[ReadyIds(ns)[k]])
    ensures forall i :: 0 <= i < |ns| && IsReady(ns[i]) ==> i in ReadyIds(ns)
    ensures forall j, k :: 0 <= j < k < |ReadyIds(ns)| ==> ReadyIds(ns)[j] < ReadyIds(ns)[k]
  {
    if ns != [] {
      var init := ns[..|ns| - 1];
      ReadyIdsExact(init);
      assert forall i :: 0 <= i < |init| ==> init[i] == ns[i];
    }
  }

  /** With no node ready, the ready list is empty. */
  lemma {:induction false} NoReadyIds(ns: seq<Node>)
    requires forall i :: 0 <= i < |ns| ==> !IsReady(ns[i])
    ensures ReadyIds(ns) == []
  {
    if ns != [] {
      NoReadyIds(ns[..|ns| - 1]);
    }
  }

  /** With node a the only ready node, the ready list is [a]. */
  lemma {:induction false} OneReadyId(ns: seq<Node>, a: int)
    requires forall i :: 0 <= i < |ns| ==> ns[i].id == i
    requires 0 <= a < |ns|
    requires forall i :: 0 <= i < |ns| ==> (IsReady(ns[i]) <==> i == a)
    ensures ReadyIds(ns) == [a]
  {
    var init := ns[..|ns| - 1];
    if a == |ns| - 1 {
      NoReadyIds(init);
    } else {
      OneReadyId(init, a);
    }
  }

  /** Two distinct ready nodes make the ready list at least two long. */
  lemma TwoReadyIds(ns: seq<Node>, a: int, b: int)
    requires forall i :: 0 <= i < |ns| ==> ns[i].id == i
    requires 0 <= a < b < |ns| && IsReady(ns[a]) && IsReady(ns[b])
    ensures |ReadyIds(ns)| >= 2
  {
    ReadyIdsExact(ns);
    var ids := ReadyIds(ns);
    var j :| 0 <= j < |ids| && ids[j] == a;
    var k :| 0 <= k < |ids| && ids[k] == b;
    assert j != k;
  }

  /** An empty ready list means no node is ready. */
  lemma NoneReady(ns: seq<Node>)
    requires forall i :: 0 <= i < |ns| ==> ns[i].id == i
    requires ReadyIds(ns) == []
    ensures forall i :: 0 <= i < |ns| ==> !IsReady(ns[i])
  {
  }

  /** A ready list of two or more starts with two distinct ready nodes. */
  lemma SeveralReady(ns: seq<Node>)
    requires forall i :: 0 <= i < |ns| ==> ns[i].id == i
    requires |ReadyIds(ns)| >= 2
    ensures 0 <= ReadyIds(ns)[0] < ReadyIds(ns)[1] < |ns|
    ensures IsReady(ns[ReadyIds(ns)[0]]) && IsReady(ns[ReadyIds(ns)[1]])
  {
    ReadyIdsExact(ns);
  }

  /** A ready list of length one names the only ready node. */
  lemma ExactlyOneReady(ns: seq<Node>, a: int)
    requires forall i :: 0 <= i < |ns| ==> ns[i].id == i
    requires ReadyIds(ns) == [a]
    ensures 0 <= a < |ns|
    ensures forall i :: 0 <= i < |ns| ==> (IsReady(ns[i]) <==> i == a)
  {
    ReadyIdsExact(ns);
    assert ReadyIds(ns)[0] == a;
    forall i | 0 <= i < |ns| && IsReady(ns[i])
      ensures i == a
    {
      assert i in ReadyIds(ns);
    }
  }

  /* ---------- per-node updates ---------- */

  /**
   * A node starting over after a sent or dropped packet: collision count 0,
   * window R[0], and a fresh backoff drawn for the next tick.
   */
  function ResetNode(cfg: Config, n: Node, tick: nat): (r: Node)
    requires ValidConfig(cfg) && n.id >= 0
    ensures NodeInv(cfg, r) && r.collisionCount == 0
    ensures r.id == n.id && r.packetTicksRemaining == n.packetTicksRemaining
  {
    n.(window := cfg.windows[0], collisionCount := 0,
       backoff := GenerateBackoff(n.id, tick + 1, cfg.windows[0]))
  }

  /**
   * A ready node after a collision at tick `tick`: its collision count goes
   * up by one; past M its packet is dropped and it starts over, otherwise
   * its window becomes the configured window for the new count; either way
   * it draws a fresh backoff for the next tick.
   */
  function Collide(cfg: Config, n: Node, tick: nat): (r: Node)
    requires ValidConfig(cfg) && n.id >= 0 && n.collisionCount >= 0
    ensures NodeInv(cfg, r)
    ensures r.id == n.id && r.packetTicksRemaining == n.packetTicksRemaining
    ensures r.backoff == GenerateBackoff(n.id, tick + 1, r.window)
  {
    var count := n.collisionCount + 1;
    if count > cfg.maxRetransmissionAttempt then
      ResetNode(cfg, n, tick)
    else
      n.(collisionCount := count, window := cfg.windows[count],
         backoff := GenerateBackoff(n.id, tick + 1, cfg.windows[count]))
  }

  /** Every node's backoff counts down by one. */
  function DecrementAll(ns: seq<Node>): (r: seq<Node>) {
    seq(|ns|, i requires 0 <= i < |ns| => ns[i].(backoff := ns[i].backoff - 1))
  }

  /** Every ready node goes through a collision; the other nodes stay as they are. */
  function CollideAll(cfg: Config, ns: seq<Node>, tick: nat): (r: seq<Node>)
    requires ValidConfig(cfg)
    requires forall i :: 0 <= i < |ns| ==> ns[i].id >= 0 && ns[i].collisionCount >= 0
  {
    seq(|ns|, i requires 0 <= i < |ns| =>
      if IsReady(ns[i]) then Collide(cfg, ns[i], tick) else ns[i])
  }

  /* ---------- channel ---------- */

  /**
   * One tick of transmission by node `active`: its remaining ticks drop by
   * one; when they reach zero the node starts over and the channel is
   * released. The tick counts as successful in every case.
   */
  function Transmit(cfg: Config, s: State, active: int, tick: nat): (r: State)
    requires ValidConfig(cfg) && 0 <= active < |s.nodes| && s.nodes[active].id >= 0
    ensures |r.nodes| == |s.nodes| && r.activeNodeId == s.activeNodeId
    ensures r.successes == s.successes + 1
    ensures forall i :: 0 <= i < |s.nodes| && i != active ==> r.nodes[i] == s.nodes[i]
    ensures r.nodes[active].packetTicksRemaining == s.nodes[active].packetTicksRemaining - 1
    ensures r.nodes[active].id == s.nodes[active].id
    ensures IsComplete(r.nodes[active]) ==>
              && !r.channelOccupied
              && r.nodes[active].collisionCount == 0
              && r.nodes[active].window == cfg.windows[0]
              && r.nodes[active].backoff == (s.nodes[active].id + tick + 1) % cfg.windows[0]
    ensures !IsComplete(r.nodes[active]) ==>
              && r.channelOccupied == s.channelOccupied
              && r.nodes[active].collisionCount == s.nodes[active].collisionCount
              && r.nodes[active].window == s.nodes[active].window
              && r.nodes[active].backoff == s.nodes[active].backoff
  {
    var n := s.nodes[active];
    var sent := n.(packetTicksRemaining := n.packetTicksRemaining - 1);
    if IsComplete(sent) then
      s.(nodes := s.nodes[active := ResetNode(cfg, sent, tick)],
         channelOccupied := false,
         successes := s.successes + 1)
    else
      s.(nodes := s.nodes[active := sent], successes := s.successes + 1)
  }

  /** The sole ready node `a` takes the channel with a whole packet to send. */
  function Seize(cfg: Config, s: State, a: int): (r: State)
    requires 0 <= a < |s.nodes|
  {
    s.(channelOccupied := true, activeNodeId := a,
       nodes := s.nodes[a := s.nodes[a].(packetTicksRemaining := cfg.packetLength)])
  }

  /**
   * One tick of the protocol. An occupied channel carries one more tick of
   * the active packet. On an idle channel: with no ready node every backoff
   * counts down; with one ready node it seizes the channel and sends its
   * first tick at once; with several ready nodes they all collide.
   * The success counter grows by one exactly on the ticks that carry a
   * packet, and stays put otherwise.
   */
  function Tick(cfg: Config, s: State, tick: nat): (r: State)
    requires ValidConfig(cfg) && Inv(cfg, s)
    ensures |r.nodes| == |s.nodes|
    ensures r.successes
            == s.successes + (if s.channelOccupied || |ReadyIds(s.nodes)| == 1 then 1 else 0)
  {
    if s.channelOccupied then
      Transmit(cfg, s, s.activeNodeId, tick)
    else
      var ready := ReadyIds(s.nodes);
      ReadyIdsExact(s.nodes);
      if |ready| == 0 then
        s.(nodes := DecrementAll(s.nodes))
      else if |ready| == 1 then
        Transmit(cfg, Seize(cfg, s, ready[0]), ready[0], tick)
      else
        s.(nodes := CollideAll(cfg, s.nodes, tick))
  }

  /* ---------- the four branches of a tick ---------- */

  /**
   * On an occupied channel the active node sends one more tick: the counter
   * grows by one, the channel stays occupied exactly while packet ticks are
   * left, and the other nodes do not change.
   */
  lemma OccupiedTick(cfg: Config, s: State, tick: nat)
    requires ValidConfig(cfg) && Inv(cfg, s) && s.channelOccupied
    ensures var r := Tick(cfg, s, tick);
      && r.successes == s.successes + 1
      && r.activeNodeId == s.activeNodeId
      && (r.channelOccupied <==> s.nodes[s.activeNodeId].packetTicksRemaining > 1)
      && (forall i :: 0 <= i < |s.nodes| && i != s.activeNodeId ==> r.nodes[i] == s.nodes[i])
  {
  }

  /**
   * An idle tick with no ready node: every backoff goes down by exactly one
   * and stays non-negative, nothing else in any node changes, and neither
   * the channel nor the counter changes.
   */
  lemma IdleTick(cfg: Config, s: State, tick: nat)
    requires ValidConfig(cfg) && Inv(cfg, s) && !s.channelOccupied
    requires forall i :: 0 <= i < |s.nodes| ==> !IsReady(s.nodes[i])
    ensures var r := Tick(cfg, s, tick);
      && r.channelOccupied == s.channelOccupied
      && r.activeNodeId == s.activeNodeId
      && r.successes == s.successes
      && |r.nodes| == |s.nodes|
      && (forall i :: 0 <= i < |s.nodes| ==>
            && r.nodes[i] == s.nodes[i].(backoff := s.nodes[i].backoff - 1)
            && r.nodes[i].backoff >= 0)
  {
    NoReadyIds(s.nodes);
  }

  /**
   * An idle tick with exactly one ready node `a`: it takes the channel with
   * L ticks loaded and sends the first of them in the same tick, so the
   * counter grows by one. With L > 1 the channel stays occupied by `a`; with
   * L == 1 the packet is done, `a` starts over and the channel is idle again.
   * No other node changes.
   */
  lemma SeizeTick(cfg: Config, s: State, tick: nat, a: int)
    requires ValidConfig(cfg) && Inv(cfg, s) && !s.channelOccupied
    requires 0 <= a < |s.nodes|
    requires forall i :: 0 <= i < |s.nodes| ==> (IsReady(s.nodes[i]) <==> i == a)
    ensures var r := Tick(cfg, s, tick);
      && r.activeNodeId == a
      && r.successes == s.successes + 1
      && |r.nodes| == |s.nodes|
      && (forall i :: 0 <= i < |s.nodes| && i != a ==> r.nodes[i] == s.nodes[i])
      && (cfg.packetLength > 1 ==>
            && r.channelOccupied
            && r.nodes[a] == s.nodes[a].(packetTicksRemaining := cfg.packetLength - 1))
      && (cfg.packetLength == 1 ==>
            && !r.channelOccupied
            && IsComplete(r.nodes[a])
            && r.nodes[a].collisionCount == 0
            && r.nodes[a].window == cfg.windows[0]
            && r.nodes[a].backoff == (a + tick + 1) % cfg.windows[0])
  {
    OneReadyId(s.nodes, a);
  }

  /**
   * An idle tick with two or more ready nodes: each ready node's collision
   * count goes up by one; past M it drops its packet and restarts at count
   * 0, otherwise its window becomes R[count]; either way its new backoff is
   * (id + tick + 1) mod its window. Nodes that were not ready, the channel,
   * the active id and the counter do not change.
   */
  lemma CollisionTick(cfg: Config, s: State, tick: nat, a: int, b: int)
    requires ValidConfig(cfg) && Inv(cfg, s) && !s.channelOccupied
    requires 0 <= a < b < |s.nodes| && IsReady(s.nodes[a]) && IsReady(s.nodes[b])
    ensures var r := Tick(cfg, s, tick);
      && r.channelOccupied == s.channelOccupied
      && r.activeNodeId == s.activeNodeId
      && r.successes == s.successes
      && |r.nodes| == |s.nodes|
      && (forall i :: 0 <= i < |s.nodes| && !IsReady(s.nodes[i]) ==> r.nodes[i] == s.nodes[i])
      && (forall i :: 0 <= i < |s.nodes| && IsReady(s.nodes[i]) ==>
            && r.nodes[i].collisionCount
               == (if s.nodes[i].collisionCount + 1 > cfg.maxRetransmissionAttempt
                   then 0 else s.nodes[i].collisionCount + 1)
            && r.nodes[i].window == cfg.windows[r.nodes[i].collisionCount]
            && r.nodes[i].backoff == (i + tick + 1) % r.nodes[i].window
            && r.nodes[i].packetTicksRemaining == s.nodes[i].packetTicksRemaining)
  {
    TwoReadyIds(s.nodes, a, b);
  }

  /* ---------- invariants across ticks ---------- */

  /** A transmitting tick keeps the simulation invariant. */
  lemma OccupiedTickPreservesInv(cfg: Config, s: State, tick: nat)
    requires ValidConfig(cfg) && Inv(cfg, s) && s.channelOccupied
    ensures Inv(cfg, Tick(cfg, s, tick))
  {
  }

  /** An idle tick with no ready node keeps the simulation invariant. */
  lemma IdleTickPreservesInv(cfg: Config, s: State, tick: nat)
    requires ValidConfig(cfg) && Inv(cfg, s) && !s.channelOccupied
    requires forall i :: 0 <= i < |s.nodes| ==> !IsReady(s.nodes[i])
    ensures Inv(cfg, Tick(cfg, s, tick))
  {
    IdleTick(cfg, s, tick);
  }

  /** An idle tick with exactly one ready node keeps the simulation invariant. */
  lemma SeizeTickPreservesInv(cfg: Config, s: State, tick: nat, a: int)
    requires ValidConfig(cfg) && Inv(cfg, s) && !s.channelOccupied
    requires 0 <= a < |s.nodes|
    requires forall i :: 0 <= i < |s.nodes| ==> (IsReady(s.nodes[i]) <==> i == a)
    ensures Inv(cfg, Tick(cfg, s, tick))
  {
    SeizeTick(cfg, s, tick, a);
    var r := Tick(cfg, s, tick);
    if cfg.packetLength == 1 {
      assert r.nodes[a] == ResetNode(cfg, s.nodes[a], tick);
    }
  }

  /** An idle tick with several ready nodes keeps the simulation invariant. */
  lemma CollisionTickPreservesInv(cfg: Config, s: State, tick: nat, a: int, b: int)
    requires ValidConfig(cfg) && Inv(cfg, s) && !s.channelOccupied
    requires 0 <= a < b < |s.nodes| && IsReady(s.nodes[a]) && IsReady(s.nodes[b])
    ensures Inv(cfg, Tick(cfg, s, tick))
  {
    TwoReadyIds(s.nodes, a, b);
    var r := Tick(cfg, s, tick);
    assert r.nodes == CollideAll(cfg, s.nodes, tick);
  }

  /** Every tick keeps the simulation invariant. */
  lemma TickPreservesInv(cfg: Config, s: State, tick: nat)
    requires ValidConfig(cfg) && Inv(cfg, s)
    ensures Inv(cfg, Tick(cfg, s, tick))
  {
    if s.channelOccupied {
      OccupiedTickPreservesInv(cfg, s, tick);
    } else {
      var ready := ReadyIds(s.nodes);
      if |ready| == 0 {
        NoneReady(s.nodes);
        IdleTickPreservesInv(cfg, s, tick);
      } else if |ready| == 1 {
        ExactlyOneReady(s.nodes, ready[0]);
        SeizeTickPreservesInv(cfg, s, tick, ready[0]);
      } else {
        SeveralReady(s.nodes);
        CollisionTickPreservesInv(cfg, s, tick, ready[0], ready[1]);
      }
    }
  }

  /**
   * The counter only counts whole packets plus the part of the one in
   * flight: on an idle channel it is a multiple of L, and while a packet is
   * in flight it is L - (ticks still to send) modulo L.
   */
  predicate Accounting(cfg: Config, s: State)
    requires ValidConfig(cfg) && Inv(cfg, s)
  {
    s.successes % cfg.packetLength
    == if s.channelOccupied
       then cfg.packetLength - s.nodes[s.activeNodeId].packetTicksRemaining
       else 0
  }

  /** Every tick keeps the packet accounting of the counter. */
  lemma TickPreservesAccounting(cfg: Config, s: State, tick: nat)
    requires ValidConfig(cfg) && Inv(cfg, s) && Accounting(cfg, s)
    ensures Inv(cfg, Tick(cfg, s, tick)) && Accounting(cfg, Tick(cfg, s, tick))
  {
    TickPreservesInv(cfg, s, tick);
    var L := cfg.packetLength;
    ModSuccessor(s.successes, L);
    if !s.channelOccupied {
      var ready := ReadyIds(s.nodes);
      if |ready| == 1 {
        ExactlyOneReady(s.nodes, ready[0]);
        SeizeTick(cfg, s, tick, ready[0]);
      }
    }
  }

  /* ---------- the simulation clock ---------- */

  /** The state the simulation starts from: node i has id i, count 0, window R[0], backoff i mod R[0]; the channel is idle and the counter zero. */
  function InitialState(cfg: Config): (s: State)
    requires ValidConfig(cfg)
    ensures Inv(cfg, s) && Accounting(cfg, s)
    ensures !s.channelOccupied && s.successes == 0
    ensures forall i :: 0 <= i < |s.nodes| ==>
              && s.nodes[i].collisionCount == 0
              && s.nodes[i].window == cfg.windows[0]
              && s.nodes[i].backoff == i % cfg.windows[0]
  {
    var nodes := seq(cfg.nodeCount, i requires 0 <= i < cfg.nodeCount =>
      Node(i, 0, GenerateBackoff(i, 0, cfg.windows[0]), cfg.windows[0], 0));
    State(nodes, false, 0, 0)
  }

  /**
   * The simulation clock advancing by one tick: the arbiter's tick, which
   * keeps the invariant and adds at most one to the counter. It is Tick
   * with TickPreservesInv attached, so that StateAt can carry the invariant
   * from one step to the next through this contract alone.
   */
  function NextState(cfg: Config, s: State, tick: nat): (r: State)
    requires ValidConfig(cfg) && Inv(cfg, s)
    ensures Inv(cfg, r) && s.successes <= r.successes <= s.successes + 1
  {
    TickPreservesInv(cfg, s, tick);
    Tick(cfg, s, tick)
  }

  /**
   * The state after ticks 0 .. t - 1. It satisfies the invariant, and the
   * counter is at most the number of ticks processed.
   */
  function StateAt(cfg: Config, t: nat): (s: State)
    requires ValidConfig(cfg)
    ensures Inv(cfg, s) && s.successes <= t
  {
    if t == 0 then InitialState(cfg)
    else NextState(cfg, StateAt(cfg, t - 1), t - 1)
  }

  /** The state after tick t is the state before it advanced by one tick. */
  lemma StateAtStep(cfg: Config, t: nat)
    requires ValidConfig(cfg)
    ensures StateAt(cfg, t + 1) == Tick(cfg, StateAt(cfg, t), t)
  {
  }

  /** The number of successful ticks in a run of T ticks: between 0 and T. */
  function SuccessfulTicks(cfg: Config, T: nat): (count: int)
    requires ValidConfig(cfg)
    ensures 0 <= count <= T
  {
    StateAt(cfg, T).successes
  }

  /**
   * Tick t carries a collision-free transmission: the channel was already
   * occupied, or exactly one node was ready on an idle channel.
   */
  ghost predicate Carries(cfg: Config, t: nat)
    requires ValidConfig(cfg)
  {
    var s := StateAt(cfg, t);
    s.channelOccupied || |ReadyIds(s.nodes)| == 1
  }

  /** The ticks before T that carry a collision-free transmission. */
  ghost function CarryingTicks(cfg: Config, T: nat): set<nat>
    requires ValidConfig(cfg)
  {
    set t: nat | t < T && Carries(cfg, t)
  }

  /** The counter grows on tick t by one exactly when tick t carries a transmission. */
  lemma SuccessfulTicksStep(cfg: Config, t: nat)
    requires ValidConfig(cfg)
    ensures SuccessfulTicks(cfg, t + 1) == SuccessfulTicks(cfg, t) + (if Carries(cfg, t) then 1 else 0)
  {
    StateAtStep(cfg, t);
  }

  /** The carrying ticks before t + 1 are those before t, plus t if it carries. */
  lemma CarryingTicksStep(cfg: Config, t: nat)
    requires ValidConfig(cfg)
    ensures t !in CarryingTicks(cfg, t)
    ensures CarryingTicks(cfg, t + 1) == CarryingTicks(cfg, t) + (if Carries(cfg, t) then {t} else {})
  {
  }

  /**
   * The success counter after T ticks is exactly the number of ticks
   * before T that carried a collision-free transmission.
   */
  lemma {:induction false} SuccessfulTicksCountsCarryingTicks(cfg: Config, T: nat)
    requires ValidConfig(cfg)
    ensures SuccessfulTicks(cfg, T) == |CarryingTicks(cfg, T)|
  {
    if T == 0 {
      assert CarryingTicks(cfg, T) == {};
    } else {
      var t := T - 1;
      SuccessfulTicksCountsCarryingTicks(cfg, t);
      SuccessfulTicksStep(cfg, t);
      CarryingTicksStep(cfg, t);
      var before := CarryingTicks(cfg, t);
      if Carries(cfg, t) {
        assert |before + {t}| == |before| + 1;
      } else {
        assert CarryingTicks(cfg, T) == before;
      }
    }
  }

  /** The packet accounting holds after every number of ticks. */
  lemma {:induction false} StateAtAccounting(cfg: Config, t: nat)
    requires ValidConfig(cfg)
    ensures Accounting(cfg, StateAt(cfg, t))
  {
    if t > 0 {
      StateAtAccounting(cfg, t - 1);
      TickPreservesAccounting(cfg, StateAt(cfg, t - 1), t - 1);
    }
  }

  /* ---------- escalation ---------- */

  /** A node after colliding once at each of the given ticks, in order. */
  function CollideRepeatedly(cfg: Config, n: Node, ticks: seq<nat>): (r: Node)
    requires ValidConfig(cfg) && n.id >= 0 && n.collisionCount >= 0
    decreases |ticks|
  {
    if ticks == [] then n
    else CollideRepeatedly(cfg, Collide(cfg, n, ticks[0]), ticks[1..])
  }

  /**
   * Consecutive collisions cycle the collision count through 0 .. M: after
   * k collisions the count is (count + k) mod (M + 1) and the window is the
   * configured window for it; the latest backoff is drawn for the tick after
   * the last collision.
   */
  lemma {:induction false} EscalationCycle(cfg: Config, n: Node, ticks: seq<nat>)
    requires ValidConfig(cfg) && n.id >= 0 && NodeInv(cfg, n)
    ensures var r := CollideRepeatedly(cfg, n, ticks);
      && NodeInv(cfg, r)
      && r.id == n.id
      && r.collisionCount == (n.collisionCount + |ticks|) % (cfg.maxRetransmissionAttempt + 1)
      && (ticks != [] ==> r.backoff == GenerateBackoff(n.id, ticks[|ticks| - 1] + 1, r.window))
    decreases |ticks|
  {
    var m := cfg.maxRetransmissionAttempt + 1;
    if ticks == [] {
      ModOfDecomposition(n.collisionCount, m, 0, n.collisionCount);
    } else {
      var c := Collide(cfg, n, ticks[0]);
      EscalationCycle(cfg, c, ticks[1..]);
      ModOfDecomposition(n.collisionCount, m, 0, n.collisionCount);
      ModSuccessor(n.collisionCount, m);
      ModAddMod(n.collisionCount + 1, |ticks| - 1, m);
      if |ticks| > 1 {
        assert ticks[1..][|ticks[1..]| - 1] == ticks[|ticks| - 1];
      }
    }
  }

  /**
   * Starting from collision count 0, k <= M consecutive collisions leave
   * count k and window R[k]; the (M + 1)-th drops the packet, back to count
   * 0 and window R[0].
   */
  lemma DropAfterMaxRetries(cfg: Config, n: Node, ticks: seq<nat>)
    requires ValidConfig(cfg) && n.id >= 0 && NodeInv(cfg, n) && n.collisionCount == 0
    requires |ticks| <= cfg.maxRetransmissionAttempt + 1
    ensures var r := CollideRepeatedly(cfg, n, ticks);
      && (|ticks| <= cfg.maxRetransmissionAttempt ==>
            r.collisionCount == |ticks| && r.window == cfg.windows[|ticks|])
      && (|ticks| == cfg.maxRetransmissionAttempt + 1 ==>
            r.collisionCount == 0 && r.window == cfg.windows[0])
  {
    var m := cfg.maxRetransmissionAttempt + 1;
    EscalationCycle(cfg, n, ticks);
    if |ticks| < m {
      ModOfDecomposition(|ticks|, m, 0, |ticks|);
    } else {
      ModOfDecomposition(|ticks|, m, 1, 0);
    }
  }
}
