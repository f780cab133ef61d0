/**
 * The simulation as the program runs it: the node vector, the channel
 * flag, the active node id and the success counter are fields updated in
 * place, and the main loop drives one tick after another. Each operation
 * is proved to produce the state the arbiter's functions describe.
 */
module Simulation {
  import opened CsmaState
  import opened Backoff
  import opened Arbiter

  class Simulator {
    /** The configuration: N, L, the window sequence R and M. */
    const cfg: Config
    /** The node vector; it is sized once and then only its elements change. */
    const nodes: array<Node>
    var channelOccupied: bool
    var activeNodeId: int
    var numSuccessfulTransmissionTicks: int

    /** The current state as a value. */
    ghost function Snapshot(): State
      reads this, nodes
    {
      State(nodes[..], channelOccupied, activeNodeId, numSuccessfulTransmissionTicks)
    }

    ghost predicate Valid()
      reads this, nodes
    {
      ValidConfig(cfg) && Inv(cfg, Snapshot())
    }

    /**
     * Sizes the node vector to N zero-filled nodes, gives each its starting
     * state, marks the channel idle and clears the counter.
     */
    constructor (config: Config)
      requires ValidConfig(config)
      ensures cfg == config && fresh(nodes)
      ensures Valid() && Snapshot() == InitialState(config)
    {
      cfg := config;
      nodes := new Node[config.nodeCount](_ => Node(0, 0, 0, 0, 0));
      activeNodeId := 0;
      new;
      InitializeNodes();
      channelOccupied := false;
      numSuccessfulTransmissionTicks := 0;
      assert nodes[..] == InitialState(config).nodes;
    }

    /**
     * Gives node i id i, collision count 0, window R[0] and the backoff
     * drawn for tick 0; its remaining packet ticks are left as they are.
     */
    method InitializeNodes()
      requires ValidConfig(cfg)
      modifies nodes
      ensures forall i :: 0 <= i < nodes.Length ==>
                nodes[i] == old(nodes[i]).(id := i, collisionCount := 0, window := cfg.windows[0],
                                           backoff := GenerateBackoff(i, 0, cfg.windows[0]))
    {
      var currId := 0;
      while currId < nodes.Length
        invariant 0 <= currId <= nodes.Length
        invariant forall i :: 0 <= i < currId ==>
                    nodes[i] == old(nodes[i]).(id := i, collisionCount := 0, window := cfg.windows[0],
                                               backoff := GenerateBackoff(i, 0, cfg.windows[0]))
        invariant forall i :: currId <= i < nodes.Length ==> nodes[i] == old(nodes[i])
      {
        nodes[currId] := nodes[currId].(id := currId, collisionCount := 0, window := cfg.windows[0]);
        nodes[currId] := nodes[currId].(backoff := GenerateBackoff(nodes[currId].id, 0, nodes[currId].window));
        currId := currId + 1;
      }
    }

    /** Sets the channel flag and changes nothing else. */
    method SetChannelOccupied(isOccupied: bool)
      modifies this`channelOccupied
      ensures channelOccupied == isOccupied
    {
      channelOccupied := isOccupied;
    }

    /** The ids of the ready nodes, collected in vector order. */
    method GetReadyNodeIds() returns (readyNodes: seq<int>)
      ensures readyNodes == ReadyIds(nodes[..])
    {
      readyNodes := [];
      var i := 0;
      while i < nodes.Length
        invariant 0 <= i <= nodes.Length
        invariant readyNodes == ReadyIds(nodes[..i])
      {
        assert nodes[..i + 1][..i] == nodes[..i];
        if nodes[i].backoff == ReadyToTransmit {
          readyNodes := readyNodes + [nodes[i].id];
        }
        i := i + 1;
      }
      assert nodes[..i] == nodes[..];
    }

    /** One tick of transmission by node `activeId`. */
    method TransmitPacket(activeId: int, tick: nat)
      requires ValidConfig(cfg) && 0 <= activeId < nodes.Length && nodes[activeId].id >= 0
      modifies this`channelOccupied, this`numSuccessfulTransmissionTicks, nodes
      ensures Snapshot() == Transmit(cfg, old(Snapshot()), activeId, tick)
    {
      nodes[activeId] := nodes[activeId].(packetTicksRemaining := nodes[activeId].packetTicksRemaining - 1);
      if nodes[activeId].packetTicksRemaining == TransmitComplete {
        nodes[activeId] := nodes[activeId].(window := cfg.windows[0], collisionCount := 0);
        nodes[activeId] := nodes[activeId].(backoff := GenerateBackoff(nodes[activeId].id, tick + 1, nodes[activeId].window));
        SetChannelOccupied(false);
      }
      numSuccessfulTransmissionTicks := numSuccessfulTransmissionTicks + 1;
    }

    /** One tick of the protocol, as the body of the main loop runs it. */
    method Tick(tick: nat)
      requires Valid()
      modifies this`channelOccupied, this`activeNodeId, this`numSuccessfulTransmissionTicks, nodes
      ensures Valid() && Snapshot() == Arbiter.Tick(cfg, old(Snapshot()), tick)
    {
      TickPreservesInv(cfg, Snapshot(), tick);
      if channelOccupied {
        TransmitPacket(activeNodeId, tick);
      } else {
        ArbitrateIdleChannel(tick);
      }
    }

    /** A tick on an idle channel: count down, seize the channel, or collide. */
    method ArbitrateIdleChannel(tick: nat)
      requires Valid() && !channelOccupied
      modifies this`channelOccupied, this`activeNodeId, this`numSuccessfulTransmissionTicks, nodes
      ensures Snapshot() == Arbiter.Tick(cfg, old(Snapshot()), tick)
    {
      ghost var s0 := Snapshot();
      var readyNodes := GetReadyNodeIds();
      ReadyIdsExact(s0.nodes);
      if |readyNodes| == 0 {
        // no node is ready: every backoff counts down
        CountDownBackoffs();
        assert Arbiter.Tick(cfg, s0, tick) == s0.(nodes := DecrementAll(s0.nodes));
      } else if |readyNodes| == 1 {
        // exactly one node is ready: it takes the channel
        SetChannelOccupied(true);
        activeNodeId := readyNodes[0];
        nodes[activeNodeId] := nodes[activeNodeId].(packetTicksRemaining := cfg.packetLength);
        assert Snapshot() == Seize(cfg, s0, readyNodes[0]);
        TransmitPacket(activeNodeId, tick);
        assert Arbiter.Tick(cfg, s0, tick) == Transmit(cfg, Seize(cfg, s0, readyNodes[0]), readyNodes[0], tick);
      } else {
        // several nodes are ready: they collide
        ResolveCollision(readyNodes, tick);
        assert Arbiter.Tick(cfg, s0, tick) == s0.(nodes := CollideAll(cfg, s0.nodes, tick));
      }
    }

    /** Every node's backoff counts down by one. */
    method CountDownBackoffs()
      modifies nodes
      ensures nodes[..] == DecrementAll(old(nodes[..]))
    {
      var i := 0;
      while i < nodes.Length
        invariant 0 <= i <= nodes.Length
        invariant forall j :: 0 <= j < i ==> nodes[j] == old(nodes[j]).(backoff := old(nodes[j]).backoff - 1)
        invariant forall j :: i <= j < nodes.Length ==> nodes[j] == old(nodes[j])
      {
        nodes[i] := nodes[i].(backoff := nodes[i].backoff - 1);
        i := i + 1;
      }
    }

    /**
     * Every node named in `readyNodes` goes through a collision, in the order
     * listed; since the list holds exactly the ready nodes, each once, the
     * result is that of CollideAll.
     */
    method ResolveCollision(readyNodes: seq<int>, tick: nat)
      requires ValidConfig(cfg)
      requires forall i :: 0 <= i < nodes.Length ==>
                 nodes[i].id == i && nodes[i].collisionCount >= 0
      requires readyNodes == ReadyIds(nodes[..])
      modifies nodes
      ensures nodes[..] == CollideAll(cfg, old(nodes[..]), tick)
    {
      ghost var ns := nodes[..];
      ReadyIdsExact(ns);
      var j := 0;
      while j < |readyNodes|
        invariant 0 <= j <= |readyNodes|
        invariant forall i :: 0 <= i < nodes.Length ==>
                    nodes[i] == if i in readyNodes[..j] then Collide(cfg, ns[i], tick) else ns[i]
      {
        var nodeId := readyNodes[j];
        assert nodeId !in readyNodes[..j];
        CollideNode(nodeId, tick);
        assert readyNodes[..j + 1] == readyNodes[..j] + [nodeId];
        j := j + 1;
      }
      assert readyNodes[..j] == readyNodes;
    }

    /**
     * One node's share of a collision: its count goes up; past M the packet
     * is dropped and the node starts over with window R[0], otherwise it
     * takes the window for its new count; either way it draws a backoff for
     * the next tick. No other node changes.
     */
    method CollideNode(nodeId: int, tick: nat)
      requires ValidConfig(cfg) && 0 <= nodeId < nodes.Length
      requires nodes[nodeId].id >= 0 && nodes[nodeId].collisionCount >= 0
      modifies nodes
      ensures nodes[nodeId] == Collide(cfg, old(nodes[nodeId]), tick)
      ensures forall j :: 0 <= j < nodes.Length && j != nodeId ==> nodes[j] == old(nodes[j])
    {
      nodes[nodeId] := nodes[nodeId].(collisionCount := nodes[nodeId].collisionCount + 1);
      if nodes[nodeId].collisionCount > cfg.maxRetransmissionAttempt {
        // drop the packet and start over
        nodes[nodeId] := nodes[nodeId].(window := cfg.windows[0], collisionCount := 0);
        nodes[nodeId] := nodes[nodeId].(backoff := GenerateBackoff(nodes[nodeId].id, tick + 1, nodes[nodeId].window));
      } else {
        nodes[nodeId] := nodes[nodeId].(window := cfg.windows[nodes[nodeId].collisionCount]);
        nodes[nodeId] := nodes[nodeId].(backoff := GenerateBackoff(nodes[nodeId].id, tick + 1, nodes[nodeId].window));
      }
    }

    /**
     * Runs ticks 0 .. totalSimulationTime - 1 from the starting state and
     * returns the number of successful ticks.
     */
    method Run(totalSimulationTime: nat) returns (successes: int)
      requires ValidConfig(cfg) && Snapshot() == InitialState(cfg)
      modifies this`channelOccupied, this`activeNodeId, this`numSuccessfulTransmissionTicks, nodes
      ensures Snapshot() == StateAt(cfg, totalSimulationTime)
      ensures successes == SuccessfulTicks(cfg, totalSimulationTime)
      ensures 0 <= successes <= totalSimulationTime
    {
      var ticks := 0;
      while ticks < totalSimulationTime
        invariant 0 <= ticks <= totalSimulationTime
        invariant Snapshot() == StateAt(cfg, ticks)
      {
        Tick(ticks);
        StateAtStep(cfg, ticks);
        ticks := ticks + 1;
      }
      successes := numSuccessfulTransmissionTicks;
    }
  }

  /**
   * A whole simulation for a configuration and a number of ticks: set up the
   * nodes, run the clock, and return the number of successful ticks, which
   * is at most the number of ticks.
   */
  method Simulate(config: Config, totalSimulationTime: nat) returns (successes: int)
    requires ValidConfig(config)
    ensures successes == SuccessfulTicks(config, totalSimulationTime)
    ensures 0 <= successes <= totalSimulationTime
  {
    var simulator := new Simulator(config);
    successes := simulator.Run(totalSimulationTime);
  }
}
