# CSMA simulation core in Dafny

This project models the tick-driven simulator of the Carrier Sense Multiple
Access protocol in `src/csma.cpp` and `src/include/csma.h`. N stations share
one channel. Each station waits out a backoff drawn from a deterministic
generator, `(id + tick) mod R`. When exactly one station has backoff zero on
an idle channel, it seizes the channel and sends an L-tick packet. When two or
more do at once, they collide. Each collision raises a station's collision
count and moves it to the window `R[count]` configured for that count. Past M retries the packet is
dropped and the station starts over at `R[0]`. The simulator counts the ticks
that carry a collision-free transmission.

The model has five modules:

- `CsmaState` (`csma_state.dfy`): the `Node` record, the two sentinels
  `READY_TO_TRANSMIT` and `TRANSMIT_COMPLETE` (modelled as `ReadyToTransmit`
  and `TransmitComplete`), the configuration (N, L, R, M)
  with the conditions it must meet, and the simulation state: the node
  vector, the channel flag, the active node id and the success counter. It
  also holds the invariant that relates them between ticks.
- `Backoff` (`backoff.dfy`): `generate_backoff` and its arithmetic.
- `Arbiter` (`arbiter.dfy`): the protocol as functions on state values. It
  covers the ready list, one transmission tick, a collision, one whole tick,
  and the state after t ticks. Lemmas state what each branch of a tick does,
  that every tick keeps the invariant, and how collisions escalate and drop.
- `Simulation` (`simulation.dfy`): the program as it runs. The class
  `Simulator` holds the global state as fields and the node vector as an
  `array<Node>` updated in place. `set_channel_occupied`,
  `get_ready_node_ids`, `initialize_nodes` and `transmit_packet` each become
  a method. The body of the main loop is split into `Tick`,
  `ArbitrateIdleChannel`, `CountDownBackoffs`, `ResolveCollision` and
  `CollideNode`, and the loop itself is `Run`. These methods are proved
  equal to the `Arbiter` functions for the same step:
  - `TransmitPacket` to `Transmit`;
  - `Tick` and `ArbitrateIdleChannel` to `Arbiter.Tick`;
  - `CountDownBackoffs` to `DecrementAll`;
  - `ResolveCollision` to `CollideAll`, and `CollideNode` to `Collide`;
  - `Run` to `StateAt`.

  `GetReadyNodeIds` returns the list `ReadyIds` describes, and the
  constructor yields `InitialState`. `InitializeNodes` and
  `SetChannelOccupied` state their effect directly.
- `Scenarios` (`scenarios.dfy`): whole runs for particular configurations.

The configuration must satisfy:

- N >= 1, L >= 1 and M >= 0;
- every `R[k] > 0`;
- `|R| >= M + 1`.

The last condition follows the code rather than the header comment at
`src/include/csma.h:94-96`, which says `|R| == M`. A collision sets a node's
count to at most M and then reads `R[count]` (`src/csma.cpp:206-216`), so R
needs M + 1 entries.

What the code computes for two small configurations:

- For N=1, L=2, R=[4] and T=5, the node sends at ticks 0 and 1. It counts
  down at ticks 2 and 3 and seizes the channel again at tick 4, giving 3
  successful ticks (`Scenarios.SingleNodeRun`).
- For N=2, L=1, M=1 and R=[3,5], the initial backoffs are 0 and 1. Node 0
  sends alone at tick 0, and the two nodes first collide at tick 2
  (`Scenarios.TwoNodeCollision`).

## Model

| member | source | states |
|---|---|---|
| Backoff.GenerateBackoff | src/csma.cpp:68-71 | the backoff lies in [0, R) and is the remainder of id + ticks divided by R |
| Backoff.BackoffsCoincide | src/csma.cpp:68-71 | two nodes drawing at the same tick for the same window get equal backoffs exactly when their ids are congruent modulo the window |
| Backoff.BackoffAdvances | src/csma.cpp:68-71 | a node's draw for the next tick is its draw for this tick plus one, wrapping to 0 at R - 1 |
| Arbiter.ReadyIds | src/csma.cpp:77-87 | the ready list is never longer than the node vector |
| Arbiter.ReadyIdsExact | src/csma.cpp:77-87 | when node i has id i, the ready list holds exactly the indices of the nodes with backoff 0, strictly ascending and so without duplicates |
| Arbiter.NoReadyIds | src/csma.cpp:77-87 | with no node at backoff 0 the ready list is empty |
| Arbiter.OneReadyId | src/csma.cpp:77-87 | with node a the only node at backoff 0 the ready list is [a] |
| Arbiter.TwoReadyIds | src/csma.cpp:77-87 | two distinct nodes at backoff 0 make the ready list at least two long |
| Arbiter.NoneReady | src/csma.cpp:182-188 | an empty ready list means no node has backoff 0 |
| Arbiter.ExactlyOneReady | src/csma.cpp:189-196 | a ready list [a] means a is in range and is the only node with backoff 0 |
| Arbiter.SeveralReady | src/csma.cpp:197-201 | a ready list of two or more starts with two distinct in-range nodes that both have backoff 0 |
| Arbiter.ResetNode | src/csma.cpp:107-109 | a node starting over has collision count 0, window R[0], a backoff in [0, R[0]), and keeps its id and remaining ticks |
| Arbiter.Collide | src/csma.cpp:206-217 | a collided node again satisfies the node invariant (count in [0, M], window R[count], backoff in [0, window)), keeps its id and remaining ticks, and draws its backoff for the next tick from its new window |
| Arbiter.Transmit | src/csma.cpp:100-116 | remaining ticks drop by exactly 1 and the counter rises by exactly 1; other nodes are unchanged; on completion the channel is idle, the node has count 0, window R[0] and backoff (id + tick + 1) mod R[0]; otherwise the channel and the node's other fields are unchanged |
| Arbiter.Tick | src/csma.cpp:177-220 | a tick keeps the number of nodes, and the counter rises by one exactly when the channel was occupied or exactly one node was ready, and is unchanged otherwise |
| Arbiter.OccupiedTick | src/csma.cpp:177-178 | on an occupied channel the counter rises by 1, the active id stays, the channel stays occupied exactly while more than one packet tick was left, and no other node changes |
| Arbiter.IdleTick | src/csma.cpp:182-188 | with no ready node every backoff drops by exactly 1 and stays non-negative, nothing else in any node changes, and the channel, active id and counter are unchanged |
| Arbiter.SeizeTick | src/csma.cpp:189-196 | with one ready node a, a becomes active and the counter rises by 1; no other node changes; with L > 1 the channel stays occupied with L - 1 ticks left; with L == 1 the channel is idle again and a has count 0, window R[0] and backoff (a + tick + 1) mod R[0] |
| Arbiter.CollisionTick | src/csma.cpp:197-218 | with two or more ready nodes each one's count becomes count + 1, or 0 once that exceeds M; its window is R[new count] and its backoff (id + tick + 1) mod window; non-ready nodes, the channel, the active id and the counter are unchanged |
| Arbiter.OccupiedTickPreservesInv | src/csma.cpp:177-178 | a transmitting tick keeps the simulation invariant |
| Arbiter.IdleTickPreservesInv | src/csma.cpp:182-188 | an idle tick with no ready node keeps the simulation invariant |
| Arbiter.SeizeTickPreservesInv | src/csma.cpp:189-196 | a tick in which one node seizes the channel keeps the simulation invariant |
| Arbiter.CollisionTickPreservesInv | src/csma.cpp:197-218 | a collision tick keeps the simulation invariant |
| Arbiter.TickPreservesInv | src/csma.cpp:171-221 | every tick keeps the invariant: node i has id i, count in [0, M], window R[count], backoff in [0, window); only the active node of an occupied channel has a packet in flight, with 1 to L - 1 ticks left; the counter is non-negative |
| Arbiter.TickPreservesAccounting | src/include/csma.h:133-141 | every tick keeps the counter consistent with whole packets: modulo L it is 0 on an idle channel and L minus the ticks still to send while a packet is in flight |
| Arbiter.InitialState | src/csma.cpp:89-98 | the starting state satisfies the invariant and the accounting; the channel is idle, the counter 0, and node i has count 0, window R[0] and backoff i mod R[0] |
| Arbiter.NextState | src/csma.cpp:171-221 | advancing the clock by one tick keeps the invariant and raises the counter by at most one |
| Arbiter.StateAt | src/csma.cpp:171-221 | the state after ticks 0 .. t - 1 satisfies the invariant and its counter is at most t |
| Arbiter.SuccessfulTicksStep | src/include/csma.h:133-141 | the counter grows on tick t by one exactly when the channel was occupied or exactly one node was ready at that tick, and is unchanged otherwise |
| Arbiter.SuccessfulTicksCountsCarryingTicks | src/include/csma.h:133-141 | the counter after T ticks equals the number of ticks before T on which the channel was occupied or exactly one node was ready |
| Arbiter.SuccessfulTicks | src/include/csma.h:114-141 | the number of successful ticks in a run of T ticks lies between 0 and T |
| Arbiter.StateAtAccounting | src/include/csma.h:133-141 | the packet accounting of the counter holds after every number of ticks |
| Arbiter.EscalationCycle | src/csma.cpp:206-217 | after k consecutive collisions a node's count is (count + k) mod (M + 1), it satisfies the node invariant, and its backoff is drawn for the tick after the last collision |
| Arbiter.DropAfterMaxRetries | src/csma.cpp:206-217 | from count 0, k <= M collisions leave count k and window R[k], and the (M + 1)-th collision drops the packet, back to count 0 and window R[0] |
| Simulation.Simulator.constructor | src/csma.cpp:166-169 | the node vector is fresh, the state is the starting state, and the simulator invariant holds |
| Simulation.Simulator.InitializeNodes | src/csma.cpp:89-98 | node i gets id i, count 0, window R[0] and backoff generate_backoff(i, 0, R[0]); its remaining ticks are untouched |
| Simulation.Simulator.SetChannelOccupied | src/csma.cpp:73-75 | the channel flag becomes the argument, and nothing else may change |
| Simulation.Simulator.GetReadyNodeIds | src/csma.cpp:77-87 | the collected list is the ready list of the node vector |
| Simulation.Simulator.TransmitPacket | src/csma.cpp:100-116 | the new state is the transmission step applied to the old state |
| Simulation.Simulator.Tick | src/csma.cpp:177-220 | the new state is one arbiter tick of the old state, and the invariant still holds |
| Simulation.Simulator.ArbitrateIdleChannel | src/csma.cpp:180-219 | on an idle channel the new state is one arbiter tick of the old state |
| Simulation.Simulator.CountDownBackoffs | src/csma.cpp:186-188 | every node's backoff drops by one and nothing else changes |
| Simulation.Simulator.ResolveCollision | src/csma.cpp:201-218 | walking the ready list in order collides exactly the ready nodes and leaves the others as they were |
| Simulation.Simulator.CollideNode | src/csma.cpp:202-217 | the named node goes through one collision and no other node changes |
| Simulation.Simulator.Run | src/csma.cpp:171-221 | after the loop over ticks 0 .. T - 1 the state is the state after T ticks, and the returned count is the number of successful ticks, between 0 and T |
| Simulation.Simulate | src/csma.cpp:166-221 | setting up the nodes and running T ticks returns the number of successful ticks, between 0 and T |
| Scenarios.SingleNodeRun | src/csma.cpp:171-221 | one node with L = 2 and R = [4] has 3 successful ticks in 5 |
| Scenarios.TwoNodeCollision | src/csma.cpp:197-218 | two nodes with L = 1, M = 1 and R = [3, 5] collide at tick 2; afterwards both have count 1, window 5 and backoff (id + 3) mod 5, with 1 successful tick |
| Scenarios.UnitWindowsNeverDeliver | src/csma.cpp:197-218 | with two or more nodes and every window equal to 1, every tick is a collision: the channel is never taken and no tick is successful |

## Left out

- `assign_values` (`src/csma.cpp:26-66`) is not modelled. It depends on
  line and stream parsing by the C++ library. The model takes the
  configuration as a parameter and states the conditions it must meet
  (`CsmaState.ValidConfig`). It also starts from the zero-filled nodes that
  `nodes.resize(N)` produces.
- Command-line handling and file input and output in `main`
  (`src/csma.cpp:146-163`, `223-243`) are left out: they are input and output.
- The floating-point utilization ratio and its two-decimal formatting
  (`src/csma.cpp:236-237`) are left out. `Run` and `Simulate` return the
  integer count of successful ticks instead.
- All console tracing (`std::cout`, `std::cerr`) is left out.
- The test script `src/test/test_csma.py` is not part of this model. Its
  input files are not available.
- Integers are unbounded. The model does not capture 32-bit overflow of
  `id + ticks + 1`, or of the tick and success counters.
- `Simulation.Simulator.Run` takes T as a natural number. A negative
  `total_simulation_time` runs zero iterations in the code, which is the
  same as T = 0.
- `Simulation.Simulator.Tick` requires the simulator invariant, which the
  program establishes at start-up and every tick keeps. A tick started from
  an arbitrary state is not modelled.
- `Scenarios.SingleNodeRun` uses M = 0 and R = [4], because R needs M + 1
  entries. With one node there are no collisions, so M does not affect the
  run.
