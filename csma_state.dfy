/**
 * The data of the CSMA simulation: the node record, the read-only
 * configuration, the mutable simulation state (node vector, channel flag,
 * active transmitter, success counter) and the invariants the header
 * documents for them.
 */
module CsmaState {

  /** A node whose backoff equals this value is ready to transmit. */
  const ReadyToTransmit: int := 0

  /** A node whose remaining packet ticks equal this value has sent its whole packet. */
  const TransmitComplete: int := 0

  /**
   * One contending station. `window` is the node's current backoff window
   * (its `R`); `packetTicksRemaining` only matters while the node holds
   * the channel.
   */
  datatype Node = Node(id: int, collisionCount: int, backoff: int, window: int, packetTicksRemaining: int)

  predicate IsReady(n: Node) {
    n.backoff == ReadyToTransmit
  }

  predicate IsComplete(n: Node) {
    n.packetTicksRemaining == TransmitComplete
  }

  /**
   * The configuration the simulation reads but never changes: the node
   * count N, the packet length L in ticks, the window sequence R and the
   * retransmission limit M.
   */
  datatype Config = Config(nodeCount: int, packetLength: int, windows: seq<int>, maxRetransmissionAttempt: int)

  /**
   * What the configuration must satisfy before the simulation starts. The
   * window sequence needs M + 1 entries, because a collision indexes it
   * with collision counts up to M.
   */
  predicate ValidConfig(cfg: Config) {
    && cfg.nodeCount >= 1
    && cfg.packetLength >= 1
    && cfg.maxRetransmissionAttempt >= 0
    && |cfg.windows| >= cfg.maxRetransmissionAttempt + 1
    && forall k :: 0 <= k < |cfg.windows| ==> cfg.windows[k] > 0
  }

  /**
   * The mutable state of one simulation: the node vector, whether the
   * channel is occupied, the id of the transmitting node (meaningful only
   * while the channel is occupied) and the number of successful ticks.
   */
  datatype State = State(nodes: seq<Node>, channelOccupied: bool, activeNodeId: int, successes: int)

  /**
   * A node's collision count lies in [0, M], its window is the configured
   * window for that count, and its backoff lies in [0, window).
   */
  predicate NodeInv(cfg: Config, n: Node) {
    && 0 <= n.collisionCount <= cfg.maxRetransmissionAttempt
    && n.collisionCount < |cfg.windows|
    && n.window == cfg.windows[n.collisionCount]
    && 0 <= n.backoff < n.window
  }

  /**
   * The invariant of the simulation between two ticks: node i has id i and
   * satisfies NodeInv; only the active node of an occupied channel has an
   * unfinished packet, it is the node whose zero backoff let it seize the
   * channel, and it still has between 1 and L - 1 ticks to send.
   */
  predicate Inv(cfg: Config, s: State) {
    && |s.nodes| == cfg.nodeCount
    && (forall i :: 0 <= i < |s.nodes| ==> s.nodes[i].id == i)
    && (forall i :: 0 <= i < |s.nodes| ==> NodeInv(cfg, s.nodes[i]))
    && (forall i :: 0 <= i < |s.nodes| && !IsComplete(s.nodes[i]) ==> s.channelOccupied && i == s.activeNodeId)
    && (s.channelOccupied ==>
          && 0 <= s.activeNodeId < |s.nodes|
          && IsReady(s.nodes[s.activeNodeId])
          && 1 <= s.nodes[s.activeNodeId].packetTicksRemaining < cfg.packetLength)
    && s.successes >= 0
  }
}
