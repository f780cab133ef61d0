/**
 * Whole runs of the simulation for particular configurations.
 */
module Scenarios {
  import opened CsmaState
  import opened Backoff
  import opened Arbiter

  /**
   * One node, L = 2, R = [4]: it sends ticks 0 and 1, waits through ticks 2
   * and 3 while its backoff of 2 counts down, and takes the channel again
   * at tick 4, so 3 of 5 ticks are successful.
   */
  lemma SingleNodeRun()
    ensures SuccessfulTicks(Config(1, 2, [4], 0), 5) == 3
  {
    var cfg := Config(1, 2, [4], 0);
    var s0 := StateAt(cfg, 0);
    assert s0 == State([Node(0, 0, 0, 4, 0)], false, 0, 0);
    assert ReadyIds(s0.nodes) == [0];
    var s1 := StateAt(cfg, 1);
    assert s1 == State([Node(0, 0, 0, 4, 1)], true, 0, 1);
    var s2 := StateAt(cfg, 2);
    assert s2 == State([Node(0, 0, 2, 4, 0)], false, 0, 2);
    assert ReadyIds(s2.nodes) == [];
    var s3 := StateAt(cfg, 3);
    assert s3 == State([Node(0, 0, 1, 4, 0)], false, 0, 2);
    assert ReadyIds(s3.nodes) == [];
    var s4 := StateAt(cfg, 4);
    assert s4 == State([Node(0, 0, 0, 4, 0)], false, 0, 2);
    assert ReadyIds(s4.nodes) == [0];
  }

  /**
   * Two nodes, L = 1, M = 1, R = [3, 5]: node 0 sends at tick 0, both
   * backoffs reach zero at tick 2 and the two nodes collide; each then has
   * collision count 1, window 5 and backoff GenerateBackoff(id, 3, 5).
   */
  lemma TwoNodeCollision()
    ensures var s := StateAt(Config(2, 1, [3, 5], 1), 3);
      && !s.channelOccupied && s.successes == 1
      && s.nodes[0] == Node(0, 1, GenerateBackoff(0, 3, 5), 5, 0)
      && s.nodes[1] == Node(1, 1, GenerateBackoff(1, 3, 5), 5, 0)
  {
    var cfg := Config(2, 1, [3, 5], 1);
    var s0 := StateAt(cfg, 0);
    assert s0.nodes == [Node(0, 0, 0, 3, 0), Node(1, 0, 1, 3, 0)];
    assert ReadyIds(s0.nodes) == [0];
    var s1 := StateAt(cfg, 1);
    assert s1 == State([Node(0, 0, 1, 3, 0), Node(1, 0, 1, 3, 0)], false, 0, 1);
    assert ReadyIds(s1.nodes) == [];
    var s2 := StateAt(cfg, 2);
    assert s2 == State([Node(0, 0, 0, 3, 0), Node(1, 0, 0, 3, 0)], false, 0, 1);
    CollisionTick(cfg, s2, 2, 0, 1);
  }

  /**
   * With at least two nodes and every window equal to 1, every backoff is
   * always zero, so every tick is a collision: the channel is never taken
   * and no tick is ever successful.
   */
  lemma {:induction false} UnitWindowsNeverDeliver(cfg: Config, t: nat)
    requires ValidConfig(cfg) && cfg.nodeCount >= 2
    requires forall k :: 0 <= k < |cfg.windows| ==> cfg.windows[k] == 1
    ensures !StateAt(cfg, t).channelOccupied && SuccessfulTicks(cfg, t) == 0
  {
    if t > 0 {
      UnitWindowsNeverDeliver(cfg, t - 1);
      var s := StateAt(cfg, t - 1);
      assert NodeInv(cfg, s.nodes[0]) && NodeInv(cfg, s.nodes[1]);
      CollisionTick(cfg, s, t - 1, 0, 1);
    }
  }
}
