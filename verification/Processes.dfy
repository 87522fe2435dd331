// Zone processes side by side: each takes its node number from the zones it hosts and then issues
// ids on its own.
module Processes {
  import opened ZoneGrid
  import opened ZoneList
  import Ruid

  const NODE_ZONE_END: nat := 199
  const NODE_SEED: nat := 254
  const NODE_TOOL: nat := 255

  // A zone process: the ids of the zones it hosts, the smallest of them, and what its id generator did.
  datatype Process = Process(hosted: seq<nat>, min: nat, states: seq<Ruid.State>, actions: seq<Ruid.Action>)

  ghost predicate Started(p: Process) {
    && IsMin(p.hosted, p.min)
    && Ruid.Run(p.states, p.actions)
    && p.states[0].node == NODE_ZONE_BEGIN + p.min
  }

  function Issued(p: Process): seq<nat>
    requires |p.states| == |p.actions| + 1
  {
    p.states[|p.actions|].issued
  }

  // Two zone processes that host no zone in common never issue the same id, whatever their threads
  // and clocks do.
  lemma DisjointProcessesNeverCollide(p: Process, q: Process, i: nat, j: nat)
    requires Started(p) && Started(q)
    requires forall x :: x in p.hosted ==> x !in q.hosted
    requires i < |Issued(p)| && j < |Issued(q)|
    ensures Issued(p)[i] != Issued(q)[j]
  {
    hide Ruid.Run;
    Ruid.DifferentNodesNeverCollide(p.states, p.actions, q.states, q.actions, i, j);
  }

  // A node number a zone process may use: one the generator accepts, outside the world servers' band
  // and not reserved for seed data or tools.
  predicate FreeNode(node: nat) {
    100 <= node < Ruid.NODES && node != NODE_SEED && node != NODE_TOOL
  }

  // Whatever zones of the grid a process hosts, its node number is free if and only if the grid has
  // at most 153 zones; and it stays in the zone servers' band if and only if the grid has at most 99.
  lemma NodeNumbersAreFree(g: Grid)
    requires ValidGrid(g)
    ensures (forall hosted: seq<nat>, min: nat :: Hosts(g, hosted, min) ==> FreeNode(NODE_ZONE_BEGIN + min)) <==>
            g.zonesPerRow * g.rows <= 153
    ensures (forall hosted: seq<nat>, min: nat :: Hosts(g, hosted, min) ==> NODE_ZONE_BEGIN + min <= NODE_ZONE_END) <==>
            g.zonesPerRow * g.rows <= 99
  {
    var zones := g.zonesPerRow * g.rows;
    forall hosted: seq<nat>, min: nat | Hosts(g, hosted, min)
      ensures 1 <= min <= zones
    {
      var i :| 0 <= i < |hosted| && hosted[i] == min;
      OnGridIffCounted(g, hosted[i]);
    }
    if zones > 153 {
      HostsAlone(g, 154);
      assert Hosts(g, [154], 154) && !FreeNode(NODE_ZONE_BEGIN + 154);
    }
    if zones > 99 {
      HostsAlone(g, 100);
      assert Hosts(g, [100], 100);
    }
  }

  predicate Hosts(g: Grid, hosted: seq<nat>, min: nat)
    requires ValidGrid(g)
  {
    IsMin(hosted, min) && forall i :: 0 <= i < |hosted| ==> OnGrid(g, hosted[i])
  }

  lemma HostsAlone(g: Grid, id: nat)
    requires ValidGrid(g) && 1 <= id <= g.zonesPerRow * g.rows
    ensures Hosts(g, [id], id)
  {
    OnGridIffCounted(g, id);
  }
}
