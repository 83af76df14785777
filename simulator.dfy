/**
 * The broadcast network: a list of groups, a simulation clock and one state per
 * node. Each run advances the clock by the time increment and updates every node
 * listed by the network's groups once; a node that sends delivers its packet to
 * every other member of the groups it is in. Delivery only records the packet in
 * the receiver's inbox, a log kept for the proofs.
 */
module Simulator {
  import opened Packets
  import opened Topology
  import opened Nodes

  /** A set is empty or has a member. */
  lemma EmptyOrHasMember(S: set<NodeId>)
    ensures S == {} || exists s :: s in S
  {
    if forall s :: s !in S {
      assert S == {};
    }
  }

  /** A member of a non-empty set. */
  lemma SomeMember(S: set<NodeId>) returns (s: NodeId)
    requires S != {}
    ensures s in S
  {
    EmptyOrHasMember(S);
    s :| s in S;
  }

  /** Taking `s` out of the nodes still to update adds it to those done. */
  lemma MoveToDone(all: set<NodeId>, rest: set<NodeId>, s: NodeId)
    requires s in rest && rest <= all
    ensures all - (rest - {s}) == (all - rest) + {s}
  {
  }

  /** Appending `d` to a log that extends `before` by a part holding `r` extends
      it by a part holding `r` and `d`. */
  lemma InboxGrows(before: seq<Packet>, prev: seq<Packet>, now: seq<Packet>, d: seq<Packet>)
    requires before <= prev && now == prev + d
    ensures before <= now && now[|before|..] == prev[|before|..] + d
  {
    assert now[..|before|] == prev[..|before|];
  }

  /** Who hears whom: for each node, the other members of its groups. */
  type Hearing = map<NodeId, set<NodeId>>

  /** The packets `m` receives from node `s` when `s` is updated by `step` from
      its state in `before`. */
  ghost function Contribution(s: NodeId, m: NodeId, before: map<NodeId, NodeState>, step: int, hear: Hearing): multiset<Packet>
  {
    if s in before && s in hear && m in hear[s] && Tick(before[s], step).1.Some?
    then multiset{Tick(before[s], step).1.value}
    else multiset{}
  }

  /** The packets `m` receives when every node of `S` is updated once, in any order. */
  ghost function Received(S: set<NodeId>, m: NodeId, before: map<NodeId, NodeState>, step: int, hear: Hearing): multiset<Packet>
    decreases S
  {
    if S == {} then multiset{}
    else
      EmptyOrHasMember(S);
      var s :| s in S;
      Received(S - {s}, m, before, step, hear) + Contribution(s, m, before, step, hear)
  }

  /** `Received` does not depend on the order: any node can be taken out first. */
  lemma ReceivedSplit(S: set<NodeId>, s: NodeId, m: NodeId, before: map<NodeId, NodeState>, step: int, hear: Hearing)
    requires s in S
    ensures Received(S, m, before, step, hear) == Received(S - {s}, m, before, step, hear) + Contribution(s, m, before, step, hear)
    decreases S
  {
    var t :| t in S && Received(S, m, before, step, hear) == Received(S - {t}, m, before, step, hear) + Contribution(t, m, before, step, hear);
    if t != s {
      ReceivedSplit(S - {t}, s, m, before, step, hear);
      ReceivedSplit(S - {s}, t, m, before, step, hear);
      assert S - {t} - {s} == S - {s} - {t};
    }
  }

  /** The nodes of `done` have been updated once by `step` from their states in
      `nodes0`; the others are as they were. */
  ghost predicate Stepped(done: set<NodeId>, nodes: map<NodeId, NodeState>, nodes0: map<NodeId, NodeState>, step: int) {
    && nodes.Keys == nodes0.Keys
    && forall m :: m in nodes ==> nodes[m] == (if m in done then Tick(nodes0[m], step).0 else nodes0[m])
  }

  /** Every inbox has gained, after its contents in `inbox0`, exactly what the
      nodes of `done` delivered to it. */
  ghost predicate Delivered(done: set<NodeId>, inbox: map<NodeId, seq<Packet>>, inbox0: map<NodeId, seq<Packet>>,
                            nodes0: map<NodeId, NodeState>, step: int, hear: Hearing) {
    && inbox.Keys == inbox0.Keys
    && forall m :: m in inbox ==> (inbox0[m] <= inbox[m] &&
         multiset(inbox[m][|inbox0[m]|..]) == Received(done, m, nodes0, step, hear))
  }

  /** Before any node is updated, no delivery is owed. */
  lemma NothingDelivered(inbox: map<NodeId, seq<Packet>>, nodes0: map<NodeId, NodeState>, step: int, hear: Hearing)
    ensures Delivered({}, inbox, inbox, nodes0, step, hear)
  {
    forall m | m in inbox ensures multiset(inbox[m][|inbox[m]|..]) == Received({}, m, nodes0, step, hear) {
      assert inbox[m][|inbox[m]|..] == [];
    }
  }

  /** Updating one more node `s` extends the deliveries by what `s` sends. */
  lemma DeliveredStep(done: set<NodeId>, s: NodeId, prev: map<NodeId, seq<Packet>>, inbox: map<NodeId, seq<Packet>>,
                      inbox0: map<NodeId, seq<Packet>>, nodes0: map<NodeId, NodeState>, step: int, hear: Hearing)
    requires Delivered(done, prev, inbox0, nodes0, step, hear) && s !in done
    requires s in nodes0 && s in hear && inbox.Keys == prev.Keys
    requires forall m :: m in inbox ==>
      inbox[m] == prev[m] + (if Tick(nodes0[s], step).1.Some? && m in hear[s] then [Tick(nodes0[s], step).1.value] else [])
    ensures Delivered(done + {s}, inbox, inbox0, nodes0, step, hear)
  {
    forall m | m in inbox
      ensures inbox0[m] <= inbox[m]
      ensures multiset(inbox[m][|inbox0[m]|..]) == Received(done + {s}, m, nodes0, step, hear)
    {
      ReceivedSplit(done + {s}, s, m, nodes0, step, hear);
      assert done + {s} - {s} == done;
      var d := if Tick(nodes0[s], step).1.Some? && m in hear[s] then [Tick(nodes0[s], step).1.value] else [];
      InboxGrows(inbox0[m], prev[m], inbox[m], d);
    }
  }

  /** Updating one more node `s` moves it from the nodes to update to those done. */
  lemma SteppedStep(done: set<NodeId>, s: NodeId, before: map<NodeId, NodeState>, after: map<NodeId, NodeState>,
                    nodes0: map<NodeId, NodeState>, step: int)
    requires Stepped(done, before, nodes0, step) && s !in done && s in before
    requires after == before[s := Tick(before[s], step).0]
    ensures Stepped(done + {s}, after, nodes0, step)
  {
  }

  class Network {
    const topo: Membership
    var groups: seq<GroupId>
    var simulationTime: int
    var timeIncrement: int
    var nodes: map<NodeId, NodeState>
    ghost var inbox: map<NodeId, seq<Packet>>

    ghost predicate Valid()
      reads this, topo
    {
      && topo.Valid()
      && topo.groupsOf.Keys == nodes.Keys
      && inbox.Keys == nodes.Keys
      && (forall g :: g in groups ==> g in topo.nodesOf)
    }

    /** An empty network at time zero with the default increment. */
    constructor ()
      ensures Valid() && fresh(topo)
      ensures topo.groupsOf == map[] && topo.nodesOf == map[]
      ensures groups == [] && nodes == map[] && inbox == map[]
      ensures simulationTime == 0 && timeIncrement == DefaultTimeIncrement
    {
      topo := new Membership();
      groups := [];
      simulationTime := 0;
      timeIncrement := DefaultTimeIncrement;
      nodes := map[];
      inbox := map[];
    }

    /** Creates node `n` in no group, with an empty inbox. */
    method AddNode(n: NodeId, name: Option<Value>, latency: Option<int>)
      requires Valid() && n !in nodes
      modifies this, topo
      ensures Valid()
      ensures nodes == old(nodes)[n := NewNode(n, name, latency)]
      ensures inbox == old(inbox)[n := []]
      ensures topo.groupsOf == old(topo.groupsOf)[n := []] && topo.nodesOf == old(topo.nodesOf)
      ensures groups == old(groups)
      ensures simulationTime == old(simulationTime) && timeIncrement == old(timeIncrement)
    {
      topo.AddNode(n);
      nodes := nodes[n := NewNode(n, name, latency)];
      inbox := inbox[n := []];
    }

    /** Creates group `g` over `members` and appends it to the network's groups. */
    method AddGroup(g: GroupId, members: seq<NodeId>)
      requires Valid() && g !in topo.nodesOf
      requires forall m :: m in members ==> m in nodes
      modifies this, topo
      ensures Valid()
      ensures groups == old(groups) + [g]
      ensures topo.nodesOf == old(topo.nodesOf)[g := members]
      ensures topo.groupsOf.Keys == old(topo.groupsOf).Keys
      ensures forall n :: n in topo.groupsOf ==> topo.groupsOf[n] == old(topo.groupsOf[n]) + Repeat(g, Count(members, n))
      ensures nodes == old(nodes) && inbox == old(inbox)
      ensures simulationTime == old(simulationTime) && timeIncrement == old(timeIncrement)
    {
      topo.NewGroup(g, members);
      groups := groups + [g];
    }

    /** What `m` receives when node `n` produced `out`: the packet, if one was
        sent and `m` is another member of one of `n`'s groups. */
    ghost function Delivery(n: NodeId, m: NodeId, out: Option<Packet>): seq<Packet>
      reads topo
      requires n in topo.groupsOf
    {
      if out.Some? && m in topo.Neighbours(n) then [out.value] else []
    }

    /** Sends packet `p` from node `n` to every other member of `n`'s groups,
        each exactly once. */
    method Deliver(n: NodeId, p: Packet)
      requires Valid() && n in nodes
      modifies this`inbox
      ensures Valid()
      ensures inbox.Keys == old(inbox).Keys
      ensures forall m :: m in inbox ==> inbox[m] == old(inbox[m]) + (if m in topo.Neighbours(n) then [p] else [])
    {
      var recipients := topo.NodesFromGroups(topo.groupsOf[n]);
      topo.MembersAreNodes(topo.groupsOf[n]);
      var rest := recipients;
      ghost var box, reached := inbox, {};
      while rest != {}
        invariant rest <= recipients && reached == recipients - rest
        invariant box.Keys == inbox.Keys && recipients <= box.Keys
        invariant forall m :: m in box ==> box[m] == inbox[m] + (if m in reached && m != n then [p] else [])
        modifies {}
        decreases rest
      {
        var m :| m in rest;
        if m != n {
          box := box[m := box[m] + [p]];
        }
        MoveToDone(recipients, rest, m);
        rest := rest - {m};
        reached := reached + {m};
      }
      assert reached == topo.Members(topo.groupsOf[n]);
      inbox := box;
    }

    /** One update of node `n` by `step` milliseconds: its state follows `Tick`, and
        a packet it sends reaches each other member of its groups exactly once. */
    method UpdateState(n: NodeId, step: int)
      requires Valid() && n in nodes
      modifies this
      ensures Valid()
      ensures nodes == old(nodes)[n := Tick(old(nodes[n]), step).0]
      ensures inbox.Keys == old(inbox).Keys
      ensures forall m :: m in inbox ==> inbox[m] == old(inbox[m]) + Delivery(n, m, Tick(old(nodes[n]), step).1)
      ensures groups == old(groups)
      ensures simulationTime == old(simulationTime) && timeIncrement == old(timeIncrement)
    {
      var t := Tick(nodes[n], step);
      nodes := nodes[n := t.0];
      assert nodes.Keys == old(nodes).Keys;
      if t.1.Some? {
        Deliver(n, t.1.value);
      }
    }

    /** Who hears whom in the current membership. */
    ghost function Hearers(): (h: Hearing)
      reads topo
      ensures h.Keys == topo.groupsOf.Keys
      ensures forall n :: n in h ==> h[n] == topo.Neighbours(n)
    {
      map n | n in topo.groupsOf :: topo.Neighbours(n)
    }

    /** One step of a run: node `s`, not yet updated, is updated. */
    method RunStep(s: NodeId, step: int, ghost done: set<NodeId>, ghost nodes0: map<NodeId, NodeState>, ghost inbox0: map<NodeId, seq<Packet>>)
      requires Valid() && s in nodes && s !in done
      requires Stepped(done, nodes, nodes0, step) && Delivered(done, inbox, inbox0, nodes0, step, Hearers())
      modifies this
      ensures Valid()
      ensures Stepped(done + {s}, nodes, nodes0, step) && Delivered(done + {s}, inbox, inbox0, nodes0, step, Hearers())
      ensures groups == old(groups)
      ensures simulationTime == old(simulationTime) && timeIncrement == old(timeIncrement)
    {
      ghost var prev, before := inbox, nodes;
      UpdateState(s, step);
      SteppedStep(done, s, before, nodes, nodes0, step);
      ghost var hear := Hearers();
      assert hear[s] == topo.Neighbours(s) && before[s] == nodes0[s];
      DeliveredStep(done, s, prev, inbox, inbox0, nodes0, step, hear);
    }

    /** Updates each node of `all` once, in an arbitrary order. */
    method UpdateAll(all: set<NodeId>, step: int)
      requires Valid() && all <= nodes.Keys
      modifies this
      ensures Valid()
      ensures Stepped(all, nodes, old(nodes), step)
      ensures Delivered(all, inbox, old(inbox), old(nodes), step, Hearers())
      ensures groups == old(groups)
      ensures simulationTime == old(simulationTime) && timeIncrement == old(timeIncrement)
    {
      var rest := all;
      ghost var done: set<NodeId> := {};
      NothingDelivered(inbox, nodes, step, Hearers());
      while rest != {}
        invariant Valid()
        invariant rest <= all && done == all - rest
        invariant groups == old(groups)
        invariant simulationTime == old(simulationTime) && timeIncrement == old(timeIncrement)
        invariant Stepped(done, nodes, old(nodes), step)
        invariant Delivered(done, inbox, old(inbox), old(nodes), step, Hearers())
        decreases rest
      {
        ghost var w := SomeMember(rest);
        var s :| s in rest;
        RunStep(s, step, done, old(nodes), old(inbox));
        MoveToDone(all, rest, s);
        rest := rest - {s};
        done := done + {s};
      }
      assert done == all;
    }

    /** One run: the simulation time advances by the increment, every node listed
        by the network's groups is updated exactly once by the increment and every
        other node is left alone, and each inbox gains exactly the packets the
        updated nodes deliver to it. */
    method Run()
      requires Valid()
      modifies this
      ensures Valid()
      ensures simulationTime == old(simulationTime) + old(timeIncrement)
      ensures timeIncrement == old(timeIncrement) && groups == old(groups)
      ensures Stepped(topo.Members(groups), nodes, old(nodes), timeIncrement)
      ensures Delivered(topo.Members(groups), inbox, old(inbox), old(nodes), timeIncrement, Hearers())
    {
      var inc := timeIncrement;
      simulationTime := simulationTime + inc;
      var all := topo.NodesFromGroups(groups);
      topo.MembersAreNodes(groups);
      UpdateAll(all, inc);
    }
  }
}
