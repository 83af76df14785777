# Broadcast network simulator, modelled in Dafny

This project models the core of a broadcast network simulator. The simulator
contains nodes and groups:

- A node belongs to any number of groups. A node's broadcast is heard by every
  other member of its groups.
- A node that sits in two or more groups acts as a router between them.

The network has a simulation clock. Each `run` does two things:

- it advances the clock by a fixed time increment;
- it updates, once, every node listed by the network's groups.

When a node is updated, its own clock moves forward by the same increment. When
that clock reaches the node's send deadline, the node does three things:

- it re-arms the deadline one latency ahead;
- it bumps its message counter;
- it broadcasts a packet carrying its name, its clock and its counter. The
  packet goes to every other node of its groups.

A packet is built from keyword fields. Each name of the packet kind's header
tuple is popped in turn. The first name that cannot be popped aborts the build
with an error that names the field.

The project has four modules, one per concern of `simulator.py`:

- `Packets` (`packets.dfy`) covers packet construction. It is pure functions
  with lemmas.
- `Topology` (`topology.dfy`) covers the two-sided membership relation between
  nodes and groups. The class `Membership` keeps two maps:
  - `groupsOf`: each node's `groups` list;
  - `nodesOf`: each group's `nodes` list.

  Its methods update these maps in place, as `Node_Group.__init__`, `add`,
  `remove` and `delete` update the lists. `NodesFromGroups` is the loop of
  `get_nodes_from_groups`.
- `Nodes` (`nodes.dfy`) covers one node's state as a value:
  - `Tick` is `update_state` minus the sending;
  - `Broadcast` is `broadcast`;
  - `Ticks` is a run of `k` updates.

  The lemmas about `Ticks` cover the send cadence and the packet stamps.
- `Simulator` (`simulator.dfy`) covers the class `Network`. It holds the
  membership, the list of groups, the simulation time, the increment, each
  node's state and a ghost inbox per node.
  - `UpdateState` updates one node and delivers its packet.
  - `Run` is one step of the network.

  The inbox stands in for `receive_packet`, which only prints. It records every
  packet a node receives, so the proofs can state who received what.

Times are whole milliseconds: the increment is 5 and the latencies are 25, 100
and 750. Node and group objects are identified by integer ids, which stand for
`id(self)`.

## Model

| member | source | states |
|---|---|---|
| Packets.ConstructSucceedsIff | simulator.py:63-70 | building a packet succeeds exactly when every header field was supplied and the header names no field twice |
| Packets.ConstructKeepsSuppliedValues | simulator.py:63-70 | a built packet keeps the kind's header; its attributes are exactly the header fields, each holding the supplied value; other keyword fields are dropped |
| Packets.ConstructNamesFirstMissing | simulator.py:65-69 | with distinct header names, a failed build reports the first missing header field, in header order |
| Packets.ConstructRejectsRepeatedField | simulator.py:65-67 | a header that names a field twice always fails, because the second pop finds the field gone |
| Topology.RemoveFirst | simulator.py:134-136 | `list.remove` leaves a list without `x` unchanged and makes a list holding `x` one shorter |
| Topology.RemoveFirstAt | simulator.py:134-136 | `list.remove` drops the first occurrence of `x` and keeps everything else in order |
| Topology.RemoveFirstCounts | simulator.py:134-136 | `list.remove` of a present element takes exactly one copy of it away and adds nothing |
| Topology.SweepKeepsOdds | simulator.py:146-148 | iterating a list of distinct nodes while removing each visited node from it leaves exactly the nodes at odd positions |
| Topology.SweepSurvivors | simulator.py:146-148 | after that iteration, the member at position `i` is still listed iff `i` is odd |
| Topology.DeleteKeepsSecondOfTwo | simulator.py:146-148 | deleting a group of two distinct members leaves the second member listed |
| Topology.AppendConsistent | simulator.py:127-131 | appending the group to the node's list and the node to the group's list keeps the two sides in step, occurrence for occurrence |
| Topology.RemoveConsistent | simulator.py:133-138 | removing one occurrence from each side keeps them in step; if the node lists the group, the group lists the node |
| Topology.AppendAllConsistent | simulator.py:121-125 | creating a group over a member list, and appending the group once per listing of each member, keeps the two sides in step |
| Topology.AppendAllLists | simulator.py:123-124 | after group creation, each node's list is its old list followed by one copy of the group per listing of the node |
| Topology.RemoveEachLists | simulator.py:147-148 | the removals of a group deletion touch only the visited nodes, and in their lists only copies of the group |
| Topology.Membership.AddNode | simulator.py:83 | a new node starts with an empty groups list; the relation stays consistent |
| Topology.Membership.NewGroup | simulator.py:118-125 | a new group keeps its member list, which may be empty; each node's list gains the group once per listing, at its end; the relation stays consistent |
| Topology.Membership.Add | simulator.py:127-131 | the group is appended to the node's list and the node to the group's list, with no duplicate check; the relation stays consistent |
| Topology.Membership.Remove | simulator.py:133-139 | succeeds iff the node lists the group, then removes one occurrence on each side; a failed removal changes nothing |
| Topology.Membership.Delete | simulator.py:146-149 | deletion as written: the group's list becomes what the remove-while-iterating loop leaves; nodes outside the group are untouched; no other group is removed from any list |
| Topology.Membership.DeleteAll | simulator.py:146-149 | corrected deletion: the group's list is emptied and no node lists the group any more; other memberships are unchanged |
| Topology.Membership.NodesFromGroups | simulator.py:19-23 | the result is the set of nodes listed by some group of the list, each once |
| Topology.Membership.MembersAreNodes | simulator.py:19-23 | every node a group lists is a known node |
| Topology.Membership.ListedBothWays | simulator.py:121-139 | a node lists a group exactly when the group lists the node |
| Topology.Membership.NeighboursSymmetric | simulator.py:96-97 | `m` hears `n`'s broadcasts exactly when `n` hears `m`'s |
| Nodes.NewNode | simulator.py:81-88 | a falsy or missing name is replaced by the node's id, and a truthy one is kept; a missing latency becomes the default of 100 ms; clock, deadline and counter start at zero |
| Nodes.Broadcast | simulator.py:101-104 | the counter goes up by one; the packet has the broadcast header, the node's name, the clock reading, the new counter and the data |
| Nodes.Tick | simulator.py:90-95 | the clock advances by the step; the node sends iff its deadline is at or before the new clock; a send re-arms the deadline one latency ahead and stamps the packet with the new clock and counter; otherwise deadline and counter are unchanged |
| Nodes.CadenceKept | simulator.py:93-94 | a deadline at most one latency ahead of the clock stays so after every forward update |
| Nodes.TicksAccount | simulator.py:90-104 | over `k` updates the clock moves by `k` steps; the counter grows by the number of packets sent; at most `k` packets are sent; they carry the node's name and consecutive counters |
| Nodes.TicksSpacing | simulator.py:93-94 | successive packets are stamped at least one latency apart, and the first no earlier than the starting deadline |
| Nodes.TicksStampRange | simulator.py:90-95 | every stamp lies between the clock after the first update and the clock after the last |
| Nodes.DueWithin | simulator.py:93 | a node whose deadline falls within `k` forward updates sends at least once |
| Nodes.NeverSilentForLatency | simulator.py:93-94 | a node keeping the cadence sends at least once in any span of updates one latency long |
| Nodes.SendsBounded | simulator.py:93-94 | over `k` updates, a node with positive latency sends at most one packet per latency of elapsed time, plus one |
| Nodes.FirstUpdateSends | simulator.py:82 | a fresh node, whose deadline is zero, sends on its first forward update |
| Simulator.ReceivedSplit | simulator.py:35-36 | what a node receives when a set of nodes is updated does not depend on the order of the updates |
| Simulator.DeliveredStep | simulator.py:96-99 | updating one more node adds what that node sends to the deliveries owed |
| Simulator.Network.constructor | simulator.py:27-29 | a network starts at time zero, with increment 5 ms, no groups, no nodes and an empty membership |
| Simulator.Network.AddNode | simulator.py:81-88 | a node is created with the name and latency fallbacks, in no group and with an empty inbox |
| Simulator.Network.AddGroup | simulator.py:121-125 | the new group is appended to the network's groups and registered with its members; node states and inboxes are unchanged |
| Simulator.Network.Deliver | simulator.py:96-99 | every other member of the sender's groups receives the packet exactly once; no one else, and not the sender, receives anything |
| Simulator.Network.UpdateState | simulator.py:90-99 | the node's state follows `Tick`; a packet it sends reaches each other member of its groups exactly once |
| Simulator.Network.RunStep | simulator.py:35-36 | one more node is updated, and both the updates done and the deliveries owed account for it |
| Simulator.Network.UpdateAll | simulator.py:35-36 | each node of the set is updated exactly once, in any order; each inbox gains exactly what those nodes send to it |
| Simulator.Network.Run | simulator.py:31-36 | simulation time advances by the increment; each node listed by the groups is updated exactly once by the increment, and every other node is left alone; each inbox gains exactly the packets the updated nodes deliver to it |

## Left out

- Randomness is not modelled: `generate_random_network`, `generate_random_node`, `generate_random_group` and `unit_test`, because they only draw random nodes and groups and drive runs. The latency categories appear only as constants.
- Printing, `alert` and `__str__` are not modelled, because they only produce text.
- `receive_packet` only prints. It is modelled as a ghost inbox that logs every received packet.
- The calls into the `pride` base class (`super().__init__`, `add`, `remove_node`, `delete`) are not modelled. That base class is not part of this model.
- Floating-point times become whole milliseconds. Rounding of the float sums is not modelled.
- Node and group objects become map entries keyed by integer ids. Object identity (`is not self`, `id(self)`) becomes id equality.
- A network is built with `AddNode` and `AddGroup` rather than from a ready list of group objects.
- `Node_Group.remove` of a group the node does not list raises `ValueError` in the source. `Topology.Membership.Remove` models that as returning `false` and changing nothing.
- `Topology.Membership.Delete` does not pin down which copies of the group remain in the surviving members' lists. It only states that no other group is removed from any list.
- Groups are lists, not sets: a node can be listed in a group more than once. The model follows the code: `Membership` counts occurrences, and `NodesFromGroups` returns a set, as `get_nodes_from_groups` does.

## Findings

| source | as written | input that shows it | evidently intended | confidence | as-written member | corrected member |
|---|---|---|---|---|---|---|
| simulator.py:146-148 | `delete` iterates over `self.nodes` while `remove` takes nodes out of that same list, so the iteration skips every other member | a group whose list holds distinct nodes `[a, b]`: `a` is removed, and `b` shifts to position 0 and is never visited, so `b` stays listed and still lists the group | every member is detached from the deleted group | not executed | Topology.Membership.Delete (with Topology.DeleteKeepsSecondOfTwo and Topology.SweepSurvivors) | Topology.Membership.DeleteAll |
