/**
 * A broadcasting node of the simulator, as a value.
 *
 * A node has a clock that the network advances by a fixed step, and a send
 * deadline: whenever its clock reaches the deadline it re-arms the deadline one
 * latency ahead, bumps its message counter and broadcasts a packet stamped with
 * its name, the clock reading and the counter. Times are whole milliseconds.
 */
module Nodes {
  import opened Packets

  /** Network step: 0.005 s. */
  const DefaultTimeIncrement: int := 5
  /** The three latency categories a random node draws from: 0.025 s, 0.1 s, 0.75 s. */
  const FastLatency: int := 25
  const NormalLatency: int := 100
  const SlowLatency: int := 750
  /** Latency of a node built without one: 0.1 s. */
  const DefaultLatency: int := 100

  /** The state of one node: name, clock, send deadline, latency and message counter. */
  datatype NodeState = NodeState(name: Value, clock: int, nextSendTime: int, latency: int, counter: int)

  /** Python truthiness of a name. */
  predicate Truthy(v: Value) {
    match v
    case Int(i) => i != 0
    case Str(s) => s != ""
  }

  /** A fresh node: a falsy or absent name is replaced by the node's identity;
      an absent latency is the default one; clock, deadline and counter start
      at zero. */
  function NewNode(id: int, name: Option<Value>, latency: Option<int>): (st: NodeState)
    ensures name.Some? && Truthy(name.value) ==> st.name == name.value
    ensures !(name.Some? && Truthy(name.value)) ==> st.name == Int(id)
    ensures latency.Some? ==> st.latency == latency.value
    ensures latency.None? ==> st.latency == DefaultLatency
    ensures st.clock == 0 && st.counter == 0 && st.nextSendTime == 0
  {
    var n := if name.Some? && Truthy(name.value) then name.value else Int(id);
    var l := if latency.Some? then latency.value else DefaultLatency;
    NodeState(n, 0, 0, l, 0)
  }

  /** The keyword fields of the packet a node broadcasts. */
  function BroadcastFields(name: Value, timestamp: int, counter: int, data: Value): map<string, Value> {
    map["sender_id" := name, "timestamp" := Int(timestamp), "message_counter" := Int(counter), "data" := data]
  }

  /** The clock reading a packet carries. */
  function Stamp(p: Packet): int {
    if "timestamp" in p.attrs && p.attrs["timestamp"].Int? then p.attrs["timestamp"].i else 0
  }

  /** The counter value a packet carries. */
  function Serial(p: Packet): int {
    if "message_counter" in p.attrs && p.attrs["message_counter"].Int? then p.attrs["message_counter"].i else 0
  }

  /** Counts one more message and builds the broadcast packet for it. Building
      cannot fail, since every header field is supplied. */
  function Broadcast(st: NodeState, data: Value): (r: (NodeState, Packet))
    ensures r.0 == st.(counter := st.counter + 1)
    ensures r.1.header == BroadcastHeader
    ensures r.1.attrs == BroadcastFields(st.name, st.clock, st.counter + 1, data)
    ensures Stamp(r.1) == st.clock && Serial(r.1) == st.counter + 1
  {
    var kwargs := BroadcastFields(st.name, st.clock, st.counter + 1, data);
    ConstructSucceedsIff(BroadcastHeader, kwargs);
    ConstructKeepsSuppliedValues(BroadcastHeader, kwargs);
    (st.(counter := st.counter + 1), Construct(BroadcastHeader, kwargs).value)
  }

  /** One state update of `step` milliseconds: the packet sent, if any. */
  function Tick(st: NodeState, step: int): (r: (NodeState, Option<Packet>))
    ensures r.0.clock == st.clock + step
    ensures r.0.name == st.name && r.0.latency == st.latency
    ensures r.1.Some? <==> st.nextSendTime <= st.clock + step
    ensures r.1.Some? ==> r.0.nextSendTime == r.0.clock + st.latency && r.0.counter == st.counter + 1
    ensures r.1.Some? ==> r.1.value.attrs == BroadcastFields(st.name, r.0.clock, r.0.counter, Str(""))
    ensures r.1.Some? ==> Stamp(r.1.value) == r.0.clock && Serial(r.1.value) == r.0.counter
    ensures r.1.None? ==> r.0.nextSendTime == st.nextSendTime && r.0.counter == st.counter
  {
    var clock := st.clock + step;
    if st.nextSendTime <= clock then
      var b := Broadcast(st.(clock := clock, nextSendTime := clock + st.latency), Str(""));
      (b.0, Some(b.1))
    else
      (st.(clock := clock), None)
  }

  /** The send deadline is never more than one latency ahead of the clock. */
  predicate Cadence(st: NodeState) {
    st.nextSendTime <= st.clock + st.latency
  }

  /** Every forward step keeps the cadence. */
  lemma CadenceKept(st: NodeState, step: int)
    requires Cadence(st) && step >= 0
    ensures Cadence(Tick(st, step).0)
  {
  }

  /** `k` updates of `step` milliseconds each, with the packets sent in order. */
  function Ticks(st: NodeState, step: int, k: nat): (NodeState, seq<Packet>)
    decreases k
  {
    if k == 0 then (st, [])
    else
      var t := Tick(st, step);
      var rest := Ticks(t.0, step, k - 1);
      (rest.0, (if t.1.Some? then [t.1.value] else []) + rest.1)
  }

  /** Over `k` updates the clock moves by `k * step`, the counter by the number of
      packets sent, and the packets carry the node's name and consecutive counters. */
  lemma {:induction false} TicksAccount(st: NodeState, step: int, k: nat)
    ensures Ticks(st, step, k).0.clock == st.clock + k * step
    ensures Ticks(st, step, k).0.counter == st.counter + |Ticks(st, step, k).1|
    ensures Ticks(st, step, k).0.name == st.name && Ticks(st, step, k).0.latency == st.latency
    ensures |Ticks(st, step, k).1| <= k
    ensures forall i :: 0 <= i < |Ticks(st, step, k).1| ==>
      Serial(Ticks(st, step, k).1[i]) == st.counter + i + 1 &&
      "sender_id" in Ticks(st, step, k).1[i].attrs && Ticks(st, step, k).1[i].attrs["sender_id"] == st.name
    decreases k
  {
    if k > 0 {
      var t := Tick(st, step);
      TicksAccount(t.0, step, k - 1);
      assert st.clock + k * step == t.0.clock + (k - 1) * step;
    }
  }

  /** Packets are at least one latency apart, and the first is no earlier than the
      deadline the node started with. */
  lemma {:induction false} TicksSpacing(st: NodeState, step: int, k: nat)
    ensures |Ticks(st, step, k).1| > 0 ==> Stamp(Ticks(st, step, k).1[0]) >= st.nextSendTime
    ensures forall i :: 0 <= i < |Ticks(st, step, k).1| - 1 ==>
      Stamp(Ticks(st, step, k).1[i + 1]) >= Stamp(Ticks(st, step, k).1[i]) + st.latency
    decreases k
  {
    if k > 0 {
      var t := Tick(st, step);
      var rest := Ticks(t.0, step, k - 1).1;
      TicksSpacing(t.0, step, k - 1);
      if t.1.Some? {
        var s := [t.1.value] + rest;
        assert Ticks(st, step, k).1 == s;
        forall i | 0 <= i < |s| - 1 ensures Stamp(s[i + 1]) >= Stamp(s[i]) + st.latency {
          if i > 0 { assert s[i] == rest[i - 1] && s[i + 1] == rest[i]; }
        }
      } else {
        assert Ticks(st, step, k).1 == rest;
      }
    }
  }

  /** A node whose deadline falls within `k` forward steps sends at least once. */
  lemma {:induction false} DueWithin(st: NodeState, step: int, k: nat)
    requires k >= 1 && step >= 0 && st.nextSendTime <= st.clock + k * step
    ensures |Ticks(st, step, k).1| >= 1
    decreases k
  {
    var t := Tick(st, step);
    if t.1.None? {
      assert st.clock + k * step == t.0.clock + (k - 1) * step;
      DueWithin(t.0, step, k - 1);
    }
  }

  /** A node that keeps the cadence sends within any span of updates at least one
      latency long. */
  lemma NeverSilentForLatency(st: NodeState, step: int, k: nat)
    requires Cadence(st) && step >= 0 && st.latency > 0 && k * step >= st.latency
    ensures |Ticks(st, step, k).1| >= 1
  {
    DueWithin(st, step, k);
  }

  /** Packets are stamped with clock readings after the first update and no later
      than the last one. */
  lemma {:induction false} TicksStampRange(st: NodeState, step: int, k: nat)
    requires step >= 0
    ensures forall i :: 0 <= i < |Ticks(st, step, k).1| ==>
      st.clock + step <= Stamp(Ticks(st, step, k).1[i]) <= st.clock + k * step
    decreases k
  {
    if k > 0 {
      var t := Tick(st, step);
      var rest := Ticks(t.0, step, k - 1).1;
      TicksStampRange(t.0, step, k - 1);
      assert st.clock + k * step == t.0.clock + (k - 1) * step;
      var s := Ticks(st, step, k).1;
      if t.1.Some? {
        assert s == [t.1.value] + rest;
      } else {
        assert s == rest;
      }
      forall i | 0 <= i < |s| ensures st.clock + step <= Stamp(s[i]) <= st.clock + k * step {
        if t.1.Some? && i > 0 { assert s[i] == rest[i - 1]; }
      }
    }
  }

  /** The `i`-th packet is at least `i` latencies after the first. */
  lemma {:induction false} StampsGrow(s: seq<Packet>, latency: int, i: nat)
    requires forall j :: 0 <= j < |s| - 1 ==> Stamp(s[j + 1]) >= Stamp(s[j]) + latency
    requires i < |s|
    ensures Stamp(s[i]) >= Stamp(s[0]) + i * latency
  {
    if i > 0 {
      StampsGrow(s, latency, i - 1);
    }
  }

  /** Rate limit: over `k` forward updates a node with positive latency sends at
      most one packet per latency, plus one. */
  lemma SendsBounded(st: NodeState, step: int, k: nat)
    requires k >= 1 && step >= 0 && st.latency > 0
    ensures (|Ticks(st, step, k).1| - 1) * st.latency <= (k - 1) * step
  {
    var s := Ticks(st, step, k).1;
    if |s| > 0 {
      TicksSpacing(st, step, k);
      TicksStampRange(st, step, k);
      StampsGrow(s, st.latency, |s| - 1);
      var first, last := Stamp(s[0]), Stamp(s[|s| - 1]);
      assert first >= st.clock + step && last <= st.clock + k * step;
      assert last >= first + (|s| - 1) * st.latency;
      assert k * step - step == (k - 1) * step;
    } else {
      assert (k - 1) * step >= 0;
    }
  }

  /** A fresh node sends on its first update. */
  lemma FirstUpdateSends(id: int, name: Option<Value>, latency: Option<int>, step: int)
    requires step >= 0
    ensures Tick(NewNode(id, name, latency), step).1.Some?
  {
  }
}
