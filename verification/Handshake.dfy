/** The handshake of the two boards (`handshake.cxx`): a greeting each second, and one with a sync mark after the first answer. */
module HandshakeModel {
  datatype Kind = Major | Ota

  datatype Greeting = Greeting(sync: bool, kind: Kind)

  /** One side. `heard` counts the greetings of its own kind it has received, `syncs` the sync marks it has sent. */
  datatype Peer = Peer(kind: Kind, responsed: bool, once: bool, connected: bool, heard: nat, syncs: nat)

  function Fresh(k: Kind): Peer { Peer(k, false, false, false, 0, 0) }

  /** The timer callback: the greeting it sends is the first after an answer, or a plain one. */
  function Tick(p: Peer): (Peer, Greeting) {
    var cond := !p.once && p.responsed;
    (p.(once := p.once || cond, syncs := p.syncs + if cond then 1 else 0), Greeting(cond, p.kind))
  }

  /** The receive callback */
  function Receive(p: Peer, g: Greeting): Peer {
    if g.kind != p.kind then p else p.(responsed := true, heard := p.heard + 1, connected := p.connected || g.sync)
  }

  // ---------------------------------------------------------------- two peers

  /** The link keeps all that was ever sent: it may deliver a greeting late, again, out of order, or never. */
  datatype Net = Net(a: Peer, b: Peer, fromA: set<Greeting>, fromB: set<Greeting>)

  datatype Op = TickA | TickB | ToA(g: Greeting) | ToB(g: Greeting)

  function Init(ka: Kind, kb: Kind): Net { Net(Fresh(ka), Fresh(kb), {}, {}) }

  predicate Enabled(n: Net, op: Op) { (op.ToA? ==> op.g in n.fromB) && (op.ToB? ==> op.g in n.fromA) }

  function Step(n: Net, op: Op): Net
    requires Enabled(n, op)
  {
    match op
    case TickA => var (a, g) := Tick(n.a); n.(a := a, fromA := n.fromA + {g})
    case TickB => var (b, g) := Tick(n.b); n.(b := b, fromB := n.fromB + {g})
    case ToA(g) => n.(a := Receive(n.a, g))
    case ToB(g) => n.(b := Receive(n.b, g))
  }

  /** One side, what it has sent, and the side that hears it. */
  predicate SideOk(p: Peer, sent: set<Greeting>, peer: Peer, peerSent: set<Greeting>) {
    && p.syncs == (if p.once then 1 else 0) && (p.once ==> p.responsed) && (p.responsed <==> p.heard > 0)
    && (forall g :: g in sent ==> g.kind == p.kind && (g.sync ==> p.once))
    && (p.connected ==> peer.once && peer.kind == p.kind)
    && (p.responsed ==> peerSent != {} && peer.kind == p.kind)
  }

  predicate Inv(n: Net) { SideOk(n.a, n.fromA, n.b, n.fromB) && SideOk(n.b, n.fromB, n.a, n.fromA) }

  lemma StepInv(n: Net, op: Op)
    requires Inv(n) && Enabled(n, op)
    ensures Inv(Step(n, op))
  {
  }

  ghost predicate RunOk(n: Net, ops: seq<Op>)
    decreases ops
  {
    ops == [] || (Enabled(n, ops[0]) && RunOk(Step(n, ops[0]), ops[1..]))
  }

  ghost function Run(n: Net, ops: seq<Op>): Net
    requires RunOk(n, ops)
    decreases ops
  {
    if ops == [] then n else Run(Step(n, ops[0]), ops[1..])
  }

  lemma {:induction false} RunInv(n: Net, ops: seq<Op>)
    requires RunOk(n, ops) && Inv(n)
    ensures Inv(Run(n, ops))
    decreases ops
  {
    if ops != [] {
      StepInv(n, ops[0]);
      RunInv(Step(n, ops[0]), ops[1..]);
    }
  }

  /**
   * In every run each side sends at most one sync mark, and a side is connected only after the other side, which is of
   * the same kind, has received a greeting from it.
   */
  lemma HandshakeSafe(ka: Kind, kb: Kind, ops: seq<Op>)
    requires RunOk(Init(ka, kb), ops)
    ensures var n := Run(Init(ka, kb), ops);
            && n.a.syncs <= 1 && n.b.syncs <= 1
            && (n.a.connected ==> n.a.kind == n.b.kind && n.b.heard > 0 && n.fromA != {})
            && (n.b.connected ==> n.a.kind == n.b.kind && n.a.heard > 0 && n.fromB != {})
  {
    RunInv(Init(ka, kb), ops);
  }

  lemma RunCons(n: Net, op: Op, ops: seq<Op>)
    requires Enabled(n, op) && RunOk(Step(n, op), ops)
    ensures RunOk(n, [op] + ops) && Run(n, [op] + ops) == Run(Step(n, op), ops)
  {
    assert ([op] + ops)[0] == op && ([op] + ops)[1..] == ops;
  }

  /** The shortest way to a connection on both sides. */
  lemma Connects(k: Kind)
    ensures exists ops :: RunOk(Init(k, k), ops) && Run(Init(k, k), ops).a.connected && Run(Init(k, k), ops).b.connected
  {
    var n1 := Step(Init(k, k), TickA);
    var n2 := Step(n1, ToB(Greeting(false, k)));
    var n3 := Step(n2, TickB);
    var n4 := Step(n3, ToA(Greeting(true, k)));
    var n5 := Step(n4, TickA);
    var last := ToB(Greeting(true, k));
    RunCons(n5, last, []);
    RunCons(n4, TickA, [last] + []);
    RunCons(n3, ToA(Greeting(true, k)), [TickA] + ([last] + []));
    var tail := [ToA(Greeting(true, k))] + ([TickA] + ([last] + []));
    RunCons(n2, TickB, tail);
    RunCons(n1, ToB(Greeting(false, k)), [TickB] + tail);
    RunCons(Init(k, k), TickA, [ToB(Greeting(false, k))] + ([TickB] + tail));
  }
}

/** One side of the handshake, updated by its callbacks. */
module Handshakes {
  import M = HandshakeModel

  class Handshake {
    const kind: M.Kind
    var responsed: bool
    var once: bool
    var connected: bool
    ghost var heard: nat
    ghost var syncs: nat

    ghost function View(): M.Peer
      reads this
    {
      M.Peer(kind, responsed, once, connected, heard, syncs)
    }

    constructor (k: M.Kind)
      ensures View() == M.Fresh(k)
    {
      kind, responsed, once, connected, heard, syncs := k, false, false, false, 0, 0;
    }

    method OnReceive(g: M.Greeting)
      modifies this
      ensures View() == M.Receive(old(View()), g)
    {
      if g.kind != kind {
        return;
      }
      heard := heard + 1;
      responsed := true;
      if g.sync {
        connected := true;
      }
    }

    method OnTimer() returns (g: M.Greeting)
      modifies this
      ensures (View(), g) == M.Tick(old(View()))
    {
      var cond := !once && responsed;
      if cond {
        once := true;
        syncs := syncs + 1;
      }
      g := M.Greeting(cond, kind);
    }
  }
}
