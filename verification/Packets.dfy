/** The emitter and the absorber of `packet.cxx`, on the wire, and emitters of several threads taking turns. */
module Packets {
  import opened Common
  import opened LittleEndian
  import opened PacketModel

  class Uart {
    var wire: Atoms    // all bytes sent

    constructor ()
      ensures wire == []
    {
      wire := [];
    }

    method Send(b: Byte)
      modifies this
      ensures wire == old(wire) + [b]
    {
      wire := wire + [b];
    }
  }

  /** An emitter between its creation, which sends head and hash, and its destruction, which sends the checksum. */
  class Emitter {
    const uart: Uart
    const p: Protocol
    var crc: Crc
    ghost var sent: Atoms    // what this emitter has sent; others may have sent in between

    ghost predicate Valid()
      reads this
    {
      crc == Sum(p, CRC_INIT, sent)
    }

    constructor (u: Uart, proto: Protocol, h: nat)
      modifies u
      ensures Valid() && uart == u && p == proto && sent == Opening(h)
      ensures (u.wire, crc) == SendAtoms(proto, old(u.wire), CRC_INIT, Opening(h))
    {
      uart, p, crc, sent := u, proto, CRC_INIT, [];
      new;
      WriteAtom(HEAD);
      assert [] + [HEAD] == [HEAD];
      WriteData(Field(h, 4));
      SumJoin(p, CRC_INIT, [HEAD], Stuff(Field(h, 4)));
      Assoc(old(u.wire), [HEAD], Stuff(Field(h, 4)));
    }

    method WriteAtom(b: Byte)
      requires Valid()
      modifies this`crc, this`sent, uart
      ensures Valid() && sent == old(sent) + [b] && (uart.wire, crc) == SendAtoms(p, old(uart.wire), old(crc), [b])
    {
      uart.Send(b);
      crc := p.step(crc, b);
      SumJoin(p, CRC_INIT, sent, [b]);
      sent := sent + [b];
    }

    /** `writeByte` of a data byte */
    method WriteByte(b: Byte)
      requires Valid()
      modifies this`crc, this`sent, uart
      ensures Valid() && sent == old(sent) + Stuff1(b) && (uart.wire, crc) == SendAtoms(p, old(uart.wire), old(crc), Stuff1(b))
    {
      if b == HEAD || b == ESCAPE {
        WriteAtom(ESCAPE);
        SumJoin(p, old(crc), [ESCAPE], [b]);
        Assoc(old(uart.wire), [ESCAPE], [b]);
        Assoc(old(sent), [ESCAPE], [b]);
        assert [ESCAPE] + [b] == Stuff1(b);
      }
      WriteAtom(b);
    }

    method WriteData(d: seq<Byte>)
      requires Valid()
      modifies this`crc, this`sent, uart
      ensures Valid() && sent == old(sent) + Stuff(d) && (uart.wire, crc) == SendAtoms(p, old(uart.wire), old(crc), Stuff(d))
    {
      var i := 0;
      assert d[..0] == [] && old(sent) + [] == old(sent) && old(uart.wire) + [] == old(uart.wire);
      while i < |d|
        invariant i <= |d| && Valid() && sent == old(sent) + Stuff(d[..i])
        invariant (uart.wire, crc) == SendAtoms(p, old(uart.wire), old(crc), Stuff(d[..i]))
      {
        StuffSnoc(old(sent), d, i);
        StuffSnoc(old(uart.wire), d, i);
        SumJoin(p, old(crc), Stuff(d[..i]), Stuff1(d[i]));
        WriteByte(d[i]);
        i := i + 1;
      }
      assert d[..i] == d;
    }

    /** The destructor: the checksum of what was sent. */
    method Close()
      requires Valid()
      modifies this`crc, this`sent, uart
      ensures uart.wire == old(uart.wire) + Stuff(Field(p.final(old(crc)), 2))
    {
      var crcActual := p.final(crc);
      WriteData(Field(crcActual, 2));
    }
  }

  lemma StuffSnoc(before: Atoms, d: seq<Byte>, i: nat)
    requires i < |d|
    ensures before + Stuff(d[..i]) + Stuff1(d[i]) == before + Stuff(d[..i + 1])
    ensures Stuff(d[..i]) + Stuff1(d[i]) == Stuff(d[..i + 1])
  {
    StuffJoin(d[..i], [d[i]]);
    assert d[..i] + [d[i]] == d[..i + 1] && Stuff([d[i]]) == Stuff1(d[i]);
    Assoc(before, Stuff(d[..i]), Stuff1(d[i]));
  }

  /** `Packet::emit` */
  method Emit(u: Uart, p: Protocol, h: nat, d: seq<Byte>)
    modifies u
    ensures u.wire == old(u.wire) + Frame(p, h, d)
  {
    var e := new Emitter(u, p, h);
    e.WriteData(d);
    e.Close();
    Assoc(old(u.wire), Opening(h), Stuff(d));
    Assoc(old(u.wire), Body(h, d), Stuff(Field(Check(p, Body(h, d)), 2)));
  }

  // ---------------------------------------------------------------- absorbing

  class Absorber {
    const p: Protocol
    var input: Atoms        // bytes not yet received
    var crc: Crc
    ghost const all: Atoms

    ghost predicate Valid()
      reads this
    {
      |input| <= |all| && input == all[|all| - |input|..] && crc == Sum(p, CRC_INIT, all[..|all| - |input|])
    }

    constructor (proto: Protocol, s: Atoms)
      ensures Valid() && p == proto && input == s && all == s
    {
      p, input, crc, all := proto, s, CRC_INIT, s;
      new;
      assert s[0..] == s && s[..0] == [];
    }

    method ReadAtom() returns (b: Byte)
      requires Valid() && input != []
      modifies this
      ensures Valid() && b == old(input)[0] && input == old(input)[1..]
    {
      b := input[0];
      ghost var k := |all| - |input|;
      assert all[..k + 1] == all[..k] + [b];
      SumJoin(p, CRC_INIT, all[..k], [b]);
      input, crc := input[1..], p.step(crc, b);
    }

    method ReadByte() returns (r: PacketModel.ByteRead)
      requires Valid()
      modifies this
      ensures Valid() && r == PacketModel.ReadByte(old(input)) && (!r.Wait? ==> input == r.rest)
    {
      if input == [] {
        return Wait;
      }
      var b := ReadAtom();
      if b == HEAD {
        return Head(input);
      }
      if b == ESCAPE {
        if input == [] {
          return Wait;
        }
        b := ReadAtom();
        if b != HEAD && b != ESCAPE {
          return BadEscape(input);
        }
      }
      return Data(b, input);
    }

    /** One round of `readData`; `end` says that it is over with the outcome `r`. */
    method ReadOne(d: seq<Byte>, ghost left: nat, ghost goal: PacketModel.DataRead)
      returns (end: bool, r: PacketModel.DataRead, more: seq<Byte>)
      requires Valid() && 0 < left && Continues(d, input, left, goal)
      modifies this
      ensures Valid()
      ensures end ==> r == goal && !r.Read? && (!r.Starved? ==> input == r.rest)
      ensures !end ==> |more| == |d| + 1 && Continues(more, input, left - 1, goal)
    {
      ContinueStep(d, input, left, goal);
      var b := ReadByte();
      end, r, more := !b.Data?, if b.Wait? then Starved else Broken(b.rest), d;
      if !end {
        more := d + [b.b];
      }
    }

    /** `readData`: a head in the middle of data, or a bad escape, breaks the frame. */
    method ReadData(n: nat) returns (r: PacketModel.DataRead)
      requires Valid()
      modifies this
      ensures Valid() && r == ReadBytes(old(input), n) && (!r.Starved? ==> input == r.rest)
    {
      var i, d := 0, [];
      ghost var goal, left := ReadBytes(input, n), n;
      ContinueStart(goal);
      while i < n
        invariant 0 <= i <= n && left == n - i && Valid() && Continues(d, input, left, goal)
      {
        var end, o, more := ReadOne(d, left, goal);
        if end {
          return o;
        }
        d := more;
        i, left := i + 1, left - 1;
      }
      ContinueEnd(d, input, goal);
      return Read(d, input);
    }

    /** The parser of a type, byte by byte. */
    method ReadWanted(h: nat) returns (r: PacketModel.DataRead)
      requires Valid()
      modifies this
      ensures Valid() && r == ReadValue(p, h, [], old(input)) && (!r.Starved? ==> input == r.rest)
    {
      var d := [];
      while p.more(h, d)
        invariant Valid() && ReadValue(p, h, d, input) == ReadValue(p, h, [], old(input))
        decreases |input|
      {
        var b := ReadByte();
        if b.Wait? {
          return Starved;
        }
        if !b.Data? {
          return Broken(b.rest);
        }
        d := d + [b.b];
      }
      return Read(d, input);
    }

    /** `handleFrame` on the bytes this absorber was created for */
    method Handle() returns (r: PacketModel.Handled)
      requires Valid() && input == all
      modifies this
      ensures r == HandleFrame(p, all)
    {
      var b := ReadByte();
      if b.Wait? {
        return Blocked;
      }
      if !b.Head? {
        return Skipped(b.rest);
      }
      r := HandleRest();
    }

    method HandleRest() returns (r: PacketModel.Handled)
      requires Valid()
      modifies this
      ensures r == HandleBody(p, all, old(input))
    {
      var hb := ReadData(4);
      if hb.Starved? {
        return Blocked;
      }
      if hb.Broken? {
        return Skipped(hb.rest);
      }
      var h := Value(hb.d);
      if h !in p.known {
        return Skipped(hb.rest);
      }
      r := HandleWanted(h);
    }

    method HandleWanted(h: nat) returns (r: PacketModel.Handled)
      requires Valid()
      modifies this
      ensures r == HandleValue(p, all, h, old(input))
    {
      var v := ReadWanted(h);
      if v.Starved? {
        return Blocked;
      }
      if v.Broken? {
        return Skipped(v.rest);
      }
      r := HandleSum(h, v.d);
    }

    method HandleSum(h: nat, d: seq<Byte>) returns (r: PacketModel.Handled)
      requires Valid()
      modifies this
      ensures r == HandleCheck(p, all, h, d, old(input))
    {
      var crcExpect := p.final(crc);
      var c := ReadData(2);
      if c.Starved? {
        return Blocked;
      }
      if c.Broken? {
        return Skipped(c.rest);
      }
      return if Value(c.d) == crcExpect then Delivered(h, d, c.rest) else Skipped(c.rest);
    }
  }

  function Continue(d: seq<Byte>, r: DataRead): DataRead { if r.Read? then Read(d + r.d, r.rest) else r }

  /** With `d` read and `n` bytes to go, the outcome will be `goal`. */
  ghost predicate Continues(d: seq<Byte>, s: Atoms, n: nat, goal: DataRead) { Continue(d, ReadBytes(s, n)) == goal }

  lemma ContinueStart(r: DataRead)
    ensures Continue([], r) == r
  {
    if r.Read? { assert [] + r.d == r.d; }
  }

  lemma ContinueEnd(d: seq<Byte>, s: Atoms, goal: DataRead)
    requires Continues(d, s, 0, goal)
    ensures goal == Read(d, s)
  {
    assert d + [] == d;
  }

  lemma ContinueStep(d: seq<Byte>, s: Atoms, n: nat, goal: DataRead)
    requires 0 < n && Continues(d, s, n, goal)
    ensures match PacketModel.ReadByte(s)
            case Wait => goal == Starved
            case Data(b, rest) => Continues(d + [b], rest, n - 1, goal)
            case Head(rest) => goal == Broken(rest)
            case BadEscape(rest) => goal == Broken(rest)
  {
    var b := PacketModel.ReadByte(s);
    if b.Data? {
      var r := ReadBytes(b.rest, n - 1);
      if r.Read? { assert d + ([b.b] + r.d) == d + [b.b] + r.d; }
    }
  }

  /** The receive loop of the packet thread, as long as there is something to receive */
  method Receive(p: Protocol, s: Atoms) returns (got: seq<(nat, seq<Byte>)>)
    ensures got == Deliver(p, s)
  {
    got := [];
    var rest := s;
    while true
      invariant got + Deliver(p, rest) == Deliver(p, s)
      decreases |rest|
    {
      var a := new Absorber(p, rest);
      var r := a.Handle();
      if r.Blocked? {
        break;
      }
      if r.Delivered? {
        Assoc(got, [(r.h, r.d)], Deliver(p, r.rest));
        got := got + [(r.h, r.d)];
      }
      rest := r.rest;
    }
  }
}
