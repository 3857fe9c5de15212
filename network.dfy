/** talliers_network.cpp: the bookkeeping of one tallier's connections to
    its peers. The handshake registers each peer once in a bit mask of the
    peers still awaited; a receive loop decodes six-byte frames (a 16-bit
    message id and a 32-bit share, both in network byte order) into the
    exchange slot of that message id; exchange deposits the party's own
    share and sends every connected peer its share. Sockets are handles
    given as numbers, and sending and receiving are values: the bytes a
    receive call delivered, the frames a send would write. */
module Network {
  import opened Field
  import opened Parties
  import opened Endian
  import opened Exchange

  /** The port of party i: each party listens on its own port. */
  function Port(i: int): (r: int)
  {
    5010 + i
  }

  lemma PortsDistinct(i: int, j: int)
    ensures Port(i) == Port(j) <==> i == j
    ensures Port(i) - Port(0) == i
  {
  }

  // ---------------------------------------------------------------------
  // Registration of peers

  /** The registration state: the mask of awaited peers, the socket of each
      party, the all-talliers and end-of-vote events, and the peers a
      receive loop was spawned for, in order. */
  datatype Registry = Registry(waiting: bv32, sockets: seq<Option<nat>>, allTalliers: bool, endVote: bool, loops: seq<nat>)

  /** The constructor's state: every party but the own one is awaited. */
  function InitialRegistry(id: nat): (r: Registry)
    requires id < D
  {
    Registry(Full ^ Bit(id), seq(D, _ => None), false, false, [])
  }

  /** The registration step shared by handle_connection and connect: a peer
      still awaited gets its socket and a receive loop, and its bit is
      cleared; when no peer is awaited any more both events are set. Any
      other peer id is refused and changes nothing. */
  function Registered(r: Registry, peer: nat, sock: nat): Registry
    requires |r.sockets| == D
  {
    if peer in Missing(r.waiting) then
      var w := r.waiting ^ Bit(peer);
      Registry(w, r.sockets[peer := Some(sock)], r.allTalliers || w == 0, r.endVote || w == 0, r.loops + [peer])
    else
      r
  }

  /** handle_connection: -1 is a voter and changes nothing, -2 ends the
      vote, anything else is a peer registering. */
  function Handshake(r: Registry, reply: int, sock: nat): Registry
    requires |r.sockets| == D && reply >= -2
  {
    if reply == -1 then r
    else if reply == -2 then r.(endVote := true)
    else Registered(r, reply, sock)
  }

  /** The registration invariant of party id: the mask holds party bits only
      and never the own one, a party has a socket exactly when it is a
      registered peer, each registered peer has exactly one receive loop,
      and all talliers are there exactly when nobody is awaited. */
  ghost predicate RegInv(r: Registry, id: nat)
  {
    && id < D && |r.sockets| == D
    && r.waiting & !Full == 0 && id !in Missing(r.waiting)
    && (forall i :: 0 <= i < D ==> (r.sockets[i].Some? <==> i != id && i !in Missing(r.waiting)))
    && (forall i :: i in r.loops <==> 0 <= i < D && r.sockets[i].Some?)
    && (forall k, l :: 0 <= k < l < |r.loops| ==> r.loops[k] != r.loops[l])
    && (r.allTalliers <==> r.waiting == 0)
    && (r.allTalliers ==> r.endVote)
  }

  lemma InitialRegistryInv(id: nat)
    requires id < D
    ensures RegInv(InitialRegistry(id), id)
    ensures Missing(InitialRegistry(id).waiting) == Everyone - {id}
  {
    var r := InitialRegistry(id);
    MissingFull();
    ClearBit(Full, id);
    EmptyMask(r.waiting);
    assert id in Everyone;
  }

  /** Registering a peer still awaited stores its socket, clears exactly its
      bit and spawns one receive loop; the first registration of a peer
      wins and any later one changes nothing. */
  lemma RegisterEffect(r: Registry, id: nat, peer: nat, sock: nat)
    requires RegInv(r, id)
    ensures var r' := Registered(r, peer, sock);
      if peer in Missing(r.waiting) then
        && Missing(r'.waiting) == Missing(r.waiting) - {peer}
        && r'.sockets == r.sockets[peer := Some(sock)] && r'.loops == r.loops + [peer]
      else
        r' == r
    ensures r.sockets[id] == None && (peer < D && r.sockets[peer].Some? ==> Registered(r, peer, sock) == r)
  {
    if peer in Missing(r.waiting) {
      ClearBit(r.waiting, peer);
    }
  }

  /** Registration keeps the invariant. */
  lemma RegisterInv(r: Registry, id: nat, peer: nat, sock: nat)
    requires RegInv(r, id)
    ensures RegInv(Registered(r, peer, sock), id)
  {
    if peer in Missing(r.waiting) {
      var r' := Registered(r, peer, sock);
      ClearBit(r.waiting, peer);
      EmptyMask(r'.waiting);
      EmptyMask(r.waiting);
      forall i
        ensures i in r'.loops <==> 0 <= i < D && r'.sockets[i].Some?
      {
        assert i in r'.loops <==> i in r.loops || i == peer;
      }
    }
  }

  /** Both events are set by the registration that clears the last awaited
      peer and by no other; once every peer is there nothing registers any
      more, so this happens at most once. */
  lemma AllTalliersOnce(r: Registry, id: nat, peer: nat, sock: nat)
    requires RegInv(r, id)
    ensures var r' := Registered(r, peer, sock);
      && (r'.allTalliers && !r.allTalliers <==> Missing(r.waiting) == {peer})
      && (r.allTalliers ==> r' == r)
  {
    var r' := Registered(r, peer, sock);
    EmptyMask(r.waiting);
    if peer in Missing(r.waiting) {
      ClearBit(r.waiting, peer);
      EmptyMask(r'.waiting);
    }
  }

  /** The sentinels: -1 changes nothing, -2 only sets the end-of-vote event;
      both keep the invariant. */
  lemma HandshakeSentinels(r: Registry, id: nat, sock: nat)
    requires RegInv(r, id)
    ensures Handshake(r, -1, sock) == r
    ensures Handshake(r, -2, sock) == r.(endVote := true) && RegInv(Handshake(r, -2, sock), id)
  {
  }

  // ---------------------------------------------------------------------
  // Frames

  /** A message: the id of the exchange slot and a share. */
  datatype Message = Message(msgId: nat, share: nat)

  /** The six bytes of a message on the wire: the id, then the share, both
      in network byte order. */
  function Encode(m: Message): (b: seq<Byte>)
    requires m.msgId < U16 && m.share < U32
    ensures |b| == 6
  {
    Bytes16(m.msgId) + Bytes32(m.share)
  }

  ghost predicate Encodable(ms: seq<Message>)
  {
    forall k :: 0 <= k < |ms| ==> ms[k].msgId < U16 && ms[k].share < U32
  }

  /** The bytes of several messages, one after the other. */
  function EncodeAll(ms: seq<Message>): (b: seq<Byte>)
    requires Encodable(ms)
    ensures |b| == 6 * |ms|
  {
    if |ms| == 0 then [] else EncodeAll(ms[..|ms| - 1]) + Encode(ms[|ms| - 1])
  }

  /** The messages in a buffer of whole frames, frame k at offset 6k. */
  function Frames(b: seq<Byte>): (r: seq<Message>)
    requires |b| % 6 == 0
    ensures 6 * |r| == |b| && Encodable(r)
  {
    if |b| == 0 then []
    else
      var n := |b| - 6;
      Frames(b[..n]) + [Message(Network16(b[n..n + 2]), Network32(b[n + 2..]))]
  }

  /** Appending a frame to a buffer of whole frames appends its message. */
  lemma FramesSnoc(b: seq<Byte>, m: Message)
    requires |b| % 6 == 0 && m.msgId < U16 && m.share < U32
    ensures Frames(b + Encode(m)) == Frames(b) + [m]
  {
    SnocParts(b, m);
    FramesLast(b + Encode(m));
  }

  /** Where the parts of an appended frame are found. */
  lemma SnocParts(b: seq<Byte>, m: Message)
    requires m.msgId < U16 && m.share < U32
    ensures var c, n := b + Encode(m), |b|;
      && |c| == n + 6 && c[..n] == b
      && Network16(c[n..n + 2]) == m.msgId && Network32(c[n + 2..]) == m.share
  {
    var e := Encode(m);
    var c, n := b + e, |b|;
    assert c[n..n + 2] == e[..2] == Bytes16(m.msgId);
    assert c[n + 2..] == e[2..] == Bytes32(m.share);
    Network16Bytes(m.msgId);
    Network32Bytes(m.share);
  }

  lemma FramesLast(c: seq<Byte>)
    requires |c| % 6 == 0 && |c| >= 6
    ensures var n := |c| - 6;
      Frames(c) == Frames(c[..n]) + [Message(Network16(c[n..n + 2]), Network32(c[n + 2..]))]
  {
  }

  /** Decoding undoes encoding ... */
  lemma {:induction false} FramesOfEncoded(ms: seq<Message>)
    requires Encodable(ms)
    ensures Frames(EncodeAll(ms)) == ms
  {
    if |ms| > 0 {
      var init, m := ms[..|ms| - 1], ms[|ms| - 1];
      EncodeAllLast(ms);
      FramesOfEncoded(init);
      FramesSnoc(EncodeAll(init), m);
      assert ms == init + [m];
    }
  }

  lemma EncodeAllLast(ms: seq<Message>)
    requires Encodable(ms) && |ms| > 0
    ensures Encodable(ms[..|ms| - 1]) && ms[|ms| - 1].msgId < U16 && ms[|ms| - 1].share < U32
    ensures EncodeAll(ms) == EncodeAll(ms[..|ms| - 1]) + Encode(ms[|ms| - 1])
  {
  }

  /** ... and encoding undoes decoding: the frame layout loses nothing. */
  lemma {:induction false} EncodedFrames(b: seq<Byte>)
    requires |b| % 6 == 0
    ensures EncodeAll(Frames(b)) == b
  {
    if |b| > 0 {
      var n := |b| - 6;
      var ms := Frames(b);
      EncodedFrames(b[..n]);
      assert ms[..|ms| - 1] == Frames(b[..n]);
      Bytes16Network(b[n..n + 2]);
      Bytes32Network(b[n + 2..]);
      assert b == b[..n] + b[n..n + 2] + b[n + 2..];
    }
  }

  /** The slot of message id m after the messages ms were deposited with
      index, in order: only the messages for m reach it. */
  function Received(s: Slot, ms: seq<Message>, m: nat, index: nat): (r: Slot)
    requires |s.bank0| == Capacity && |s.bank1| == Capacity && index < D
    ensures |r.bank0| == Capacity && |r.bank1| == Capacity
  {
    if |ms| == 0 then s
    else
      var r := Received(s, ms[..|ms| - 1], m, index);
      var last := ms[|ms| - 1];
      if last.msgId == m then SetSlot(r, last.share, index) else r
  }

  /** Messages for other ids leave a slot alone. */
  lemma {:induction false} ReceivedOthers(s: Slot, ms: seq<Message>, m: nat, index: nat)
    requires |s.bank0| == Capacity && |s.bank1| == Capacity && index < D
    requires forall k :: 0 <= k < |ms| ==> ms[k].msgId != m
    ensures Received(s, ms, m, index) == s
  {
    if |ms| > 0 {
      ReceivedOthers(s, ms[..|ms| - 1], m, index);
    }
  }

  /** Receiving keeps each slot's invariant. */
  lemma {:induction false} ReceivedInv(s: Slot, ms: seq<Message>, m: nat, index: nat)
    requires Inv(s) && index < D
    ensures Inv(Received(s, ms, m, index))
  {
    if |ms| > 0 {
      ReceivedInv(s, ms[..|ms| - 1], m, index);
      SetInv(Received(s, ms[..|ms| - 1], m, index), ms[|ms| - 1].share, index);
    }
  }

  // ---------------------------------------------------------------------
  // The send plan of exchange

  /** One send of exchange: the frame bytes for a peer's socket. */
  datatype Outgoing = Outgoing(peer: nat, sock: nat, bytes: seq<Byte>)

  /** The sends to the parties 0..|sockets| - 1 that have a socket, in
      party order, each carrying that party's share. */
  function SendPlan(sockets: seq<Option<nat>>, msgId: nat, shares: seq<nat>): (r: seq<Outgoing>)
    requires msgId < U16 && |sockets| <= |shares|
    requires forall i :: 0 <= i < |shares| ==> shares[i] < U32
  {
    if |sockets| == 0 then []
    else
      var n := |sockets| - 1;
      SendPlan(sockets[..n], msgId, shares)
        + (if sockets[n].Some? then [Outgoing(n, sockets[n].value, Encode(Message(msgId, shares[n])))] else [])
  }

  /** Every send goes to a party with a socket and carries the frame of
      that party's share for msgId; every party with a socket gets one. */
  lemma {:induction false} SendPlanTargets(sockets: seq<Option<nat>>, msgId: nat, shares: seq<nat>)
    requires msgId < U16 && |sockets| <= |shares|
    requires forall i :: 0 <= i < |shares| ==> shares[i] < U32
    ensures var plan := SendPlan(sockets, msgId, shares);
      && (forall o :: o in plan ==>
            o.peer < |sockets| && sockets[o.peer] == Some(o.sock)
            && o.bytes == Encode(Message(msgId, shares[o.peer])))
      && (forall i :: 0 <= i < |sockets| && sockets[i].Some? ==> exists o :: o in plan && o.peer == i)
  {
    if |sockets| > 0 {
      var n := |sockets| - 1;
      SendPlanTargets(sockets[..n], msgId, shares);
      var plan := SendPlan(sockets, msgId, shares);
      var head := SendPlan(sockets[..n], msgId, shares);
      forall o | o in head
        ensures sockets[o.peer] == sockets[..n][o.peer]
      {
      }
      forall i | 0 <= i < n && sockets[i].Some?
        ensures exists o :: o in plan && o.peer == i
      {
        assert sockets[..n][i] == sockets[i];
        var o :| o in head && o.peer == i;
        assert o in plan;
      }
    }
  }

  /** Every send of a registered party goes to one of its peers, never to
      itself, and the peer decodes exactly its share for msgId from it. */
  lemma SendPlanDelivers(r: Registry, id: nat, msgId: nat, shares: seq<nat>)
    requires RegInv(r, id) && msgId < U16 && |shares| == D
    requires forall i :: 0 <= i < D ==> shares[i] < U32
    ensures forall o :: o in SendPlan(r.sockets, msgId, shares) ==>
      && o.peer < D && o.peer != id && o.peer !in Missing(r.waiting)
      && |o.bytes| == 6 && Frames(o.bytes) == [Message(msgId, shares[o.peer])]
    ensures forall i :: 0 <= i < D && i != id && i !in Missing(r.waiting) ==>
      exists o :: o in SendPlan(r.sockets, msgId, shares) && o.peer == i
  {
    SendPlanTargets(r.sockets, msgId, shares);
    forall o | o in SendPlan(r.sockets, msgId, shares)
      ensures Frames(o.bytes) == [Message(msgId, shares[o.peer])]
    {
      FramesSnoc([], Message(msgId, shares[o.peer]));
      assert [] + o.bytes == o.bytes;
    }
  }

  // ---------------------------------------------------------------------
  // The network object

  class TalliersNetwork {
    const tallierId: nat
    const host: ByteOrder
    /** The port this party listens on. */
    const serverPort: int
    var waiting: bv32
    const talliers: array<Option<nat>>
    var allTalliers: bool
    var endVote: bool
    var recvLoops: seq<nat>
    /** The exchange slots, one per 16-bit message id. */
    const table: array<ExchangeItem>

    ghost function Model(): Registry
      reads this, talliers
    {
      Registry(waiting, talliers[..], allTalliers, endVote, recvLoops)
    }

    ghost function Items(): set<object>
      reads table
    {
      set m | 0 <= m < table.Length :: table[m]
    }

    ghost function Banks(): set<object>
      reads table
    {
      (set m | 0 <= m < table.Length :: table[m].bank0) + (set m | 0 <= m < table.Length :: table[m].bank1)
    }

    /** Every slot is valid and owns its slot object and banks alone. */
    ghost predicate TableValid()
      reads table, Items(), Banks()
    {
      && table.Length == U16
      && (forall m :: 0 <= m < U16 ==> table[m].Valid())
      && (forall m, n :: 0 <= m < U16 && 0 <= n < U16 && m != n ==>
            && table[m] != table[n]
            && table[m].bank0 != table[n].bank0 && table[m].bank0 != table[n].bank1
            && table[m].bank1 != table[n].bank1)
    }

    ghost predicate Valid()
      reads this, talliers, table, Items(), Banks()
    {
      talliers.Length == D && RegInv(Model(), tallierId) && TableValid()
    }

    /** The waiting mask holds every party but the own one; the table holds
        a fresh slot per message id. */
    constructor(id: nat, host: ByteOrder)
      requires id < D
      ensures Valid() && Model() == InitialRegistry(id)
      ensures tallierId == id && serverPort == Port(id) && this.host == host
    {
      var slots := NewTable();
      tallierId := id;
      this.host := host;
      serverPort := Port(id);
      waiting := Full ^ Bit(id);
      talliers := new Option<nat>[D](_ => None);
      allTalliers, endVote := false, false;
      recvLoops := [];
      table := slots;
      new;
      InitialRegistryInv(id);
      assert talliers[..] == seq(D, _ => None);
    }

    /** handle_connection after the handshake byte was received. */
    method HandleConnection(reply: int, sock: nat)
      requires Valid() && -2 <= reply < 32
      modifies this, talliers
      ensures Valid()
      ensures Model() == Handshake(old(Model()), reply, sock)
    {
      if reply == -1 {
      } else if reply == -2 {
        endVote := true;
      } else {
        Register(reply, sock);
      }
    }

    /** connect after the handshake byte was received: no sentinels. */
    method Connect(reply: nat, sock: nat)
      requires Valid() && reply < 32
      modifies this, talliers
      ensures Valid()
      ensures Model() == Registered(old(Model()), reply, sock)
    {
      Register(reply, sock);
    }

    method Register(peer: nat, sock: nat)
      requires Valid() && peer < 32
      modifies this, talliers
      ensures Valid()
      ensures Model() == Registered(old(Model()), peer, sock)
    {
      ghost var r := Model();
      RegisterInv(r, tallierId, peer, sock);
      if waiting & Bit(peer) != 0 {
        assert peer < D by { BitsOutside(waiting, peer); }
        talliers[peer] := Some(sock);
        waiting := waiting ^ Bit(peer);
        if waiting == 0 {
          allTalliers := true;
          endVote := true;
        }
        recvLoops := recvLoops + [peer];
      } else {
        assert peer !in Missing(waiting);
      }
    }

    /** The deposit into the slot of msgId; the other slots are untouched. */
    method Deposit(msgId: nat, share: nat, index: nat)
      requires TableValid() && msgId < U16 && index < D
      modifies table[msgId], table[msgId].bank0, table[msgId].bank1
      ensures TableValid()
      ensures table[msgId].Model() == SetSlot(old(table[msgId].Model()), share, index)
      ensures forall m :: 0 <= m < U16 && m != msgId ==> table[m].Model() == old(table[m].Model())
    {
      var item := table[msgId];
      var _ := item.Set(share, index);
      forall m | 0 <= m < U16 && m != msgId
        ensures table[m].Model() == old(table[m].Model()) && table[m].Valid()
      {
        assert table[m] != item && table[m].bank0 != item.bank0 && table[m].bank0 != item.bank1;
        assert table[m].bank1 != item.bank0 && table[m].bank1 != item.bank1;
      }
    }

    /** One pass of recv_loop's inner loop over a received buffer of whole
        frames: each frame is read from memory, converted from network byte
        order and deposited with the peer's index. */
    method Receive(buffer: seq<Byte>, index: nat)
      requires Valid() && |buffer| % 6 == 0 && index < D
      modifies Items(), Banks()
      ensures Valid()
      ensures forall m :: 0 <= m < U16 ==> table[m].Model() == Received(old(table[m].Model()), Frames(buffer), m, index)
    {
      ghost var s0 := Slots();
      var idx := 0;
      while idx < |buffer|
        invariant idx <= |buffer| && idx % 6 == 0
        invariant Valid()
        invariant ReceivedSoFar(s0, buffer[..idx], index)
      {
        NextFrame(idx, |buffer|);
        ReceiveFrame(buffer, idx, index, s0);
        idx := idx + 6;
      }
      assert buffer[..idx] == buffer;
    }

    /** Below the end of a buffer of whole frames, a frame boundary is
        followed by a whole frame. */
    static lemma NextFrame(idx: nat, n: nat)
      requires idx < n && idx % 6 == 0 && n % 6 == 0
      ensures idx + 6 <= n && (idx + 6) % 6 == 0
    {
      assert idx == 6 * (idx / 6) && n == 6 * (n / 6);
    }

    /** The model of every slot, by message id. */
    ghost function Slots(): map<nat, Slot>
      reads table, Items(), Banks()
    {
      map m | 0 <= m < table.Length :: table[m].Model()
    }

    /** Every slot holds what it held in s0 plus the deposits of the frames
        in b, with index. */
    ghost predicate ReceivedSoFar(s0: map<nat, Slot>, b: seq<Byte>, index: nat)
      reads table, Items(), Banks()
      requires TableValid() && |b| % 6 == 0 && index < D
    {
      forall m :: 0 <= m < U16 ==>
        m in s0 && |s0[m].bank0| == Capacity && |s0[m].bank1| == Capacity
        && table[m].Model() == Received(s0[m], Frames(b), m, index)
    }

    /** The frame at offset idx: decoded and deposited. */
    method ReceiveFrame(buffer: seq<Byte>, idx: nat, index: nat, ghost s0: map<nat, Slot>)
      requires Valid() && idx + 6 <= |buffer| && idx % 6 == 0 && index < D
      requires ReceivedSoFar(s0, buffer[..idx], index)
      modifies Items(), Banks()
      ensures Valid() && ReceivedSoFar(s0, buffer[..idx + 6], index)
    {
      var frame := buffer[idx..idx + 6];
      var msgId := Convert16(host, Load16(host, frame[..2]));
      var share := Convert32(host, Load32(host, frame[2..]));
      ReceiveStep(buffer, idx, host);
      Deposit(msgId, share, index);
      var ms := Frames(buffer[..idx + 6]);
      assert ms == Frames(buffer[..idx]) + [Message(msgId, share)];
      assert ms[..|ms| - 1] == Frames(buffer[..idx]);
    }

    /** exchange up to the wait: deposit the own share into the slot of
        msgId, then the frame for every peer that has a socket. */
    method Exchange(msgId: nat, shares: seq<nat>) returns (plan: seq<Outgoing>)
      requires Valid() && msgId < U16 && |shares| == D
      requires forall i :: 0 <= i < D ==> shares[i] < U32
      modifies table[msgId], table[msgId].bank0, table[msgId].bank1
      ensures Valid()
      ensures table[msgId].Model() == SetSlot(old(table[msgId].Model()), shares[tallierId], tallierId)
      ensures forall m :: 0 <= m < U16 && m != msgId ==> table[m].Model() == old(table[m].Model())
      ensures plan == SendPlan(talliers[..], msgId, shares)
    {
      Deposit(msgId, shares[tallierId], tallierId);
      plan := Sends(msgId, shares);
    }

    /** The send loop of exchange: the id and each share converted to
        network byte order and laid out in memory as a frame. */
    method Sends(msgId: nat, shares: seq<nat>) returns (plan: seq<Outgoing>)
      requires talliers.Length == D && msgId < U16 && |shares| == D
      requires forall i :: 0 <= i < D ==> shares[i] < U32
      ensures plan == SendPlan(talliers[..], msgId, shares)
    {
      var wireId := Convert16(host, msgId);
      Convert16Encodes(host, msgId);
      plan := [];
      for i := 0 to D
        invariant plan == SendPlan(talliers[..i], msgId, shares)
      {
        if talliers[i].Some? {
          var bytes := Store16(host, wireId) + Store32(host, Convert32(host, shares[i]));
          Convert32Encodes(host, shares[i]);
          plan := plan + [Outgoing(i, talliers[i].value, bytes)];
        }
        assert talliers[..i + 1][..i] == talliers[..i];
      }
      assert talliers[..D] == talliers[..];
    }

    /** The wait of exchange and its result, on the slot of msgId. */
    method Collect(msgId: nat, waiter: nat) returns (res: Option<array<nat>>)
      requires Valid() && msgId < U16
      modifies table[msgId], table[msgId].bank0
      ensures Valid()
      ensures res.Some? == AwaitSlot(old(table[msgId].Model()), waiter).1
      ensures res.None? ==> table[msgId].Model() == AwaitSlot(old(table[msgId].Model()), waiter).0
      ensures res.Some? ==> fresh(res.value) && res.value[..] == ResultSlot(old(table[msgId].Model())).1
      ensures res.Some? ==> table[msgId].Model() == ResultSlot(old(table[msgId].Model())).0
      ensures forall m :: 0 <= m < U16 && m != msgId ==> table[m].Model() == old(table[m].Model())
    {
      var item := table[msgId];
      res := item.Await(waiter);
      forall m | 0 <= m < U16 && m != msgId
        ensures table[m].Model() == old(table[m].Model()) && table[m].Valid()
      {
        assert table[m] != item && table[m].bank0 != item.bank0 && table[m].bank1 != item.bank0;
      }
    }
  }

  /** A peer id whose bit is in a mask of party bits is a party. */
  lemma BitsOutside(mask: bv32, peer: nat)
    requires mask & !Full == 0 && peer < 32 && mask & Bit(peer) != 0
    ensures peer < D && peer in Missing(mask)
  {
  }

  /** Decoding the frame at offset idx through host memory gives the frame's
      network-order message, the last of the frames read so far. */
  lemma ReceiveStep(buffer: seq<Byte>, idx: nat, host: ByteOrder)
    requires idx + 6 <= |buffer| && idx % 6 == 0
    ensures var frame := buffer[idx..idx + 6];
      Frames(buffer[..idx + 6]) == Frames(buffer[..idx])
        + [Message(Convert16(host, Load16(host, frame[..2])), Convert32(host, Load32(host, frame[2..])))]
  {
    var frame := buffer[idx..idx + 6];
    Convert16Decodes(host, frame[..2]);
    Convert32Decodes(host, frame[2..]);
    var b := buffer[..idx + 6];
    assert b[..idx] == buffer[..idx];
    assert b[idx..idx + 2] == frame[..2] && b[idx + 2..] == frame[2..];
  }

  /** A table of fresh slots, one per 16-bit message id. */
  method NewTable() returns (table: array<ExchangeItem>)
    ensures fresh(table) && table.Length == U16
    ensures forall m :: 0 <= m < U16 ==> fresh(table[m]) && fresh(table[m].bank0) && fresh(table[m].bank1)
    ensures forall m :: 0 <= m < U16 ==> table[m].Valid()
    ensures forall m, n :: 0 <= m < U16 && 0 <= n < U16 && m != n ==>
      && table[m] != table[n]
      && table[m].bank0 != table[n].bank0 && table[m].bank0 != table[n].bank1
      && table[m].bank1 != table[n].bank1
  {
    var first := new ExchangeItem();
    table := new ExchangeItem[U16](_ => first);
    for k := 0 to U16
      invariant forall m :: 0 <= m < k ==> fresh(table[m]) && fresh(table[m].bank0) && fresh(table[m].bank1)
      invariant forall m :: 0 <= m < k ==> table[m].Valid()
      invariant forall m, n :: 0 <= m < k && 0 <= n < k && m != n ==>
        && table[m] != table[n]
        && table[m].bank0 != table[n].bank0 && table[m].bank0 != table[n].bank1
        && table[m].bank1 != table[n].bank1
    {
      var item := new ExchangeItem();
      table[k] := item;
    }
  }
}
