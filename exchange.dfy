/** exchange_item.h: the rendezvous slot of one message id. Two banks each
    hold a bit mask of the parties whose share is still missing and the
    shares received; bank 1 takes early arrivals of the next round. A state
    word tells whether the slot is idle, ready, or holds a parked waiter.
    Atomics and coroutines are left out: the state word is a datatype and
    resuming a waiter is recorded as an event. */
module Exchange {
  import opened Parties

  datatype Option<T> = None | Some(value: T)

  /** The size of each bank's value array, m_values[13]. */
  const Capacity: nat := 13

  /** The state word: nullptr (idle), the item's own address (ready), or the
      address of a parked coroutine. */
  datatype Signal = Idle | Ready | Parked(waiter: nat)

  // ---------------------------------------------------------------------
  // The slot as a value

  datatype Slot = Slot(state: Signal, mask0: bv32, mask1: bv32, bank0: seq<nat>, bank1: seq<nat>, resumed: seq<Signal>)

  /** Masks stay within the D party bits, bank 1 only holds parties bank 0
      already has (one round of lookahead), and a ready slot has bank 0
      complete. */
  ghost predicate Inv(s: Slot)
  {
    && |s.bank0| == Capacity && |s.bank1| == Capacity
    && s.mask0 & !Full == 0 && s.mask1 & !Full == 0
    && s.mask0 & !s.mask1 == 0
    && (s.state == Ready ==> s.mask0 == 0)
  }

  /** A new slot: both banks expect every party, nobody waits. */
  ghost function NewSlot(bank0: seq<nat>, bank1: seq<nat>): Slot
  {
    Slot(Idle, Full, Full, bank0, bank1, [])
  }

  /** The waiters resumed when a bank completes, given the old state word:
      only a parked coroutine. */
  function Wake(prev: Signal): (r: seq<Signal>)
  {
    if prev.Parked? then [prev] else []
  }

  /** As written in set: every old state other than ready is resumed,
      including the null state of a slot nobody waits on yet. */
  function WakeAsWritten(prev: Signal): (r: seq<Signal>)
  {
    if prev != Ready then [prev] else []
  }

  /** A bank has just completed: the state becomes ready and a parked waiter
      is resumed. */
  function Complete(s: Slot): Slot
  {
    s.(state := Ready, resumed := s.resumed + Wake(s.state))
  }

  /** set(share, index): the share goes to the first bank still expecting
      index; a deposit nobody expects is rejected and changes nothing. */
  function SetSlot(s: Slot, share: nat, index: nat): Slot
    requires index < D && |s.bank0| == Capacity && |s.bank1| == Capacity
  {
    if s.mask0 & Bit(index) != 0 then
      var m := s.mask0 ^ Bit(index);
      var s' := s.(mask0 := m, bank0 := s.bank0[index := share]);
      if m == 0 then Complete(s') else s'
    else if s.mask1 & Bit(index) != 0 then
      var m := s.mask1 ^ Bit(index);
      var s' := s.(mask1 := m, bank1 := s.bank1[index := share]);
      if m == 0 then Complete(s') else s'
    else
      s
  }

  /** The awaiter's await_suspend: parks the waiter only on an idle slot. */
  function SuspendSlot(s: Slot, waiter: nat): (Slot, bool)
  {
    if s.state == Idle then (s.(state := Parked(waiter)), true) else (s, false)
  }

  /** co_await on the slot: a ready slot lets the waiter go on; otherwise
      it tries to park, and goes on when the park is refused. Returns the
      new slot and whether the waiter goes on. */
  function AwaitSlot(s: Slot, waiter: nat): (Slot, bool)
  {
    if s.state == Ready then (s, true)
    else
      var (s', parked) := SuspendSlot(s, waiter);
      (s', !parked)
  }

  /** With no other waiter on the slot, the waiter goes on exactly when the
      slot is ready, and is parked otherwise; a waiter that goes on leaves
      the slot as it was. */
  lemma AwaitOnlyReady(s: Slot, waiter: nat)
    requires Inv(s)
    ensures AwaitSlot(s, waiter).1 ==> AwaitSlot(s, waiter).0 == s
    ensures !s.state.Parked? ==> (AwaitSlot(s, waiter).1 <==> s.state == Ready)
    ensures !AwaitSlot(s, waiter).1 ==> AwaitSlot(s, waiter).0 == s.(state := Parked(waiter)) && Inv(AwaitSlot(s, waiter).0)
  {
  }

  /** result(): bank 0's first D values, then bank 1 moves into bank 0, bank
      1 expects everybody again and a ready slot becomes idle. */
  function ResultSlot(s: Slot): (Slot, seq<nat>)
    requires |s.bank0| == Capacity && |s.bank1| == Capacity
  {
    (s.(state := if s.state == Ready then Idle else s.state,
        mask0 := s.mask1, mask1 := Full,
        bank0 := s.bank1[..D] + s.bank0[D..]),
     s.bank0[..D])
  }

  // ---------------------------------------------------------------------
  // What the slot promises

  /** A new slot satisfies the invariant and misses every party. */
  lemma NewSlotInv(bank0: seq<nat>, bank1: seq<nat>)
    requires |bank0| == Capacity && |bank1| == Capacity
    ensures Inv(NewSlot(bank0, bank1))
    ensures Missing(NewSlot(bank0, bank1).mask0) == Everyone
  {
    MissingFull();
  }

  /** set stores the share in the first bank expecting the party and clears
      exactly that party there; the other bank and the other values are
      untouched. */
  lemma SetDeposits(s: Slot, share: nat, index: nat)
    requires Inv(s) && index < D
    ensures var r := SetSlot(s, share, index);
      if index in Missing(s.mask0) then
        && Missing(r.mask0) == Missing(s.mask0) - {index} && r.mask1 == s.mask1
        && r.bank0 == s.bank0[index := share] && r.bank1 == s.bank1
      else if index in Missing(s.mask1) then
        && Missing(r.mask1) == Missing(s.mask1) - {index} && r.mask0 == s.mask0
        && r.bank1 == s.bank1[index := share] && r.bank0 == s.bank0
      else
        r == s
  {
    if s.mask0 & Bit(index) != 0 {
      ClearBit(s.mask0, index);
    } else if s.mask1 & Bit(index) != 0 {
      ClearBit(s.mask1, index);
    }
  }

  /** The deposit that empties a bank makes the slot ready and resumes the
      parked waiter, if any; any other deposit leaves the state word and the
      resumed waiters alone. */
  lemma SetSignals(s: Slot, share: nat, index: nat)
    requires Inv(s) && index < D
    ensures var r := SetSlot(s, share, index);
      var completes := (index in Missing(s.mask0) && Missing(s.mask0) == {index})
        || (index !in Missing(s.mask0) && index in Missing(s.mask1) && Missing(s.mask1) == {index});
      if completes then r.state == Ready && r.resumed == s.resumed + Wake(s.state)
      else r.state == s.state && r.resumed == s.resumed
  {
    SetDeposits(s, share, index);
    var r := SetSlot(s, share, index);
    if s.mask0 & Bit(index) != 0 {
      ClearBit(s.mask0, index);
      EmptyMask(r.mask0);
    } else if s.mask1 & Bit(index) != 0 {
      ClearBit(s.mask1, index);
      EmptyMask(r.mask1);
    }
  }

  /** set keeps the invariant: at most one round of lookahead. */
  lemma SetInv(s: Slot, share: nat, index: nat)
    requires Inv(s) && index < D
    ensures Inv(SetSlot(s, share, index))
  {
    if s.mask0 & Bit(index) != 0 {
      ClearBit(s.mask0, index);
      assert Bit(index) & !Full == 0 by { BitsDiffer(index, index); }
    } else if s.mask1 & Bit(index) != 0 {
      ClearBit(s.mask1, index);
    }
  }

  /** Only a waiter parked on the slot is ever resumed. */
  lemma WakeOnlyParked(prev: Signal)
    ensures forall w :: w in Wake(prev) ==> w.Parked? && w == prev
    ensures prev.Parked? ==> Wake(prev) == [prev]
  {
  }

  /** As written, the deposit that completes a bank of a slot nobody waits
      on yet resumes the null handle. */
  lemma NullHandleResumed()
    ensures WakeAsWritten(Idle) == [Idle] && Wake(Idle) == []
  {
  }

  /** Parking succeeds exactly on an idle slot; a ready slot refuses it, so
      the waiter goes on without suspending. */
  lemma SuspendOnlyIdle(s: Slot, waiter: nat)
    requires Inv(s)
    ensures var (r, parked) := SuspendSlot(s, waiter);
      && (parked <==> s.state == Idle)
      && (parked ==> r.state == Parked(waiter))
      && (!parked ==> r == s)
      && Inv(r)
  {
  }

  /** result keeps the invariant and carries the lookahead over: the parties
      bank 1 had already heard from are those bank 0 has afterwards. */
  lemma ResultRotates(s: Slot)
    requires Inv(s)
    ensures var (r, res) := ResultSlot(s);
      && Inv(r) && |res| == D
      && (forall i :: 0 <= i < D ==> res[i] == s.bank0[i] && r.bank0[i] == s.bank1[i])
      && Missing(r.mask0) == Missing(s.mask1) && Missing(r.mask1) == Everyone
      && (s.state == Ready ==> r.state == Idle)
  {
    NewSlotInv(s.bank0, s.bank1);
  }

  // ---------------------------------------------------------------------
  // A whole round

  /** The deposits of the parties in order, each with its own share. */
  ghost function SetAll(s: Slot, shares: seq<nat>, order: seq<nat>): Slot
    requires |shares| == D && |s.bank0| == Capacity && |s.bank1| == Capacity
    requires forall k :: 0 <= k < |order| ==> order[k] < D
    decreases |order|
  {
    if |order| == 0 then s
    else
      var s' := SetSlot(s, shares[order[0]], order[0]);
      SetAll(s', shares, order[1..])
  }

  /** The parties with a deposit in order. */
  ghost function Elems(order: seq<nat>): set<nat>
  {
    set x | x in order
  }

  /** When a fresh round (bank 0 expecting everybody) receives one deposit
      from each party, in any order, the slot is ready and result returns
      the shares in party order. */
  lemma RoundCollects(s: Slot, shares: seq<nat>, order: seq<nat>)
    requires Inv(s) && s.mask0 == Full && |shares| == D
    requires |order| == D && forall i :: 0 <= i < D ==> i in order
    requires forall k :: 0 <= k < |order| ==> order[k] < D
    ensures var r := SetAll(s, shares, order);
      |r.bank0| == Capacity && |r.bank1| == Capacity &&
      r.state == Ready && ResultSlot(r).1 == shares
  {
    MissingFull();
    CoverDistinct(order);
    assert Elems(order) == Everyone;
    RoundStep(s, shares, order);
    var r := SetAll(s, shares, order);
    assert ResultSlot(r).1 == r.bank0[..D];
  }

  /** D deposits that cover all D parties come from distinct parties. */
  lemma CoverDistinct(order: seq<nat>)
    requires |order| == D && forall i :: 0 <= i < D ==> i in order
    requires forall k :: 0 <= k < |order| ==> order[k] < D
    ensures forall j, l :: 0 <= j < l < |order| ==> order[j] != order[l]
  {
    forall j, l | 0 <= j < l < |order|
      ensures order[j] != order[l]
    {
      if order[j] == order[l] {
        assert Everyone <= Elems(order);
        assert Elems(order) == Everyone + (Elems(order) - Everyone);
        DuplicateElems(order, j, l);
        assert false;
      }
    }
  }

  /** A sequence has no more distinct elements than entries. */
  lemma {:induction false} ElemsCard(s: seq<nat>)
    ensures |Elems(s)| <= |s|
  {
    if s != [] {
      ElemsCard(s[1..]);
      assert Elems(s) == Elems(s[1..]) + {s[0]};
    }
  }

  /** A sequence with a repeated entry has fewer distinct elements than
      entries. */
  lemma DuplicateElems(s: seq<nat>, j: nat, l: nat)
    requires j < l < |s| && s[j] == s[l]
    ensures |Elems(s)| < |s|
  {
    var t := s[..l] + s[l + 1..];
    assert Elems(s) == Elems(t) by {
      forall x | x in Elems(s) ensures x in Elems(t) {
        var k :| 0 <= k < |s| && s[k] == x;
        if k < l { assert t[k] == x; }
        else if k == l { assert t[j] == x; }
        else { assert t[k - 1] == x; }
      }
    }
    ElemsCard(t);
  }

  /** The deposits order, on a slot whose bank 0 misses exactly the parties
      still to come and holds the shares of the others, leave bank 0
      complete with every party's share, and ready once anybody deposits. */
  lemma {:induction false} RoundStep(s: Slot, shares: seq<nat>, order: seq<nat>)
    requires Inv(s) && |shares| == D
    requires forall k :: 0 <= k < |order| ==> order[k] < D
    requires forall j, l :: 0 <= j < l < |order| ==> order[j] != order[l]
    requires Missing(s.mask0) == Elems(order)
    requires forall i :: 0 <= i < D && i !in order ==> s.bank0[i] == shares[i]
    ensures var r := SetAll(s, shares, order);
      && Inv(r) && r.mask0 == 0
      && (forall i :: 0 <= i < D ==> r.bank0[i] == shares[i])
      && (|order| > 0 ==> r.state == Ready)
    decreases |order|
  {
    if |order| == 0 {
      EmptyMask(s.mask0);
    } else {
      var i := order[0];
      assert i in Missing(s.mask0);
      SetDeposits(s, shares[i], i);
      SetInv(s, shares[i], i);
      SetSignals(s, shares[i], i);
      var s' := SetSlot(s, shares[i], i);
      var rest := order[1..];
      assert Elems(rest) == Elems(order) - {i} by {
        assert order == [i] + rest;
        forall x
          ensures x in Elems(rest) <==> x in Elems(order) && x != i
        {
          if x in rest {
            var l :| 0 <= l < |rest| && rest[l] == x;
            assert order[l + 1] == x;
          }
        }
      }
      forall x | 0 <= x < D && x !in rest
        ensures s'.bank0[x] == shares[x]
      {
        assert order == [i] + rest;
      }
      RoundStep(s', shares, rest);
      if rest == [] {
        assert Missing(s.mask0) == {i};
      }
    }
  }

  // ---------------------------------------------------------------------
  // The slot as an object

  class ExchangeItem {
    var state: Signal
    var mask0: bv32
    var mask1: bv32
    const bank0: array<nat>
    const bank1: array<nat>
    /** The waiters resumed so far, in order. */
    var resumed: seq<Signal>

    ghost function Model(): Slot
      reads this, bank0, bank1
    {
      Slot(state, mask0, mask1, bank0[..], bank1[..], resumed)
    }

    ghost predicate Valid()
      reads this, bank0, bank1
    {
      bank0 != bank1 && Inv(Model())
    }

    /** Both banks expect every party and the state is idle; the value
        arrays are not initialised by the source and are zero here. */
    constructor()
      ensures Valid() && fresh(bank0) && fresh(bank1)
      ensures Model() == NewSlot(bank0[..], bank1[..])
    {
      state := Idle;
      mask0, mask1 := Full, Full;
      bank0 := new nat[Capacity];
      bank1 := new nat[Capacity];
      resumed := [];
      new;
      NewSlotInv(bank0[..], bank1[..]);
    }

    /** is_set, and the awaiter's await_ready: the state word is ready. */
    function IsSet(): (r: bool)
      reads this
      ensures r <==> state == Ready
    {
      state == Ready
    }

    /** await_suspend: park waiter unless the slot is already ready (or
        someone else waits). */
    method AwaitSuspend(waiter: nat) returns (parked: bool)
      requires Valid()
      modifies this
      ensures Valid()
      ensures (Model(), parked) == SuspendSlot(old(Model()), waiter)
    {
      SuspendOnlyIdle(Model(), waiter);
      if state == Idle {
        state := Parked(waiter);
        parked := true;
      } else {
        parked := false;
      }
    }

    /** co_await followed by result: None when the waiter is parked, the
        values of bank 0 when it goes on. */
    method Await(waiter: nat) returns (res: Option<array<nat>>)
      requires Valid()
      modifies this, bank0
      ensures Valid()
      ensures res.Some? ==> fresh(res.value) && res.value[..] == ResultSlot(old(Model())).1
      ensures res.Some? ==> Model() == ResultSlot(old(Model())).0
      ensures res.None? ==> Model() == AwaitSlot(old(Model()), waiter).0
      ensures res.Some? == AwaitSlot(old(Model()), waiter).1
    {
      var goOn := IsSet();
      if !goOn {
        var parked := AwaitSuspend(waiter);
        goOn := !parked;
      }
      if goOn {
        var r := Result();
        res := Some(r);
      } else {
        res := None;
      }
    }

    /** set: try bank 0, then bank 1; the assert of the source on a deposit
        neither bank expects becomes accepted == false. */
    method Set(share: nat, index: nat) returns (accepted: bool)
      requires Valid() && index < D
      modifies this, bank0, bank1
      ensures Valid()
      ensures Model() == SetSlot(old(Model()), share, index)
      ensures accepted <==> index in Missing(old(mask0)) + Missing(old(mask1))
    {
      ghost var s := Model();
      SetInv(s, share, index);
      var bit := Bit(index);
      if mask0 & bit != 0 {
        bank0[index] := share;
        mask0 := mask0 ^ bit;
        if mask0 == 0 {
          Signal();
        }
        accepted := true;
      } else if mask1 & bit != 0 {
        bank1[index] := share;
        mask1 := mask1 ^ bit;
        if mask1 == 0 {
          Signal();
        }
        accepted := true;
      } else {
        accepted := false;
      }
      assert bank0[..] == if s.mask0 & bit != 0 then s.bank0[index := share] else s.bank0;
      assert bank1[..] == if s.mask0 & bit == 0 && s.mask1 & bit != 0 then s.bank1[index := share] else s.bank1;
    }

    /** The exchange of the state word for ready, resuming a parked waiter. */
    method Signal()
      modifies this
      ensures state == Ready && resumed == old(resumed) + Wake(old(state))
      ensures mask0 == old(mask0) && mask1 == old(mask1)
    {
      var oldState := state;
      state := Ready;
      if oldState.Parked? {
        resumed := resumed + [oldState];
      }
    }

    /** result: copy bank 0's D values out and bank 1's in, rotate the masks
        and move a ready slot back to idle. */
    method Result() returns (res: array<nat>)
      requires Valid()
      modifies this, bank0
      ensures Valid() && fresh(res)
      ensures res[..] == ResultSlot(old(Model())).1
      ensures Model() == ResultSlot(old(Model())).0
    {
      ghost var s := Model();
      ResultRotates(s);
      res := new nat[D];
      MoveBank(res, bank0, bank1);
      mask0 := mask1;
      mask1 := Full;
      if state == Ready {
        state := Idle;
      }
    }
  }

  /** The copy loops of result: out receives the first D values of the
      bank, which receives those of the next bank in their place. */
  method MoveBank(out: array<nat>, bank: array<nat>, next: array<nat>)
    requires out.Length == D && bank.Length == Capacity && next.Length == Capacity
    requires out != bank && out != next && bank != next
    modifies out, bank
    ensures out[..] == old(bank[..D])
    ensures bank[..] == next[..D] + old(bank[D..])
  {
    ghost var b0 := bank[..];
    for i := 0 to D
      invariant forall k :: 0 <= k < i ==> out[k] == b0[k] && bank[k] == next[k]
      invariant forall k :: i <= k < Capacity ==> bank[k] == b0[k]
    {
      out[i] := bank[i];
      bank[i] := next[i];
    }
    assert out[..] == b0[..D];
    assert bank[..] == next[..D] + b0[D..];
  }
}
