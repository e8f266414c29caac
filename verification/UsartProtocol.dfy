/** The console protocol between the main program (micro_putc, micro_puts, _write,
    micro_getc) and the USART interrupt handler.

    The handler runs to completion. The main program is cut at every access to a variable
    the handler also uses, and an interrupt may fall between any two such steps. Transmit and
    receive are independent halves, so the machine lets both halves of the main program be
    under way at once; the real program, which does one at a time, is a special case. */
module UsartProtocol {
  import opened Machine
  import opened ByteFifo

  /** How far an index has got: not yet incremented, incremented, and wrapped if need be. */
  datatype Moved = Before | Bumped | Done

  // ----- transmit half

  /** Where a put stands: the name says which shared access comes next. The reads of the tail
      are the three that `bf_space_avail` makes; `seen` is the value last read. The head is
      written by the producer alone, so its own reads of it need no step of their own; a get
      treats head and tail the other way round. While a put enters its byte, C leaves the order
      of the store and the increment of the head open; the store may even come after the wrap,
      as nothing here is volatile. */
  datatype TxPc =
    | TxIdle
    | ReadTail1
    | ReadTail2(seen: nat)
    | ReadTail3(ahead: bool, seen: nat)
    | Decide(space: nat)
    | Entering(slot: nat, stored: bool, moved: Moved)

  /** `asked` are the bytes handed to put calls, `written` those the head has passed, `sent`
      those moved to the transmit data register. */
  datatype Tx = Tx(fifo: Fifo, txeie: bool, pc: TxPc, ch: Byte,
                   asked: seq<Byte>, written: seq<Byte>, sent: seq<Byte>) {
    predicate Shape() {
      && fifo.Fits() && fifo.tail < |fifo.buf|
      && (fifo.head < |fifo.buf| || (pc.Entering? && pc.moved.Bumped?))
      && (pc.Entering? ==> pc.slot < |fifo.buf| && (pc.moved.Before? ==> pc.slot == fifo.head))
    }

    /** The put is inside its retry loop. */
    predicate Polling() {
      pc.ReadTail1? || pc.ReadTail2? || pc.ReadTail3? || pc.Decide?
    }

    /** The head has moved, and the put has yet to enable the interrupt. */
    predicate Entered() {
      pc.Entering? && !pc.moved.Before?
    }

    /** The head has passed a slot whose byte is not stored yet. */
    predicate Outstanding() {
      Entered() && !pc.stored
    }

    /** The ring as it will be when the outstanding store is done. */
    function Ring(): (f: Fifo)
      requires Shape()
      ensures f.Fits() && f.head == fifo.head && f.tail == fifo.tail && |f.buf| == |fifo.buf|
    {
      if Outstanding() then fifo.(buf := fifo.buf[pc.slot := ch]) else fifo
    }

    function Queue(): seq<Byte>
      requires Shape()
    {
      Ring().Contents()
    }

    /** Sent bytes followed by queued bytes are the bytes written, in order. */
    predicate Conserved()
      requires Shape()
    {
      sent + Queue() == written
    }

    /** The byte of the put under way, while the head has not passed it. */
    function AtHand(): seq<Byte> {
      if Polling() || (pc.Entering? && pc.moved.Before?) then [ch] else []
    }

    predicate Room()
      requires Shape()
    {
      |fifo.Contents()| < |fifo.buf| - 1
    }

    /** All of the ring has been sent while the head still waits to be wrapped: the data guard
        would now report a full ring. */
    predicate Stray() {
      pc.Entering? && pc.moved.Bumped? && fifo.head == |fifo.buf| && fifo.tail == 0
    }

    /** The handler would send the slot of an outstanding store, which holds another byte. */
    predicate Early()
      requires Shape()
    {
      && Outstanding() && fifo.tail == pc.slot && fifo.buf[pc.slot] != ch
      && DataAvail(fifo.head, fifo.tail, |fifo.buf|) != 0
    }
  }

  function TxCall(s: Tx, ch: Byte): Tx {
    if s.pc.TxIdle? then s.(pc := ReadTail1, ch := ch, asked := s.asked + [ch]) else s
  }

  /** One step of the producer; `storeFirst` resolves the order C leaves open. */
  function TxMain(s: Tx, storeFirst: bool): (r: Tx)
    requires s.Shape()
    ensures r.Shape() && |r.fifo.buf| == |s.fifo.buf|
  {
    var head, tail, count := s.fifo.head, s.fifo.tail, |s.fifo.buf|;
    match s.pc
    case TxIdle => s
    case ReadTail1 =>
      s.(pc := if head == tail then Decide(ToU16(count - 1)) else ReadTail2(tail))
    case ReadTail2(_) =>
      s.(pc := ReadTail3(head > tail, tail))
    case ReadTail3(ahead, _) =>
      s.(pc := Decide(ToU16(if ahead then count - 1 - (head - tail) else tail - head - 1)))
    case Decide(space) =>
      s.(pc := if space != 0 then Entering(head, false, Before) else ReadTail1)
    case Entering(slot, stored, moved) =>
      if !stored && (storeFirst || moved.Done?) then
        s.(fifo := s.fifo.(buf := s.fifo.buf[slot := s.ch]), pc := Entering(slot, true, moved))
      else if moved.Before? then
        s.(fifo := s.fifo.(head := head + 1), written := s.written + [s.ch],
           pc := Entering(slot, stored, Bumped))
      else if moved.Bumped? then
        s.(fifo := s.fifo.WrapHead(), pc := Entering(slot, stored, Done))
      else
        s.(txeie := true, pc := TxIdle)
  }

  /** The transmit part of the handler, entered with TXE set and no error flag. */
  function TxIrq(s: Tx): (r: Tx)
    requires s.Shape()
    ensures r.Shape() && |r.fifo.buf| == |s.fifo.buf|
  {
    if !s.txeie then s
    else if DataAvail(s.fifo.head, s.fifo.tail, |s.fifo.buf|) != 0 then
      s.(sent := s.sent + [s.fifo.buf[s.fifo.tail]], fifo := s.fifo.Read())
    else s.(txeie := false)
  }

  // ----- receive half

  /** Where a get stands. While it fetches, the load of the byte may likewise come before the
      increment of the tail, after it, or after the wrap. */
  datatype RxPc =
    | RxIdle
    | ReadHead1
    | ReadHead2
    | ReadHead3(ahead: bool)
    | RxDecide(avail: nat)
    | Fetching(slot: nat, loaded: Option<Byte>, moved: Moved)

  /** `accepted` and `dropped` are the error-free bytes the handler queued or threw away,
      `consumed` those returned from the FIFO by micro_getc. */
  datatype Rx = Rx(fifo: Fifo, rxneie: bool, pc: RxPc,
                   accepted: seq<Byte>, dropped: seq<Byte>, consumed: seq<Byte>) {
    predicate Shape() {
      && fifo.Fits() && fifo.head < |fifo.buf|
      && (fifo.tail < |fifo.buf| || (pc.Fetching? && pc.moved.Bumped?))
      && (pc.Fetching? ==> pc.slot < |fifo.buf| && (pc.moved.Before? ==> pc.slot == fifo.tail))
    }

    /** The byte taken out of the queue but not yet returned, if any. */
    function InFlight(): seq<Byte>
      requires Shape()
    {
      if pc.Fetching? && !pc.moved.Before? then [fifo.buf[pc.slot]] else []
    }

    /** Returned bytes, then the byte in flight, then the queue, are the bytes accepted. */
    predicate Conserved()
      requires Shape()
    {
      consumed + InFlight() + fifo.Contents() == accepted
    }
  }

  function RxCall(s: Rx): Rx {
    if s.pc.RxIdle? then s.(pc := ReadHead1) else s
  }

  /** One step of the consumer; `loadFirst` resolves the order C leaves open. A get that finds
      no data returns the byte 0, which changes nothing here. */
  function RxMain(s: Rx, loadFirst: bool): (r: Rx)
    requires s.Shape()
    ensures r.Shape() && |r.fifo.buf| == |s.fifo.buf|
  {
    var head, tail, count := s.fifo.head, s.fifo.tail, |s.fifo.buf|;
    match s.pc
    case RxIdle => s
    case ReadHead1 =>
      s.(pc := if tail == head then RxDecide(0) else ReadHead2)
    case ReadHead2 =>
      s.(pc := ReadHead3(head > tail))
    case ReadHead3(ahead) =>
      s.(pc := RxDecide(ToU16(if ahead then head - tail else count - 1 - (tail - head))))
    case RxDecide(avail) =>
      s.(pc := if avail != 0 then Fetching(tail, None, Before) else RxIdle)
    case Fetching(slot, loaded, moved) =>
      if loaded.None? && (loadFirst || moved.Done?) then
        s.(pc := Fetching(slot, Some(s.fifo.buf[slot]), moved))
      else if moved.Before? then
        s.(fifo := s.fifo.(tail := tail + 1), pc := Fetching(slot, loaded, Bumped))
      else if moved.Bumped? then
        s.(fifo := s.fifo.WrapTail(), pc := Fetching(slot, loaded, Done))
      else
        s.(consumed := s.consumed + [loaded.value], pc := RxIdle)
  }

  /** The receive part of the handler, entered with RXNE set and no error flag. */
  function RxIrq(s: Rx, rdr: Byte): (r: Rx)
    requires s.Shape()
    ensures r.Shape() && |r.fifo.buf| == |s.fifo.buf|
  {
    if !s.rxneie then s
    else if SpaceAvail(s.fifo.head, s.fifo.tail, |s.fifo.buf|) != 0 then
      s.(fifo := s.fifo.Write(rdr), accepted := s.accepted + [rdr])
    else s.(dropped := s.dropped + [rdr])
  }

  // ----- the whole machine

  datatype Usart = Usart(tx: Tx, rx: Rx) {
    predicate Shape() { tx.Shape() && rx.Shape() }
  }

  datatype Irq = Irq(error: bool, rxne: bool, rdr: Byte, txe: bool)

  datatype Event =
    | Put(ch: Byte)
    | TxStep(storeFirst: bool)
    | Get
    | RxStep(loadFirst: bool)
    | EnableReceive
    | Interrupt(irq: Irq)

  /** The handler: with an error flag up nothing moves, otherwise receive and then transmit. */
  function Handle(s: Usart, i: Irq): (r: Usart)
    requires s.Shape()
    ensures r.Shape() && |r.tx.fifo.buf| == |s.tx.fifo.buf|
  {
    if i.error then s
    else Usart(if i.txe then TxIrq(s.tx) else s.tx,
               if i.rxne then RxIrq(s.rx, i.rdr) else s.rx)
  }

  function Next(s: Usart, e: Event): (r: Usart)
    requires s.Shape()
    ensures r.Shape() && |r.tx.fifo.buf| == |s.tx.fifo.buf|
  {
    match e
    case Put(ch) => s.(tx := TxCall(s.tx, ch))
    case TxStep(storeFirst) => s.(tx := TxMain(s.tx, storeFirst))
    case Get => s.(rx := RxCall(s.rx))
    case RxStep(loadFirst) => s.(rx := RxMain(s.rx, loadFirst))
    case EnableReceive => s.(rx := s.rx.(rxneie := true))
    case Interrupt(i) => Handle(s, i)
  }

  function Run(s: Usart, es: seq<Event>): (r: Usart)
    requires s.Shape()
    ensures r.Shape() && |r.tx.fifo.buf| == |s.tx.fifo.buf|
    decreases |es|
  {
    if es == [] then s else Next(Run(s, es[..|es| - 1]), es[|es| - 1])
  }

  ghost predicate Initial(s: Usart) {
    && s.Shape()
    && s.tx.fifo.head == s.tx.fifo.tail == 0 && s.rx.fifo.head == s.rx.fifo.tail == 0
    && s.tx.pc.TxIdle? && s.rx.pc.RxIdle? && !s.tx.txeie && !s.rx.rxneie
    && s.tx.asked == s.tx.written == s.tx.sent == []
    && s.rx.accepted == s.rx.dropped == s.rx.consumed == []
  }

  /** The event makes the handler transmit a byte it should not. */
  predicate HarmAt(s: Usart, e: Event)
    requires s.Shape()
  {
    e.Interrupt? && !e.irq.error && e.irq.txe && s.tx.txeie && (s.tx.Stray() || s.tx.Early())
  }

  /** No transmit interrupt of the run is harmful. */
  predicate Clean(s: Usart, es: seq<Event>)
    requires s.Shape()
    decreases |es|
  {
    es != [] ==>
      Clean(s, es[..|es| - 1]) && !HarmAt(Run(s, es[..|es| - 1]), es[|es| - 1])
  }

  // ----- transmit: the invariant

  /** What each stage of a put knows. A guard read off a moving tail stays valid because the
      handler only ever shortens the queue. */
  ghost predicate TxGuard(s: Tx)
    requires s.Shape()
  {
    var head, tail, count := s.fifo.head, s.fifo.tail, |s.fifo.buf|;
    match s.pc
    case ReadTail2(seen) =>
      seen < count && seen != head && Len(head, tail, count) <= Len(head, seen, count)
    case ReadTail3(ahead, seen) =>
      && 2 <= count && seen < count && ahead == (head > seen)
      && Len(head, tail, count) <= Len(head, seen, count)
    case Decide(space) => space != 0 ==> s.Room()
    case Entering(slot, stored, moved) =>
      if moved.Before? then s.Room() && (stored ==> s.fifo.buf[slot] == s.ch)
      else if moved.Bumped? then head == slot + 1
      else head == Slot(slot + 1, count)
    case _ => true
  }

  /** Every byte asked for is in the FIFO or beyond, or is the one now being put. */
  ghost predicate TxProgress(s: Tx) {
    s.asked == s.written + s.AtHand()
  }

  /** With the transmit interrupt off, the data guard is zero or the put is about to enable. */
  ghost predicate TxAwake(s: Tx) {
    s.txeie || s.Entered() || DataAvail(s.fifo.head, s.fifo.tail, |s.fifo.buf|) == 0
  }

  ghost predicate TxInv(s: Tx) {
    s.Shape() && s.Conserved() && TxGuard(s) && TxProgress(s) && TxAwake(s)
  }

  /** The last read of the space guard, made on a tail that may have moved since the branch was
      chosen: a non-zero result, also one that has wrapped around in 16 bits, means room. */
  lemma SpaceReadIsSound(head: nat, tail: nat, seen: nat, count: nat)
    requires head < count && tail < count && seen < count && 2 <= count < 0x1_0000
    requires Len(head, tail, count) <= Len(head, seen, count)
    ensures var space := ToU16(if head > seen then count - 1 - (head - tail) else tail - head - 1);
      && (space != 0 ==> Len(head, tail, count) < count - 1)
      && (Len(head, seen, count) < count - 1 ==> space != 0)
  {
  }

  lemma PollKeeps(s: Tx, storeFirst: bool)
    requires TxInv(s) && s.Polling()
    ensures TxInv(TxMain(s, storeFirst)) && TxMain(s, storeFirst).fifo == s.fifo
  {
    hide Fifo.Contents;
    assert TxMain(s, storeFirst).AtHand() == s.AtHand();
    match s.pc
    case ReadTail3(_, seen) => SpaceReadIsSound(s.fifo.head, s.fifo.tail, seen, |s.fifo.buf|);
    case _ =>
  }

  lemma StoringKeeps(s: Tx, storeFirst: bool)
    requires TxInv(s) && s.pc.Entering? && !s.pc.stored && (storeFirst || s.pc.moved.Done?)
    ensures TxInv(TxMain(s, storeFirst))
  {
    if s.pc.moved.Before? {
      StoreKeeps(s.fifo, s.ch);
    } else {
      assert TxMain(s, storeFirst).Ring() == s.Ring();
    }
  }

  /** Passing the slot queues the byte, whether it is stored already or not. */
  lemma PassingQueues(s: Tx)
    requires TxInv(s) && s.pc.Entering? && s.pc.moved.Before?
    ensures var r := s.(fifo := s.fifo.(head := s.fifo.head + 1), pc := s.pc.(moved := Bumped));
      r.Shape() && r.Queue() == s.Queue() + [s.ch]
  {
    var r := s.(fifo := s.fifo.(head := s.fifo.head + 1), pc := s.pc.(moved := Bumped));
    var full := s.fifo.Store(s.ch);
    StoreKeeps(s.fifo, s.ch);
    BumpAppends(full);
    assert r.Ring() == full.(head := full.head + 1);
  }

  lemma PassingKeeps(s: Tx, storeFirst: bool)
    requires TxInv(s) && s.pc.Entering? && s.pc.moved.Before? && (s.pc.stored || !storeFirst)
    ensures TxInv(TxMain(s, storeFirst))
  {
    PassingQueues(s);
    assert s.sent + (s.Queue() + [s.ch]) == s.sent + s.Queue() + [s.ch];
  }

  lemma WrappingKeeps(s: Tx, storeFirst: bool)
    requires TxInv(s) && s.Entered() && (s.pc.stored || (!storeFirst && s.pc.moved.Bumped?))
    ensures TxInv(TxMain(s, storeFirst))
  {
    assert TxMain(s, storeFirst).Queue() == s.Queue();
  }

  lemma TxMainKeeps(s: Tx, storeFirst: bool)
    requires TxInv(s)
    ensures TxInv(TxMain(s, storeFirst))
  {
    if s.Polling() {
      PollKeeps(s, storeFirst);
    } else if s.pc.Entering? {
      if !s.pc.stored && (storeFirst || s.pc.moved.Done?) {
        StoringKeeps(s, storeFirst);
      } else if s.pc.moved.Before? {
        PassingKeeps(s, storeFirst);
      } else {
        WrappingKeeps(s, storeFirst);
      }
    }
  }

  /** A handler that finds data, and is not misled, sends the oldest queued byte. */
  lemma SendTakes(s: Tx)
    requires TxInv(s) && DataAvail(s.fifo.head, s.fifo.tail, |s.fifo.buf|) != 0
    requires !s.Stray()
    ensures s.Queue() == [s.Ring().buf[s.fifo.tail]] + s.(fifo := s.fifo.Read()).Queue()
    ensures !s.Early() ==> s.Ring().buf[s.fifo.tail] == s.fifo.buf[s.fifo.tail]
  {
    ReadTakes(s.Ring());
    assert s.(fifo := s.fifo.Read()).Ring() == s.Ring().Read();
  }

  lemma SendKeepsOrder(s: Tx)
    requires TxInv(s) && DataAvail(s.fifo.head, s.fifo.tail, |s.fifo.buf|) != 0
    requires s.txeie && !s.Stray() && !s.Early()
    ensures TxIrq(s).Conserved() && |TxIrq(s).Queue()| == |s.Queue()| - 1
  {
    hide Fifo.Contents, DataAvail;
    SendTakes(s);
    var first, rest := [s.fifo.buf[s.fifo.tail]], TxIrq(s).Queue();
    assert s.sent + first + rest == s.sent + (first + rest);
  }

  lemma SendKeepsGuard(s: Tx)
    requires TxInv(s) && DataAvail(s.fifo.head, s.fifo.tail, |s.fifo.buf|) != 0
    requires s.txeie && !s.Stray()
    ensures TxGuard(TxIrq(s)) && |TxIrq(s).fifo.Contents()| < |s.fifo.Contents()|
  {
  }

  lemma TxIrqKeeps(s: Tx)
    requires TxInv(s) && !(s.txeie && (s.Stray() || s.Early()))
    ensures TxInv(TxIrq(s))
    ensures |TxIrq(s).fifo.Contents()| <= |s.fifo.Contents()|
  {
    if s.txeie && DataAvail(s.fifo.head, s.fifo.tail, |s.fifo.buf|) != 0 {
      SendKeepsOrder(s);
      SendKeepsGuard(s);
    }
  }

  /** A stray transmit interrupt sends a byte nobody wrote. */
  lemma StrayBreaks(s: Tx)
    requires TxInv(s) && s.txeie && s.Stray()
    ensures !TxIrq(s).Conserved()
  {
    assert |s.sent| == |s.written|;
  }

  /** An early one sends what the slot held before. */
  lemma EarlyBreaks(s: Tx)
    requires TxInv(s) && s.txeie && !s.Stray() && s.Early()
    ensures !TxIrq(s).Conserved()
  {
    SendTakes(s);
    var r := TxIrq(s);
    assert r.sent[|s.sent|] == s.fifo.buf[s.pc.slot];
    assert s.written[|s.sent|] == s.Queue()[0] == s.ch;
    assert (r.sent + r.Queue())[|s.sent|] == r.sent[|s.sent|];
  }

  lemma TxEventKeeps(s: Usart, e: Event)
    requires s.Shape() && TxInv(s.tx) && !HarmAt(s, e)
    ensures TxInv(Next(s, e).tx)
  {
    match e
    case TxStep(storeFirst) => TxMainKeeps(s.tx, storeFirst);
    case Interrupt(i) => if !i.error && i.txe { TxIrqKeeps(s.tx); }
    case _ =>
  }

  lemma StartsInvariant(s: Usart)
    requires Initial(s)
    ensures TxInv(s.tx)
  {
  }

  lemma {:induction false} TxInvariant(s: Usart, es: seq<Event>)
    requires s.Shape() && TxInv(s.tx) && Clean(s, es)
    ensures TxInv(Run(s, es).tx)
    decreases |es|
  {
    if es != [] {
      TxInvariant(s, es[..|es| - 1]);
      TxEventKeeps(Run(s, es[..|es| - 1]), es[|es| - 1]);
    }
  }

  /** The queue is conserved after the run and after every prefix of it. */
  predicate AlwaysConserved(s: Usart, es: seq<Event>)
    requires s.Shape()
    decreases |es|
  {
    Run(s, es).tx.Conserved() && (es != [] ==> AlwaysConserved(s, es[..|es| - 1]))
  }

  /** A harmful event breaks conservation, any other keeps it. */
  lemma HarmBreaks(s: Usart, e: Event)
    requires s.Shape() && TxInv(s.tx)
    ensures HarmAt(s, e) <==> !Next(s, e).tx.Conserved()
  {
    if HarmAt(s, e) {
      if s.tx.Stray() {
        StrayBreaks(s.tx);
      } else {
        EarlyBreaks(s.tx);
      }
    } else {
      TxEventKeeps(s, e);
    }
  }

  /** Transmit conservation, with its exact condition: the bytes sent followed by the bytes
      queued equal the bytes written after every prefix of the run, if and only if no transmit
      interrupt finds the ring drained before the head is wrapped, or comes to the slot of an
      outstanding store that holds another byte. Both orders of store and increment are in the
      run. */
  lemma {:induction false} TxConservation(s: Usart, es: seq<Event>)
    requires Initial(s)
    ensures Clean(s, es) <==> AlwaysConserved(s, es)
    decreases |es|
  {
    if es != [] {
      var before := es[..|es| - 1];
      TxConservation(s, before);
      if Clean(s, before) {
        TxInvariant(s, before);
        HarmBreaks(Run(s, before), es[|es| - 1]);
      }
    }
  }

  /** End to end: whatever put calls were given is, in order, what was sent, then what is
      queued, then the byte of a put still waiting. */
  lemma PutOrder(s: Usart, es: seq<Event>)
    requires Initial(s) && Clean(s, es)
    ensures var t := Run(s, es).tx; t.asked == t.sent + t.Queue() + t.AtHand()
  {
    TxInvariant(s, es);
  }

  /** A put starts on a slot only when it is free, and a handler that is not misled sends the
      oldest queued byte. */
  lemma TxAccessesAreSound(s: Usart, es: seq<Event>)
    requires Initial(s) && Clean(s, es)
    ensures var t := Run(s, es).tx;
      && (t.pc.Entering? && t.pc.moved.Before? ==> |t.fifo.Contents()| < |t.fifo.buf| - 1)
      && (!t.Stray() && !t.Early() && DataAvail(t.fifo.head, t.fifo.tail, |t.fifo.buf|) != 0
          ==> t.Queue() != [] && t.Queue()[0] == t.fifo.buf[t.fifo.tail])
  {
    TxInvariant(s, es);
    var t := Run(s, es).tx;
    if !t.Stray() && DataAvail(t.fifo.head, t.fifo.tail, |t.fifo.buf|) != 0 {
      SendTakes(t);
    }
  }

  // ----- which interrupts a put can bear

  /** The window of a put: from the increment of the head until the byte is stored and the head
      wrapped. */
  predicate Open(t: Tx) {
    t.Entered() && (t.pc.moved.Bumped? || !t.pc.stored)
  }

  /** The interrupts since the put last entered its window. */
  function InWindow(s: Usart, es: seq<Event>): nat
    requires s.Shape()
    decreases |es|
  {
    if es == [] || !Open(Run(s, es[..|es| - 1]).tx) then 0
    else InWindow(s, es[..|es| - 1]) + (if es[|es| - 1].Interrupt? then 1 else 0)
  }

  /** At most one interrupt arrives in each window. */
  predicate OnePerWindow(s: Usart, es: seq<Event>)
    requires s.Shape()
    decreases |es|
  {
    es != [] ==>
      OnePerWindow(s, es[..|es| - 1])
      && (es[|es| - 1].Interrupt? && Open(Run(s, es[..|es| - 1]).tx)
          ==> InWindow(s, es[..|es| - 1]) == 0)
  }

  /** No interrupt arrives while the only byte in the queue is one still to be stored. */
  predicate StoresInTime(s: Usart, es: seq<Event>)
    requires s.Shape()
    decreases |es|
  {
    es != [] ==>
      StoresInTime(s, es[..|es| - 1])
      && (es[|es| - 1].Interrupt? && Run(s, es[..|es| - 1]).tx.Outstanding()
          ==> |Run(s, es[..|es| - 1]).tx.Queue()| >= 2)
  }

  /** With the window untouched so far its byte is still queued, and with another one ahead of
      it the handler does not come to its slot. */
  lemma UntouchedIsSafe(t: Tx)
    requires TxInv(t) && t.Queue() != [] && (t.Outstanding() ==> |t.Queue()| >= 2)
    ensures !t.Stray() && !t.Early()
  {
  }

  /** The window opens with a byte in the queue, and stays as long as nothing is sent. */
  lemma WindowStep(t: Tx, storeFirst: bool)
    requires TxInv(t) && Open(TxMain(t, storeFirst))
    ensures !Open(t) ==> TxMain(t, storeFirst).Queue() != []
    ensures Open(t) ==> |TxMain(t, storeFirst).Queue()| == |t.Queue()|
  {
    if t.pc.moved.Before? {
      PassingQueues(t);
    }
  }

  lemma IrqKeepsPc(t: Tx)
    requires t.Shape()
    ensures TxIrq(t).pc == t.pc
  {
  }

  /** One event of such a run; `seen` counts the interrupts of the window so far. */
  lemma WindowEvent(s: Usart, e: Event, seen: nat)
    requires s.Shape() && TxInv(s.tx)
    requires e.Interrupt? && Open(s.tx) ==> seen == 0
    requires e.Interrupt? && s.tx.Outstanding() ==> |s.tx.Queue()| >= 2
    requires Open(s.tx) && seen == 0 ==> s.tx.Queue() != []
    ensures !HarmAt(s, e)
    ensures Open(Next(s, e).tx) && (Open(s.tx) ==> seen == 0 && !e.Interrupt?)
        ==> Next(s, e).tx.Queue() != []
  {
    match e
    case TxStep(storeFirst) =>
      if Open(TxMain(s.tx, storeFirst)) { WindowStep(s.tx, storeFirst); }
    case Interrupt(i) =>
      IrqKeepsPc(s.tx);
      if Open(s.tx) { UntouchedIsSafe(s.tx); }
    case _ =>
  }

  lemma {:induction false} OnePerWindowIsClean(s: Usart, es: seq<Event>)
    requires Initial(s) && OnePerWindow(s, es) && StoresInTime(s, es)
    ensures Clean(s, es)
    ensures Open(Run(s, es).tx) && InWindow(s, es) == 0 ==> Run(s, es).tx.Queue() != []
    decreases |es|
  {
    if es != [] {
      var before := es[..|es| - 1];
      OnePerWindowIsClean(s, before);
      TxInvariant(s, before);
      WindowEvent(Run(s, before), es[|es| - 1], InWindow(s, before));
    }
  }

  /** If every put stores before it increments, no store is ever outstanding. */
  lemma {:induction false} StoreFirstIsInTime(s: Usart, es: seq<Event>)
    requires Initial(s) && forall k :: 0 <= k < |es| && es[k].TxStep? ==> es[k].storeFirst
    ensures StoresInTime(s, es) && !Run(s, es).tx.Outstanding()
    decreases |es|
  {
    hide Next, Tx.Queue;
    if es != [] {
      var before, e := es[..|es| - 1], es[|es| - 1];
      StoreFirstIsInTime(s, before);
      StoreFirstEvent(Run(s, before), e);
    }
  }

  lemma StoreFirstEvent(s: Usart, e: Event)
    requires s.Shape() && !s.tx.Outstanding() && (e.TxStep? ==> e.storeFirst)
    ensures !Next(s, e).tx.Outstanding()
  {
    hide Fifo.Contents, DataAvail, SpaceAvail;
    if e.Interrupt? {
      IrqKeepsPc(s.tx);
    }
  }

  // ----- no lost wake-up

  /** With the transmit interrupt off and no put about to enable it, at most one byte is
      queued, and that only at the top of the ring with the head wrapped to 0. */
  lemma NoLostWakeup(s: Usart, es: seq<Event>)
    requires Initial(s) && Clean(s, es)
    ensures var t := Run(s, es).tx;
      !t.txeie && !t.Entered() ==>
        t.Queue() == [] || (|t.Queue()| == 1 && t.fifo.Hidden())
  {
    TxInvariant(s, es);
    var t := Run(s, es).tx;
    if !t.Entered() {
      DataHidesOne(t.fifo);
    }
  }

  /** With three slots or more, a put that finds no room always has the interrupt enabled, and
      one transmit interrupt makes room. */
  lemma FullMeansAwake(s: Tx)
    requires TxInv(s) && !s.Entered() && 3 <= |s.fifo.buf|
    ensures !s.Room() ==> s.txeie
    ensures TxIrq(s).Room()
  {
    if !s.Room() {
      DataIsExact(s.fifo);
      ReadTakes(s.fifo);
    } else {
      TxIrqKeeps(s);
    }
  }

  /** n transmit interrupts in a row. */
  function Irqs(t: Tx, n: nat): (r: Tx)
    requires t.Shape()
    ensures r.Shape() && |r.fifo.buf| == |t.fifo.buf|
    decreases n
  {
    if n == 0 then t else Irqs(TxIrq(t), n - 1)
  }

  lemma IrqSends(t: Tx)
    requires TxInv(t) && !t.Entered()
    ensures TxInv(TxIrq(t)) && TxIrq(t).pc == t.pc
    ensures TxIrq(t).written == t.written && TxIrq(t).fifo.head == t.fifo.head
    ensures if DataAvail(t.fifo.head, t.fifo.tail, |t.fifo.buf|) != 0
            then |TxIrq(t).Queue()| == |t.Queue()| - 1
            else TxIrq(t) == t.(txeie := false)
  {
    TxIrqKeeps(t);
    if DataAvail(t.fifo.head, t.fifo.tail, |t.fifo.buf|) != 0 {
      SendTakes(t);
    }
  }

  lemma {:induction false} HiddenStays(t: Tx, n: nat)
    requires TxInv(t) && !t.Entered()
    requires DataAvail(t.fifo.head, t.fifo.tail, |t.fifo.buf|) == 0
    ensures var r := Irqs(t, n); TxInv(r) && r == t.(txeie := r.txeie)
    decreases n
  {
    if n > 0 {
      IrqSends(t);
      HiddenStays(TxIrq(t), n - 1);
    }
  }

  /** Left alone, the handler sends what is queued, except for a byte hidden at the top of the
      ring: after as many interrupts as there are bytes everything written has been sent, exactly
      if the head did not stand at 0 with something queued. */
  lemma {:induction false} QueueDrains(t: Tx, n: nat)
    requires TxInv(t) && !t.Entered() && |t.Queue()| <= n
    ensures var r := Irqs(t, n);
      && r.Conserved() && r.written == t.written && r.fifo.head == t.fifo.head
      && (r.Queue() == [] || (|r.Queue()| == 1 && r.fifo.Hidden()))
      && (r.sent == t.written <==> t.fifo.head != 0 || t.Queue() == [])
    decreases n
  {
    hide Fifo.Contents, TxIrq, DataAvail;
    if DataAvail(t.fifo.head, t.fifo.tail, |t.fifo.buf|) == 0 {
      DataHidesOne(t.fifo);
      HiddenStays(t, n);
      assert |t.written| == |t.sent| + |t.Queue()|;
    } else {
      IrqSends(t);
      DataIsExact(t.fifo);
      QueueDrains(TxIrq(t), n - 1);
    }
  }

  /** The bytes handed to put calls in a run, in order. */
  function PutsOf(es: seq<Event>): seq<Byte>
    decreases |es|
  {
    if es == [] then []
    else PutsOf(es[..|es| - 1]) + (if es[|es| - 1].Put? then [es[|es| - 1].ch] else [])
  }

  /** How far the first put after a hidden byte has come. */
  ghost predicate FirstPut(t: Tx, from: Tx, puts: seq<Byte>)
    requires from.Shape()
  {
    && TxInv(t) && |t.fifo.buf| == |from.fifo.buf|
    && (puts == [] ==> t.pc.TxIdle? && t.fifo.head == 0 && t.asked == from.asked)
    && (|puts| == 1 ==> t.asked == from.asked + puts && t.fifo.head == if t.AtHand() != [] then 0 else 1)
  }

  lemma FirstPutEvent(s: Usart, e: Event, from: Tx, puts: seq<Byte>)
    requires s.Shape() && from.Shape() && 3 <= |from.fifo.buf| && !HarmAt(s, e)
    requires FirstPut(s.tx, from, puts)
    ensures FirstPut(Next(s, e).tx, from, puts + (if e.Put? then [e.ch] else []))
  {
    hide Fifo.Contents, DataAvail;
    TxEventKeeps(s, e);
    match e
    case Put(ch) => assert puts == [] ==> puts + [ch] == [ch];
    case _ => assert puts + [] == puts;
  }

  lemma {:induction false} FirstPutRuns(s: Usart, es: seq<Event>)
    requires s.Shape() && TxInv(s.tx) && s.tx.pc.TxIdle? && s.tx.fifo.head == 0
    requires 3 <= |s.tx.fifo.buf| && Clean(s, es)
    ensures FirstPut(Run(s, es).tx, s.tx, PutsOf(es))
    decreases |es|
  {
    if es != [] {
      var before := es[..|es| - 1];
      FirstPutRuns(s, before);
      FirstPutEvent(Run(s, before), es[|es| - 1], s.tx, PutsOf(before));
    }
  }

  lemma HiddenIsQueued(t: Tx)
    requires t.Shape() && t.pc.TxIdle? && t.fifo.Hidden() && 2 <= |t.fifo.buf|
    ensures t.Queue() == [t.fifo.buf[t.fifo.tail]]
  {
    assert t.fifo.buf[..0] == [] && t.fifo.buf[t.fifo.tail..] == [t.fifo.buf[t.fifo.tail]];
  }

  /** The hidden byte is not lost: in a ring of three slots or more, once one more put is done,
      whatever falls between its steps, two transmit interrupts have sent it and then the new
      byte. */
  lemma HiddenByteLeaves(s: Usart, es: seq<Event>, ch: Byte)
    requires s.Shape() && TxInv(s.tx) && s.tx.pc.TxIdle? && s.tx.fifo.Hidden() && 3 <= |s.tx.fifo.buf|
    requires Clean(s, es) && PutsOf(es) == [ch] && Run(s, es).tx.pc.TxIdle?
    ensures Irqs(Run(s, es).tx, 2).sent == s.tx.sent + [s.tx.fifo.buf[s.tx.fifo.tail], ch]
  {
    hide Fifo.Contents, Run;
    var t, r, hidden := s.tx, Run(s, es).tx, [s.tx.fifo.buf[s.tx.fifo.tail]];
    HiddenIsQueued(t);
    FirstPutRuns(s, es);
    SentGrows(s, es);
    assert r.written == t.sent + [s.tx.fifo.buf[s.tx.fifo.tail], ch] by {
      assert t.asked == t.sent + hidden && r.written == r.asked;
      assert t.sent + hidden + [ch] == t.sent + (hidden + [ch]);
    }
    assert |r.Queue()| <= 2 by {
      assert r.sent + r.Queue() == r.written;
    }
    QueueDrains(r, 2);
  }

  /** Until then it waits: with the interrupt off, no run without a put changes anything. */
  lemma {:induction false} HiddenWaits(s: Usart, es: seq<Event>)
    requires s.Shape() && s.tx.pc.TxIdle? && !s.tx.txeie && PutsOf(es) == []
    ensures Run(s, es).tx == s.tx
    decreases |es|
  {
    if es != [] {
      HiddenWaits(s, es[..|es| - 1]);
    }
  }

  /** What was sent stays sent. */
  lemma {:induction false} SentGrows(s: Usart, es: seq<Event>)
    requires s.Shape()
    ensures |s.tx.sent| <= |Run(s, es).tx.sent|
    decreases |es|
  {
    if es != [] {
      SentGrows(s, es[..|es| - 1]);
      SentStep(Run(s, es[..|es| - 1]), es[|es| - 1]);
    }
  }

  lemma SentStep(s: Usart, e: Event)
    requires s.Shape()
    ensures |s.tx.sent| <= |Next(s, e).tx.sent|
  {
    hide Fifo.Contents, DataAvail, Slot;
  }

  // ----- bounded retry

  /** The producer steps a put needs once there is room. A poll that began before the room
      appeared may fail once; a poll that begins with room cannot. */
  function StepsToEnter(s: Tx): nat
    requires s.Shape()
  {
    var sure := (seen: nat) =>
      seen < |s.fifo.buf| && s.fifo.head < |s.fifo.buf|
      && Len(s.fifo.head, seen, |s.fifo.buf|) < |s.fifo.buf| - 1;
    match s.pc
    case ReadTail1 => 4
    case ReadTail2(seen) => 3
    case ReadTail3(_, seen) => if sure(seen) then 2 else 6
    case Decide(space) => if space != 0 then 1 else 5
    case _ => 0
  }

  lemma PollAdvances(s: Tx, storeFirst: bool)
    requires TxInv(s) && s.Polling() && s.Room()
    ensures var r := TxMain(s, storeFirst);
      r.Room() && (r.pc.Entering? || (r.Polling() && StepsToEnter(r) < StepsToEnter(s)))
  {
    hide Fifo.Contents;
    PollKeeps(s, storeFirst);
    match s.pc
    case ReadTail3(_, seen) => SpaceReadIsSound(s.fifo.head, s.fifo.tail, seen, |s.fifo.buf|);
    case _ =>
  }

  lemma IrqKeepsPoll(s: Tx)
    requires TxInv(s) && s.Polling() && s.Room()
    ensures TxIrq(s).Room() && TxIrq(s).pc == s.pc && StepsToEnter(TxIrq(s)) == StepsToEnter(s)
  {
    TxIrqKeeps(s);
  }

  function TxSteps(es: seq<Event>): nat
    decreases |es|
  {
    if es == [] then 0 else TxSteps(es[..|es| - 1]) + (if es[|es| - 1].TxStep? then 1 else 0)
  }

  /** The put is still polling after every prefix of the schedule. */
  predicate StaysPolling(s: Usart, es: seq<Event>)
    requires s.Shape()
    decreases |es|
  {
    Run(s, es).tx.Polling() && (es != [] ==> StaysPolling(s, es[..|es| - 1]))
  }

  /** What one event does to a poll that has room. */
  lemma PollEvent(s: Usart, e: Event)
    requires s.Shape() && TxInv(s.tx) && s.tx.Polling() && s.tx.Room()
    ensures var r := Next(s, e).tx;
      TxInv(r) && r.Room()
      && (r.Polling() ==>
            StepsToEnter(r) + (if e.TxStep? then 1 else 0) <= StepsToEnter(s.tx))
  {
    hide Fifo.Contents, TxInv;
    match e
    case TxStep(storeFirst) => TxMainKeeps(s.tx, storeFirst); PollAdvances(s.tx, storeFirst);
    case Interrupt(i) => TxIrqKeeps(s.tx); IrqKeepsPoll(s.tx);
    case _ =>
  }

  /** Bounded retry: from a put that is polling with room in the FIFO, no schedule of
      interrupts lets it make six steps without entering its byte. */
  lemma {:induction false} PutCompletes(s: Usart, es: seq<Event>)
    requires s.Shape() && TxInv(s.tx) && s.tx.Room() && StaysPolling(s, es)
    ensures TxInv(Run(s, es).tx) && Run(s, es).tx.Room()
    ensures TxSteps(es) + StepsToEnter(Run(s, es).tx) <= StepsToEnter(s.tx) <= 6
    decreases |es|
  {
    if es != [] {
      PutCompletes(s, es[..|es| - 1]);
      PollEvent(Run(s, es[..|es| - 1]), es[|es| - 1]);
    }
  }

  lemma {:induction false} StopsPollingSomewhere(s: Usart, es: seq<Event>) returns (k: nat)
    requires s.Shape() && !StaysPolling(s, es)
    ensures k <= |es| && !Run(s, es[..k]).tx.Polling()
    decreases |es|
  {
    if Run(s, es).tx.Polling() {
      k := StopsPollingSomewhere(s, es[..|es| - 1]);
      assert es[..|es| - 1][..k] == es[..k];
    } else {
      k := |es|;
      assert es[..k] == es;
    }
  }

  lemma IrqFreesPoll(p: Usart, i: Irq)
    requires p.Shape() && TxInv(p.tx) && p.tx.Polling() && 3 <= |p.tx.fifo.buf| && !i.error && i.txe
    ensures TxInv(Next(p, Interrupt(i)).tx) && Next(p, Interrupt(i)).tx.Room()
  {
    hide Fifo.Contents, DataAvail;
    FullMeansAwake(p.tx);
    TxIrqKeeps(p.tx);
  }

  /** In any run of a console with three slots or more, a waiting put needs one transmit
      interrupt and at most six more steps of its own. */
  lemma OneInterruptFreesAPut(s: Usart, es: seq<Event>, i: Irq, rest: seq<Event>) returns (k: nat)
    requires Initial(s) && Clean(s, es) && 3 <= |s.tx.fifo.buf|
    requires Run(s, es).tx.Polling() && !i.error && i.txe
    requires TxSteps(rest) >= 6
    ensures k <= |rest| && !Run(Next(Run(s, es), Interrupt(i)), rest[..k]).tx.Polling()
  {
    hide Fifo.Contents, DataAvail, TxInv, Run, Next, Clean;
    StartsInvariant(s);
    TxInvariant(s, es);
    IrqFreesPoll(Run(s, es), i);
    var q := Next(Run(s, es), Interrupt(i));
    if StaysPolling(q, rest) {
      PutCompletes(q, rest);
    }
    k := StopsPollingSomewhere(q, rest);
  }

  /** A put stuck for ever: no room, and the interrupt that would make room is off because the
      data guard hides the one queued byte (or because there is no usable slot at all). */
  ghost predicate Stuck(s: Tx) {
    && s.Shape() && !s.txeie && !s.Room()
    && s.fifo.head == 0 && s.fifo.tail == |s.fifo.buf| - 1 <= 1
    && (s.pc.ReadTail1? || (s.pc.ReadTail2? && |s.fifo.buf| == 2)
        || (s.pc.ReadTail3? && !s.pc.ahead && |s.fifo.buf| == 2) || s.pc == Decide(0))
  }

  lemma StuckEvent(s: Usart, e: Event)
    requires s.Shape() && Stuck(s.tx)
    ensures Stuck(Next(s, e).tx)
  {
    match e
    case TxStep(storeFirst) => assert TxMain(s.tx, storeFirst).fifo == s.tx.fifo;
    case Interrupt(i) => assert TxIrq(s.tx) == s.tx;
    case _ =>
  }

  lemma {:induction false} StuckForEver(s: Usart, es: seq<Event>)
    requires s.Shape() && Stuck(s.tx)
    ensures Stuck(Run(s, es).tx)
    decreases |es|
  {
    hide Stuck, Next;
    if es != [] {
      StuckForEver(s, es[..|es| - 1]);
      StuckEvent(Run(s, es[..|es| - 1]), es[|es| - 1]);
    }
  }

  // ----- runs, and the interrupts they took

  /** No interrupt of the run falls in a window. */
  predicate Calm(s: Usart, es: seq<Event>)
    requires s.Shape()
    decreases |es|
  {
    es != [] ==>
      Calm(s, es[..|es| - 1]) && (es[|es| - 1].Interrupt? ==> !Open(Run(s, es[..|es| - 1]).tx))
  }

  /** The interrupts of a run, in order. */
  function IrqsOf(es: seq<Event>): seq<Irq>
    decreases |es|
  {
    if es == [] then []
    else IrqsOf(es[..|es| - 1]) + (if es[|es| - 1].Interrupt? then [es[|es| - 1].irq] else [])
  }

  /** Only puts, their steps and interrupts. */
  predicate Transmits(es: seq<Event>) {
    forall k :: 0 <= k < |es| ==> es[k].Put? || es[k].TxStep? || es[k].Interrupt?
  }

  lemma {:induction false} CalmIsSafe(s: Usart, es: seq<Event>)
    requires s.Shape() && Calm(s, es)
    ensures OnePerWindow(s, es) && InWindow(s, es) == 0 && StoresInTime(s, es) && Clean(s, es)
    decreases |es|
  {
    if es != [] {
      CalmIsSafe(s, es[..|es| - 1]);
    }
  }

  /** Runs compose. */
  lemma {:induction false} RunAppend(s: Usart, a: seq<Event>, b: seq<Event>)
    requires s.Shape()
    ensures Run(s, a + b) == Run(Run(s, a), b)
    ensures Clean(s, a + b) <==> Clean(s, a) && Clean(Run(s, a), b)
    ensures Calm(s, a + b) <==> Calm(s, a) && Calm(Run(s, a), b)
    decreases |b|
  {
    if b == [] {
      assert a + b == a;
    } else {
      var front := b[..|b| - 1];
      RunAppend(s, a, front);
      assert (a + b)[..|a + b| - 1] == a + front;
    }
  }

  lemma RunOne(s: Usart, e: Event)
    requires s.Shape()
    ensures Run(s, [e]) == Next(s, e) && (Clean(s, [e]) <==> !HarmAt(s, e))
    ensures Calm(s, [e]) <==> (e.Interrupt? ==> !Open(s.tx))
  {
    assert [e][..0] == [];
  }

  /** n undisturbed steps of the producer. */
  function Steps(t: Tx, n: nat, storeFirst: bool): (r: Tx)
    requires t.Shape()
    ensures r.Shape() && |r.fifo.buf| == |t.fifo.buf|
  {
    if n == 0 then t else TxMain(Steps(t, n - 1, storeFirst), storeFirst)
  }

  function Ticks(n: nat, storeFirst: bool): seq<Event> {
    seq(n, _ => TxStep(storeFirst))
  }

  lemma {:induction false} RunTicks(s: Usart, n: nat, storeFirst: bool)
    requires s.Shape()
    ensures Run(s, Ticks(n, storeFirst)) == s.(tx := Steps(s.tx, n, storeFirst))
    ensures Calm(s, Ticks(n, storeFirst))
    decreases n
  {
    hide TxMain, Clean, Open;
    if n > 0 {
      RunTicks(s, n - 1, storeFirst);
      assert Ticks(n, storeFirst)[..n - 1] == Ticks(n - 1, storeFirst);
    }
  }

  // ----- the run of an undisturbed put

  lemma {:induction false} PutsAppend(a: seq<Event>, b: seq<Event>)
    ensures PutsOf(a + b) == PutsOf(a) + PutsOf(b)
    decreases |b|
  {
    if b == [] {
      assert a + b == a;
    } else {
      PutsAppend(a, b[..|b| - 1]);
      assert (a + b)[..|a + b| - 1] == a + b[..|b| - 1];
    }
  }

  lemma {:induction false} IrqsAppend(a: seq<Event>, b: seq<Event>)
    ensures IrqsOf(a + b) == IrqsOf(a) + IrqsOf(b)
    decreases |b|
  {
    if b == [] {
      assert a + b == a;
    } else {
      IrqsAppend(a, b[..|b| - 1]);
      assert (a + b)[..|a + b| - 1] == a + b[..|b| - 1];
    }
  }

  lemma EventsAppend(a: seq<Event>, b: seq<Event>)
    ensures PutsOf(a + b) == PutsOf(a) + PutsOf(b) && IrqsOf(a + b) == IrqsOf(a) + IrqsOf(b)
  {
    PutsAppend(a, b);
    IrqsAppend(a, b);
  }

  lemma {:induction false} EventsOfTicks(n: nat, storeFirst: bool)
    ensures PutsOf(Ticks(n, storeFirst)) == [] && IrqsOf(Ticks(n, storeFirst)) == []
    decreases n
  {
    if n > 0 {
      EventsOfTicks(n - 1, storeFirst);
      assert Ticks(n, storeFirst)[..n - 1] == Ticks(n - 1, storeFirst);
    }
  }

  /** Some run leads from `s` to `r` with these puts and these interrupts, none of them in a
      window, and with no other events than steps of the puts. */
  ghost predicate Reaches(s: Usart, puts: seq<Byte>, irqs: seq<Irq>, r: Usart)
    requires s.Shape()
  {
    exists es ::
      Run(s, es) == r && Calm(s, es) && Transmits(es) && PutsOf(es) == puts && IrqsOf(es) == irqs
  }

  lemma ReachesAppend(s: Usart, p0: seq<Byte>, i0: seq<Irq>, m: Usart, p1: seq<Byte>, i1: seq<Irq>,
                      r: Usart)
    requires s.Shape() && m.Shape() && Reaches(s, p0, i0, m) && Reaches(m, p1, i1, r)
    ensures Reaches(s, p0 + p1, i0 + i1, r)
  {
    hide Run, Calm, PutsOf, IrqsOf, Usart.Shape;
    var a :| Run(s, a) == m && Calm(s, a) && Transmits(a) && PutsOf(a) == p0 && IrqsOf(a) == i0;
    var b :| Run(m, b) == r && Calm(m, b) && Transmits(b) && PutsOf(b) == p1 && IrqsOf(b) == i1;
    RunAppend(s, a, b);
    EventsAppend(a, b);
    assert Run(s, a + b) == r;
  }

  lemma ReachesItself(s: Usart)
    requires s.Shape()
    ensures Reaches(s, [], [], s)
  {
    assert Run(s, []) == s && Transmits([]);
  }

  lemma ReachesOne(s: Usart, e: Event)
    requires s.Shape() && (e.Put? || (e.Interrupt? && !Open(s.tx)))
    ensures Reaches(s, if e.Put? then [e.ch] else [], if e.Interrupt? then [e.irq] else [], Next(s, e))
  {
    RunOne(s, e);
    EventsAppend([], [e]);
    assert [e][..0] == [] && Run(s, [e]) == Next(s, e);
  }

  lemma ReachesTicks(s: Usart, n: nat)
    requires s.Shape()
    ensures Reaches(s, [], [], s.(tx := Steps(s.tx, n, true)))
  {
    RunTicks(s, n, true);
    EventsOfTicks(n, true);
    assert Transmits(Ticks(n, true));
  }

  /** One reading of the space guard, undisturbed, and the decision on it. */
  lemma PollSteps(t: Tx) returns (n: nat)
    requires t.Shape() && t.pc.ReadTail1?
    ensures Steps(t, n, true)
         == t.(pc := if t.Room() then Entering(t.fifo.head, false, Before) else ReadTail1)
  {
    hide Fifo.Contents;
    SpaceIsExact(t.fifo);
    n := if t.fifo.head == t.fifo.tail then 2 else 4;
    PollReads(t);
  }

  lemma PollReads(t: Tx)
    requires t.Shape() && t.pc.ReadTail1?
    ensures Steps(t, if t.fifo.head == t.fifo.tail then 1 else 3, true)
         == t.(pc := Decide(SpaceAvail(t.fifo.head, t.fifo.tail, |t.fifo.buf|)))
  {
    hide Fifo.Contents, Steps, TxMain;
    OneStep(t, 0);
    FirstRead(t);
    if t.fifo.head != t.fifo.tail {
      OneStep(t, 1);
      OneStep(t, 2);
      LaterReads(t);
    }
  }

  lemma FirstRead(t: Tx)
    requires t.Shape() && t.pc.ReadTail1?
    ensures var space := SpaceAvail(t.fifo.head, t.fifo.tail, |t.fifo.buf|);
      TxMain(t, true)
        == t.(pc := if t.fifo.head == t.fifo.tail then Decide(space) else ReadTail2(t.fifo.tail))
  {
  }

  lemma LaterReads(t: Tx)
    requires t.Shape() && t.pc.ReadTail1? && t.fifo.head != t.fifo.tail
    ensures var head, tail := t.fifo.head, t.fifo.tail;
      && TxMain(t.(pc := ReadTail2(tail)), true) == t.(pc := ReadTail3(head > tail, tail))
      && TxMain(t.(pc := ReadTail3(head > tail, tail)), true)
         == t.(pc := Decide(SpaceAvail(head, tail, |t.fifo.buf|)))
  {
    hide Fifo.Contents;
  }

  lemma OneStep(t: Tx, n: nat)
    requires t.Shape()
    ensures Steps(t, 0, true) == t && Steps(t, n + 1, true) == TxMain(Steps(t, n, true), true)
  {
  }

  lemma EnterSteps(t: Tx)
    requires t.Shape() && t.pc == Entering(t.fifo.head, false, Before)
    ensures Steps(t, 4, true)
         == t.(fifo := t.fifo.Write(t.ch), written := t.written + [t.ch], txeie := true, pc := TxIdle)
  {
    var full, head := t.fifo.Store(t.ch), t.fifo.head;
    assert Steps(t, 1, true) == t.(fifo := full, pc := Entering(head, true, Before));
    assert Steps(t, 2, true) == t.(fifo := full.(head := head + 1), written := t.written + [t.ch],
                                   pc := Entering(head, true, Bumped));
    assert Steps(t, 3, true) == t.(fifo := full.(head := head + 1).WrapHead(),
                                   written := t.written + [t.ch], pc := Entering(head, true, Done));
  }

  /** An idle console after a put. */
  function AfterPut(t: Tx, ch: Byte): Tx
    requires t.fifo.head < |t.fifo.buf|
  {
    t.(fifo := t.fifo.Write(ch), txeie := true, ch := ch,
       asked := t.asked + [ch], written := t.written + [ch])
  }

  /** A put that waits, undisturbed, goes through if there is room and polls again if not. */
  lemma PollReaches(s: Usart, ch: Byte)
    requires s.Shape() && s.tx.pc.TxIdle?
    ensures var p := Next(s, Put(ch));
      Reaches(p, [], [], if s.tx.Room() then s.(tx := AfterPut(s.tx, ch)) else p)
  {
    var p := Next(s, Put(ch));
    var n := PollSteps(p.tx);
    ReachesTicks(p, n);
    if s.tx.Room() {
      var q := p.(tx := Steps(p.tx, n, true));
      EnterSteps(q.tx);
      ReachesTicks(q, 4);
      ReachesAppend(p, [], [], q, [], [], s.(tx := AfterPut(s.tx, ch)));
    }
  }

  /** A put that waits and an interrupt do not see each other. */
  lemma WaitingReaches(s: Usart, ch: Byte, i: Irq)
    requires s.Shape() && s.tx.pc.TxIdle?
    ensures Reaches(Next(s, Put(ch)), [], [i], Next(Handle(s, i), Put(ch)))
  {
    ReachesOne(Next(s, Put(ch)), Interrupt(i));
  }

  lemma ReachesMore(s: Usart, puts: seq<Byte>, i0: seq<Irq>, m: Usart, i1: seq<Irq>, r: Usart)
    requires s.Shape() && m.Shape() && Reaches(s, puts, i0, m) && Reaches(m, [], i1, r)
    ensures Reaches(s, puts, i0 + i1, r)
  {
    hide *;
    ReachesAppend(s, puts, i0, m, [], i1, r);
    assert puts + [] == puts;
  }

  lemma PutReaches(s: Usart, ch: Byte, irqs: seq<Irq>, p: Usart, r: Usart)
    requires s.Shape() && p.Shape() && Reaches(Next(s, Put(ch)), [], irqs, p) && Reaches(p, [], [], r)
    ensures Reaches(s, [ch], irqs, r)
  {
    hide *;
    ReachesOne(s, Put(ch));
    ReachesAppend(Next(s, Put(ch)), [], irqs, p, [], [], r);
    ReachesAppend(s, [ch], [], Next(s, Put(ch)), [] + [], irqs + [], r);
    assert [ch] + ([] + []) == [ch] && [] + (irqs + []) == irqs;
  }

  // ----- the conditions are needed: runs that break them

  /** An undisturbed put into an empty ring, up to the increment of the head. */
  lemma StepsIntoEmpty(t: Tx, ch: Byte, storeFirst: bool)
    requires t.Shape() && t.pc.TxIdle? && 2 <= |t.fifo.buf| && t.fifo.head == t.fifo.tail
    ensures var f := if storeFirst then t.fifo.Store(ch) else t.fifo;
      var r := Steps(TxCall(t, ch), if storeFirst then 4 else 3, storeFirst);
      r == t.(fifo := f.(head := f.head + 1), pc := Entering(f.head, storeFirst, Bumped),
              ch := ch, asked := t.asked + [ch], written := t.written + [ch])
  {
    var t0, head := TxCall(t, ch), t.fifo.head;
    assert Steps(t0, 1, storeFirst) == t0.(pc := Decide(|t.fifo.buf| - 1));
    assert Steps(t0, 2, storeFirst) == t0.(pc := Entering(head, false, Before));
    if storeFirst {
      assert Steps(t0, 3, true) == t0.(fifo := t.fifo.Store(ch), pc := Entering(head, true, Before));
    }
  }

  /** The byte of a put into an empty ring, with the window just open. */
  lemma PutIntoEmpty(s: Usart, ch: Byte, storeFirst: bool) returns (es: seq<Event>)
    requires s.Shape() && s.tx.pc.TxIdle? && 2 <= |s.tx.fifo.buf| && s.tx.fifo.head == s.tx.fifo.tail
    ensures Calm(s, es)
    ensures var r, f := Run(s, es).tx, if storeFirst then s.tx.fifo.Store(ch) else s.tx.fifo;
      && r.pc == Entering(f.head, storeFirst, Bumped) && r.ch == ch && r.txeie == s.tx.txeie
      && r.fifo == f.(head := f.head + 1)
  {
    RunOne(s, Put(ch));
    StepsIntoEmpty(s.tx, ch, storeFirst);
    var rest := Ticks(if storeFirst then 4 else 3, storeFirst);
    RunTicks(Next(s, Put(ch)), |rest|, storeFirst);
    RunAppend(s, [Put(ch)], rest);
    es := [Put(ch)] + rest;
  }

  const TX_READY := Interrupt(Irq(false, false, 0, true))

  /** The data guard sees a byte the head has just passed, in the window as after it. */
  lemma SendsPassedByte(t: Tx)
    requires t.Shape() && t.txeie && t.fifo.head == t.fifo.tail + 1
    ensures DataAvail(t.fifo.head, t.fifo.tail, |t.fifo.buf|) != 0
    ensures TxIrq(t) == t.(sent := t.sent + [t.fifo.buf[t.fifo.tail]], fifo := t.fifo.Read())
  {
  }

  /** The end of a put that has stored: wrap and enable. */
  lemma FinishSteps(t: Tx)
    requires t.Shape() && t.pc.Entering? && t.pc.moved.Bumped? && t.pc.stored
    ensures Steps(t, 2, true) == t.(fifo := t.fifo.WrapHead(), txeie := true, pc := TxIdle)
  {
    assert Steps(t, 1, true) == t.(fifo := t.fifo.WrapHead(), pc := t.pc.(moved := Done));
  }

  /** A whole put into an empty ring. */
  lemma WholePut(s: Usart, ch: Byte) returns (es: seq<Event>)
    requires s.Shape() && s.tx.pc.TxIdle? && 2 <= |s.tx.fifo.buf| && s.tx.fifo.head == s.tx.fifo.tail
    ensures Calm(s, es)
    ensures var r := Run(s, es).tx;
      r.pc.TxIdle? && r.txeie && r.fifo == s.tx.fifo.Write(ch)
  {
    var a := PutIntoEmpty(s, ch, true);
    FinishSteps(Run(s, a).tx);
    RunTicks(Run(s, a), 2, true);
    RunAppend(s, a, Ticks(2, true));
    es := a + Ticks(2, true);
  }

  /** A put into an empty ring and the interrupt that sends its byte: head and tail move on by
      one slot. */
  lemma PutAndSend(s: Usart) returns (es: seq<Event>)
    requires s.Shape() && s.tx.pc.TxIdle? && s.tx.fifo.head == s.tx.fifo.tail
    requires s.tx.fifo.head + 1 < |s.tx.fifo.buf|
    ensures Calm(s, es)
    ensures var r := Run(s, es).tx;
      r.pc.TxIdle? && r.txeie && r.fifo.head == r.fifo.tail == s.tx.fifo.head + 1
  {
    var a := WholePut(s, 0);
    var p := Run(s, a);
    SendsPassedByte(p.tx);
    RunOne(p, TX_READY);
    RunAppend(s, a, [TX_READY]);
    es := a + [TX_READY];
  }

  lemma {:induction false} Rotate(s: Usart, k: nat) returns (es: seq<Event>)
    requires Initial(s) && 1 <= k < |s.tx.fifo.buf|
    ensures Calm(s, es)
    ensures var t := Run(s, es).tx;
      t.pc.TxIdle? && t.txeie && t.fifo.head == t.fifo.tail == k
  {
    var a := [];
    if k > 1 {
      a := Rotate(s, k - 1);
    }
    var b := PutAndSend(Run(s, a));
    RunAppend(s, a, b);
    es := a + b;
  }

  lemma HiddenTurnsOff(t: Tx)
    requires t.Shape() && t.pc.TxIdle? && t.txeie && t.fifo.Hidden() && 2 <= |t.fifo.buf|
    ensures TxIrq(t) == t.(txeie := false) && |t.Queue()| == 1
  {
    DataHidesOne(t.fifo);
  }

  /** A drained console can keep a byte back: in a ring of any usable size, some run with no
      interrupt in any window ends with the put done, the interrupt off and its byte unsent,
      and so it stays until another put. */
  lemma HiddenIsReachable(s: Usart) returns (es: seq<Event>)
    requires Initial(s) && 2 <= |s.tx.fifo.buf|
    ensures Clean(s, es)
    ensures var t := Run(s, es).tx;
      && t.pc.TxIdle? && !t.txeie && t.fifo.Hidden() && t.sent != t.written
      && (forall rest :: PutsOf(rest) == [] ==> Run(Run(s, es), rest).tx == t)
  {
    hide Fifo.Contents, Clean, Run, TxIrq;
    var a := Rotate(s, |s.tx.fifo.buf| - 1);
    var b := WholePut(Run(s, a), 0);
    RunAppend(s, a, b);
    var p := Run(s, a + b);
    HiddenTurnsOff(p.tx);
    RunOne(p, TX_READY);
    RunAppend(s, a + b, [TX_READY]);
    es := a + b + [TX_READY];
    CalmIsSafe(s, es);
    StartsInvariant(s);
    TxInvariant(s, es);
    var q := Run(s, es);
    assert |q.tx.written| == |q.tx.sent| + |q.tx.Queue()|;
    forall rest | PutsOf(rest) == []
      ensures Run(q, rest).tx == q.tx
    {
      HiddenWaits(q, rest);
    }
  }

  /** From a window with one byte queued and the interrupt on, one interrupt drains the ring. */
  lemma DrainInWindow(p: Usart)
    requires p.Shape() && p.tx.pc.Entering? && p.tx.pc.moved.Bumped? && p.tx.pc.stored && p.tx.txeie
    requires p.tx.fifo.head == |p.tx.fifo.buf| == p.tx.fifo.tail + 1 >= 2
    ensures Clean(p, [TX_READY])
    ensures HarmAt(Run(p, [TX_READY]), TX_READY) && Run(p, [TX_READY]).tx.Stray()
  {
    SendsPassedByte(p.tx);
    RunOne(p, TX_READY);
  }

  /** In a ring of any usable size some schedule reaches the stray position with the transmit
      interrupt enabled: two interrupts inside one window, the first sending the only byte. The
      store is done first. */
  lemma StrayIsReachable(s: Usart) returns (es: seq<Event>)
    requires Initial(s) && 2 <= |s.tx.fifo.buf|
    ensures Clean(s, es) && StoresInTime(s, es)
    ensures Run(s, es).tx.Stray() && HarmAt(Run(s, es), TX_READY)
    ensures !AlwaysConserved(s, es + [TX_READY])
  {
    hide Fifo.Contents, Run, Clean;
    var a := Rotate(s, |s.tx.fifo.buf| - 1);
    var b := PutIntoEmpty(Run(s, a), 0, true);
    RunAppend(s, a, b);
    CalmIsSafe(s, a + b);
    DrainInWindow(Run(s, a + b));
    RunAppend(s, a + b, [TX_READY]);
    es := a + b + [TX_READY];
    StoredIsInTime(s, a + b, TX_READY);
    BreaksConservation(s, es);
  }

  lemma StoredIsInTime(s: Usart, es: seq<Event>, e: Event)
    requires s.Shape() && StoresInTime(s, es) && !Run(s, es).tx.Outstanding()
    ensures StoresInTime(s, es + [e])
  {
    assert (es + [e])[..|es|] == es;
  }

  lemma BreaksConservation(s: Usart, es: seq<Event>)
    requires Initial(s) && HarmAt(Run(s, es), TX_READY)
    ensures !AlwaysConserved(s, es + [TX_READY])
  {
    RunOne(Run(s, es), TX_READY);
    RunAppend(s, es, [TX_READY]);
    TxConservation(s, es + [TX_READY]);
  }

  /** If a put increments first, one interrupt in its window is already too many: in a ring of
      any usable size some run without an interrupt in any window ends where the next one sends
      the old content of the slot. */
  lemma EarlyIsReachable(s: Usart) returns (es: seq<Event>)
    requires Initial(s) && 2 <= |s.tx.fifo.buf|
    ensures Clean(s, es) && OnePerWindow(s, es + [TX_READY])
    ensures Run(s, es).tx.Early() && HarmAt(Run(s, es), TX_READY)
    ensures !AlwaysConserved(s, es + [TX_READY])
  {
    var a := Rotate(s, 1);
    var p := Run(s, a);
    var b := PutIntoEmpty(p, if p.tx.fifo.buf[1] == 0 then 1 else 0, false);
    RunAppend(s, a, b);
    es := a + b;
    CalmIsSafe(s, es);
    SendsPassedByte(Run(s, es).tx);
    assert (es + [TX_READY])[..|es|] == es;
    BreaksConservation(s, es);
  }

  /** A byte in the top slot of a two-slot ring, head wrapped: the handler sees nothing. */
  lemma HiddenByteSleeps(t: Tx)
    requires t.Shape() && t.pc.TxIdle? && t.txeie
    requires |t.fifo.buf| == 2 && t.fifo.head == 0 && t.fifo.tail == 1
    ensures TxIrq(t) == t.(txeie := false)
    ensures Stuck(TxCall(t.(txeie := false), 0))
  {
  }

  lemma EmptyRingSticks(t: Tx)
    requires t.Shape() && t.pc.TxIdle? && |t.fifo.buf| == 1 && !t.txeie
    requires t.fifo.head == t.fifo.tail == 0
    ensures Stuck(TxCall(t, 0))
  {
  }

  /** The interrupt that turns itself off, then a put that waits. */
  lemma SleepAndStick(p: Usart) returns (es: seq<Event>)
    requires p.Shape() && p.tx.pc.TxIdle? && p.tx.txeie
    requires |p.tx.fifo.buf| == 2 && p.tx.fifo.head == 0 && p.tx.fifo.tail == 1
    ensures Calm(p, es) && Stuck(Run(p, es).tx)
  {
    hide Fifo.Contents, Stuck, TxIrq, Run, Calm, Clean;
    HiddenByteSleeps(p.tx);
    RunOne(p, TX_READY);
    RunOne(Next(p, TX_READY), Put(0));
    RunAppend(p, [TX_READY], [Put(0)]);
    es := [TX_READY] + [Put(0)];
  }

  lemma TwoSlotsStick(s: Usart) returns (es: seq<Event>)
    requires Initial(s) && |s.tx.fifo.buf| == 2
    ensures Calm(s, es) && Stuck(Run(s, es).tx)
  {
    var a := Rotate(s, 1);
    var b := WholePut(Run(s, a), 0);
    RunAppend(s, a, b);
    var c := SleepAndStick(Run(s, a + b));
    RunAppend(s, a + b, c);
    es := a + b + c;
  }

  /** Three slots are needed: with fewer, some run with no interrupt in any window leaves a put
      waiting for ever. */
  lemma SmallRingSticks(s: Usart) returns (es: seq<Event>)
    requires Initial(s) && |s.tx.fifo.buf| <= 2
    ensures Clean(s, es)
    ensures forall rest :: Stuck(Run(Run(s, es), rest).tx)
  {
    if |s.tx.fifo.buf| == 2 {
      es := TwoSlotsStick(s);
      CalmIsSafe(s, es);
    } else {
      EmptyRingSticks(s.tx);
      RunOne(s, Put(0));
      es := [Put(0)];
    }
    forall rest
      ensures Stuck(Run(Run(s, es), rest).tx)
    {
      StuckForEver(Run(s, es), rest);
    }
  }

  // ----- receive: the invariant

  /** What each stage of a get knows. The handler only lengthens the queue, and a head behind
      the tail stays behind it. */
  ghost predicate RxGuard(s: Rx)
    requires s.Shape()
  {
    match s.pc
    case ReadHead2 => s.fifo.Contents() != []
    case ReadHead3(ahead) =>
      && s.fifo.Contents() != []
      && (if ahead then s.fifo.tail + 1 < |s.fifo.buf| else s.fifo.head < s.fifo.tail)
    case RxDecide(avail) => avail != 0 ==> s.fifo.Contents() != []
    case Fetching(slot, loaded, moved) =>
      && (loaded.Some? ==> loaded.value == s.fifo.buf[slot])
      && (moved.Done? || moved.Before? || s.fifo.tail == slot + 1)
      && (if moved.Before? then s.fifo.Contents() != []
          else Slot(slot + 1, |s.fifo.buf|) == Slot(s.fifo.tail, |s.fifo.buf|))
    case _ => true
  }

  ghost predicate RxInv(s: Rx) {
    s.Shape() && s.Conserved() && RxGuard(s)
  }

  lemma TestKeeps(s: Rx)
    requires RxInv(s) && !s.pc.Fetching?
    ensures RxInv(RxMain(s, true)) && RxMain(s, false) == RxMain(s, true)
  {
    assert RxMain(s, true).fifo == s.fifo && RxMain(s, true).consumed == s.consumed;
  }

  lemma LoadKeeps(s: Rx, loadFirst: bool)
    requires RxInv(s) && s.pc.Fetching? && s.pc.loaded.None? && (loadFirst || s.pc.moved.Done?)
    ensures RxInv(RxMain(s, loadFirst))
  {
    assert RxMain(s, loadFirst).InFlight() == s.InFlight();
  }

  lemma AdvanceKeeps(s: Rx)
    requires RxInv(s) && s.pc.Fetching? && s.pc.moved.Before?
    ensures RxInv(s.(fifo := s.fifo.(tail := s.fifo.tail + 1), pc := s.pc.(moved := Bumped)))
  {
    BumpTakes(s.fifo);
    var r := s.(fifo := s.fifo.(tail := s.fifo.tail + 1), pc := s.pc.(moved := Bumped));
    var b := [s.fifo.buf[s.fifo.tail]];
    assert s.InFlight() == [] && r.InFlight() == b;
    assert s.consumed + [] + (b + r.fifo.Contents()) == s.consumed + b + r.fifo.Contents();
  }

  lemma WrapKeeps(s: Rx)
    requires RxInv(s) && s.pc.Fetching? && s.pc.moved.Bumped?
    ensures RxInv(s.(fifo := s.fifo.WrapTail(), pc := s.pc.(moved := Done)))
  {
    var r := s.(fifo := s.fifo.WrapTail(), pc := s.pc.(moved := Done));
    assert r.fifo.Contents() == s.fifo.Contents() && r.InFlight() == s.InFlight();
  }

  lemma ReturnKeeps(s: Rx)
    requires RxInv(s) && s.pc.Fetching? && s.pc.moved.Done? && s.pc.loaded.Some?
    ensures RxInv(s.(consumed := s.consumed + [s.pc.loaded.value], pc := RxIdle))
  {
    var r := s.(consumed := s.consumed + [s.pc.loaded.value], pc := RxIdle);
    assert r.consumed + r.InFlight() == s.consumed + s.InFlight();
  }

  lemma FetchKeeps(s: Rx, loadFirst: bool)
    requires RxInv(s) && s.pc.Fetching?
    ensures RxInv(RxMain(s, loadFirst))
  {
    hide Fifo.Contents, Rx.Conserved, RxGuard;
    if s.pc.loaded.None? && (loadFirst || s.pc.moved.Done?) {
      LoadKeeps(s, loadFirst);
    } else if s.pc.moved.Before? {
      AdvanceKeeps(s);
    } else if s.pc.moved.Bumped? {
      WrapKeeps(s);
    } else {
      ReturnKeeps(s);
    }
  }

  lemma RxMainKeeps(s: Rx, loadFirst: bool)
    requires RxInv(s)
    ensures RxInv(RxMain(s, loadFirst))
  {
    if s.pc.Fetching? {
      FetchKeeps(s, loadFirst);
    } else {
      TestKeeps(s);
    }
  }

  /** The byte in flight lies in the one slot the ring never fills. */
  lemma AcceptSparesInFlight(s: Rx, rdr: Byte)
    requires RxInv(s) && |s.fifo.Contents()| < |s.fifo.buf| - 1
    ensures var r := s.(fifo := s.fifo.Write(rdr));
      r.Shape() && r.InFlight() == s.InFlight() && RxGuard(r)
  {
    WriteAppends(s.fifo, rdr);
  }

  lemma AcceptKeeps(s: Rx, rdr: Byte)
    requires RxInv(s) && |s.fifo.Contents()| < |s.fifo.buf| - 1
    ensures RxInv(s.(fifo := s.fifo.Write(rdr), accepted := s.accepted + [rdr]))
  {
    hide Fifo.Contents;
    AcceptSparesInFlight(s, rdr);
    WriteAppends(s.fifo, rdr);
    var front, queue := s.consumed + s.InFlight(), s.fifo.Contents();
    assert front + (queue + [rdr]) == front + queue + [rdr];
  }

  /** The handler may run anywhere inside a get. */
  lemma RxIrqKeeps(s: Rx, rdr: Byte)
    requires RxInv(s)
    ensures RxInv(RxIrq(s, rdr))
  {
    hide Fifo.Contents, RxGuard, SpaceAvail;
    SpaceIsExact(s.fifo);
    if |s.fifo.Contents()| < |s.fifo.buf| - 1 {
      AcceptKeeps(s, rdr);
    } else {
      DropKeeps(s, rdr);
    }
  }

  lemma DropKeeps(s: Rx, rdr: Byte)
    requires RxInv(s)
    ensures RxInv(s.(dropped := s.dropped + [rdr]))
  {
  }

  /** Receive conservation over every run, with no assumption on where interrupts fall. */
  lemma {:induction false} RxConservation(s: Usart, es: seq<Event>)
    requires Initial(s)
    ensures RxInv(Run(s, es).rx) && Run(s, es).rx.Conserved()
    decreases |es|
  {
    hide Fifo.Contents;
    if es != [] {
      var p := Run(s, es[..|es| - 1]);
      RxConservation(s, es[..|es| - 1]);
      match es[|es| - 1]
      case RxStep(loadFirst) => RxMainKeeps(p.rx, loadFirst);
      case Interrupt(i) => if !i.error && i.rxne { RxIrqKeeps(p.rx, i.rdr); }
      case _ =>
    }
  }

  /** The receive interrupt has been enabled. */
  predicate Enables(es: seq<Event>)
    decreases |es|
  {
    es != [] && (es[|es| - 1].EnableReceive? || Enables(es[..|es| - 1]))
  }

  /** The bytes the hardware offered: those of the error-free receive interrupts raised since the
      receive interrupt was enabled. */
  function Offered(es: seq<Event>): seq<Byte>
    decreases |es|
  {
    if es == [] then []
    else
      var before, e := es[..|es| - 1], es[|es| - 1];
      Offered(before)
      + if e.Interrupt? && e.irq.rxne && !e.irq.error && Enables(before) then [e.irq.rdr] else []
  }

  lemma ReceiveEvent(s: Usart, e: Event)
    requires s.Shape()
    ensures var p, r := s.rx, Next(s, e).rx;
      && (r.rxneie <==> p.rxneie || e.EnableReceive?)
      && (if e.Interrupt? && e.irq.rxne && !e.irq.error && p.rxneie then
            || (r.accepted == p.accepted + [e.irq.rdr] && r.dropped == p.dropped)
            || (r.accepted == p.accepted && r.dropped == p.dropped + [e.irq.rdr])
          else r.accepted == p.accepted && r.dropped == p.dropped)
  {
    hide Fifo.Contents, SpaceAvail, TxIrq, TxMain;
  }

  /** Over every run each offered byte is accepted or dropped, once, and no other byte is; if none
      is dropped they are accepted in order. */
  lemma {:induction false} ReceivedAreOffered(s: Usart, es: seq<Event>)
    requires Initial(s)
    ensures var r := Run(s, es).rx;
      && (r.rxneie <==> Enables(es))
      && multiset(r.accepted) + multiset(r.dropped) == multiset(Offered(es))
      && (r.dropped == [] ==> r.accepted == Offered(es))
    decreases |es|
  {
    hide Fifo.Contents, Next;
    if es != [] {
      ReceivedAreOffered(s, es[..|es| - 1]);
      ReceiveEvent(Run(s, es[..|es| - 1]), es[|es| - 1]);
    }
  }

  /** Until the receive interrupt is enabled nothing is received and the ring stands still. */
  lemma {:induction false} DisabledReceivesNothing(s: Usart, es: seq<Event>)
    requires Initial(s) && !Enables(es)
    ensures var r := Run(s, es).rx;
      && r.accepted == r.dropped == r.consumed == [] && r.fifo == s.rx.fifo && !r.rxneie
      && (r.pc.RxIdle? || r.pc.ReadHead1? || r.pc == RxDecide(0))
    decreases |es|
  {
    hide Next;
    if es != [] {
      DisabledReceivesNothing(s, es[..|es| - 1]);
      DisabledEvent(Run(s, es[..|es| - 1]), es[|es| - 1]);
    }
  }

  lemma DisabledEvent(s: Usart, e: Event)
    requires s.Shape() && !s.rx.rxneie && s.rx.fifo.head == s.rx.fifo.tail && !e.EnableReceive?
    requires s.rx.pc.RxIdle? || s.rx.pc.ReadHead1? || s.rx.pc == RxDecide(0)
    ensures var r := Next(s, e).rx;
      r == s.rx.(pc := r.pc) && (r.pc.RxIdle? || r.pc.ReadHead1? || r.pc == RxDecide(0))
  {
    hide Fifo.Contents, TxIrq, TxMain;
  }

  lemma ReceiveOutcome(p: Rx, rdr: Byte)
    requires p.Shape() && p.rxneie
    ensures var q := RxIrq(p, rdr);
      if |p.fifo.Contents()| == |p.fifo.buf| - 1 then q == p.(dropped := p.dropped + [rdr])
      else q.accepted == p.accepted + [rdr] && q.dropped == p.dropped
           && q.fifo.Contents() == p.fifo.Contents() + [rdr]
  {
    SpaceIsExact(p.fifo);
    if |p.fifo.Contents()| < |p.fifo.buf| - 1 {
      WriteAppends(p.fifo, rdr);
    }
  }

  /** An error-free byte is dropped exactly when the FIFO holds count - 1 bytes, wherever a get
      stands; with an error flag up nothing moves. */
  lemma DropExactlyWhenFull(s: Usart, es: seq<Event>, i: Irq)
    requires Initial(s) && Run(s, es).rx.rxneie && i.rxne
    ensures var p, q := Run(s, es).rx, Run(s, es + [Interrupt(i)]).rx;
      if i.error then q == p
      else if |p.fifo.Contents()| == |p.fifo.buf| - 1 then q == p.(dropped := p.dropped + [i.rdr])
      else q.accepted == p.accepted + [i.rdr] && q.dropped == p.dropped
           && q.fifo.Contents() == p.fifo.Contents() + [i.rdr]
  {
    hide Fifo.Contents, RxIrq, TxIrq, Fifo.Fits, Fifo.Settled;
    assert (es + [Interrupt(i)])[..|es|] == es;
    ReceiveOutcome(Run(s, es).rx, i.rdr);
  }

  /** A get that returns a byte from the FIFO returns the oldest accepted byte not yet
      returned; a get only starts fetching when there is one. */
  lemma GetReturnsOldest(s: Usart, es: seq<Event>)
    requires Initial(s)
    ensures var r := Run(s, es).rx;
      && r.consumed <= r.accepted
      && (r.pc.Fetching? ==> |r.consumed| < |r.accepted|)
      && (r.pc.Fetching? && r.pc.loaded.Some? ==> r.pc.loaded.value == r.accepted[|r.consumed|])
  {
    RxConservation(s, es);
    var r := Run(s, es).rx;
    if r.pc.Fetching? && r.pc.moved.Before? {
      BumpTakes(r.fifo);
    }
  }

  /** The two ways a get comes to find nothing: the queue was empty when it first read the head,
      or its one byte is hidden at the top of the ring at the last read. */
  lemma GetFindsNothing(s: Usart, es: seq<Event>, loadFirst: bool)
    requires Initial(s)
    ensures var r := Run(s, es).rx;
      RxMain(r, loadFirst).pc == RxDecide(0) <==>
        || (r.pc.ReadHead1? && r.fifo.Contents() == [])
        || (r.pc.ReadHead3? && |r.fifo.Contents()| == 1 && r.fifo.Hidden())
  {
    RxConservation(s, es);
    LastReadIsExact(Run(s, es).rx, loadFirst);
  }

  lemma LastReadIsExact(r: Rx, loadFirst: bool)
    requires RxInv(r)
    ensures RxMain(r, loadFirst).pc == RxDecide(0) <==>
        || (r.pc.ReadHead1? && r.fifo.Contents() == [])
        || (r.pc.ReadHead3? && |r.fifo.Contents()| == 1 && r.fifo.Hidden())
  {
    hide Fifo.Contents;
  }

  // ----- receive: what a get is sure to find

  /** The data guard sees that there is a byte. */
  predicate Visible(f: Fifo)
    requires f.Fits()
  {
    f.Contents() != [] && !f.Hidden()
  }

  /** The get calls of a run. */
  function GetsIn(es: seq<Event>): nat
    decreases |es|
  {
    if es == [] then 0 else GetsIn(es[..|es| - 1]) + (if es[|es| - 1].Get? then 1 else 0)
  }

  /** How far the first get has come, from a console that had a visible byte. */
  ghost predicate FirstGet(r: Rx, from: Rx, called: bool)
    requires from.Shape()
  {
    && RxInv(r) && |r.fifo.buf| == |from.fifo.buf| && from.accepted <= r.accepted
    && |from.consumed| < |from.accepted|
    && (if r.pc.RxIdle? && called then
          r.consumed == from.consumed + [from.accepted[|from.consumed|]]
          && r.fifo.tail == Slot(from.fifo.tail + 1, |from.fifo.buf|)
        else
          && r.consumed == from.consumed && (r.pc.RxIdle? || called)
          && (if r.pc.Fetching? then r.pc.slot == from.fifo.tail else r.fifo.tail == from.fifo.tail)
          && (if r.pc.RxDecide? then r.pc.avail != 0 else r.pc.Fetching? || Visible(r.fifo)))
  }

  lemma FirstGetPolls(r: Rx, from: Rx, loadFirst: bool)
    requires from.Shape() && FirstGet(r, from, true) && !r.pc.Fetching?
    ensures FirstGet(RxMain(r, loadFirst), from, true)
  {
    hide Fifo.Contents;
    RxMainKeeps(r, loadFirst);
    LastReadIsExact(r, loadFirst);
  }

  lemma FirstGetFetches(r: Rx, from: Rx, loadFirst: bool)
    requires from.Shape() && FirstGet(r, from, true) && r.pc.Fetching?
    ensures FirstGet(RxMain(r, loadFirst), from, true)
  {
    hide Fifo.Contents;
    RxMainKeeps(r, loadFirst);
    if r.pc.loaded.Some? && r.pc.moved.Done? {
      assert r.accepted[|r.consumed|] == r.InFlight()[0];
    }
  }

  /** Another byte does not make one invisible. */
  lemma IrqKeepsVisible(r: Rx, rdr: Byte)
    requires r.Shape() && r.fifo.tail < |r.fifo.buf| && Visible(r.fifo)
    ensures Visible(RxIrq(r, rdr).fifo)
  {
    if r.rxneie {
      ReceiveOutcome(r, rdr);
    }
  }

  lemma FirstGetIrq(r: Rx, from: Rx, called: bool, rdr: Byte)
    requires from.Shape() && FirstGet(r, from, called)
    ensures FirstGet(RxIrq(r, rdr), from, called)
  {
    hide Fifo.Contents, SpaceAvail;
    RxIrqKeeps(r, rdr);
    if !r.pc.Fetching? && !r.pc.RxDecide? && !(r.pc.RxIdle? && called) {
      IrqKeepsVisible(r, rdr);
    }
  }

  lemma FirstGetEvent(s: Usart, e: Event, from: Rx, gets: nat)
    requires s.Shape() && from.Shape() && (gets <= 1 ==> FirstGet(s.rx, from, gets == 1))
    ensures var n := gets + (if e.Get? then 1 else 0);
      n <= 1 ==> FirstGet(Next(s, e).rx, from, n == 1)
  {
    hide Fifo.Contents, RxGuard, Visible;
    if gets <= 1 {
      match e
      case Get => FirstGetCall(s.rx, from, gets == 1);
      case RxStep(loadFirst) =>
        if s.rx.pc.Fetching? {
          FirstGetFetches(s.rx, from, loadFirst);
        } else if gets == 1 {
          FirstGetPolls(s.rx, from, loadFirst);
        }
      case Interrupt(i) => if !i.error && i.rxne { FirstGetIrq(s.rx, from, gets == 1, i.rdr); }
      case EnableReceive => FirstGetEnable(s.rx, from, gets == 1);
      case _ =>
    }
  }

  lemma FirstGetCall(r: Rx, from: Rx, called: bool)
    requires from.Shape() && FirstGet(r, from, called)
    ensures !called ==> FirstGet(RxCall(r), from, true)
  {
    hide Fifo.Contents;
  }

  lemma FirstGetEnable(r: Rx, from: Rx, called: bool)
    requires from.Shape() && FirstGet(r, from, called)
    ensures FirstGet(r.(rxneie := true), from, called)
  {
    hide Fifo.Contents;
    assert r.(rxneie := true).InFlight() == r.InFlight();
  }

  lemma {:induction false} FirstGetRuns(s: Usart, es: seq<Event>)
    requires s.Shape() && RxInv(s.rx) && s.rx.pc.RxIdle? && Visible(s.rx.fifo)
    ensures GetsIn(es) <= 1 ==> FirstGet(Run(s, es).rx, s.rx, GetsIn(es) == 1)
    decreases |es|
  {
    hide Fifo.Contents, RxGuard;
    if es == [] {
      assert |s.rx.accepted| == |s.rx.consumed| + |s.rx.fifo.Contents()|;
    } else {
      FirstGetRuns(s, es[..|es| - 1]);
      FirstGetEvent(Run(s, es[..|es| - 1]), es[|es| - 1], s.rx, GetsIn(es[..|es| - 1]));
    }
  }

  /** A get that begins with a visible byte returns the oldest, whatever interrupts fall before,
      inside and after it. */
  lemma GetTakesVisible(s: Usart, es: seq<Event>)
    requires s.Shape() && RxInv(s.rx) && s.rx.pc.RxIdle? && Visible(s.rx.fifo)
    requires GetsIn(es) == 1 && Run(s, es).rx.pc.RxIdle?
    ensures var r := Run(s, es).rx;
      && r.consumed == s.rx.consumed + [s.rx.fifo.Contents()[0]] && s.rx.accepted <= r.accepted
      && RxInv(r) && r.fifo.tail == Slot(s.rx.fifo.tail + 1, |s.rx.fifo.buf|)
  {
    hide Fifo.Contents, RxGuard, Run;
    FirstGetRuns(s, es);
    assert s.rx.accepted[|s.rx.consumed|] == s.rx.fifo.Contents()[0];
  }

  /** The byte hidden from gets: in a ring of three slots or more, once one more byte is
      accepted, the next two gets return the hidden byte and then the new one. */
  lemma HiddenReceivedLeaves(s: Usart, i: Irq, es0: seq<Event>, es1: seq<Event>)
    requires s.Shape() && RxInv(s.rx) && s.rx.pc.RxIdle? && s.rx.fifo.Hidden() && 3 <= |s.rx.fifo.buf|
    requires s.rx.rxneie && i.rxne && !i.error && GetsIn(es0) == GetsIn(es1) == 1
    requires var p := Next(s, Interrupt(i));
      Run(p, es0).rx.pc.RxIdle? && Run(Run(p, es0), es1).rx.pc.RxIdle?
    ensures var r := Run(Run(Next(s, Interrupt(i)), es0), es1).rx;
      r.consumed == s.rx.consumed + [s.rx.fifo.buf[s.rx.fifo.tail], i.rdr]
  {
    hide Fifo.Contents, RxGuard, Run;
    var p := Next(s, Interrupt(i));
    HiddenThenAccepted(s.rx, i.rdr);
    GetTakesVisible(p, es0);
    var q := Run(p, es0);
    assert q.rx.consumed + q.rx.fifo.Contents() == q.rx.accepted;
    assert q.rx.fifo.Contents()[0] == q.rx.accepted[|q.rx.consumed|] == i.rdr;
    GetTakesVisible(q, es1);
  }

  lemma HiddenThenAccepted(r: Rx, rdr: Byte)
    requires RxInv(r) && r.pc.RxIdle? && r.fifo.Hidden() && 3 <= |r.fifo.buf| && r.rxneie
    ensures var q := RxIrq(r, rdr);
      && RxInv(q) && q.pc.RxIdle? && Visible(q.fifo) && q.fifo.tail == r.fifo.tail
      && q.fifo.Contents() == [r.fifo.buf[r.fifo.tail], rdr] && q.consumed == r.consumed
      && q.accepted == r.accepted + [rdr] && |r.accepted| == |r.consumed| + 1
  {
    RxIrqKeeps(r, rdr);
    ReceiveOutcome(r, rdr);
    assert r.fifo.Contents() == [r.fifo.buf[r.fifo.tail]];
  }

  /** With two slots it never leaves: the ring is full, and every get finds nothing. */
  ghost predicate NeverRead(r: Rx) {
    && r.Shape() && |r.fifo.buf| == 2 && r.fifo.Hidden()
    && (r.pc.RxIdle? || r.pc.ReadHead1? || r.pc.ReadHead2? || r.pc == ReadHead3(false)
        || r.pc == RxDecide(0))
  }

  lemma NeverReadEvent(s: Usart, e: Event)
    requires s.Shape() && NeverRead(s.rx)
    ensures NeverRead(Next(s, e).rx) && Next(s, e).rx.consumed == s.rx.consumed
    ensures Next(s, e).rx.accepted == s.rx.accepted
  {
    hide Fifo.Contents;
  }

  lemma {:induction false} HiddenReceivedSticks(s: Usart, es: seq<Event>)
    requires s.Shape() && NeverRead(s.rx)
    ensures NeverRead(Run(s, es).rx) && Run(s, es).rx.consumed == s.rx.consumed
    ensures Run(s, es).rx.accepted == s.rx.accepted
    decreases |es|
  {
    hide NeverRead, Next;
    if es != [] {
      HiddenReceivedSticks(s, es[..|es| - 1]);
      NeverReadEvent(Run(s, es[..|es| - 1]), es[|es| - 1]);
    }
  }

  // ----- receive: a run to the hidden position

  /** n undisturbed steps of the consumer. */
  function RxSteps(r: Rx, n: nat): (q: Rx)
    requires r.Shape()
    ensures q.Shape() && |q.fifo.buf| == |r.fifo.buf|
  {
    if n == 0 then r else RxMain(RxSteps(r, n - 1), true)
  }

  lemma {:induction false} RunRxSteps(s: Usart, n: nat) returns (es: seq<Event>)
    requires s.Shape()
    ensures Run(s, es) == s.(rx := RxSteps(s.rx, n))
    decreases n
  {
    hide RxMain;
    es := [];
    if n > 0 {
      var before := RunRxSteps(s, n - 1);
      es := before + [RxStep(true)];
      assert es[..|es| - 1] == before;
    }
  }

  /** A get of the one byte of an unwrapped queue: four steps of polling, four of fetching. */
  lemma PollOneByte(r: Rx)
    requires r.Shape() && r.pc.ReadHead1? && r.fifo.head == r.fifo.tail + 1
    ensures RxSteps(r, 4) == r.(pc := Fetching(r.fifo.tail, None, Before))
  {
    hide RxMain;
    ReadsOneByte(r);
    assert RxSteps(r, 1) == r.(pc := ReadHead2);
    assert RxSteps(r, 2) == r.(pc := ReadHead3(true));
    assert RxSteps(r, 3) == r.(pc := RxDecide(1));
  }

  lemma ReadsOneByte(r: Rx)
    requires r.Shape() && !r.pc.Fetching? && r.fifo.head == r.fifo.tail + 1
    ensures RxMain(r.(pc := ReadHead1), true) == r.(pc := ReadHead2)
    ensures RxMain(r.(pc := ReadHead2), true) == r.(pc := ReadHead3(true))
    ensures RxMain(r.(pc := ReadHead3(true)), true) == r.(pc := RxDecide(1))
    ensures RxMain(r.(pc := RxDecide(1)), true) == r.(pc := Fetching(r.fifo.tail, None, Before))
  {
    hide Fifo.Contents;
  }

  lemma FetchOneByte(r: Rx)
    requires r.Shape() && r.pc == Fetching(r.fifo.tail, None, Before) && r.fifo.tail + 1 < |r.fifo.buf|
    ensures RxSteps(r, 4)
         == r.(fifo := r.fifo.(tail := r.fifo.tail + 1), consumed := r.consumed + [r.fifo.buf[r.fifo.tail]],
               pc := RxIdle)
  {
    hide Fifo.Contents;
    var slot, b := r.fifo.tail, Some(r.fifo.buf[r.fifo.tail]);
    var moved := r.fifo.(tail := slot + 1);
    assert RxSteps(r, 1) == r.(pc := Fetching(slot, b, Before));
    assert RxSteps(r, 2) == r.(fifo := moved, pc := Fetching(slot, b, Bumped));
    assert RxSteps(r, 3) == r.(fifo := moved, pc := Fetching(slot, b, Done));
  }

  const RX_READY := Interrupt(Irq(false, true, 0, false))

  /** A byte accepted into an empty ring. */
  lemma AcceptIntoEmpty(s: Usart)
    requires s.Shape() && s.rx.pc.RxIdle? && s.rx.rxneie && 2 <= |s.rx.fifo.buf|
    requires s.rx.fifo.head == s.rx.fifo.tail
    ensures Run(s, [RX_READY]) == s.(rx := s.rx.(fifo := s.rx.fifo.Write(0), accepted := s.rx.accepted + [0]))
  {
    RunOne(s, RX_READY);
  }

  /** A byte accepted into an empty ring and returned: head and tail move on by one slot. */
  lemma AcceptAndGet(s: Usart) returns (es: seq<Event>)
    requires s.Shape() && s.rx.pc.RxIdle? && s.rx.rxneie && s.rx.fifo.head == s.rx.fifo.tail
    requires s.rx.fifo.head + 1 < |s.rx.fifo.buf|
    ensures var r := Run(s, es).rx;
      r.pc.RxIdle? && r.rxneie && r.fifo.head == r.fifo.tail == s.rx.fifo.head + 1
      && |r.fifo.buf| == |s.rx.fifo.buf|
  {
    hide RxMain, RxSteps;
    AcceptIntoEmpty(s);
    var p := Run(s, [RX_READY]);
    RunOne(p, Get);
    RunAppend(s, [RX_READY], [Get]);
    var q := Run(p, [Get]);
    PollOneByte(q.rx);
    var a := RunRxSteps(q, 4);
    RunAppend(s, [RX_READY] + [Get], a);
    var r := Run(q, a);
    FetchOneByte(r.rx);
    var b := RunRxSteps(r, 4);
    RunAppend(s, [RX_READY] + [Get] + a, b);
    es := [RX_READY] + [Get] + a + b;
  }

  lemma {:induction false} RotateRx(s: Usart, k: nat) returns (es: seq<Event>)
    requires Initial(s) && k < |s.rx.fifo.buf|
    ensures var r := Run(s, es).rx;
      r.pc.RxIdle? && r.rxneie && r.fifo.head == r.fifo.tail == k && |r.fifo.buf| == |s.rx.fifo.buf|
  {
    if k == 0 {
      es := [EnableReceive];
      RunOne(s, EnableReceive);
    } else {
      var a := RotateRx(s, k - 1);
      var b := AcceptAndGet(Run(s, a));
      RunAppend(s, a, b);
      es := a + b;
    }
  }

  /** In a ring of any usable size some run leaves an accepted byte where no get finds it. */
  lemma HiddenReceivedIsReachable(s: Usart) returns (es: seq<Event>)
    requires Initial(s) && 2 <= |s.rx.fifo.buf|
    ensures var r := Run(s, es).rx;
      r.pc.RxIdle? && r.rxneie && r.fifo.Hidden() && r.consumed != r.accepted
      && (|r.fifo.buf| == 2 ==> NeverRead(r))
  {
    var a := RotateRx(s, |s.rx.fifo.buf| - 1);
    var p := Run(s, a);
    AcceptIntoEmpty(p);
    RunAppend(s, a, [RX_READY]);
    es := a + [RX_READY];
    RxConservation(s, a);
    assert |p.rx.accepted| == |p.rx.consumed|;
  }
}
