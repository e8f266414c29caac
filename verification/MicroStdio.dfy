/** The USART console routines of micro_stdio.c over the two FIFOs in memory. The interrupt
    handler is the step function of the protocol machine, done in place; the put routines poll
    until there is room, and the hardware delivers its pending interrupts while they do. */
module MicroStdio {
  import opened Machine
  import opened CString
  import ByteFifo
  import opened UsartProtocol

  predicate AllTransmitReady(irqs: seq<Irq>) {
    forall k :: 0 <= k < |irqs| ==> !irqs[k].error && irqs[k].txe
  }

  lemma ReadyParts(irqs: seq<Irq>)
    requires AllTransmitReady(irqs) && irqs != []
    ensures !irqs[0].error && irqs[0].txe && AllTransmitReady(irqs[1..])
  {
  }

  lemma TakeOne(s: seq<Byte>, at: nat)
    requires at < |s|
    ensures s[..at + 1] == s[..at] + [s[at]]
  {
  }

  /** A put that is done keeps the invariant of an idle transmit half. */
  lemma AfterPutKeeps(t: Tx, ch: Byte)
    requires TxInv(t) && t.pc.TxIdle? && t.Room()
    ensures TxInv(AfterPut(t, ch))
  {
    ByteFifo.WriteAppends(t.fifo, ch);
    assert t.sent + (t.fifo.Contents() + [ch]) == t.sent + t.fifo.Contents() + [ch];
  }

  lemma MoveOne(a: seq<Irq>, b: seq<Irq>) returns (c: seq<Irq>)
    requires b != []
    ensures c == a + [b[0]] && c + b[1..] == a + b
  {
    c := a + [b[0]];
  }

  class Usart1 {
    const txFifo: ByteFifo.ByteFifo
    const rxFifo: ByteFifo.ByteFifo
    var txeie: bool
    var rxneie: bool
    /** The values stored to the transmit data register so far. */
    var tdr: seq<Byte>
    /** The interrupts the hardware has still to raise, delivered one at each failed poll. */
    var pending: seq<Irq>

    ghost var written: seq<Byte>
    ghost var last: Byte
    ghost var accepted: seq<Byte>
    ghost var dropped: seq<Byte>
    ghost var consumed: seq<Byte>

    /** The console as a state of the protocol machine with no put or get under way. */
    ghost function View(): Usart
      reads this, txFifo, txFifo.bfBuf, rxFifo, rxFifo.bfBuf
    {
      Usart(Tx(txFifo.View(), txeie, TxIdle, last, written, written, tdr),
            Rx(rxFifo.View(), rxneie, RxIdle, accepted, dropped, consumed))
    }

    ghost predicate Valid()
      reads this, txFifo, txFifo.bfBuf, rxFifo, rxFifo.bfBuf
    {
      && txFifo != rxFifo && txFifo.bfBuf != rxFifo.bfBuf
      && txFifo.Valid() && View().Shape() && TxInv(View().tx) && RxInv(View().rx)
    }

    constructor (txBuf: array<Byte>, rxBuf: array<Byte>, irqs: seq<Irq>)
      requires txBuf != rxBuf && 1 <= txBuf.Length < 0x1_0000 && 1 <= rxBuf.Length < 0x1_0000
      ensures Valid() && Initial(View()) && pending == irqs
      ensures txFifo.bfBuf == txBuf && rxFifo.bfBuf == rxBuf && fresh(txFifo) && fresh(rxFifo)
    {
      txFifo := new ByteFifo.ByteFifo(txBuf);
      rxFifo := new ByteFifo.ByteFifo(rxBuf);
      txeie, rxneie, tdr, pending := false, false, [], irqs;
      written, last, accepted, dropped, consumed := [], 0, [], [], [];
    }

    /** The receive part of the handler: a full FIFO drops the byte. */
    method ReceiveByte(readByte: Byte)
      requires Valid() && rxneie
      modifies this`accepted, this`dropped, rxFifo`bfHead, rxFifo.bfBuf
      ensures Valid() && View() == old(View()).(rx := RxIrq(old(View()).rx, readByte))
    {
      RxIrqKeeps(View().rx, readByte);
      if rxFifo.Space() != 0 {
        rxFifo.Write(readByte);
        accepted := accepted + [readByte];
      } else {
        dropped := dropped + [readByte];
      }
    }

    /** The transmit part of the handler: nothing to send turns the interrupt off. */
    method TransmitByte()
      requires Valid() && txeie
      modifies this`txeie, this`tdr, txFifo`bfTail
      ensures Valid() && View() == old(View()).(tx := TxIrq(old(View()).tx))
    {
      TxIrqKeeps(View().tx);
      if txFifo.Data() != 0 {
        var writeByte := txFifo.Read();
        tdr := tdr + [writeByte];
      } else {
        txeie := false;
      }
    }

    method IrqHandler(irq: Irq)
      requires Valid()
      modifies this`txeie, this`tdr, this`accepted, this`dropped
      modifies txFifo`bfTail, rxFifo`bfHead, rxFifo.bfBuf
      ensures Valid() && View() == Handle(old(View()), irq)
    {
      if !irq.error {
        if irq.rxne && rxneie {
          ReceiveByte(irq.rdr);
        }
        if irq.txe && txeie {
          TransmitByte();
        }
      }
    }

    /** usart1_receive_interrupt_enable */
    method ReceiveInterruptEnable()
      requires Valid()
      modifies this`rxneie
      ensures Valid() && View() == Next(old(View()), EnableReceive)
    {
      rxneie := true;
    }

    /** What a put does once there is room: write, then enable the transmit interrupt. */
    method Enqueue(ch: Byte)
      requires Valid() && txFifo.Space() != 0
      modifies this`written, this`last, this`txeie, txFifo`bfHead, txFifo.bfBuf
      ensures Valid() && View() == old(View()).(tx := AfterPut(old(View()).tx, ch))
      ensures Reaches(Next(old(View()), Put(ch)), [], [], View()) && written == old(written) + [ch]
    {
      hide TxInv, RxInv, Reaches, ByteFifo.Fifo.Contents;
      PollReaches(View(), ch);
      AfterPutKeeps(View().tx, ch);
      txFifo.Write(ch);
      written, last := written + [ch], ch;
      txeie := true;
    }

    /** The hardware raises its next interrupt while the put of `ch` polls. */
    method TakeInterrupt(ghost ch: Byte)
      requires Valid() && pending != []
      modifies this`pending, this`txeie, this`tdr, this`accepted, this`dropped
      modifies txFifo`bfTail, rxFifo`bfHead, rxFifo.bfBuf
      ensures Valid() && View() == Handle(old(View()), old(pending)[0]) && pending == old(pending)[1..]
      ensures 3 <= txFifo.bfBuf.Length && !old(pending)[0].error && old(pending)[0].txe
          ==> txFifo.Space() != 0
      ensures Reaches(Next(old(View()), Put(ch)), [], [old(pending)[0]], Next(View(), Put(ch)))
    {
      hide TxInv, RxInv, Reaches, ByteFifo.Fifo.Contents;
      WaitingReaches(View(), ch, pending[0]);
      if 3 <= txFifo.bfBuf.Length {
        FullMeansAwake(View().tx);
      }
      var irq := pending[0];
      pending := pending[1..];
      IrqHandler(irq);
    }

    /** The retry loop of a put: poll until there is room, or until no interrupt is left. */
    method AwaitSpace(ghost ch: Byte) returns (ready: bool, ghost raised: seq<Irq>)
      requires Valid()
      modifies this`pending, this`txeie, this`tdr, this`accepted, this`dropped
      modifies txFifo`bfTail, rxFifo`bfHead, rxFifo.bfBuf
      ensures Valid() && old(pending) == raised + pending
      ensures if ready then txFifo.Space() != 0 else pending == []
      ensures Reaches(Next(old(View()), Put(ch)), [], raised, Next(View(), Put(ch)))
      ensures 3 <= txFifo.bfBuf.Length && AllTransmitReady(old(pending)) ==>
          AllTransmitReady(pending) && |raised| <= 1 && (ready || old(pending) == [])
    {
      hide TxInv, RxInv, Usart.Shape, Usart1.View, Reaches, Next, AllTransmitReady,
        ByteFifo.ByteFifo.Valid, ByteFifo.ByteFifo.Space, ByteFifo.Fifo.Contents;
      raised := [];
      ReachesItself(Next(View(), Put(ch)));
      while txFifo.Space() == 0
        invariant Valid() && old(pending) == raised + pending
        invariant Reaches(Next(old(View()), Put(ch)), [], raised, Next(View(), Put(ch)))
        invariant 3 <= txFifo.bfBuf.Length && AllTransmitReady(old(pending)) ==>
            AllTransmitReady(pending)
            && (raised == [] || (|raised| == 1 && txFifo.Space() != 0))
        decreases |pending|
      {
        if pending == [] {
          return false, raised;
        }
        ghost var before, irqs := View(), pending;
        if AllTransmitReady(pending) {
          ReadyParts(pending);
        }
        TakeInterrupt(ch);
        ReachesMore(Next(old(View()), Put(ch)), [], raised, Next(before, Put(ch)),
                    [irqs[0]], Next(View(), Put(ch)));
        raised := MoveOne(raised, irqs);
      }
      ready := true;
    }

    /** micro_putc. `done` is false when the hardware raises no further interrupt and the
        routine is left polling; with three slots or more one transmit interrupt is enough. `raised` are
        the interrupts taken meanwhile; all of it is a run of the protocol machine. */
    method Putc(ch: Byte) returns (done: bool, ghost raised: seq<Irq>)
      requires Valid()
      modifies this, txFifo, txFifo.bfBuf, rxFifo, rxFifo.bfBuf
      ensures Valid() && consumed == old(consumed) && old(pending) == raised + pending
      ensures Reaches(old(View()), [ch], raised, if done then View() else Next(View(), Put(ch)))
      ensures written == old(written) + (if done then [ch] else [])
      ensures !done ==> pending == []
      ensures 3 <= txFifo.bfBuf.Length && AllTransmitReady(old(pending)) ==>
          AllTransmitReady(pending) && |raised| <= 1 && (done || old(pending) == [])
    {
      hide TxInv, RxInv, Usart.Shape, Usart1.View, Reaches, Next, AllTransmitReady,
        ByteFifo.ByteFifo.Valid, ByteFifo.ByteFifo.Space, ByteFifo.Fifo.Contents;
      ghost var start := View();
      ReachesOne(start, Put(ch));
      done, raised := AwaitSpace(ch);
      ghost var p := Next(View(), Put(ch));
      ReachesItself(p);
      PutReaches(start, ch, raised, p, p);
      if done {
        Enqueue(ch);
        PutReaches(start, ch, raised, p, View());
      }
    }

    /** What putting a text from the state `start` with the interrupts `irqs` to come has led to:
        `taken` bytes went into the FIFO, all of them if it is done, and otherwise the next one
        still waits because no interrupt is left. All of it is a run of the protocol machine with
        these puts and the interrupts `raised`. With three slots or more and a transmit interrupt
        for every byte it is done. */
    ghost predicate TextPut(text: seq<Byte>, taken: nat, done: bool, raised: seq<Irq>,
                            start: Usart, irqs: seq<Irq>)
      requires Valid()
      reads this, txFifo, txFifo.bfBuf, rxFifo, rxFifo.bfBuf
    {
      && start.Shape() && consumed == start.rx.consumed && irqs == raised + pending
      && taken <= |text| && written == start.tx.written + text[..taken]
      && (if done then taken == |text| && Reaches(start, text, raised, View())
          else taken < |text| && pending == []
               && Reaches(start, text[..taken + 1], raised, Next(View(), Put(text[taken]))))
      && (3 <= txFifo.bfBuf.Length && AllTransmitReady(irqs) && |irqs| >= |text| ==> done)
    }

    lemma ViewParts()
      ensures View().rx.consumed == consumed && View().tx.written == written
    {
    }

    /** micro_puts: every byte up to the NUL goes out in order; a null pointer puts nothing. */
    method Puts(ss: Option<seq<Byte>>) returns (ghost taken: nat, done: bool, ghost raised: seq<Irq>)
      requires Valid()
      requires ss.Some? ==> HasNul(ss.value, 0)
      modifies this, txFifo, txFifo.bfBuf, rxFifo, rxFifo.bfBuf
      ensures Valid()
      ensures TextPut(if ss.Some? then CStr(ss.value, 0) else [], taken, done, raised,
                      old(View()), old(pending))
    {
      if ss.None? {
        ReachesItself(View());
        return 0, true, [];
      }
      taken, done, raised := PutString(ss.value);
    }

    /** The loop of micro_puts. */
    method PutString(ss: seq<Byte>) returns (ghost taken: nat, done: bool, ghost raised: seq<Irq>)
      requires Valid() && HasNul(ss, 0)
      modifies this, txFifo, txFifo.bfBuf, rxFifo, rxFifo.bfBuf
      ensures Valid()
      ensures TextPut(CStr(ss, 0), taken, done, raised, old(View()), old(pending))
    {
      hide TxInv, RxInv, Usart.Shape, Usart1.View, Reaches, Next, AllTransmitReady,
        ByteFifo.ByteFifo.Valid;
      ViewParts();
      ghost var text := CStr(ss, 0);
      var at := 0;
      taken, raised := 0, [];
      ReachesItself(View());
      while ss[at] != 0
        invariant taken == at <= |text| && at < |ss|
        invariant Valid() && consumed == old(consumed) && old(pending) == raised + pending
        invariant written == old(written) + text[..at]
        invariant Reaches(old(View()), text[..at], raised, View())
        invariant 3 <= txFifo.bfBuf.Length && AllTransmitReady(old(pending)) ==>
            AllTransmitReady(pending) && |raised| <= at
        decreases |text| - at
      {
        TakeOne(text, at);
        ghost var mid, more := View(), [];
        done, more := Putc(ss[at]);
        ReachesAppend(old(View()), text[..at], raised, mid, [ss[at]], more,
                      if done then View() else Next(View(), Put(ss[at])));
        raised := raised + more;
        if !done {
          return;
        }
        at := at + 1;
        taken := at;
      }
      assert text[..at] == text;
      done := true;
    }

    /** _write: the first `count` bytes of the buffer, NULs included. */
    method Write(buf: seq<Byte>, count: int)
      returns (ghost taken: nat, ret: int, done: bool, ghost raised: seq<Irq>)
      requires Valid() && count <= |buf|
      modifies this, txFifo, txFifo.bfBuf, rxFifo, rxFifo.bfBuf
      ensures Valid()
      ensures TextPut(if count < 0 then [] else buf[..count], taken, done, raised,
                      old(View()), old(pending))
      ensures done ==> ret == count
    {
      hide TxInv, RxInv, Usart.Shape, Usart1.View, Reaches, Next, AllTransmitReady,
        ByteFifo.ByteFifo.Valid;
      ViewParts();
      ghost var text := if count < 0 then [] else buf[..count];
      taken, ret, raised := 0, count, [];
      ReachesItself(View());
      var ii := 0;
      while ii < count
        invariant taken == ii <= |text|
        invariant Valid() && consumed == old(consumed) && old(pending) == raised + pending
        invariant written == old(written) + text[..ii]
        invariant Reaches(old(View()), text[..ii], raised, View())
        invariant 3 <= txFifo.bfBuf.Length && AllTransmitReady(old(pending)) ==>
            AllTransmitReady(pending) && |raised| <= ii
      {
        TakeOne(text, ii);
        ghost var mid, more := View(), [];
        done, more := Putc(buf[ii]);
        ReachesAppend(old(View()), text[..ii], raised, mid, [buf[ii]], more,
                      if done then View() else Next(View(), Put(buf[ii])));
        raised := raised + more;
        if !done {
          return;
        }
        ii := ii + 1;
        taken := ii;
      }
      assert text[..ii] == text;
      done := true;
    }

    /** micro_getc: the oldest received byte, or 0. The byte hidden by the data guard, alone at
        the top of the ring with the head wrapped, is not returned. */
    method Getc() returns (ch: Byte)
      requires Valid()
      modifies this`consumed, rxFifo`bfTail
      ensures Valid() && View().tx == old(View()).tx
      ensures var queue := old(rxFifo.Contents());
        if queue == [] || (rxFifo.bfHead == 0 && old(rxFifo.bfTail) == rxFifo.bfBuf.Length - 1)
        then ch == 0 && View() == old(View())
        else queue == [ch] + rxFifo.Contents() && consumed == old(consumed) + [ch]
    {
      hide TxInv, ByteFifo.Fifo.Contents;
      ch := 0;
      if rxFifo.Data() != 0 {
        ch := rxFifo.Read();
        assert consumed + ([ch] + rxFifo.Contents()) == consumed + [ch] + rxFifo.Contents();
        consumed := consumed + [ch];
      }
    }
  }
}
