/** The ring FIFO of byte_fifo.c: index arithmetic, the FIFO as a value, and the FIFO as it
    sits in memory. One slot is never used, so that head == tail means empty. */
module ByteFifo {
  import opened Machine

  // ----- the two guards, with the conversion of the int result to uint16_t

  function SpaceAvail(head: nat, tail: nat, count: nat): nat {
    if head == tail then ToU16(count - 1)
    else if head > tail then ToU16(count - 1 - (head - tail))
    else ToU16(tail - head - 1)
  }

  function DataAvail(head: nat, tail: nat, count: nat): nat {
    if tail == head then 0
    else if head > tail then ToU16(head - tail)
    else ToU16(count - 1 - (tail - head))
  }

  /** An index that has been incremented but possibly not yet wrapped denotes this slot. */
  function Slot(i: nat, count: nat): nat {
    if i >= count then 0 else i
  }

  /** The number of bytes queued between two slots. */
  function Len(head: nat, tail: nat, count: nat): nat
    requires head < count && tail < count
  {
    if tail <= head then head - tail else head + count - tail
  }

  /** A FIFO as a value. During `bf_write` the head, and during `bf_read` the tail, may equal
      the buffer size for the moment between the increment and the wrap. */
  datatype Fifo = Fifo(buf: seq<Byte>, head: nat, tail: nat) {

    predicate Fits() {
      1 <= |buf| < 0x1_0000 && head <= |buf| && tail <= |buf|
    }

    predicate Settled() {
      Fits() && head < |buf| && tail < |buf|
    }

    /** The position in which the data guard does not see the one byte queued. */
    predicate Hidden() {
      head == 0 && tail == |buf| - 1
    }

    /** The queued bytes, oldest first. */
    function Contents(): (c: seq<Byte>)
      requires Fits()
      ensures |c| == Len(Slot(head, |buf|), Slot(tail, |buf|), |buf|) < |buf|
    {
      var h, t := Slot(head, |buf|), Slot(tail, |buf|);
      if t <= h then buf[t..h] else buf[t..] + buf[..h]
    }

    function Store(v: Byte): Fifo
      requires head < |buf|
    {
      this.(buf := buf[head := v])
    }

    function WrapHead(): Fifo {
      this.(head := Slot(head, |buf|))
    }

    function WrapTail(): Fifo {
      this.(tail := Slot(tail, |buf|))
    }

    function Write(v: Byte): Fifo
      requires head < |buf|
    {
      Store(v).(head := head + 1).WrapHead()
    }

    function Read(): Fifo
      requires tail < |buf|
    {
      this.(tail := tail + 1).WrapTail()
    }
  }

  // ----- what the guards measure

  /** The space guard is exact, also while the tail has been incremented to the buffer size. */
  lemma SpaceIsExact(f: Fifo)
    requires f.Fits() && f.head < |f.buf|
    ensures SpaceAvail(f.head, f.tail, |f.buf|) == |f.buf| - 1 - |f.Contents()|
  {
  }

  /** The data guard is exact except when the queue wraps, where it is one short. */
  lemma DataIsExact(f: Fifo)
    requires f.Settled()
    ensures DataAvail(f.head, f.tail, |f.buf|)
         == |f.Contents()| - (if f.head < f.tail then 1 else 0)
  {
  }

  /** A zero from the data guard hides a byte in exactly one position. */
  lemma DataHidesOne(f: Fifo)
    requires f.Settled()
    ensures DataAvail(f.head, f.tail, |f.buf|) == 0
       <==> f.Contents() == [] || f.Hidden()
    ensures f.Hidden() && |f.buf| > 1 ==> |f.Contents()| == 1
  {
  }

  // ----- what the operations do to the queue

  lemma StoreKeeps(f: Fifo, v: Byte)
    requires f.Fits() && f.head < |f.buf|
    ensures f.Store(v).Contents() == f.Contents()
  {
  }

  lemma SliceGrows(s: seq<Byte>, i: nat, j: nat)
    requires i <= j < |s|
    ensures s[i..j + 1] == s[i..j] + [s[j]]
  {
  }

  lemma SliceShrinks(s: seq<Byte>, i: nat, j: nat)
    requires i < j <= |s|
    ensures s[i..j] == [s[i]] + s[i + 1..j]
  {
  }

  /** Incrementing the head past a stored byte appends it, before as after the wrap. */
  lemma BumpAppends(f: Fifo)
    requires f.Fits() && f.head < |f.buf| && |f.Contents()| < |f.buf| - 1
    ensures f.(head := f.head + 1).Contents() == f.Contents() + [f.buf[f.head]]
  {
    var t, last := Slot(f.tail, |f.buf|), [f.buf[f.head]];
    if t <= f.head {
      SliceGrows(f.buf, t, f.head);
      assert f.buf[t..] == f.buf[t..|f.buf|] && f.buf[..0] == [];
    } else {
      SliceGrows(f.buf, 0, f.head);
      assert f.buf[t..] + (f.buf[..f.head] + last) == f.buf[t..] + f.buf[..f.head] + last;
    }
  }

  lemma WriteAppends(f: Fifo, v: Byte)
    requires f.Fits() && f.head < |f.buf| && |f.Contents()| < |f.buf| - 1
    ensures f.Write(v).Contents() == f.Contents() + [v] && f.Write(v).head < |f.buf|
  {
    StoreKeeps(f, v);
    BumpAppends(f.Store(v));
  }

  /** The head of a wrapped queue, and what is left: the top part may be used up. */
  lemma WrappedShrinks(s: seq<Byte>, i: nat, j: nat)
    requires j <= i < |s|
    ensures s[i..] + s[..j] == [s[i]] + (s[i + 1..] + s[..j])
    ensures i + 1 == |s| ==> s[i + 1..] + s[..j] == s[0..j]
  {
    assert s[i..] == [s[i]] + s[i + 1..];
  }

  /** Incrementing the tail takes the oldest byte, before as after the wrap. */
  lemma BumpTakes(f: Fifo)
    requires f.Fits() && f.tail < |f.buf| && f.Contents() != []
    ensures f.Contents() == [f.buf[f.tail]] + f.(tail := f.tail + 1).Contents()
  {
    var h := Slot(f.head, |f.buf|);
    if f.tail < h {
      SliceShrinks(f.buf, f.tail, h);
    } else {
      WrappedShrinks(f.buf, f.tail, h);
    }
  }

  lemma ReadTakes(f: Fifo)
    requires f.Fits() && f.tail < |f.buf| && f.Contents() != []
    ensures f.Contents() == [f.buf[f.tail]] + f.Read().Contents() && f.Read().tail < |f.buf|
  {
    hide Fifo.Contents;
    BumpTakes(f);
    WrapKeeps(f.(tail := f.tail + 1));
  }

  lemma WrapKeeps(f: Fifo)
    requires f.Fits()
    ensures f.WrapTail().Contents() == f.Contents()
  {
  }

  /** Filling an empty ring with a burst and draining it again returns the burst. */
  function WriteAll(f: Fifo, vs: seq<Byte>): Fifo
    requires f.Settled() && |f.Contents()| + |vs| < |f.buf|
    decreases |vs|
  {
    if vs == [] then f else WriteAppends(f, vs[0]); WriteAll(f.Write(vs[0]), vs[1..])
  }

  function ReadAll(f: Fifo, n: nat): seq<Byte>
    requires f.Settled() && n <= |f.Contents()|
    decreases n
  {
    if n == 0 then [] else ReadTakes(f); [f.buf[f.tail]] + ReadAll(f.Read(), n - 1)
  }

  lemma {:induction false} WriteAllAppends(f: Fifo, vs: seq<Byte>)
    requires f.Settled() && |f.Contents()| + |vs| < |f.buf|
    ensures WriteAll(f, vs).Settled() && WriteAll(f, vs).Contents() == f.Contents() + vs
    decreases |vs|
  {
    hide Fifo.Contents;
    if vs != [] {
      WriteAppends(f, vs[0]);
      WriteAllAppends(f.Write(vs[0]), vs[1..]);
      assert f.Contents() + [vs[0]] + vs[1..] == f.Contents() + vs;
    }
  }

  lemma {:induction false} ReadAllDrains(f: Fifo, n: nat)
    requires f.Settled() && n <= |f.Contents()|
    ensures ReadAll(f, n) == f.Contents()[..n]
    decreases n
  {
    hide Fifo.Contents;
    if n > 0 {
      ReadTakes(f);
      ReadAllDrains(f.Read(), n - 1);
      var first, rest := [f.buf[f.tail]], f.Read().Contents();
      assert (first + rest)[..n] == first + rest[..n - 1];
    }
  }

  /** A burst of at most count - 1 bytes comes back in order wherever the ring stands. */
  lemma FifoRoundTrip(f: Fifo, vs: seq<Byte>)
    requires f.Settled() && f.Contents() == [] && |vs| < |f.buf|
    ensures WriteAll(f, vs).Settled() && |WriteAll(f, vs).Contents()| == |vs|
    ensures ReadAll(WriteAll(f, vs), |vs|) == vs
  {
    WriteAllAppends(f, vs);
    ReadAllDrains(WriteAll(f, vs), |vs|);
  }

  // ----- the FIFO in memory

  class ByteFifo {
    const bfBuf: array<Byte>
    var bfHead: nat
    var bfTail: nat

    function View(): Fifo
      reads this, bfBuf
    {
      Fifo(bfBuf[..], bfHead, bfTail)
    }

    ghost predicate Valid()
      reads this, bfBuf
    {
      View().Settled()
    }

    ghost function Contents(): seq<Byte>
      requires Valid()
      reads this, bfBuf
    {
      View().Contents()
    }

    constructor (buf: array<Byte>)
      requires 1 <= buf.Length < 0x1_0000
      ensures Valid() && bfBuf == buf && Contents() == []
      ensures bfHead == 0 && bfTail == 0
    {
      bfBuf := buf;
      bfHead, bfTail := 0, 0;
    }

    function Space(): (n: nat)
      requires Valid()
      reads this, bfBuf
      ensures n == bfBuf.Length - 1 - |Contents()|
    {
      SpaceIsExact(View());
      SpaceAvail(bfHead, bfTail, bfBuf.Length)
    }

    function Data(): (n: nat)
      requires Valid()
      reads this, bfBuf
      ensures n == 0 <==> Contents() == [] || (bfHead == 0 && bfTail == bfBuf.Length - 1)
      ensures n == |Contents()| - (if bfHead < bfTail then 1 else 0)
    {
      DataIsExact(View());
      DataAvail(bfHead, bfTail, bfBuf.Length)
    }

    predicate IsEmpty()
      requires Valid()
      reads this, bfBuf
      ensures IsEmpty() <==> Contents() == []
    {
      bfHead == bfTail
    }

    predicate IsFull()
      requires Valid()
      reads this, bfBuf
      ensures IsFull() <==> |Contents()| == bfBuf.Length - 1
    {
      bfHead + 1 == bfTail || (bfTail == 0 && bfHead == bfBuf.Length - 1)
    }

    method Write(val: Byte)
      requires Valid() && |Contents()| < bfBuf.Length - 1
      modifies this`bfHead, bfBuf
      ensures Valid() && View() == old(View()).Write(val)
      ensures Contents() == old(Contents()) + [val]
    {
      WriteAppends(View(), val);
      bfBuf[bfHead] := val;
      bfHead := bfHead + 1;
      if bfHead >= bfBuf.Length {
        bfHead := 0;
      }
      assert View() == old(View()).Write(val);
    }

    method Read() returns (retval: Byte)
      requires Valid() && Contents() != []
      modifies this`bfTail
      ensures Valid() && View() == old(View()).Read()
      ensures old(Contents()) == [retval] + Contents() && retval == bfBuf[old(bfTail)]
    {
      ReadTakes(View());
      retval := bfBuf[bfTail];
      bfTail := bfTail + 1;
      if bfTail >= bfBuf.Length {
        bfTail := 0;
      }
    }
  }
}
