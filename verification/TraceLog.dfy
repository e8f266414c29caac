/** The rolling trace log of dbt.c: a masked ring of two-word records with a stop record at the
    insertion point, and the two dump walks over it. */
module TraceLog {
  import opened Machine

  type Word64 = x: int | 0 <= x < 0x1_0000_0000_0000_0000

  const LOG_SIZE := 128
  const BUF_WORDS := 260

  /** Eight '=' characters. */
  const BARS: Word64 := 0x3d3d_3d3d_3d3d_3d3d

  datatype Record = Record(lo: Word64, hi: Word64)

  /** The word index of the slot that record number k is written to. */
  function Home(k: nat): (at: nat)
    ensures at <= LOG_SIZE - 2 && at % 2 == 0
  {
    2 * (k % 64)
  }

  // ----- the dump walks

  /** A record printed: its label, and the word index the pointer has. */
  datatype Visit = Visit(tag: int, at: int)

  /** The forward walk: the pointer goes back to the beginning only when it is past word 128. */
  function WalkForward(at: int, tag: int, count: nat): (vs: seq<Visit>)
    ensures |vs| == count
    decreases count
  {
    if count == 0 then []
    else [Visit(tag, at)] + WalkForward(if at + 2 > LOG_SIZE then 0 else at + 2, tag + 1, count - 1)
  }

  /** The backward walk: the pointer goes to word 128 when it is before the beginning. */
  function WalkBackward(at: int, count: nat): (vs: seq<Visit>)
    ensures |vs| == count
    decreases count
  {
    if count == 0 then []
    else [Visit(count - 1, at)] + WalkBackward(if at - 2 < 0 then LOG_SIZE else at - 2, count - 1)
  }

  function ForwardStart(index: nat, num: nat): int {
    if index - 2 * num < 0 then index - 2 * num + LOG_SIZE else index - 2 * num
  }

  /** The last num of n records in time order, labelled from 0. */
  function InTimeOrder(n: nat, num: nat): (vs: seq<Visit>)
    requires num <= n
    ensures |vs| == num
    ensures forall j :: 0 <= j < num ==> vs[j] == Visit(j, Home(n - num + j))
  {
    seq(num, j requires 0 <= j < num => Visit(j, Home(n - num + j)))
  }

  function Reverse(vs: seq<Visit>): (r: seq<Visit>)
    ensures |r| == |vs| && forall j :: 0 <= j < |vs| ==> r[j] == vs[|vs| - 1 - j]
  {
    seq(|vs|, j requires 0 <= j < |vs| => vs[|vs| - 1 - j])
  }

  lemma {:induction false} ForwardVisits(at: nat, tag: int, count: nat, j: nat)
    requires at % 2 == 0 && j < count && at + 2 * j <= LOG_SIZE
    ensures WalkForward(at, tag, count)[j] == Visit(tag + j, at + 2 * j)
    decreases j
  {
    if j > 0 {
      ForwardVisits(at + 2, tag + 1, count - 1, j - 1);
    }
  }

  lemma {:induction false} BackwardVisits(at: nat, count: nat, j: nat)
    requires at % 2 == 0 && j < count
    ensures 2 * j <= at ==> WalkBackward(at, count)[j] == Visit(count - 1 - j, at - 2 * j)
    ensures 2 * j == at + 2 ==> WalkBackward(at, count)[j] == Visit(count - 1 - j, LOG_SIZE)
    decreases j
  {
    if j > 0 && at >= 2 {
      BackwardVisits(at - 2, count - 1, j - 1);
    }
  }

  lemma HomeOffset(n: nat, k: nat)
    requires k <= n && n - k < 64
    ensures Home(k) == if 2 * (n - k) <= Home(n) then Home(n) - 2 * (n - k)
                       else Home(n) - 2 * (n - k) + LOG_SIZE
  {
    var r, d := n % 64, n - k;
    assert k == 64 * (n / 64) + (r - d);
    if d <= r {
      DivIs(k, 64, n / 64, r - d);
    } else {
      DivIs(k, 64, n / 64 - 1, r - d + 64);
    }
  }

  lemma HomeApart(n: nat, k: nat)
    requires k < n && n - 62 <= k
    ensures Home(k) != Home(n) && Home(k) != Home(n + 1)
  {
    HomeOffset(n, k);
    HomeOffset(n + 1, k);
  }

  lemma HomeNext(n: nat)
    ensures Home(n) != Home(n + 1) && Home(n + 1) == (Home(n) + 2) % LOG_SIZE
  {
    HomeOffset(n + 1, n);
    assert (Home(n) + 2) % LOG_SIZE == if Home(n) + 2 < LOG_SIZE then Home(n) + 2 else 0;
  }

  /** The next record and the stop record after it land outside the last 62 records. */
  lemma HomesApart(n: nat)
    ensures forall k {:trigger Home(k)} :: 0 <= k < n && n - 62 <= k ==>
      Home(k) != Home(n) && Home(k) != Home(n + 1)
    ensures Home(n) != Home(n + 1) && Home(n + 1) == (Home(n) + 2) % LOG_SIZE
  {
    HomeNext(n);
    forall k: nat | k < n && n - 62 <= k
      ensures Home(k) != Home(n) && Home(k) != Home(n + 1)
    {
      HomeApart(n, k);
    }
  }

  /** The forward dump of the last num records is right exactly when it does not wrap, or the
      insertion point is at the beginning; otherwise it visits the spare words at 128. */
  lemma ForwardDumpExact(n: nat, num: nat)
    requires 1 <= num <= 63 && num <= n
    ensures var walk := WalkForward(ForwardStart(Home(n), num), 0, num);
      && (walk == InTimeOrder(n, num) <==> 2 * num <= Home(n) || Home(n) == 0)
      && (walk != InTimeOrder(n, num) ==> exists j :: 0 <= j < num && walk[j] == Visit(j, LOG_SIZE))
  {
    var start := ForwardStart(Home(n), num);
    var walk := WalkForward(start, 0, num);
    if 2 * num <= Home(n) || Home(n) == 0 {
      forall j | 0 <= j < num
        ensures walk[j] == InTimeOrder(n, num)[j]
      {
        ForwardVisits(start, 0, num, j);
        HomeOffset(n, n - num + j);
      }
    } else {
      ForwardDumpStrays(n, num);
    }
  }

  /** Where a forward dump that wraps to a used part of the ring strays. */
  lemma ForwardDumpStrays(n: nat, num: nat)
    requires num <= 63 && num <= n && 0 < Home(n) < 2 * num
    ensures var walk := WalkForward(ForwardStart(Home(n), num), 0, num);
      && walk != InTimeOrder(n, num)
      && (exists j :: 0 <= j < num && walk[j] == Visit(j, LOG_SIZE))
  {
    hide Home;
    var start := ForwardStart(Home(n), num);
    var j := (LOG_SIZE - start) / 2;
    ForwardVisits(start, 0, num, j);
    assert InTimeOrder(n, num)[j].at < LOG_SIZE;
  }

  lemma BackwardDumpRight(n: nat, num: nat)
    requires num <= 63 && num <= n && 2 * num <= Home(n)
    ensures WalkBackward(Home(n) - 2, num) == Reverse(InTimeOrder(n, num))
  {
    var walk, right := WalkBackward(Home(n) - 2, num), Reverse(InTimeOrder(n, num));
    forall j | 0 <= j < num
      ensures walk[j] == right[j]
    {
      BackwardVisits(Home(n) - 2, num, j);
      HomeOffset(n, n - 1 - j);
      assert right[j] == InTimeOrder(n, num)[num - 1 - j];
    }
  }

  /** Where a backward dump that must wrap leaves the ring. */
  lemma BackwardDumpStrays(n: nat, num: nat)
    requires num <= n && Home(n) < 2 * num
    ensures WalkBackward(Home(n) - 2, num)[Home(n) / 2].at == if Home(n) == 0 then -2 else LOG_SIZE
  {
    if Home(n) > 0 {
      BackwardVisits(Home(n) - 2, num, Home(n) / 2);
    }
  }

  /** The backward dump is right exactly when it does not wrap. From an insertion point at the
      beginning it starts before the buffer. */
  lemma BackwardDumpExact(n: nat, num: nat)
    requires 1 <= num <= 63 && num <= n
    ensures var walk := WalkBackward(Home(n) - 2, num);
      && (walk == Reverse(InTimeOrder(n, num)) <==> 2 * num <= Home(n))
      && (Home(n) == 0 ==> walk[0].at == -2)
  {
    if 2 * num <= Home(n) {
      BackwardDumpRight(n, num);
    } else {
      BackwardDumpStrays(n, num);
      var j := Home(n) / 2;
      assert Reverse(InTimeOrder(n, num))[j] == InTimeOrder(n, num)[num - 1 - j];
    }
  }

  // ----- where the dumps stay

  /** The record a visit prints lies in the buffer. */
  predicate InBuffer(v: Visit) {
    0 <= v.at && v.at + 1 < BUF_WORDS
  }

  predicate StaysInBuffer(walk: seq<Visit>) {
    forall j :: 0 <= j < |walk| ==> InBuffer(walk[j])
  }

  /** Inside the ring or at the spare record behind it the forward walk stays there. */
  lemma {:induction false} ForwardStays(at: nat, tag: int, count: nat, j: nat)
    requires at <= LOG_SIZE && j < count
    ensures 0 <= WalkForward(at, tag, count)[j].at <= LOG_SIZE
    decreases j
  {
    if j > 0 {
      ForwardStays(if at + 2 > LOG_SIZE then 0 else at + 2, tag + 1, count - 1, j - 1);
    }
  }

  lemma {:induction false} BackwardStays(at: nat, count: nat, j: nat)
    requires at <= LOG_SIZE && j < count
    ensures 0 <= WalkBackward(at, count)[j].at <= LOG_SIZE
    decreases j
  {
    if j > 0 {
      BackwardStays(if at - 2 < 0 then LOG_SIZE else at - 2, count - 1, j - 1);
    }
  }

  /** For any positive count, as it comes unchecked from the command line: the forward dump
      stays in the buffer exactly if its start, put forward by one lap, is not before it. */
  lemma ForwardDumpInBuffer(index: nat, num: nat)
    requires index <= LOG_SIZE - 2 && num >= 1
    ensures StaysInBuffer(WalkForward(ForwardStart(index, num), 0, num))
       <==> 2 * num <= index + LOG_SIZE
  {
    var start := ForwardStart(index, num);
    var walk := WalkForward(start, 0, num);
    if 2 * num <= index + LOG_SIZE {
      forall j | 0 <= j < num
        ensures InBuffer(walk[j])
      {
        ForwardStays(start, 0, num, j);
      }
    } else {
      assert walk[0].at == start < 0 && !InBuffer(walk[0]);
    }
  }

  /** The backward dump does, for any positive count, exactly if the insertion point is not at
      the beginning. */
  lemma BackwardDumpInBuffer(index: nat, num: nat)
    requires index <= LOG_SIZE - 2 && index % 2 == 0 && num >= 1
    ensures StaysInBuffer(WalkBackward(index - 2, num)) <==> index != 0
  {
    var walk := WalkBackward(index - 2, num);
    if index != 0 {
      forall j | 0 <= j < num
        ensures InBuffer(walk[j])
      {
        BackwardStays(index - 2, num, j);
      }
    } else {
      assert walk[0].at == -2 && !InBuffer(walk[0]);
    }
  }

  // ----- what the dumps show once they wrap

  /** The forward walk goes round the 65 records of the ring and the spare one behind it. */
  lemma {:induction false} ForwardCycle(at: nat, tag: int, count: nat, j: nat)
    requires at % 2 == 0 && at <= 128 && j < count
    ensures WalkForward(at, tag, count)[j] == Visit(tag + j, (at + 2 * j) % 130)
    decreases j
  {
    if j > 0 {
      ForwardCycle(if at + 2 > 128 then 0 else at + 2, tag + 1, count - 1, j - 1);
      Turn(at + 2, 2 * (j - 1));
    } else {
      DivIs(at, 130, 0, at);
    }
  }

  /** So does the backward walk, the other way. */
  lemma {:induction false} BackwardCycle(at: nat, count: nat, j: nat)
    requires at % 2 == 0 && at <= 128 && j < count
    ensures WalkBackward(at, count)[j] == Visit(count - 1 - j, (at - 2 * j) % 130)
    decreases j
  {
    if j > 0 {
      BackwardCycle(if at - 2 < 0 then 128 else at - 2, count - 1, j - 1);
      Turn(at - 2, -2 * (j - 1));
    } else {
      DivIs(at, 130, 0, at);
    }
  }

  lemma Turn(at: int, step: int)
    requires -2 <= at <= 130
    ensures (at + step) % 130 == ((if at == -2 then 128 else if at == 130 then 0 else at) + step) % 130
  {
    var x := at + step;
    DivIs(x, 130, 0, 0);
    DivIs(x + 130, 130, x / 130 + 1, x % 130);
    DivIs(x - 130, 130, x / 130 - 1, x % 130);
  }

  /** A forward dump that wraps to a used part of the ring: the time order with the spare record
      put in at the top of the ring, and the newest record lost. */
  lemma ForwardDumpWrapped(n: nat, num: nat, j: nat)
    requires num <= 63 && num <= n && 0 < Home(n) < 2 * num && j < num
    ensures var start := ForwardStart(Home(n), num);
      && start == Home(n - num)
      && WalkForward(start, 0, num)[j]
         == Visit(j, if start + 2 * j < 128 then Home(n - num + j)
                     else if start + 2 * j == 128 then 128
                     else Home(n - num + j - 1))
  {
    var start := ForwardStart(Home(n), num);
    HomeOffset(n, n - num);
    ForwardCycle(start, 0, num, j);
    HomeOffset(n, n - num + j);
    if start + 2 * j > 128 {
      HomeOffset(n, n - num + j - 1);
      DivIs(start + 2 * j, 130, 1, start + 2 * j - 130);
    } else {
      DivIs(start + 2 * j, 130, 0, start + 2 * j);
    }
  }

  lemma BackwardWithinRing(n: nat, num: nat, j: nat)
    requires num <= 63 && num <= n && 0 < Home(n) < 2 * num && j < num
    ensures WalkBackward(Home(n) - 2, num)[j]
         == Visit(num - 1 - j, if 2 * j < Home(n) then Home(n - 1 - j)
                               else if 2 * j == Home(n) then 128
                               else Home(n - j))
  {
    hide Home, WalkBackward;
    var h := Home(n);
    BackwardCycle(h - 2, num, j);
    if 2 * j < h {
      HomeOffset(n, n - 1 - j);
      DivIs(h - 2 - 2 * j, 130, 0, h - 2 - 2 * j);
    } else {
      HomeOffset(n, n - j);
      DivIs(h - 2 - 2 * j, 130, -1, h + 128 - 2 * j);
    }
  }

  lemma BackwardFromBeginning(n: nat, num: nat, j: nat)
    requires num <= 63 && num <= n && Home(n) == 0 && j < num
    ensures WalkBackward(-2, num)[j]
         == Visit(num - 1 - j, if j == 0 then -2 else if j == 1 then 128 else Home(n - j + 1))
  {
    if j > 0 {
      BackwardCycle(128, num - 1, j - 1);
      HomeOffset(n, n - j + 1);
      DivIs(128 - 2 * (j - 1), 130, 0, 128 - 2 * (j - 1));
    }
  }

  /** A backward dump that wraps: the reverse order with the spare record put in, and the oldest
      record lost. From an insertion point at the beginning it has another stray record in front,
      from before the buffer, and the two oldest are lost. */
  lemma BackwardDumpWrapped(n: nat, num: nat, j: nat)
    requires num <= 63 && num <= n && Home(n) < 2 * num && j < num
    ensures var h := Home(n);
      WalkBackward(h - 2, num)[j]
        == Visit(num - 1 - j,
                 if h > 0 then
                   if 2 * j < h then Home(n - 1 - j) else if 2 * j == h then 128 else Home(n - j)
                 else if j == 0 then -2 else if j == 1 then 128 else Home(n - j + 1))
  {
    hide Home, WalkBackward;
    if Home(n) > 0 {
      BackwardWithinRing(n, num, j);
    } else {
      BackwardFromBeginning(n, num, j);
    }
  }

  // ----- the dump walks as they are meant, which is not what dbt_print does

  /** Forward, back to the beginning as soon as the pointer is at word 128. */
  function MeantForward(at: int, tag: int, count: nat): (vs: seq<Visit>)
    ensures |vs| == count
    decreases count
  {
    if count == 0 then []
    else [Visit(tag, at)] + MeantForward(if at + 2 >= LOG_SIZE then 0 else at + 2, tag + 1, count - 1)
  }

  function BeforeInRing(at: int): int {
    if at - 2 < 0 then at - 2 + LOG_SIZE else at - 2
  }

  /** Backward, from the beginning to the last record of the ring. */
  function MeantBackward(at: int, count: nat): (vs: seq<Visit>)
    ensures |vs| == count
    decreases count
  {
    if count == 0 then [] else [Visit(count - 1, at)] + MeantBackward(BeforeInRing(at), count - 1)
  }

  lemma {:induction false} MeantForwardVisits(m: nat, tag: int, count: nat, j: nat)
    requires j < count
    ensures MeantForward(Home(m), tag, count)[j] == Visit(tag + j, Home(m + j))
    decreases j
  {
    hide Home;
    if j > 0 {
      HomeNext(m);
      MeantForwardVisits(m + 1, tag + 1, count - 1, j - 1);
    }
  }

  lemma {:induction false} MeantBackwardVisits(m: nat, count: nat, j: nat)
    requires j < count && j <= m
    ensures MeantBackward(Home(m), count)[j] == Visit(count - 1 - j, Home(m - j))
    decreases j
  {
    hide Home;
    if j > 0 {
      HomeNext(m - 1);
      MeantBackwardVisits(m - 1, count - 1, j - 1);
    }
  }

  lemma StartsAreHomes(n: nat, num: nat)
    requires num <= 63 && num <= n
    ensures ForwardStart(Home(n), num) == Home(n - num)
    ensures n > 0 ==> BeforeInRing(Home(n)) == Home(n - 1)
  {
    HomeOffset(n, n - num);
    if n > 0 {
      HomeOffset(n, n - 1);
    }
  }

  /** With both wraps put right, and the backward start wrapped too, the dumps of up to 63
      records are right wherever the insertion point stands. */
  lemma MeantDumpsAreRight(n: nat, num: nat)
    requires num <= 63 && num <= n
    ensures MeantForward(ForwardStart(Home(n), num), 0, num) == InTimeOrder(n, num)
    ensures MeantBackward(BeforeInRing(Home(n)), num) == Reverse(InTimeOrder(n, num))
  {
    hide Home, ForwardStart, BeforeInRing, MeantForward, MeantBackward;
    StartsAreHomes(n, num);
    var fw, bw := MeantForward(Home(n - num), 0, num), MeantBackward(BeforeInRing(Home(n)), num);
    forall j | 0 <= j < num
      ensures fw[j] == InTimeOrder(n, num)[j] && bw[j] == InTimeOrder(n, num)[num - 1 - j]
    {
      MeantForwardVisits(n - num, 0, num, j);
      MeantBackwardVisits(n - 1, num, j);
    }
  }

  // ----- the log in memory

  /** The ring holds the stop record where the next record goes, and every one of the last 63
      records of the history at its home. */
  ghost predicate Holds(buf: seq<Word64>, history: seq<Record>) {
    && |buf| == BUF_WORDS
    && buf[Home(|history|)] == BARS && buf[Home(|history|) + 1] == BARS
    && (forall k {:trigger history[k]} :: 0 <= k < |history| && |history| - 63 <= k ==>
          buf[Home(k)] == history[k].lo && buf[Home(k) + 1] == history[k].hi)
  }

  /** Two words of the ring replaced. */
  function Put(buf: seq<Word64>, at: nat, r: Record): (b: seq<Word64>)
    requires |buf| == BUF_WORDS && at <= LOG_SIZE - 2
    ensures |b| == BUF_WORDS && b[at] == r.lo && b[at + 1] == r.hi
    ensures forall p :: 0 <= p < BUF_WORDS && p != at && p != at + 1 ==> b[p] == buf[p]
  {
    buf[at := r.lo][at + 1 := r.hi]
  }

  lemma PutsHold(buf: seq<Word64>, history: seq<Record>, r: Record)
    requires Holds(buf, history)
    ensures var n := |history|;
      var after := Put(Put(buf, Home(n), r), Home(n + 1), Record(BARS, BARS));
      Holds(after, history + [r]) && after[LOG_SIZE..] == buf[LOG_SIZE..]
  {
    HomesApart(|history|);
  }

  class TraceLog {
    const logBuf: array<Word64>
    var logIndex: nat
    /** Every record written since initialisation, oldest first. */
    ghost var history: seq<Record>
    /** The words past the ring, as they were at initialisation. */
    ghost const spare: seq<Word64>

    ghost predicate Valid()
      reads this, logBuf
    {
      logIndex == Home(|history|) && Holds(logBuf[..], history) && logBuf[LOG_SIZE..] == spare
    }

    /** dbt_cmd_init on the buffer as the program starts with it. */
    constructor (buf: array<Word64>)
      requires buf.Length == BUF_WORDS
      modifies buf
      ensures Valid() && logBuf == buf && history == [] && spare == old(buf[LOG_SIZE..])
      ensures buf[0] == buf[1] == 0x3d3d_3d3d_3d3d_3d3d
    {
      logBuf := buf;
      logIndex := 0;
      history := [];
      spare := buf[LOG_SIZE..];
      new;
      logBuf[0] := BARS;
      logBuf[1] := BARS;
    }

    /** dbt_write */
    method DbtWrite(dbt: Record)
      requires Valid()
      modifies this`logIndex, this`history, logBuf
      ensures Valid() && history == old(history) + [dbt]
    {
      ghost var n, buf := |history|, logBuf[..];
      PutsHold(buf, history, dbt);
      HomesApart(n);
      MaskIs(logIndex + 2);
      logBuf[logIndex] := dbt.lo;
      logBuf[logIndex + 1] := dbt.hi;
      assert logBuf[..] == Put(buf, Home(n), dbt);
      logIndex := logIndex + 2;
      logIndex := And(logIndex, LOG_SIZE - 1);
      logBuf[logIndex] := BARS;
      logBuf[logIndex + 1] := BARS;
      assert logBuf[..] == Put(Put(buf, Home(n), dbt), Home(n + 1), Record(BARS, BARS));
      history := history + [dbt];
      assert logBuf[LOG_SIZE..] == logBuf[..][LOG_SIZE..];
    }

    /** dbt_print: which word index is printed under which label. */
    method DbtPrint(numRecords: int, forward: bool) returns (visits: seq<Visit>)
      requires -0x4000_0000 < numRecords < 0x4000_0000
      ensures var count := if numRecords < 0 then 0 else numRecords;
        visits == if forward then WalkForward(ForwardStart(logIndex, count), 0, count)
                  else WalkBackward(logIndex - 2, count)
    {
      if forward {
        visits := PrintForward(numRecords);
      } else {
        visits := PrintBackward(numRecords);
      }
    }

    method PrintForward(numRecords: int) returns (visits: seq<Visit>)
      ensures var count := if numRecords < 0 then 0 else numRecords;
        visits == WalkForward(ForwardStart(logIndex, count), 0, count)
    {
      var startIndex := logIndex - numRecords * 2;
      if startIndex < 0 {
        startIndex := startIndex + LOG_SIZE;
      }
      visits := ForwardLoop(startIndex, numRecords);
    }

    method PrintBackward(numRecords: int) returns (visits: seq<Visit>)
      ensures var count := if numRecords < 0 then 0 else numRecords;
        visits == WalkBackward(logIndex - 2, count)
    {
      visits := BackwardLoop(logIndex - 2, numRecords);
    }

    /** The record a visit prints. */
    ghost function At(v: Visit): Record
      requires 0 <= v.at && v.at + 1 < logBuf.Length
      reads logBuf
    {
      Record(logBuf[v.at], logBuf[v.at + 1])
    }

    lemma RecordAtHome(k: nat)
      requires Valid() && k < |history| && |history| - 63 <= k
      ensures logBuf.Length == BUF_WORDS
      ensures forall tag :: At(Visit(tag, Home(k))) == history[k]
    {
      assert logBuf[..][Home(k)] == history[k].lo && logBuf[..][Home(k) + 1] == history[k].hi;
    }

    /** The visits in time order show the last num records of the history. */
    lemma TimeOrderShowsHistory(num: nat)
      requires Valid() && num <= 63 && num <= |history|
      ensures logBuf.Length == BUF_WORDS
      ensures forall j :: 0 <= j < num ==>
        At(InTimeOrder(|history|, num)[j]) == history[|history| - num + j]
    {
      forall j | 0 <= j < num
        ensures At(InTimeOrder(|history|, num)[j]) == history[|history| - num + j]
      {
        RecordAtHome(|history| - num + j);
      }
    }

    /** Dump agreement: without a wrap, both dumps print the last num records of the history,
        forward in time order and backward in the exact reverse, each under the same label. */
    lemma DumpAgreement(num: nat)
      requires Valid() && 1 <= num <= 63 && num <= |history| && 2 * num <= logIndex
      ensures logBuf.Length == BUF_WORDS
      ensures var fw := WalkForward(ForwardStart(logIndex, num), 0, num);
        && WalkBackward(logIndex - 2, num) == Reverse(fw)
        && (forall j :: 0 <= j < num ==> fw[j].tag == j && 0 <= fw[j].at < LOG_SIZE)
        && (forall j :: 0 <= j < num ==> At(fw[j]) == history[|history| - num + j])
    {
      hide Home, Holds, WalkForward, WalkBackward, ForwardStart;
      ForwardDumpExact(|history|, num);
      BackwardDumpExact(|history|, num);
      TimeOrderShowsHistory(num);
    }
  }

  /** The forward loop of dbt_print. */
  method ForwardLoop(start: int, num: int) returns (visits: seq<Visit>)
    ensures visits == WalkForward(start, 0, if num < 0 then 0 else num)
  {
    ghost var rest := WalkForward(start, 0, if num < 0 then 0 else num);
    ghost var goal := rest;
    var dbt, recNum := start, 0;
    visits := [];
    while recNum < num
      invariant 0 <= recNum && |rest| == (if num < recNum then 0 else num - recNum)
      invariant rest == WalkForward(dbt, recNum, |rest|)
      invariant visits + rest == goal
    {
      ghost var here := [Visit(recNum, dbt)];
      ghost var after := WalkForward(if dbt + 2 > LOG_SIZE then 0 else dbt + 2, recNum + 1, |rest| - 1);
      assert rest == here + after;
      assert visits + (here + after) == visits + here + after;
      rest := after;
      visits := visits + [Visit(recNum, dbt)];
      dbt := dbt + 2;
      if dbt > LOG_SIZE {
        dbt := 0;
      }
      recNum := recNum + 1;
    }
  }

  /** The backward loop of dbt_print. */
  method BackwardLoop(start: int, num: int) returns (visits: seq<Visit>)
    ensures visits == WalkBackward(start, if num < 0 then 0 else num)
  {
    ghost var rest := WalkBackward(start, if num < 0 then 0 else num);
    ghost var goal := rest;
    var dbt, recNum := start, num - 1;
    visits := [];
    while recNum >= 0
      invariant |rest| == (if recNum < 0 then 0 else recNum + 1)
      invariant rest == WalkBackward(dbt, |rest|) && visits + rest == goal
    {
      ghost var here := [Visit(recNum, dbt)];
      ghost var after := WalkBackward(if dbt - 2 < 0 then LOG_SIZE else dbt - 2, |rest| - 1);
      assert rest == here + after;
      assert visits + (here + after) == visits + here + after;
      rest := after;
      visits := visits + [Visit(recNum, dbt)];
      dbt := dbt - 2;
      if dbt < 0 {
        dbt := LOG_SIZE;
      }
      recNum := recNum - 1;
    }
  }

  lemma MaskIs(x: nat)
    ensures And(x, LOG_SIZE - 1) == x % LOG_SIZE
  {
    assert Pow2(7) == 2 * Pow2(6) == 4 * Pow2(5) == 8 * Pow2(4);
    assert Pow2(4) == 2 * Pow2(3) == 4 * Pow2(2) == 8 * Pow2(1) == 16;
    AndLowMask(x, 7);
  }
}
