/** The in-place tokenizer of shell.c, `convert_cmd_buf_to_substr`: it finds the words of a
    NUL-terminated line and cuts the line up by overwriting separators with NULs. */
module Tokenizer {
  import opened Machine
  import opened CString
  import opened MicroUtil

  predicate IsWordChar(c: Byte) {
    c == '_' as int || c == '#' as int || IsAlnum(c)
  }

  /** The characters of words by ASCII code: underscore, number sign, digits and letters. */
  predicate WordCode(c: Byte) {
    c == 95 || c == 35 || 48 <= c <= 57 || 65 <= c <= 90 || 97 <= c <= 122
  }

  // ----- the words of a line

  datatype Span = Span(start: nat, end: nat)

  function RunEnd(s: seq<Byte>, i: nat): (j: nat)
    requires i <= |s|
    ensures i <= j <= |s| && (forall k :: i <= k < j ==> IsWordChar(s[k]))
    ensures j < |s| ==> !IsWordChar(s[j])
    decreases |s| - i
  {
    if i < |s| && IsWordChar(s[i]) then RunEnd(s, i + 1) else i
  }

  /** The runs of word characters from position i on, left to right. */
  function WordsFrom(s: seq<Byte>, i: nat): seq<Span>
    requires i <= |s|
    decreases |s| - i
  {
    if i == |s| then []
    else if IsWordChar(s[i]) then [Span(i, RunEnd(s, i))] + WordsFrom(s, RunEnd(s, i))
    else WordsFrom(s, i + 1)
  }

  function Words(s: seq<Byte>): seq<Span> {
    WordsFrom(s, 0)
  }

  /** w is a non-empty run of word characters that cannot be extended on either side. */
  ghost predicate MaximalRun(s: seq<Byte>, w: Span) {
    && w.start < w.end <= |s|
    && (forall k :: w.start <= k < w.end ==> WordCode(s[k]))
    && (w.start > 0 ==> !WordCode(s[w.start - 1]))
    && (w.end < |s| ==> !WordCode(s[w.end]))
  }

  lemma RunOverlap(s: seq<Byte>, i: nat, w: Span)
    requires i < |s| && (i > 0 ==> !(IsWordChar(s[i - 1]) && IsWordChar(s[i])))
    requires MaximalRun(s, w) && i <= w.start < RunEnd(s, i)
    ensures w == Span(i, RunEnd(s, i))
  {
  }

  /** The words are exactly the maximal runs. */
  lemma {:induction false} WordsAreMaximalRuns(s: seq<Byte>, i: nat, w: Span)
    requires i <= |s| && (i > 0 && i < |s| ==> !(IsWordChar(s[i - 1]) && IsWordChar(s[i])))
    ensures w in WordsFrom(s, i) <==> MaximalRun(s, w) && i <= w.start
    decreases |s| - i
  {
    if i < |s| {
      if IsWordChar(s[i]) {
        var e := RunEnd(s, i);
        WordsAreMaximalRuns(s, e, w);
        if MaximalRun(s, w) && i <= w.start < e {
          RunOverlap(s, i, w);
        }
      } else {
        WordsAreMaximalRuns(s, i + 1, w);
      }
    }
  }

  ghost predicate WordSpan(s: seq<Byte>, i: nat, w: Span) {
    && i <= w.start < w.end <= |s|
    && (forall p :: w.start <= p < w.end ==> IsWordChar(s[p]))
    && (w.end < |s| ==> !IsWordChar(s[w.end]))
  }

  /** Words from position i on, in order and separated. */
  ghost predicate InOrder(s: seq<Byte>, i: nat, ws: seq<Span>) {
    && (forall k :: 0 <= k < |ws| ==> WordSpan(s, i, ws[k]))
    && (forall k, l :: 0 <= k < l < |ws| ==> ws[k].end < ws[l].start)
  }

  lemma InOrderFrom(s: seq<Byte>, i: nat, j: nat, ws: seq<Span>)
    requires i <= j && InOrder(s, j, ws)
    ensures InOrder(s, i, ws)
  {
  }

  lemma InOrderCons(s: seq<Byte>, i: nat, w: Span, ws: seq<Span>)
    requires WordSpan(s, i, w) && InOrder(s, w.end + 1, ws)
    ensures InOrder(s, i, [w] + ws)
  {
    var all := [w] + ws;
    assert all[0] == w && forall k :: 1 <= k < |all| ==> all[k] == ws[k - 1];
  }

  lemma {:induction false} WordsAreOrdered(s: seq<Byte>, i: nat)
    requires i <= |s|
    ensures InOrder(s, i, WordsFrom(s, i))
    decreases |s| - i
  {
    if i < |s| {
      if IsWordChar(s[i]) {
        var e := RunEnd(s, i);
        assert WordsFrom(s, i) == [Span(i, e)] + WordsFrom(s, e);
        if e < |s| {
          WordsAreOrdered(s, e + 1);
          assert WordsFrom(s, e) == WordsFrom(s, e + 1);
        }
        InOrderCons(s, i, Span(i, e), WordsFrom(s, e));
      } else {
        WordsAreOrdered(s, i + 1);
        InOrderFrom(s, i, i + 1, WordsFrom(s, i));
      }
    }
  }

  // ----- what the cut line means

  /** The number of arguments found: the words, up to the size of the argument vector. */
  function ArgCount(s: seq<Byte>, size: nat): nat {
    if |Words(s)| < size then |Words(s)| else size
  }

  /** Argument k: its word, except that the last one allowed takes the rest of the line. */
  function Arg(s: seq<Byte>, size: nat, k: nat): seq<Byte>
    requires k < ArgCount(s, size)
  {
    WordsAreOrdered(s, 0);
    var w := Words(s)[k];
    assert WordSpan(s, 0, w);
    if k == size - 1 then s[w.start..] else s[w.start..w.end]
  }

  function Args(s: seq<Byte>, size: nat): seq<seq<Byte>> {
    seq(ArgCount(s, size), k requires 0 <= k < ArgCount(s, size) => Arg(s, size, k))
  }

  /** Position p holds the separator right after a word that is not the last one allowed. */
  ghost predicate CutAt(ws: seq<Span>, size: nat, p: nat) {
    exists k :: 0 <= k < |ws| && k < size - 1 && ws[k].end == p
  }

  /** The buffer with the separators before position `upto` overwritten. */
  ghost function CutBefore(buf: seq<Byte>, ws: seq<Span>, size: nat, upto: nat): (r: seq<Byte>)
    ensures |r| == |buf|
  {
    seq(|buf|, p requires 0 <= p < |buf| => if p < upto && CutAt(ws, size, p) then 0 else buf[p])
  }

  /** The buffer after the scan. */
  ghost function CutLine(buf: seq<Byte>, ws: seq<Span>, size: nat): seq<Byte> {
    CutBefore(buf, ws, size, |buf|)
  }

  // ----- the scan

  /** The words still to come at position p: `open` says the scan is inside a word that began
      at `start`. */
  function Ahead(s: seq<Byte>, p: nat, open: bool, start: nat): seq<Span>
    requires p <= |s|
  {
    if open then [Span(start, RunEnd(s, p))] + WordsFrom(s, RunEnd(s, p)) else WordsFrom(s, p)
  }

  lemma {:induction false} SkipSpaces(s: seq<Byte>, p: nat)
    requires p <= |s| && forall k :: 0 <= k < p ==> !IsWordChar(s[k])
    ensures WordsFrom(s, p) == Words(s)
  {
    if p > 0 {
      SkipSpaces(s, p - 1);
      assert WordsFrom(s, p - 1) == WordsFrom(s, p);
    }
  }

  /** Where the scan stands: `words[..done]` are closed and end before p, the rest lies ahead. */
  ghost predicate ScanAt(s: seq<Byte>, words: seq<Span>, p: nat, done: nat, open: bool, start: nat)
    requires p <= |s|
  {
    && words == Words(s) && done <= |words|
    && words[done..] == Ahead(s, p, open, start)
    && (forall k :: 0 <= k < done ==> words[k].end < p)
    && (open ==> start < p)
  }

  /** One position further: a word opens, goes on, closes, or none is open. */
  lemma ScanStep(s: seq<Byte>, words: seq<Span>, p: nat, done: nat, open: bool, start: nat)
    requires p < |s| && ScanAt(s, words, p, done, open, start)
    ensures open || IsWordChar(s[p]) ==> done < |words|
    ensures !open && IsWordChar(s[p]) ==>
      words[done].start == p && ScanAt(s, words, p + 1, done, true, p)
    ensures open && IsWordChar(s[p]) ==> ScanAt(s, words, p + 1, done, true, start)
    ensures open && !IsWordChar(s[p]) ==>
      words[done] == Span(start, p) && ScanAt(s, words, p + 1, done + 1, false, start)
    ensures !open && !IsWordChar(s[p]) ==> ScanAt(s, words, p + 1, done, false, start)
    ensures forall k :: 0 <= k < |words| && words[k].end == p ==>
      k == done && open && !IsWordChar(s[p])
  {
    var e := RunEnd(s, p);
    if !open {
      assert words[done..] == WordsFrom(s, p);
      WordsAreOrdered(s, p);
      assert forall k :: done <= k < |words| ==> words[k] == words[done..][k - done];
    } else {
      assert words[done..] == [Span(start, e)] + WordsFrom(s, e);
      WordsAreOrdered(s, e);
      assert words[done] == words[done..][0];
      assert forall k :: done < k < |words| ==> words[k] == words[done..][k - done];
      if !IsWordChar(s[p]) {
        assert words[done + 1..] == words[done..][1..] == WordsFrom(s, p) == WordsFrom(s, p + 1);
      }
    }
  }

  /** With room for another argument, the position is a cut exactly when a word closes there. */
  lemma CutsWhereWordCloses(s: seq<Byte>, words: seq<Span>, size: nat, p: nat, done: nat, open: bool, start: nat)
    requires p < |s| && ScanAt(s, words, p, done, open, start)
    requires done + (if open then 1 else 0) < size
    ensures CutAt(words, size, p) <==> open && !IsWordChar(s[p])
  {
    ScanStep(s, words, p, done, open, start);
  }

  lemma CutStep(buf: seq<Byte>, ws: seq<Span>, size: nat, p: nat)
    requires p < |buf|
    ensures CutBefore(buf, ws, size, p + 1)
         == if CutAt(ws, size, p) then CutBefore(buf, ws, size, p)[p := 0]
            else CutBefore(buf, ws, size, p)
  {
  }

  /** Nothing is cut past the first NUL, nor at or past the start of the last word allowed. */
  lemma CutEnds(buf: seq<Byte>, s: seq<Byte>, size: nat, p: nat)
    requires |s| < |buf| && buf[|s|] == 0 && p <= |s|
    requires p == |s| || (size >= 1 && |Words(s)| >= size && Words(s)[size - 1].start == p)
    ensures CutBefore(buf, Words(s), size, p) == CutLine(buf, Words(s), size)
  {
    WordsAreOrdered(s, 0);
    var ws := Words(s);
    assert forall k :: 0 <= k < |ws| ==> WordSpan(s, 0, ws[k]);
    if p < |s| {
      assert forall k :: 0 <= k < size - 1 ==> ws[k].end < ws[size - 1].start;
    }
  }

  /** Nothing is cut before the first word. */
  lemma CutBegins(buf: seq<Byte>, s: seq<Byte>, size: nat, p: nat)
    requires p <= |s| < |buf| && WordsFrom(s, p) == Words(s)
    ensures CutBefore(buf, Words(s), size, p) == buf
    ensures ScanAt(s, Words(s), p, 0, false, 0)
  {
    WordsAreOrdered(s, p);
    assert forall k :: 0 <= k < |Words(s)| ==> WordSpan(s, p, Words(s)[k]);
  }

  lemma NulInside(buf: seq<Byte>, len: nat)
    requires len <= |buf| && HasNul(buf[..len], 0)
    ensures var s := CStr(buf, 0); |s| < len && buf[|s|] == 0 && buf[..|s|] == s
  {
    var z :| 0 <= z < len && buf[..len][z] == 0;
    assert buf[z] == 0;
  }

  lemma ScanEnd(s: seq<Byte>, words: seq<Span>, done: nat, open: bool, start: nat)
    requires ScanAt(s, words, |s|, done, open, start)
    ensures |words| == done + if open then 1 else 0
  {
    assert WordsFrom(s, |s|) == [];
  }

  method SkipLeading(cmdBuf: array<Byte>, ghost s: seq<Byte>) returns (ss: nat)
    requires |s| < cmdBuf.Length && cmdBuf[..|s|] == s && cmdBuf[|s|] == 0
    ensures ss <= |s| && WordsFrom(s, ss) == Words(s)
  {
    ss := 0;
    while IsSpace(cmdBuf[ss])
      invariant ss <= |s| && forall k :: 0 <= k < ss ==> !IsWordChar(s[k])
      decreases |s| - ss
    {
      assert cmdBuf[ss] == cmdBuf[..|s|][ss];
      ss := ss + 1;
    }
    SkipSpaces(s, ss);
  }

  method ConvertCmdBufToSubstr(cmdBuf: array<Byte>, len: nat, nargv: array<nat>) returns (nargc: nat)
    requires len <= cmdBuf.Length && HasNul(cmdBuf[..len], 0) && nargv.Length >= 1
    modifies cmdBuf, nargv
    ensures var s := CStr(old(cmdBuf[..]), 0);
      && nargc == ArgCount(s, nargv.Length)
      && (forall k :: 0 <= k < nargc ==> nargv[k] == Words(s)[k].start)
      && cmdBuf[..] == CutLine(old(cmdBuf[..]), Words(s), nargv.Length)
  {
    hide Words, WordsFrom, RunEnd, ScanAt, CutAt, CStr;
    ghost var buf0 := cmdBuf[..];
    ghost var s := CStr(buf0, 0);
    ghost var words := Words(s);
    var size := nargv.Length;
    NulInside(buf0, len);
    assert cmdBuf[..|s|] == s;
    nargc := 0;
    var inString := false;
    var ss := SkipLeading(cmdBuf, s);
    CutBegins(buf0, s, size, ss);
    ghost var start, done := 0, 0;
    while cmdBuf[ss] != 0 && ss < len
      invariant ss <= |s| && nargc < size && nargc == done + (if inString then 1 else 0)
      invariant ScanAt(s, words, ss, done, inString, start) && nargc <= |words|
      invariant forall k :: 0 <= k < nargc ==> nargv[k] == words[k].start
      invariant cmdBuf[..] == CutBefore(buf0, words, size, ss)
      decreases |s| - ss
    {
      assert cmdBuf[ss] == cmdBuf[..][ss] == s[ss];
      ScanStep(s, words, ss, done, inString, start);
      CutsWhereWordCloses(s, words, size, ss, done, inString, start);
      CutStep(buf0, words, size, ss);
      if cmdBuf[ss] == '_' as int || cmdBuf[ss] == '#' as int || IsAlnum(cmdBuf[ss]) {
        if !inString {
          inString := true;
          start := ss;
          nargv[nargc] := ss;
          nargc := nargc + 1;
          if nargc >= size {
            CutEnds(buf0, s, size, ss);
            return;
          }
        }
      } else if inString {
        cmdBuf[ss] := 0;
        inString := false;
        done := done + 1;
      }
      ss := ss + 1;
    }
    assert cmdBuf[ss] == cmdBuf[..][ss] == buf0[ss];
    CutEnds(buf0, s, size, ss);
    ScanEnd(s, words, done, inString, start);
  }

  // ----- the strings the arguments point to

  function ArgEnd(s: seq<Byte>, size: nat, k: nat): nat
    requires k < ArgCount(s, size)
  {
    if k == size - 1 then |s| else Words(s)[k].end
  }

  /** No cut falls inside an argument; the one that ends it, if any, is its separator. */
  lemma CutsAroundArgument(s: seq<Byte>, size: nat, k: nat)
    requires k < ArgCount(s, size)
    ensures var w, end := Words(s)[k], ArgEnd(s, size, k);
      && w.start < end <= |s|
      && (end < |s| ==> CutAt(Words(s), size, end))
      && (forall p :: w.start <= p < end ==> !CutAt(Words(s), size, p))
  {
    WordsAreOrdered(s, 0);
    var ws := Words(s);
    assert WordSpan(s, 0, ws[k]);
    assert forall l :: 0 <= l < |ws| ==>
      (l < k ==> ws[l].end < ws[k].start) && (l >= k ==> ws[k].end <= ws[l].end);
  }

  /** Although the scan writes into the buffer it is reading, each argument pointer ends up at
      the C string of its word. */
  lemma ArgumentsAreWords(buf: seq<Byte>, s: seq<Byte>, size: nat, k: nat)
    requires |s| < |buf| && buf[..|s|] == s && buf[|s|] == 0 && 0 !in s
    requires k < ArgCount(s, size)
    ensures Words(s)[k].start <= |buf|
    ensures CStr(CutLine(buf, Words(s), size), Words(s)[k].start) == Arg(s, size, k)
  {
    CutsAroundArgument(s, size, k);
    var cut, start, end := CutLine(buf, Words(s), size), Words(s)[k].start, ArgEnd(s, size, k);
    forall p | start <= p < end
      ensures cut[p] == s[p] != 0
    {
      assert cut[p] == buf[..|s|][p] && s[p] in s;
    }
    NulAtIs(cut, start, end);
    assert cut[start..end] == s[start..end];
  }

  // ----- round trip

  predicate IsWord(t: seq<Byte>) {
    t != [] && forall i :: 0 <= i < |t| ==> IsWordChar(t[i])
  }

  predicate IsSeparator(t: seq<Byte>) {
    0 !in t && forall i :: 0 <= i < |t| ==> !IsWordChar(t[i])
  }

  /** Words to be joined, with the separators before, between and after them. */
  ghost predicate Joinable(ts: seq<seq<Byte>>, seps: seq<seq<Byte>>) {
    && |seps| == |ts| + 1
    && (forall i :: 0 <= i < |ts| ==> IsWord(ts[i]))
    && (forall i :: 0 <= i < |seps| ==> IsSeparator(seps[i]))
    && (forall i :: 0 < i < |ts| ==> seps[i] != [])
  }

  function Join(ts: seq<seq<Byte>>, seps: seq<seq<Byte>>): seq<Byte>
    requires |seps| == |ts| + 1
  {
    if ts == [] then seps[0] else seps[0] + (ts[0] + Join(ts[1..], seps[1..]))
  }

  lemma {:induction false} RunEndIs(s: seq<Byte>, i: nat, e: nat)
    requires i <= e <= |s| && (forall k :: i <= k < e ==> IsWordChar(s[k]))
    requires e < |s| ==> !IsWordChar(s[e])
    ensures RunEnd(s, i) == e
    decreases e - i
  {
    if i < e {
      RunEndIs(s, i + 1, e);
    }
  }

  lemma {:induction false} SkipSeparator(s: seq<Byte>, i: nat, n: nat)
    requires i + n <= |s| && forall k :: i <= k < i + n ==> !IsWordChar(s[k])
    ensures WordsFrom(s, i) == WordsFrom(s, i + n)
    decreases n
  {
    if n > 0 {
      SkipSeparator(s, i + 1, n - 1);
      assert WordsFrom(s, i) == WordsFrom(s, i + 1);
    }
  }

  /** The words found from position i spell ts. */
  ghost predicate Spell(s: seq<Byte>, ws: seq<Span>, ts: seq<seq<Byte>>) {
    |ws| == |ts| && forall k :: 0 <= k < |ws| ==>
      ws[k].start <= ws[k].end <= |s| && s[ws[k].start..ws[k].end] == ts[k]
  }

  /** The words and separators lie in s from position i to its end. */
  predicate Laid(s: seq<Byte>, i: nat, ts: seq<seq<Byte>>, seps: seq<seq<Byte>>)
    requires |seps| == |ts| + 1
    decreases |ts|
  {
    var j := i + |seps[0]|;
    j <= |s| && s[i..j] == seps[0]
    && if ts == [] then j == |s|
       else
         var e := j + |ts[0]|;
         e <= |s| && s[j..e] == ts[0] && Laid(s, e, ts[1..], seps[1..])
  }

  lemma {:induction false} JoinIsLaid(s: seq<Byte>, i: nat, ts: seq<seq<Byte>>, seps: seq<seq<Byte>>)
    requires |seps| == |ts| + 1 && i <= |s| && s[i..] == Join(ts, seps)
    ensures Laid(s, i, ts, seps)
    decreases |ts|
  {
    var j := i + |seps[0]|;
    assert s[i..j] == s[i..][..|seps[0]|];
    if ts != [] {
      var rest := Join(ts[1..], seps[1..]);
      var e := j + |ts[0]|;
      assert s[j..] == s[i..][|seps[0]|..] == ts[0] + rest;
      assert s[j..e] == s[j..][..|ts[0]|];
      assert s[e..] == s[j..][|ts[0]|..];
      JoinIsLaid(s, e, ts[1..], seps[1..]);
    }
  }

  /** What follows a word is a separator or the end. */
  lemma LaidAfterWord(s: seq<Byte>, e: nat, ts: seq<seq<Byte>>, seps: seq<seq<Byte>>)
    requires Joinable(ts, seps) && ts != [] && Laid(s, e, ts[1..], seps[1..])
    ensures e <= |s| && (e < |s| ==> !IsWordChar(s[e]))
  {
    var sep := seps[1..][0];
    assert sep == seps[1];
    if sep != [] {
      assert s[e] == s[e..e + |sep|][0] == sep[0];
    }
  }

  /** The first word of a joined line is found where it was put. */
  lemma FirstWord(s: seq<Byte>, i: nat, ts: seq<seq<Byte>>, seps: seq<seq<Byte>>)
    requires Joinable(ts, seps) && ts != [] && Laid(s, i, ts, seps)
    ensures var j, e := i + |seps[0]|, i + |seps[0]| + |ts[0]|;
      e <= |s| && WordsFrom(s, i) == [Span(j, e)] + WordsFrom(s, e)
  {
    var j := i + |seps[0]|;
    var e := j + |ts[0]|;
    assert forall k :: i <= k < j ==> s[k] == s[i..j][k - i];
    SkipSeparator(s, i, |seps[0]|);
    assert forall k :: j <= k < e ==> s[k] == s[j..e][k - j];
    LaidAfterWord(s, e, ts, seps);
    RunEndIs(s, j, e);
    assert IsWordChar(s[j]);
  }

  lemma SpellCons(s: seq<Byte>, w: Span, ws: seq<Span>, ts: seq<seq<Byte>>)
    requires ts != [] && w.start <= w.end <= |s| && s[w.start..w.end] == ts[0]
    requires Spell(s, ws, ts[1..])
    ensures Spell(s, [w] + ws, ts)
  {
    assert ts == [ts[0]] + ts[1..];
  }

  lemma NoWordsLeft(s: seq<Byte>, i: nat, sep: seq<Byte>)
    requires IsSeparator(sep) && Laid(s, i, [], [sep])
    ensures i <= |s| && WordsFrom(s, i) == [] && s[i..] == sep
  {
    assert s[i..] == s[i..i + |sep|];
    assert forall k :: i <= k < |s| ==> s[k] == s[i..][k - i];
    SkipSeparator(s, i, |sep|);
  }

  lemma JoinableTail(ts: seq<seq<Byte>>, seps: seq<seq<Byte>>)
    requires Joinable(ts, seps) && ts != []
    ensures Joinable(ts[1..], seps[1..])
  {
  }

  /** The words of a joined line spell what was joined. */
  lemma {:induction false} JoinedWords(s: seq<Byte>, i: nat, ts: seq<seq<Byte>>, seps: seq<seq<Byte>>)
    requires Joinable(ts, seps) && Laid(s, i, ts, seps)
    ensures i <= |s| && Spell(s, WordsFrom(s, i), ts)
    decreases |ts|
  {
    hide IsWord, IsSeparator, WordsFrom;
    if ts == [] {
      assert seps == [seps[0]];
      NoWordsLeft(s, i, seps[0]);
    } else {
      var j, e := i + |seps[0]|, i + |seps[0]| + |ts[0]|;
      JoinableTail(ts, seps);
      FirstWord(s, i, ts, seps);
      JoinedWords(s, e, ts[1..], seps[1..]);
      SpellCons(s, Span(j, e), WordsFrom(s, e), ts);
    }
  }

  /** What follows the last word is the last separator. */
  lemma {:induction false} LastWordEnd(s: seq<Byte>, i: nat, ts: seq<seq<Byte>>, seps: seq<seq<Byte>>)
    requires Joinable(ts, seps) && ts != [] && Laid(s, i, ts, seps)
    ensures i <= |s| && |WordsFrom(s, i)| == |ts|
    ensures var w := WordsFrom(s, i)[|ts| - 1]; w.end <= |s| && s[w.end..] == seps[|ts|]
    decreases |ts|
  {
    var e := i + |seps[0]| + |ts[0]|;
    FirstWord(s, i, ts, seps);
    if |ts| == 1 {
      assert seps[1..] == [seps[1]] && ts[1..] == [];
      NoWordsLeft(s, e, seps[1]);
    } else {
      LastWordEnd(s, e, ts[1..], seps[1..]);
      assert seps[1..][|ts| - 1] == seps[|ts|];
    }
  }

  lemma ArgsWithRoom(ts: seq<seq<Byte>>, seps: seq<seq<Byte>>, size: nat)
    requires Joinable(ts, seps) && |ts| < size
    ensures Args(Join(ts, seps), size) == ts
  {
    var s := Join(ts, seps);
    assert s[0..] == s;
    JoinIsLaid(s, 0, ts, seps);
    JoinedWords(s, 0, ts, seps);
  }

  lemma SpelledArg(s: seq<Byte>, ts: seq<seq<Byte>>, trailing: seq<Byte>, k: nat)
    requires Spell(s, Words(s), ts) && k < |ts| && s[Words(s)[|ts| - 1].end..] == trailing
    ensures ArgCount(s, |ts|) == |ts|
    ensures Arg(s, |ts|, k) == if k == |ts| - 1 then ts[k] + trailing else ts[k]
  {
    var w := Words(s)[k];
    assert s[w.start..] == s[w.start..w.end] + s[w.end..];
  }

  /** A full argument vector: the last argument takes the trailing separator with it. */
  lemma ArgsFilled(ts: seq<seq<Byte>>, seps: seq<seq<Byte>>, k: nat)
    requires Joinable(ts, seps) && k < |ts|
    ensures ArgCount(Join(ts, seps), |ts|) == |ts|
    ensures Arg(Join(ts, seps), |ts|, k) == if k == |ts| - 1 then ts[k] + seps[|ts|] else ts[k]
  {
    var s := Join(ts, seps);
    assert s[0..] == s;
    JoinIsLaid(s, 0, ts, seps);
    JoinedWords(s, 0, ts, seps);
    LastWordEnd(s, 0, ts, seps);
    SpelledArg(s, ts, seps[|ts|], k);
  }

  /** Tokenizer round trip: joining words with separators and tokenizing returns the words,
      exactly when they leave the argument vector room or fill it with nothing trailing. */
  lemma TokenizerRoundTrip(ts: seq<seq<Byte>>, seps: seq<seq<Byte>>, size: nat)
    requires Joinable(ts, seps) && ts != []
    ensures Args(Join(ts, seps), size) == ts
       <==> |ts| < size || (|ts| == size && seps[|ts|] == [])
  {
    var n := |ts|;
    var args := Args(Join(ts, seps), size);
    if n < size {
      ArgsWithRoom(ts, seps, size);
    } else if n == size {
      assert |args| == n by { ArgsFilled(ts, seps, 0); }
      forall k | 0 <= k < n
        ensures args[k] == if k == n - 1 then ts[k] + seps[n] else ts[k]
      {
        ArgsFilled(ts, seps, k);
      }
      assert |ts[n - 1] + seps[n]| == |ts[n - 1]| + |seps[n]|;
      if seps[n] == [] {
        assert ts[n - 1] + seps[n] == ts[n - 1];
      }
    }
  }
}
