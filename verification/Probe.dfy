/** The pass-through slot of the shell (shell.c) and the memory probe that takes it (probe.c). */
module Probe {
  import opened Machine
  import MicroUtil

  /** The functions the slot may hold: the probe's, or that of some other command. */
  datatype PassFunc = ProbeProc | OtherProc(id: nat)

  class PassSlot {
    var passToFunc: Option<PassFunc>

    constructor ()
      ensures passToFunc == None
    {
      passToFunc := None;
    }

    /** shell_set_pass_to */
    method SetPassTo(func: PassFunc) returns (ret: int)
      modifies this
      ensures passToFunc == if old(passToFunc) == None then Some(func) else old(passToFunc)
      ensures ret == if old(passToFunc) == None then 0 else -1
    {
      if passToFunc == None {
        passToFunc := Some(func);
        return 0;
      }
      return -1;
    }

    /** shell_clear_pass_to */
    method ClearPassTo()
      modifies this
      ensures passToFunc == None
    {
      passToFunc := None;
    }
  }

  // ----- the digits as the user sees them

  type Nibble = x: int | 0 <= x < 16

  /** The digits typed and not erased, and how many of the last ones still count. */
  datatype Edit = Edit(digits: seq<Nibble>, window: nat) {
    ghost predicate Ok() {
      window <= |digits| && window <= 8
    }
  }

  /** A digit string as a number, most significant digit first. */
  function HexNumber(ds: seq<Nibble>): nat {
    HexRange(ds, 0, |ds|)
  }

  /** The number that digits lo to hi spell. */
  function HexRange(ds: seq<Nibble>, lo: nat, hi: nat): nat
    requires hi <= |ds|
    decreases hi
  {
    if hi <= lo then 0 else 16 * HexRange(ds, lo, hi - 1) + ds[hi - 1]
  }

  /** The cases of the switch in probe_proc. */
  datatype Key = Plus | Minus | Newline | Close | Erase | Digit(d: Nibble) | OtherKey

  function KeyOf(cc: Byte): Key {
    if cc == '+' as int then Plus
    else if cc == '-' as int then Minus
    else if IsNewline(cc) then Newline
    else if cc == '.' as int || cc == 'q' as int then Close
    else if IsErase(cc) then Erase
    else if '0' as int <= cc <= '9' as int then Digit(cc - '0' as int)
    else if 'a' as int <= cc <= 'f' as int then Digit(cc - 'a' as int + 10)
    else OtherKey
  }

  predicate IsNewline(cc: Byte) { cc == 10 || cc == 13 }

  predicate IsErase(cc: Byte) { cc == 8 || cc == 0x7f }

  predicate IsClose(cc: Byte) { KeyOf(cc).Close? }

  function Push(e: Edit, d: Nibble): Edit {
    Edit(e.digits + [d], if e.window < 8 then e.window + 1 else 8)
  }

  function Pop(e: Edit): Edit {
    if e.digits == [] then e
    else Edit(e.digits[..|e.digits| - 1], if e.window > 0 then e.window - 1 else 0)
  }

  function EditStep(e: Edit, cc: Byte): Edit {
    match KeyOf(cc)
    case Plus => e
    case Minus => e
    case Newline => if e.digits == [] then e else Edit([], 0)
    case Close => e
    case Erase => Pop(e)
    case Digit(d) => Push(e, d)
    case OtherKey => Edit([], 0)
  }

  datatype PfCall = Increment | Decrement | WriteValue(v: Word) | Prompt | Print

  /** The probe callbacks made for a character: a move, a write, and the prompt with the value
      whenever no digits are pending afterwards. */
  function PfCalls(e: Edit, cc: Byte): seq<PfCall>
    requires e.Ok()
  {
    if IsClose(cc) then []
    else
      (match KeyOf(cc)
       case Plus => [Increment]
       case Minus => [Decrement]
       case Newline => if e.digits == [] then [] else [WriteValue(WindowValue(e))]
       case _ => [])
      + (if EditStep(e, cc).digits == [] then [Prompt, Print] else [])
  }

  /** What the 32-bit word holds: the number the last `window` digits spell. */
  function WindowValue(e: Edit): Word
    requires e.Ok()
  {
    var n := |e.digits|;
    RangeBound(e.digits, n - e.window, n);
    NibblePowers(e.window);
    HexRange(e.digits, n - e.window, n)
  }

  lemma {:induction false} RangeBound(ds: seq<Nibble>, lo: nat, hi: nat)
    requires lo <= hi <= |ds|
    ensures HexRange(ds, lo, hi) < Pow2(4 * (hi - lo))
    decreases hi
  {
    if lo < hi {
      RangeBound(ds, lo, hi - 1);
      SixteenTimes(hi - lo);
    }
  }

  lemma SixteenTimes(n: nat)
    ensures n > 0 ==> Pow2(4 * n) == 16 * Pow2(4 * (n - 1))
  {
    hide Pow2, Shl, Shr;
    if n > 0 {
      Pow2Add(4, 4 * (n - 1));
      ShiftByFour(0);
    }
  }

  /** The powers of 16 that fit a 32-bit word. */
  lemma NibblePowers(w: nat)
    requires w <= 8
    ensures Pow2(28) == 0x1000_0000 && Pow2(32) == U32
    ensures Pow2(4 * w) <= U32 && (w < 8 ==> Pow2(4 * w) <= 0x1000_0000)
  {
    SixteenTimes(1); SixteenTimes(2); SixteenTimes(3); SixteenTimes(4);
    SixteenTimes(5); SixteenTimes(6); SixteenTimes(7); SixteenTimes(8);
    if w < 7 { Pow2Mono(4 * w, 28); }
  }

  lemma {:induction false} RangeAgrees(ds: seq<Nibble>, es: seq<Nibble>, lo: nat, hi: nat)
    requires hi <= |ds| && hi <= |es| && forall i :: 0 <= i < hi ==> ds[i] == es[i]
    ensures HexRange(ds, lo, hi) == HexRange(es, lo, hi)
    decreases hi
  {
    if lo < hi {
      RangeAgrees(ds, es, lo, hi - 1);
    }
  }

  /** A range splits into a high and a low part. */
  lemma {:induction false} RangeSplit(ds: seq<Nibble>, lo: nat, mid: nat, hi: nat)
    requires lo <= mid <= hi <= |ds|
    ensures HexRange(ds, lo, hi)
         == HexRange(ds, lo, mid) * Pow2(4 * (hi - mid)) + HexRange(ds, mid, hi)
    decreases hi
  {
    if mid < hi {
      RangeSplit(ds, lo, mid, hi - 1);
      SixteenTimes(hi - mid);
      SixteenFold(HexRange(ds, lo, mid), Pow2(4 * (hi - mid - 1)), HexRange(ds, mid, hi - 1), ds[hi - 1]);
    }
  }

  lemma SixteenFold(a: nat, p: nat, b: nat, d: nat)
    ensures 16 * (a * p + b) + d == a * (16 * p) + (16 * b + d)
  {
  }

  lemma {:induction false} RangeZero(ds: seq<Nibble>, lo: nat, hi: nat)
    requires hi <= |ds|
    ensures HexRange(ds, lo, hi) == 0 <==> forall i :: lo <= i < hi ==> ds[i] == 0
    decreases hi
  {
    if lo < hi {
      RangeZero(ds, lo, hi - 1);
    }
  }

  // ----- the word follows the window

  /** Shift and or on a word whose value is `top` above the seven nibbles that stay. */
  lemma ShiftArithmetic(v: Word, top: nat, low: nat, d: Nibble)
    requires v == top * 0x1000_0000 + low && low < 0x1000_0000
    ensures Or(Shl(v, 4), d) == 16 * low + d
  {
    ShiftByFour(v);
    DivIs(16 * v, U32, top, low * 16);
    OrLow(low, d, 4);
  }

  /** The nibbles of the window that a push leaves in it. */
  function Kept(e: Edit): (k: nat)
    requires e.Ok()
    ensures k <= |e.digits| && k <= 7
  {
    if e.window < 8 then e.window else 7
  }

  lemma TopNibble(e: Edit) returns (top: nat)
    requires e.Ok()
    ensures var low := HexRange(e.digits, |e.digits| - Kept(e), |e.digits|);
      low < 0x1000_0000 && WindowValue(e) == top * 0x1000_0000 + low
  {
    hide HexRange, Pow2;
    var n := |e.digits|;
    RangeBound(e.digits, n - Kept(e), n);
    NibblePowers(Kept(e));
    if e.window < 8 {
      top := 0;
    } else {
      RangeSplit(e.digits, n - 8, n - 7, n);
      top := HexRange(e.digits, n - 8, n - 7);
    }
  }

  lemma PushValue(e: Edit, d: Nibble)
    requires e.Ok()
    ensures Push(e, d).Ok()
    ensures WindowValue(Push(e, d)) == 16 * HexRange(e.digits, |e.digits| - Kept(e), |e.digits|) + d
  {
    RangeAgrees(Push(e, d).digits, e.digits, |e.digits| - Kept(e), |e.digits|);
  }

  /** Shifting a digit in: the ninth digit back falls off the top of the word. */
  lemma ShiftIn(e: Edit, d: Nibble)
    requires e.Ok()
    ensures Push(e, d).Ok() && WindowValue(Push(e, d)) == Or(Shl(WindowValue(e), 4), d)
  {
    hide Or, Shl, HexRange;
    var n := |e.digits|;
    var top := TopNibble(e);
    PushValue(e, d);
    ShiftArithmetic(WindowValue(e), top, HexRange(e.digits, n - Kept(e), n), d);
  }

  /** Shifting a digit out: a zero comes in at the top, so a digit lost there stays lost. */
  lemma ShiftOut(e: Edit)
    requires e.Ok() && e.digits != []
    ensures Pop(e).Ok() && WindowValue(Pop(e)) == Shr(WindowValue(e), 4)
    ensures Pop(e).digits == [] ==> WindowValue(Pop(e)) == 0
  {
    var r, n := Pop(e), |e.digits|;
    ShiftByFour(WindowValue(e));
    if e.window > 0 {
      RangeAgrees(r.digits, e.digits, n - e.window, n - 1);
      DivIs(WindowValue(e), 16, WindowValue(r), e.digits[n - 1]);
    } else {
      DivIs(0, 16, 0, 0);
    }
  }

  /** The number a write passes on is the number typed exactly when every digit that has left
      the window is zero. */
  lemma WriteIsExact(e: Edit)
    requires e.Ok()
    ensures WindowValue(e) == HexNumber(e.digits)
       <==> forall i :: 0 <= i < |e.digits| - e.window ==> e.digits[i] == 0
  {
    hide HexRange, Pow2;
    var n := |e.digits|;
    RangeSplit(e.digits, 0, n - e.window, n);
    RangeZero(e.digits, 0, n - e.window);
    var hi := HexRange(e.digits, 0, n - e.window);
    if hi > 0 {
      MulMono(1, hi, Pow2(4 * e.window));
    }
  }

  function EditRun(e: Edit, cs: seq<Byte>): Edit
    decreases |cs|
  {
    if cs == [] then e else EditStep(EditRun(e, cs[..|cs| - 1]), cs[|cs| - 1])
  }

  /** At most eight digits are pending after every prefix. */
  predicate NeverOverEight(e: Edit, cs: seq<Byte>)
    decreases |cs|
  {
    |EditRun(e, cs).digits| <= 8 && (cs != [] ==> NeverOverEight(e, cs[..|cs| - 1]))
  }

  /** Over any characters, across sessions: the window stays in range; and if never more than
      eight digits were pending, nothing is lost and a write passes on the number typed. */
  lemma {:induction false} WindowOverRuns(e: Edit, cs: seq<Byte>)
    requires e.Ok()
    ensures var r := EditRun(e, cs);
      r.Ok() && (e.window == |e.digits| && NeverOverEight(e, cs) ==>
                   r.window == |r.digits| && WindowValue(r) == HexNumber(r.digits))
    decreases |cs|
  {
    if cs != [] {
      WindowOverRuns(e, cs[..|cs| - 1]);
    }
    var r := EditRun(e, cs);
    if r.window == |r.digits| {
      WriteIsExact(r);
    }
  }

  // ----- what the user types

  /** The characters 0 to 9 and a to f, by ASCII code. */
  predicate IsHexCode(c: Byte) {
    48 <= c <= 57 || 97 <= c <= 102
  }

  /** The digit characters typed and not erased: a plus, minus, period or q leaves them, a
      backspace or delete takes the last one back, anything else ends them. */
  function Pending(cs: seq<Byte>): seq<Byte>
    decreases |cs|
  {
    if cs == [] then []
    else
      var p, c := Pending(cs[..|cs| - 1]), cs[|cs| - 1];
      if IsHexCode(c) then p + [c]
      else if c == 8 || c == 127 then (if p == [] then p else p[..|p| - 1])
      else if c == 43 || c == 45 || c == 46 || c == 113 then p
      else []
  }

  /** The digits are those that the characters stand for. */
  predicate Spells(ds: seq<Nibble>, t: seq<Byte>) {
    |ds| == |t| && forall i :: 0 <= i < |t| ==> IsHexCode(t[i]) && ds[i] == MicroUtil.HexDigit(t[i])
  }

  lemma {:induction false} PendingSpells(cs: seq<Byte>)
    ensures Spells(EditRun(Edit([], 0), cs).digits, Pending(cs))
    decreases |cs|
  {
    if cs != [] {
      PendingSpells(cs[..|cs| - 1]);
    }
  }

  lemma SpelledLength(ds: seq<Nibble>, t: seq<Byte>)
    requires Spells(ds, t)
    ensures |ds| == |t|
  {
  }

  lemma {:induction false} SpelledRange(ds: seq<Nibble>, t: seq<Byte>, lo: nat, hi: nat)
    requires Spells(ds, t) && lo <= hi <= |t|
    ensures HexRange(ds, lo, hi) == MicroUtil.HexTo(t[lo..hi], hi - lo)
    decreases hi
  {
    if lo < hi {
      SpelledRange(ds, t, lo, hi - 1);
      MicroUtil.HexToAgrees(t[lo..hi], t[lo..hi - 1], hi - 1 - lo);
    }
  }

  /** Over whole runs the pending digits are worth what the unerased characters spell. */
  lemma PendingValue(cs: seq<Byte>)
    ensures var ds, t := EditRun(Edit([], 0), cs).digits, Pending(cs);
      |ds| == |t| && HexNumber(ds) == MicroUtil.HexTo(t, |t|)
  {
    PendingSpells(cs);
    var t := Pending(cs);
    SpelledRange(EditRun(Edit([], 0), cs).digits, t, 0, |t|);
    assert t[0..|t|] == t;
  }

  predicate AllHex(t: seq<Byte>) {
    forall i :: 0 <= i < |t| ==> IsHexCode(t[i])
  }

  lemma {:induction false} TypedDigits(t: seq<Byte>)
    requires AllHex(t)
    ensures var e := EditRun(Edit([], 0), t);
      Pending(t) == t && e.Ok() && e.window == if |t| < 8 then |t| else 8
    decreases |t|
  {
    hide KeyOf, HexRange, Spells;
    if t != [] {
      var front, c := t[..|t| - 1], t[|t| - 1];
      assert t == front + [c];
      TypedDigits(front);
      PendingSpells(front);
      SpelledLength(EditRun(Edit([], 0), front).digits, front);
      DigitPushes(EditRun(Edit([], 0), front), c);
    }
  }

  lemma DigitPushes(e: Edit, c: Byte)
    requires IsHexCode(c)
    ensures EditStep(e, c) == Push(e, MicroUtil.HexDigit(c))
  {
  }

  /** Hex digits typed with nothing pending, then a newline or return: the number written is the
      one they spell, or the one the last eight spell if there are more. */
  lemma TypedHexIsWritten(t: seq<Byte>, newline: Byte)
    requires t != [] && AllHex(t) && (newline == 10 || newline == 13)
    ensures var e, last := EditRun(Edit([], 0), t), if |t| < 8 then t else t[|t| - 8..];
      && e.Ok() && MicroUtil.HexTo(last, |last|) < U32
      && PfCalls(e, newline) == [WriteValue(MicroUtil.HexTo(last, |last|)), Prompt, Print]
  {
    hide HexRange, EditRun, KeyOf, Pending, AllHex, Spells, PfCalls, MicroUtil.HexTo;
    var e, n := EditRun(Edit([], 0), t), if |t| < 8 then |t| else 8;
    TypedDigits(t);
    PendingSpells(t);
    SpelledLength(e.digits, t);
    SpelledRange(e.digits, t, |t| - n, |t|);
    assert t[|t| - n..|t|] == if |t| < 8 then t else t[|t| - 8..];
    assert WindowValue(e) == HexRange(e.digits, |t| - n, |t|);
    KeysByCode(e, newline);
  }

  /** The callbacks key by key, by ASCII code: a move for plus and minus, a write for a newline
      or return with digits pending, and the prompt and value whenever none are left pending;
      a period or q makes none. */
  lemma KeysByCode(e: Edit, c: Byte)
    requires e.Ok()
    ensures var idle := if e.digits == [] then [Prompt, Print] else [];
      PfCalls(e, c) ==
        if c == 43 then [Increment] + idle
        else if c == 45 then [Decrement] + idle
        else if c == 46 || c == 113 || IsHexCode(c) then []
        else if c == 8 || c == 127 then if |e.digits| <= 1 then [Prompt, Print] else []
        else if (c == 10 || c == 13) && e.digits != [] then [WriteValue(WindowValue(e)), Prompt, Print]
        else [Prompt, Print]
    ensures IsClose(c) <==> c == 46 || c == 113
  {
    hide WindowValue;
    assert [] + [Prompt, Print] == [Prompt, Print];
  }

  // ----- the probe in memory

  class Probe {
    const slot: PassSlot
    var gettingValue: nat
    var setValue: Word
    var probePf: Option<nat>
    /** The callbacks made so far. */
    var calls: seq<PfCall>
    ghost var edit: Edit

    ghost predicate Valid()
      reads this
    {
      edit.Ok() && gettingValue == |edit.digits| && setValue == WindowValue(edit)
    }

    /** The callback table is set exactly while the probe holds the slot. */
    ghost predicate Owned()
      reads this, slot
    {
      probePf.Some? <==> slot.passToFunc == Some(ProbeProc)
    }

    constructor (slot: PassSlot)
      requires slot.passToFunc == None
      ensures Valid() && Owned() && this.slot == slot && edit == Edit([], 0)
      ensures probePf == None && calls == []
    {
      this.slot := slot;
      gettingValue, setValue, probePf, calls := 0, 0, None, [];
      edit := Edit([], 0);
    }

    /** probe_set_funcs */
    method SetFuncs(pf: Option<nat>) returns (ret: int)
      requires Valid() && Owned()
      modifies this`probePf, slot
      ensures Valid() && Owned()
      ensures ret == if pf.Some? && old(slot.passToFunc) == None then 0 else -1
      ensures ret == 0 ==> probePf == pf && slot.passToFunc == Some(ProbeProc)
      ensures ret != 0 ==> probePf == old(probePf) && slot.passToFunc == old(slot.passToFunc)
    {
      if pf.None? {
        return -1;
      }
      if probePf.None? {
        var taken := slot.SetPassTo(ProbeProc);
        if taken >= 0 {
          probePf := pf;
          return 0;
        }
      }
      return -1;
    }

    /** probe_proc. A close leaves pending digits where they are, for the next session. */
    method Proc(cc: Byte) returns (ret: int)
      requires Valid() && Owned() && probePf.Some?
      modifies this, slot
      ensures Valid() && Owned()
      ensures edit == EditStep(old(edit), cc)
      ensures calls == old(calls) + PfCalls(old(edit), cc)
      ensures ret == if IsClose(cc) then 1 else 0
      ensures slot.passToFunc == if IsClose(cc) then None else Some(ProbeProc)
      ensures probePf == if IsClose(cc) then None else old(probePf)
    {
      if IsClose(cc) {
        probePf := None;
        slot.ClearPassTo();
        assert calls == old(calls) + [];
        return 1;
      }
      var made: seq<PfCall>;
      gettingValue, setValue, made := Switch(gettingValue, setValue, cc, edit);
      edit := EditStep(edit, cc);
      calls := calls + made;
      ret := 0;
    }

    /** The switch of probe_proc for any character but a close, on the two statics. */
    static method Switch(getting: nat, value: Word, cc: Byte, ghost e: Edit)
        returns (getting': nat, value': Word, made: seq<PfCall>)
      requires e.Ok() && getting == |e.digits| && value == WindowValue(e) && !IsClose(cc)
      ensures var e' := EditStep(e, cc);
        e'.Ok() && getting' == |e'.digits| && value' == WindowValue(e')
      ensures made == PfCalls(e, cc)
    {
      getting', value', made := getting, value, [];
      match KeyOf(cc) {
        case Plus =>
          made := [Increment];
        case Minus =>
          made := [Decrement];
        case Newline =>
          if getting != 0 {
            made := [WriteValue(value)];
            getting', value' := 0, 0;
          }
        case Erase =>
          if getting != 0 {
            ShiftOut(e);
            getting' := getting - 1;
            value' := Shr(value, 4);
            if getting' == 0 {
              value' := 0;
            }
          }
        case Digit(d) =>
          ShiftIn(e, d);
          getting' := getting + 1;
          value' := Shl(value, 4);
          value' := Or(value', d);
        case OtherKey =>
          getting', value' := 0, 0;
      }
      if getting' == 0 {
        made := made + [Prompt, Print];
      }
    }
  }
}
