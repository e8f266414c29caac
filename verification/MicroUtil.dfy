/** The character classifiers and the number parser of micro_util.c. */
module MicroUtil {
  import opened Machine
  import opened CString

  // ----- classifiers

  function ToLower(cc: Byte): Byte {
    if 'A' as int <= cc <= 'Z' as int then cc + 0x20 else cc
  }

  predicate IsDigit(cc: Byte) {
    '0' as int <= cc <= '9' as int
  }

  predicate IsAlnum(cc: Byte) {
    IsDigit(cc) || 'a' as int <= cc <= 'z' as int || 'A' as int <= cc <= 'Z' as int
  }

  predicate IsSpace(cc: Byte) {
    cc == ' ' as int || cc == 0x0c || cc == 0x09 || cc == 0x0b
  }

  /** The classes by ASCII code. */
  lemma CharacterCodes(c: Byte)
    ensures IsDigit(c) <==> 48 <= c <= 57
    ensures IsAlnum(c) <==> 48 <= c <= 57 || 65 <= c <= 90 || 97 <= c <= 122
    ensures IsSpace(c) <==> c == 9 || c == 11 || c == 12 || c == 32
    ensures ToLower(c) == if 65 <= c <= 90 then c + 32 else c
  {
  }

  // ----- what the parser is meant to compute

  /** The value of a hex digit; any other character counts as the digit 0. */
  function HexDigit(cc: Byte): (d: nat)
    ensures d < 16
  {
    if IsDigit(cc) then cc - '0' as int
    else if 'a' as int <= cc <= 'f' as int then cc - 'a' as int + 10
    else 0
  }

  /** The first n characters read as a hex number, most significant digit first, starting over
      after an 'x'. */
  function HexTo(t: seq<Byte>, n: nat): nat
    requires n <= |t|
  {
    if n == 0 || t[n - 1] == 'x' as int then 0 else 16 * HexTo(t, n - 1) + HexDigit(t[n - 1])
  }

  /** The first n characters read as a decimal number; a character that is no digit counts as
      the digit 0. */
  function DecTo(t: seq<Byte>, n: nat): nat
    requires n <= |t|
  {
    if n == 0 then 0
    else 10 * DecTo(t, n - 1) + if IsDigit(t[n - 1]) then t[n - 1] - '0' as int else 0
  }

  /** The int32_t that micro_strtol returns: hex after a leading '0', decimal after any other
      character up to '9', else 0; out-of-range values wrap as two's complement. */
  function StrtolValue(t: seq<Byte>): Int32 {
    if t == [] then 0
    else if t[0] == '0' as int then ToI32(ToU32(HexTo(t, |t|)))
    else if t[0] <= '9' as int then ToI32(ToU32(DecTo(t, |t|)))
    else 0
  }

  lemma {:induction false} HexToAgrees(s: seq<Byte>, t: seq<Byte>, n: nat)
    requires n <= |s| && n <= |t| && forall i :: 0 <= i < n ==> s[i] == t[i]
    ensures HexTo(s, n) == HexTo(t, n)
    decreases n
  {
    if n > 0 {
      HexToAgrees(s, t, n - 1);
    }
  }

  lemma {:induction false} DecToAgrees(s: seq<Byte>, t: seq<Byte>, n: nat)
    requires n <= |s| && n <= |t| && forall i :: 0 <= i < n ==> s[i] == t[i]
    ensures DecTo(s, n) == DecTo(t, n)
    decreases n
  {
    if n > 0 {
      DecToAgrees(s, t, n - 1);
    }
  }

  /** Only the text after an 'x' counts. */
  lemma {:induction false} HexToAfterX(t: seq<Byte>, p: nat, n: nat)
    requires p < n <= |t| && t[p] == 'x' as int
    ensures HexTo(t, n) == HexTo(t[p + 1..], n - p - 1)
    decreases n
  {
    if p + 1 < n {
      HexToAfterX(t, p, n - 1);
    }
  }

  lemma {:induction false} SpuriousHex(t: seq<Byte>, i: nat, n: nat)
    requires i < |t| && n <= |t| && !(48 <= t[i] <= 57 || 97 <= t[i] <= 102 || t[i] == 120)
    ensures HexTo(t, n) == HexTo(t[i := 48], n)
    decreases n
  {
    if n > 0 {
      SpuriousHex(t, i, n - 1);
    }
  }

  lemma {:induction false} SpuriousDec(t: seq<Byte>, i: nat, n: nat)
    requires i < |t| && n <= |t| && !(48 <= t[i] <= 57)
    ensures DecTo(t, n) == DecTo(t[i := 48], n)
    decreases n
  {
    if n > 0 {
      SpuriousDec(t, i, n - 1);
    }
  }

  /** Behind the first character, one that is no digit reads as a zero: in hex text anything but 0
      to 9, a to f and x, upper-case letters among it, and in decimal text anything but 0 to 9. */
  lemma SpuriousReadsAsZero(t: seq<Byte>, i: nat)
    requires 0 < i < |t|
    requires if t[0] == 48 then !(48 <= t[i] <= 57 || 97 <= t[i] <= 102 || t[i] == 120)
             else !(48 <= t[i] <= 57)
    ensures StrtolValue(t) == StrtolValue(t[i := 48])
  {
    if t[0] == 48 {
      SpuriousHex(t, i, |t|);
    } else {
      SpuriousDec(t, i, |t|);
    }
  }

  /** Shift, then or in the digit, on the bit pattern. */
  lemma ShiftInDigit(w: Word, d: nat)
    requires d < 16
    ensures Or(Shl(w, 4), d) == ToU32(16 * w + d)
  {
    hide Or, Shl, Pow2, ToU32;
    var low, high := w % 0x1000_0000, w / 0x1000_0000;
    DivIs(w, 0x1000_0000, 0, 0);
    ShiftByFour(w);
    OrLow(low, d, 4);
    assert ToU32(16 * w) == low * 16 by { ToU32Is(16 * w, high, low * 16); }
    assert ToU32(16 * w + d) == low * 16 + d by { ToU32Is(16 * w + d, high, low * 16 + d); }
  }

  lemma ToU32Is(x: nat, q: nat, r: Word)
    requires x == U32 * q + r
    ensures ToU32(x) == r
  {
    DivIs(x, U32, q, r);
  }

  /** Arithmetic on the signed value and on its pattern agree modulo 2^32. */
  lemma WrapMul(w: Word, m: nat)
    ensures ToU32(ToI32(w) * m) == ToU32(m * w)
  {
    if w >= 0x8000_0000 {
      DivIs(m * w, U32, (m * w) / U32, ToU32(m * w));
      assert ToI32(w) * m == m * w - U32 * m;
      DivIs(ToI32(w) * m, U32, (m * w) / U32 - m, ToU32(m * w));
    }
  }

  lemma WrapAdd(w: Word, d: nat)
    ensures ToU32(ToI32(w) + d) == ToU32(w + d)
  {
  }

  class Parser {
    var lastStrval: Int32

    constructor () {
      lastStrval := 0;
    }

    /** micro_strtol over a NUL-terminated string; a null pointer is None. */
    method Strtol(ss: Option<seq<Byte>>) returns (ret: Int32)
      requires ss.Some? ==> HasNul(ss.value, 0)
      modifies this
      ensures ss.None? ==> ret == 0 && lastStrval == old(lastStrval)
      ensures ss.Some? ==> ret == StrtolValue(CStr(ss.value, 0)) && lastStrval == ret
    {
      if ss.None? {
        return 0;
      }
      ret := 0;
      if ss.value[0] == '0' as int {
        ret := HexLoop(ss.value);
      } else if 1 <= ss.value[0] <= '9' as int {
        ret := DecLoop(ss.value);
      }
      lastStrval := ret;
    }
  }

  /** The body of the hex loop for one character, on the bit pattern of strval. */
  method HexStep(strval: Word, cc: Byte) returns (r: Word)
    ensures cc == 'x' as int ==> r == 0
    ensures cc != 'x' as int ==> r == ToU32(16 * strval + HexDigit(cc))
  {
    ShiftInDigit(strval, HexDigit(cc));
    r := Shl(strval, 4);
    if IsDigit(cc) {
      r := Or(r, cc - '0' as int);
    } else if cc == 'x' as int {
      r := 0;
    } else if 'a' as int <= cc <= 'f' as int {
      r := Or(r, cc + 10 - 'a' as int);
    } else {
      OrZero(r);
    }
  }

  method HexLoop(s: seq<Byte>) returns (strval: Int32)
    requires HasNul(s, 0)
    ensures strval == ToI32(ToU32(HexTo(CStr(s, 0), |CStr(s, 0)|)))
  {
    ghost var text := CStr(s, 0);
    var bits: Word := 0;
    var at := 0;
    while s[at] != 0
      invariant at <= |text| && at < |s|
      invariant bits == ToU32(HexTo(text, at))
      decreases |text| - at
    {
      ModStep(HexTo(text, at), 16, HexDigit(s[at]));
      bits := HexStep(bits, s[at]);
      at := at + 1;
    }
    strval := ToI32(bits);
  }

  /** The body of the decimal loop for one character. */
  method DecStep(strval: Int32, cc: Byte) returns (r: Int32)
    ensures r == ToI32(ToU32(10 * Pattern(strval) + if IsDigit(cc) then cc - '0' as int else 0))
  {
    WrapMul(Pattern(strval), 10);
    r := ToI32(ToU32(strval * 10));
    if IsDigit(cc) {
      WrapAdd(Pattern(r), cc - '0' as int);
      ModStep(10 * Pattern(strval), 1, cc - '0' as int);
      r := ToI32(ToU32(r + (cc - '0' as int)));
    }
  }

  method DecLoop(s: seq<Byte>) returns (strval: Int32)
    requires HasNul(s, 0)
    ensures strval == ToI32(ToU32(DecTo(CStr(s, 0), |CStr(s, 0)|)))
  {
    ghost var text := CStr(s, 0);
    strval := 0;
    var at := 0;
    while s[at] != 0
      invariant at <= |text| && at < |s|
      invariant Pattern(strval) == ToU32(DecTo(text, at))
      decreases |text| - at
    {
      ModStep(DecTo(text, at), 10, if IsDigit(s[at]) then s[at] - '0' as int else 0);
      strval := DecStep(strval, s[at]);
      at := at + 1;
    }
  }
}
