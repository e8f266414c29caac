/** The number formatters of format.c, and their round trips through micro_strtol. */
module Format {
  import opened Machine
  import opened CString
  import opened MicroUtil

  // ----- hexadecimal

  function HexChar(d: nat): (c: Byte)
    requires d < 16
    ensures c != 0 && c != 'x' as int && HexDigit(c) == d
  {
    if d < 10 then '0' as int + d else 'a' as int + (d - 10)
  }

  /** The last len hex digits of v, most significant first. */
  function HexText(v: nat, len: nat): (t: seq<Byte>)
    ensures |t| == len && 0 !in t
  {
    if len == 0 then [] else HexText(v / 16, len - 1) + [HexChar(v % 16)]
  }

  /** The loop of format_x, which fills the digits from the right. */
  method WriteHex(val: Word, len: nat, outputBuf: array<Byte>) returns (ii: nat)
    requires outputBuf.Length >= 9 && len <= 8
    modifies outputBuf
    ensures ii == len && outputBuf[8 - len..8] == HexText(val, len)
    ensures outputBuf[..8 - len] == old(outputBuf[..8 - len]) && outputBuf[8..] == old(outputBuf[8..])
  {
    hide HexText, HexChar, And, Shr;
    var v := val;
    ghost var done := [];
    ii := 0;
    while ii < len
      invariant ii <= len && outputBuf[8 - ii..8] == done
      invariant HexText(val, len) == HexText(v, len - ii) + done
      invariant outputBuf[..8 - ii] == old(outputBuf[..8 - ii])
      invariant outputBuf[8..] == old(outputBuf[8..])
    {
      NibbleIs(v);
      HexTextStep(v, len - ii, done);
      done := [HexChar(v % 16)] + done;
      outputBuf[7 - ii] := HexChar(And(v, 0xf));
      v := Shr(v, 4);
      ii := ii + 1;
    }
    NoHexDigits(v);
  }

  lemma HexTextStep(v: nat, n: nat, done: seq<Byte>)
    requires n > 0
    ensures HexText(v, n) + done == HexText(v / 16, n - 1) + ([HexChar(v % 16)] + done)
  {
  }

  lemma NoHexDigits(v: nat)
    ensures HexText(v, 0) == []
  {
  }

  /** format_x: `p` is the offset of the returned pointer in the buffer. */
  method FormatX(val: Word, len: int, outputBuf: array<Byte>) returns (p: nat)
    requires outputBuf.Length >= 9
    modifies outputBuf
    ensures 1 <= len <= 8 ==> p == 8 - len
    ensures 1 <= len <= 8 ==>
        outputBuf[..] == old(outputBuf[..8 - len]) + HexText(val, len) + [0] + old(outputBuf[9..])
    ensures 1 <= len <= 8 ==> CStr(outputBuf[..], p) == HexText(val, len)
    ensures !(1 <= len <= 8) ==> p == 8 && outputBuf[..] == old(outputBuf[..])[8 := 0]
  {
    hide HexText, CStr;
    outputBuf[8] := 0;
    if len <= 0 || len > 8 {
      return 8;
    }
    ghost var tail := outputBuf[8..];
    assert tail == [0] + old(outputBuf[9..]);
    var ii := WriteHex(val, len, outputBuf);
    p := 8 - ii;
    ThreeParts(outputBuf[..], p, 8);
    AppendAssociates(outputBuf[..p] + HexText(val, len), [0], old(outputBuf[9..]));
    CStrAt(outputBuf[..p], HexText(val, len), old(outputBuf[9..]));
  }

  lemma ThreeParts(s: seq<Byte>, i: nat, j: nat)
    requires i <= j <= |s|
    ensures s == s[..i] + s[i..j] + s[j..]
  {
  }

  lemma NibbleIs(v: Word)
    ensures And(v, 0xf) == v % 16 && Shr(v, 4) == v / 16
  {
    ShiftByFour(v);
    AndLowMask(v, 4);
  }

  const ZERO_X: seq<Byte> := ['0' as int, 'x' as int]

  /** Behind a prefix that is worth nothing, hex text reads as the digits it was made from. */
  lemma {:induction false} HexTextValue(pre: seq<Byte>, v: nat, len: nat)
    requires HexTo(pre, |pre|) == 0
    ensures HexTo(pre + HexText(v, len), |pre| + len) == v % Pow2(4 * len)
    decreases len
  {
    var s, n := pre + HexText(v, len), |pre| + len;
    if len == 0 {
      DivIs(v, 1, v, 0);
      HexToAgrees(s, pre, n);
    } else {
      var t := pre + HexText(v / 16, len - 1);
      HexTextValue(pre, v / 16, len - 1);
      assert s[n - 1] == HexChar(v % 16);
      HexToAgrees(s, t, n - 1);
      LowDigits(v, len);
      assert HexTo(s, n) == 16 * HexTo(s, n - 1) + HexDigit(s[n - 1]);
    }
  }

  lemma LowDigits(v: nat, len: nat)
    requires len > 0
    ensures v % Pow2(4 * len) == 16 * ((v / 16) % Pow2(4 * (len - 1))) + v % 16
  {
    hide Pow2, Shl, Shr;
    Pow2Add(4, 4 * (len - 1));
    ShiftByFour(0);
    SplitMod(v, 16, Pow2(4 * (len - 1)));
  }

  /** The digits of hex text are those of the table in format.c. */
  lemma HexCharIs(d: nat)
    requires d < 16
    ensures HexChar(d) == "0123456789abcdef"[d] as int
  {
  }

  /** The characters 0 to 9 and a to f, by ASCII code. */
  predicate IsHexText(t: seq<Byte>) {
    forall i :: 0 <= i < |t| ==> 48 <= t[i] <= 57 || 97 <= t[i] <= 102
  }

  lemma HexDigitInjective(c: Byte, d: nat)
    requires d < 16 && (48 <= c <= 57 || 97 <= c <= 102)
    ensures HexDigit(c) == d <==> c == HexChar(d)
    ensures c != 'x' as int
  {
  }

  /** The hex text of v is the one text of its length, in those characters, that is worth v
      modulo 16^len. */
  lemma {:induction false} HexTextIsOnly(t: seq<Byte>, v: nat)
    ensures t == HexText(v, |t|) <==> IsHexText(t) && HexTo(t, |t|) == v % Pow2(4 * |t|)
    decreases |t|, 1
  {
    if t == [] {
      DivIs(v, 1, v, 0);
    } else {
      OneDigitLonger(t[..|t| - 1], t[|t| - 1], v);
      assert t == t[..|t| - 1] + [t[|t| - 1]];
    }
  }

  lemma {:induction false} OneDigitLonger(front: seq<Byte>, last: Byte, v: nat)
    ensures var t, n := front + [last], |front| + 1;
      t == HexText(v, n) <==> IsHexText(t) && HexTo(t, n) == v % Pow2(4 * n)
    decreases |front| + 1, 0
  {
    hide HexChar, HexDigit, Pow2, IsHexText, HexText, HexTo;
    var n := |front|;
    HexTextIsOnly(front, v / 16);
    TextOfDigits(v, n);
    LowDigits(v, n + 1);
    SameLastDigit(front, last, HexText(v / 16, n), v % 16);
    LastHexDigit(front, last, (v / 16) % Pow2(4 * n), v % 16);
  }

  /** The last digit of such a text, and the rest of it. */
  lemma LastHexDigit(front: seq<Byte>, last: Byte, m: nat, d: nat)
    requires d < 16
    ensures var t, n := front + [last], |front|;
      (IsHexText(t) && HexTo(t, n + 1) == 16 * m + d)
      <==> (IsHexText(front) && HexTo(front, n) == m && last == HexChar(d))
  {
    hide HexChar, HexDigit, IsHexText, HexTo;
    HexCharIsHex(d);
    HexTextGrows(front, last);
    if 48 <= last <= 57 || 97 <= last <= 102 {
      HexDigitInjective(last, d);
      SplitDigit(HexTo(front, |front|), HexDigit(last), m, d);
    }
  }

  lemma SameLastDigit(front: seq<Byte>, last: Byte, rest: seq<Byte>, d: nat)
    requires |front| == |rest| && d < 16
    ensures front + [last] == rest + [HexChar(d)] <==> front == rest && last == HexChar(d)
  {
    if front + [last] == rest + [HexChar(d)] {
      LastIsSplit(front, last, rest, HexChar(d));
    }
  }

  lemma TextOfDigits(v: nat, n: nat)
    ensures HexText(v, n + 1) == HexText(v / 16, n) + [HexChar(v % 16)]
  {
  }

  lemma LastIsSplit(a: seq<Byte>, x: Byte, b: seq<Byte>, y: Byte)
    requires |a| == |b| && a + [x] == b + [y]
    ensures a == b && x == y
  {
    assert a == (a + [x])[..|a|] && b == (b + [y])[..|b|];
    assert x == (a + [x])[|a|];
  }

  lemma HexTextGrows(front: seq<Byte>, last: Byte)
    ensures var t, n := front + [last], |front|;
      && (IsHexText(t) <==> IsHexText(front) && (48 <= last <= 57 || 97 <= last <= 102))
      && (48 <= last <= 57 || 97 <= last <= 102 ==> HexTo(t, n + 1) == 16 * HexTo(front, n) + HexDigit(last))
  {
    hide HexDigit;
    var t, n := front + [last], |front|;
    assert t[n] == last && forall i :: 0 <= i < n ==> t[i] == front[i];
    HexToAgrees(t, front, n);
  }

  lemma HexCharIsHex(d: nat)
    requires d < 16
    ensures 48 <= HexChar(d) <= 57 || 97 <= HexChar(d) <= 102
  {
  }

  lemma SplitDigit(a: nat, x: nat, b: nat, y: nat)
    requires x < 16 && y < 16
    ensures 16 * a + x == 16 * b + y <==> a == b && x == y
  {
  }

  /** Hex round trip: the text of the last len digits, read back after "0x" or after a lone
      "0", gives those digits; with eight digits it gives the 32-bit pattern itself. */
  lemma HexRoundTrip(v: Word, len: nat)
    requires 1 <= len <= 8
    ensures Pattern(StrtolValue(ZERO_X + HexText(v, len))) == v % Pow2(4 * len)
    ensures Pattern(StrtolValue(['0' as int] + HexText(v, len))) == v % Pow2(4 * len)
    ensures len == 8 ==> Pattern(StrtolValue(ZERO_X + HexText(v, len))) == v
  {
    hide HexText;
    var p := Pow2(4 * len);
    assert HexTo(ZERO_X, 2) == 0 && HexTo(['0' as int], 1) == 16 * HexTo(['0' as int], 0);
    HexTextValue(ZERO_X, v, len);
    HexTextValue(['0' as int], v, len);
    WordBits();
    ModLe(v, p);
    PatternOfWord(v % p);
    DivIs(v, U32, 0, v);
  }

  lemma PatternOfWord(w: Word)
    ensures Pattern(ToI32(ToU32(w))) == w
  {
    DivIs(w, U32, 0, w);
  }

  // ----- decimal

  function Pow10(k: nat): nat
    ensures Pow10(k) >= 1
  {
    if k == 0 then 1 else 10 * Pow10(k - 1)
  }

  /** n is 10, 100, 1000, ... */
  ghost predicate IsPow10Above1(n: nat) {
    exists k :: k >= 1 && n == Pow10(k)
  }

  /** The canonical decimal text of n. */
  function Dec(n: nat): (t: seq<Byte>)
    ensures t != [] && (forall i :: 0 <= i < |t| ==> IsDigit(t[i]))
    ensures n > 0 ==> t[0] != '0' as int
  {
    if n < 10 then ['0' as int + n] else Dec(n / 10) + ['0' as int + n % 10]
  }

  /** The last w decimal digits of n. */
  function Digits(n: nat, w: nat): seq<Byte> {
    if w == 0 then [] else Digits(n / 10, w - 1) + ['0' as int + n % 10]
  }

  /** What the digit loop emits from divisor 10^k down. When v is ten times the divisor, the
      first character is ':', the one after '9'. */
  function Emit(v: nat, k: nat): seq<Byte>
    requires v <= Pow10(k + 1)
    decreases k
  {
    DigitFits(v, k);
    ['0' as int + v / Pow10(k)] + if k == 0 then [] else Emit(v % Pow10(k), k - 1)
  }

  lemma DigitFits(v: nat, k: nat)
    requires v <= Pow10(k + 1)
    ensures 0 <= v / Pow10(k) <= 10 && 0 <= v % Pow10(k) < Pow10(k)
    ensures v < Pow10(k + 1) ==> v / Pow10(k) < 10
    ensures v == Pow10(k + 1) ==> v / Pow10(k) == 10 && v % Pow10(k) == 0
  {
    var p := Pow10(k);
    DivIs(v, p, v / p, v % p);
    ShrBound(v, p);
    if v / p >= 11 { MulMono(11, v / p, p); }
    if v / p >= 10 { MulMono(10, v / p, p); }
    DivIs(10 * p, p, 10, 0);
  }

  /** The exponent of the divisor the loop finds, counting up from k. */
  function TopFrom(v: nat, k: nat): (r: nat)
    requires k == 0 || Pow10(k) < v
    ensures v <= Pow10(r + 1) && (r == 0 || Pow10(r) < v)
    decreases v - Pow10(k)
  {
    if Pow10(k + 1) < v then TopFrom(v, k + 1) else k
  }

  function SignText(v: int): seq<Byte> {
    if v < 0 then ['-' as int] else []
  }

  function Abs(v: int): nat {
    if v < 0 then -v else v
  }

  /** The canonical decimal text of an integer. */
  function DecText(v: int): seq<Byte> {
    SignText(v) + Dec(Abs(v))
  }

  /** The text format_d writes. */
  function FormatText(v: int): seq<Byte> {
    if v == 0 then ['0' as int] else SignText(v) + Emit(Abs(v), TopFrom(Abs(v), 0))
  }

  const LIMIT := 1_000_000_000

  /** The first loop of format_d; `defined` is false when `power * 10` overflows int32_t. */
  method FindPower(v: nat) returns (defined: bool, power: nat, ghost k: nat)
    requires 0 < v < 0x8000_0000
    ensures defined <==> v <= LIMIT
    ensures defined ==> k == TopFrom(v, 0) && power == Pow10(k)
  {
    k, power := 0, 1;
    TenPowers();
    while true
      invariant power == Pow10(k) && (k == 0 || power < v) && TopFrom(v, 0) == TopFrom(v, k)
      invariant k <= 9 && (k == 9 ==> power == LIMIT)
      decreases 10 - k
    {
      Pow10Mono(k, 9);
      if power * 10 > 0x7fff_ffff {
        return false, power, k;
      }
      if power * 10 >= v {
        return true, power, k;
      }
      power := power * 10;
      k := k + 1;
    }
  }

  lemma TenPowers()
    ensures Pow10(8) == 100_000_000 && Pow10(9) == LIMIT && Pow10(10) == 10 * LIMIT
  {
    assert Pow10(4) == 10 * Pow10(3) == 100 * Pow10(2) == 1000 * Pow10(1) == 10_000;
    assert Pow10(8) == 10 * Pow10(7) == 100 * Pow10(6) == 1000 * Pow10(5) == 100_000_000;
  }

  lemma {:induction false} Pow10Mono(i: nat, j: nat)
    ensures i < j ==> 10 * Pow10(i) <= Pow10(j)
    decreases j
  {
    if i + 1 < j {
      Pow10Mono(i, j - 1);
    }
  }

  lemma {:induction false} EmitLength(v: nat, k: nat)
    requires v <= Pow10(k + 1)
    ensures |Emit(v, k)| == k + 1
    decreases k
  {
    DigitFits(v, k);
    if k > 0 {
      EmitLength(v % Pow10(k), k - 1);
    }
  }

  lemma EmitStep(v: nat, k: nat)
    requires v <= Pow10(k + 1)
    ensures 0 <= v / Pow10(k) <= 10 && 0 <= v % Pow10(k) < Pow10(k)
    ensures Emit(v, k)
         == ['0' as int + v / Pow10(k)] + if k == 0 then [] else Emit(v % Pow10(k), k - 1)
    ensures Pow10(k) / 10 == if k == 0 then 0 else Pow10(k - 1)
  {
    DigitFits(v, k);
  }

  lemma AppendAssociates(a: seq<Byte>, b: seq<Byte>, c: seq<Byte>)
    ensures a + (b + c) == a + b + c
  {
  }

  /** One round of the digit loop of format_d; `done` is the text so far. */
  method WriteDigit(rest: nat, divisor: nat, ghost j: nat, outputBuf: array<Byte>, end: nat, ghost done: seq<Byte>)
      returns (remain: nat, next: nat, ghost text: seq<Byte>)
    requires divisor == Pow10(j) && rest <= Pow10(j + 1) && end < outputBuf.Length
    requires outputBuf[..end] == done
    modifies outputBuf
    ensures next == (if j == 0 then 0 else Pow10(j - 1)) && remain < Pow10(j)
    ensures outputBuf[..end + 1] == text && outputBuf[end + 1..] == old(outputBuf[end + 1..])
    ensures done + Emit(rest, j) == text + if j == 0 then [] else Emit(remain, j - 1)
  {
    hide Emit, Pow10;
    EmitStep(rest, j);
    var digit := rest / divisor;
    remain := rest % divisor;
    outputBuf[end] := '0' as int + digit;
    text := done + ['0' as int + digit];
    AppendAssociates(done, ['0' as int + digit], if j == 0 then [] else Emit(remain, j - 1));
    next := divisor / 10;
  }

  /** The digit loop of format_d, from divisor 10^k down. */
  method WriteDigits(v: nat, power: nat, ghost k: nat, outputBuf: array<Byte>, start: nat) returns (end: nat)
    requires power == Pow10(k) && v <= Pow10(k + 1) && start + k < outputBuf.Length
    modifies outputBuf
    ensures end == start + k + 1
    ensures outputBuf[..end] == old(outputBuf[..start]) + Emit(v, k)
    ensures outputBuf[end..] == old(outputBuf[end..])
  {
    end := start;
    var rest: nat, divisor: nat := v, power;
    ghost var j, text := k, outputBuf[..start];
    while true
      invariant 0 <= j <= k && divisor == Pow10(j) && rest <= Pow10(j + 1)
      invariant end + j == start + k && outputBuf[..end] == text
      invariant text + Emit(rest, j) == old(outputBuf[..start]) + Emit(v, k)
      invariant outputBuf[start + k + 1..] == old(outputBuf[start + k + 1..])
      decreases j
    {
      rest, divisor, text := WriteDigit(rest, divisor, j, outputBuf, end, text);
      end := end + 1;
      if divisor == 0 {
        break;
      }
      j := j - 1;
    }
  }

  /** format_d for a positive value, after the sign. */
  method FormatPositive(v: nat, outputBuf: array<Byte>, ss: nat) returns (defined: bool, ghost k: nat)
    requires 0 < v < 0x8000_0000 && ss <= outputBuf.Length
    requires v <= LIMIT ==> ss + |Emit(v, TopFrom(v, 0))| + 1 <= outputBuf.Length
    modifies outputBuf
    ensures defined <==> v <= LIMIT
    ensures defined ==> k == TopFrom(v, 0) && k <= 8 && |Emit(v, k)| == k + 1
    ensures defined ==>
        outputBuf[..] == old(outputBuf[..ss]) + Emit(v, k) + [0] + old(outputBuf[ss + k + 2..])
  {
    hide Emit, Pow10, TopFrom;
    var power: nat;
    defined, power, k := FindPower(v);
    if defined {
      SmallPower(v, k);
      EmitLength(v, k);
      var end := WriteDigits(v, power, k, outputBuf, ss);
      ghost var text := outputBuf[..end];
      outputBuf[end] := 0;
      assert outputBuf[end + 1..] == old(outputBuf[ss + k + 2..]);
      assert outputBuf[..] == text + [0] + outputBuf[end + 1..];
    }
  }

  lemma SmallPower(v: nat, k: nat)
    requires v <= LIMIT && (k == 0 || Pow10(k) < v)
    ensures k <= 8
  {
    TenPowers();
    Pow10Mono(9, k);
  }

  /** format_d. `defined` is false when the C arithmetic overflows int32_t, whose behaviour is
      undefined; otherwise the buffer starts with the NUL-terminated text. It must have room for
      just that, or for a sign written before the overflow. */
  method FormatD(val: Int32, outputBuf: array<Byte>) returns (defined: bool)
    requires Abs(val) <= LIMIT ==> |FormatText(val)| + 1 <= outputBuf.Length
    requires val < 0 ==> 1 <= outputBuf.Length
    modifies outputBuf
    ensures defined <==> Abs(val) <= LIMIT
    ensures |FormatText(val)| <= 10 || !defined
    ensures defined ==>
        outputBuf[..] == FormatText(val) + [0] + old(outputBuf[|FormatText(val)| + 1..])
  {
    hide Emit, Pow10, TopFrom;
    if val == 0 {
      outputBuf[0] := '0' as int;
      outputBuf[1] := 0;
      return true;
    }
    if val == -0x8000_0000 {
      return false;
    }
    var v, ss := val as int, 0;
    if val < 0 {
      v := -val;
      outputBuf[0] := '-' as int;
      ss := 1;
    }
    ghost var sign := outputBuf[..ss];
    assert sign == SignText(val);
    ghost var k: nat;
    defined, k := FormatPositive(v, outputBuf, ss);
    if defined {
      TextOf(val, k);
      assert |FormatText(val)| == ss + k + 1;
    }
  }

  lemma TextOf(val: int, k: nat)
    requires val != 0 && k == TopFrom(Abs(val), 0)
    ensures FormatText(val) == SignText(val) + Emit(Abs(val), k)
  {
  }

  lemma {:induction false} EmitHasNoNul(v: nat, k: nat)
    requires v <= Pow10(k + 1)
    ensures 0 !in Emit(v, k)
    decreases k
  {
    hide Emit, Pow10;
    EmitStep(v, k);
    if k > 0 {
      EmitHasNoNul(v % Pow10(k), k - 1);
    }
  }

  /** The buffer format_d fills, read as a C string, is its text. */
  lemma TextIsCString(v: int, rest: seq<Byte>)
    ensures CStr(FormatText(v) + [0] + rest, 0) == FormatText(v)
  {
    if v != 0 {
      EmitHasNoNul(Abs(v), TopFrom(Abs(v), 0));
    }
    CStrAt([], FormatText(v), rest);
    assert [] + FormatText(v) == FormatText(v);
  }

  // ----- what format_d's text means

  lemma {:induction false} DigitsHead(v: nat, k: nat)
    requires v < Pow10(k + 1)
    ensures 0 <= v / Pow10(k) < 10 && 0 <= v % Pow10(k)
    ensures Digits(v, k + 1) == ['0' as int + v / Pow10(k)] + Digits(v % Pow10(k), k)
    decreases k
  {
    DigitFits(v, k);
    if k == 0 {
      assert Digits(v, 1) == Digits(v / 10, 0) + ['0' as int + v % 10];
    } else {
      DropTopDigit(v, k);
      DigitsHead(v / 10, k - 1);
      var top, rest, low := ['0' as int + v / Pow10(k)], Digits((v / 10) % Pow10(k - 1), k - 1), ['0' as int + v % 10];
      assert Digits(v, k + 1) == top + rest + low == top + (rest + low);
    }
  }

  /** Dropping the top digit and dropping the last one commute. */
  lemma DropTopDigit(v: nat, k: nat)
    requires k > 0 && v < Pow10(k + 1)
    ensures v / 10 < Pow10(k)
    ensures 0 <= (v / 10) % Pow10(k - 1) && v / Pow10(k) == (v / 10) / Pow10(k - 1)
    ensures (v % Pow10(k)) / 10 == (v / 10) % Pow10(k - 1) && (v % Pow10(k)) % 10 == v % 10
  {
    var p := Pow10(k - 1);
    SplitMod(v, 10, p);
    DivIs(v / 10, p, (v / 10) / p, (v / 10) % p);
    DivIs(v % (10 * p), 10, (v / 10) % p, v % 10);
  }

  lemma {:induction false} EmitIsDigits(v: nat, k: nat)
    requires v < Pow10(k + 1)
    ensures Emit(v, k) == Digits(v, k + 1)
    decreases k
  {
    DigitsHead(v, k);
    if k > 0 {
      EmitIsDigits(v % Pow10(k), k - 1);
    }
  }

  lemma {:induction false} DigitsAreDec(v: nat, k: nat)
    requires v < Pow10(k + 1) && (k == 0 || Pow10(k) <= v)
    ensures Digits(v, k + 1) == Dec(v)
    decreases k
  {
    if k == 0 {
      assert Digits(v, 1) == Digits(v / 10, 0) + ['0' as int + v % 10];
    } else {
      DigitsAreDec(v / 10, k - 1);
    }
  }

  function Zeros(k: nat): (z: seq<Byte>)
    ensures |z| == k && forall i :: 0 <= i < k ==> z[i] == '0' as int
  {
    if k == 0 then [] else ['0' as int] + Zeros(k - 1)
  }

  lemma {:induction false} EmitZero(k: nat)
    ensures 0 <= Pow10(k + 1) && Emit(0, k) == Zeros(k + 1)
    decreases k
  {
    DigitFits(0, k);
    DivIs(0, Pow10(k), 0, 0);
    if k > 0 {
      EmitZero(k - 1);
    } else {
      assert Zeros(1) == ['0' as int] + Zeros(0);
    }
  }

  lemma TopOfPower(k: nat)
    ensures TopFrom(Pow10(k + 1), 0) == k
  {
    var t := TopFrom(Pow10(k + 1), 0);
    Pow10Mono(t + 1, k + 1);
    Pow10Mono(k + 1, t);
    if t == k + 1 {
      Pow10Mono(k, t);
    }
  }

  /** An exact power of ten from 10 up comes out as a colon and zeros, one character short. */
  lemma PowersOfTenGoWrong(v: int, k: nat)
    requires Abs(v) == Pow10(k + 1)
    ensures FormatText(v) == SignText(v) + [':' as int] + Zeros(k)
    ensures |FormatText(v)| == |DecText(v)| - 1
  {
    TopOfPower(k);
    DigitFits(Pow10(k + 1), k);
    if k > 0 {
      EmitZero(k - 1);
    }
    DecLength(k + 1);
    assert Emit(Abs(v), k) == [':' as int] + Zeros(k);
  }

  lemma DecLength(k: nat)
    ensures |Dec(Pow10(k))| == k + 1
  {
    DigitsAreDec(Pow10(k), k);
    DigitsLength(Pow10(k), k + 1);
  }

  lemma {:induction false} DigitsLength(n: nat, w: nat)
    ensures |Digits(n, w)| == w
    decreases w
  {
    if w > 0 {
      DigitsLength(n / 10, w - 1);
    }
  }

  /** format_d is right exactly off the powers of ten from 10 up. */
  lemma FormatIsDecimal(v: int)
    ensures FormatText(v) == DecText(v) <==> !IsPow10Above1(Abs(v))
  {
    var n := Abs(v);
    if IsPow10Above1(n) {
      var k :| k >= 1 && n == Pow10(k);
      PowersOfTenGoWrong(v, k - 1);
    } else if v != 0 {
      var t := TopFrom(n, 0);
      assert n != Pow10(t + 1);
      EmitIsDigits(n, t);
      DigitsAreDec(n, t);
    }
  }

  /** A negative value is its absolute value behind a minus sign (ASCII 45), any other text has
      none. */
  lemma MinusSign(v: int)
    ensures v < 0 ==> FormatText(v) == [45] + FormatText(-v)
    ensures v >= 0 ==> FormatText(v) != [] && FormatText(v)[0] != 45
    ensures v < 0 ==> DecText(v) == [45] + DecText(-v)
  {
    hide Emit, Pow10, TopFrom, Dec;
    if v != 0 {
      EmitStep(Abs(v), TopFrom(Abs(v), 0));
      var text := Emit(Abs(v), TopFrom(Abs(v), 0));
      assert [] + text == text && Abs(-v) == Abs(v);
      assert [] + Dec(Abs(v)) == Dec(Abs(v));
    }
  }

  // ----- reading it back

  /** Behind a prefix that is worth nothing, canonical text reads as its number. */
  lemma {:induction false} DecToOfDec(pre: seq<Byte>, n: nat)
    requires DecTo(pre, |pre|) == 0
    ensures DecTo(pre + Dec(n), |pre| + |Dec(n)|) == n
  {
    var s := pre + Dec(n);
    if n >= 10 {
      var t := pre + Dec(n / 10);
      DecToOfDec(pre, n / 10);
      DecToAgrees(s, t, |t|);
      assert s[|t|] == '0' as int + n % 10;
    } else {
      DecToAgrees(s, pre, |pre|);
      assert s[|pre|] == '0' as int + n;
    }
  }

  lemma {:induction false} DecToOfZeros(s: seq<Byte>, n: nat)
    requires n <= |s| && forall i :: 0 <= i < n ==> !IsDigit(s[i]) || s[i] == '0' as int
    ensures DecTo(s, n) == 0
    decreases n
  {
    if n > 0 {
      DecToOfZeros(s, n - 1);
    }
  }

  lemma WrongTextReadsZero(v: int, k: nat)
    requires Abs(v) == Pow10(k + 1)
    ensures StrtolValue(FormatText(v)) == 0
  {
    PowersOfTenGoWrong(v, k);
    var t := FormatText(v);
    assert t == SignText(v) + [':' as int] + Zeros(k);
    DecToOfZeros(t, |t|);
  }

  lemma RightTextReadsBack(v: int)
    requires Abs(v) <= LIMIT
    ensures StrtolValue(DecText(v)) == Abs(v)
  {
    var n := Abs(v);
    DecToOfZeros(SignText(v), |SignText(v)|);
    DecToOfDec(SignText(v), n);
    DivIs(n, U32, 0, n);
    if v == 0 {
      var z := DecText(0);
      assert z == ['0' as int];
      assert HexTo(z, 1) == 16 * HexTo(z, 0) + HexDigit(z[0]);
    }
  }

  /** The first character decides: behind anything below the digits the number counts, modulo
      2^32; a text that starts above them is worth 0. */
  lemma FirstCharacterDecides(pre: seq<Byte>, n: nat)
    requires pre != [] && forall i :: 0 <= i < |pre| ==> !(48 <= pre[i] <= 57)
    ensures pre[0] < 48 ==> StrtolValue(pre + Dec(n)) == ToI32(ToU32(n))
    ensures pre[0] > 57 ==> StrtolValue(pre + Dec(n)) == 0
  {
    DecToOfZeros(pre, |pre|);
    DecToOfDec(pre, n);
    assert (pre + Dec(n))[0] == pre[0];
  }

  /** Decimal round trip: micro_strtol of format_d's text is |v|, exactly when |v| is not one of
      10, 100, ..., 10^9. */
  lemma DecimalRoundTrip(v: int)
    requires Abs(v) <= LIMIT
    ensures StrtolValue(FormatText(v)) == Abs(v) <==> !IsPow10Above1(Abs(v))
  {
    FormatIsDecimal(v);
    if IsPow10Above1(Abs(v)) {
      var k :| k >= 1 && Abs(v) == Pow10(k);
      WrongTextReadsZero(v, k - 1);
    } else {
      RightTextReadsBack(v);
    }
  }
}
