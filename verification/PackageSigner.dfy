/** The arithmetic of package_signer.c: the power-of-two check on the flash block size, the
    mask round-up, the 0xff padding, and the 32-byte signature at the end of the last block. */
module PackageSigner {
  import opened Machine

  const DEFAULT_FLASH_BLOCK_SIZE := 4096
  const SIG_SIZE := 32

  // ----- the block size check

  /** Bit k of b in terms of remainders. */
  lemma NextBit(b: nat, k: nat)
    ensures And(Pow2(k), b) == 0 ==> b % Pow2(k + 1) == b % Pow2(k)
    ensures And(Pow2(k), b) != 0 ==> b % Pow2(k + 1) == b % Pow2(k) + Pow2(k)
  {
    AndSingleBit(b, k);
    SplitMod(b, Pow2(k), 2);
  }

  lemma ShiftBit(k: nat)
    requires k < 32
    ensures Pow2(k) < U32 && Shl(Pow2(k), 1) == if k == 31 then 0 else Pow2(k + 1)
  {
    WordBits();
    Pow2Mono(k, 32);
    assert Shl(Pow2(k), 1) == ToU32(2 * Shl(Pow2(k), 0)) == ToU32(2 * Pow2(k));
    if k < 31 {
      Pow2Mono(k + 1, 32);
      DivIs(Pow2(k + 1), U32, 0, Pow2(k + 1));
    } else {
      DivIs(U32, U32, 1, 0);
    }
  }

  /** check_block_size: a power of two is kept, anything else becomes the default. Zero is
      outside: the first loop would not end. */
  method CheckBlockSize(blockSize: Word) returns (r: Word)
    requires blockSize != 0
    ensures r == if IsPow2(blockSize) then blockSize else 4096
    ensures IsPow2(r)
  {
    var bit: Word := 1;
    ghost var k := 0;
    WordBits();
    DivIs(blockSize, 1, blockSize, 0);
    DivIs(blockSize, U32, 0, blockSize);
    while And(bit, blockSize) == 0
      invariant k < 32 && bit == Pow2(k) && blockSize % Pow2(k) == 0
      decreases 32 - k
    {
      NextBit(blockSize, k);
      ShiftBit(k);
      bit := Shl(bit, 1);
      k := k + 1;
    }
    NextBit(blockSize, k);
    ShiftBit(k);
    bit := Shl(bit, 1);
    ghost var j := k + 1;
    while bit != 0 && And(bit, blockSize) == 0
      invariant k < j <= 32 && bit == (if j == 32 then 0 else Pow2(j))
      invariant blockSize % Pow2(j) == Pow2(k)
      decreases 32 - j
    {
      NextBit(blockSize, j);
      ShiftBit(j);
      bit := Shl(bit, 1);
      j := j + 1;
    }
    if bit != 0 {
      TwoBits(blockSize, k, j);
      assert DEFAULT_FLASH_BLOCK_SIZE == Pow2(12) by {
        assert Pow2(4) == 2 * Pow2(3) == 4 * Pow2(2) == 8 * Pow2(1) == 16;
        Pow2Add(4, 4);
        Pow2Add(8, 4);
      }
      return DEFAULT_FLASH_BLOCK_SIZE;
    }
    r := blockSize;
  }

  /** A number with bits k and j set, k below j, is no power of two. */
  lemma TwoBits(b: nat, k: nat, j: nat)
    requires k < j && b % Pow2(j) == Pow2(k) && And(Pow2(j), b) != 0
    ensures !IsPow2(b)
  {
    AndSingleBit(b, j);
    if m: nat :| b == Pow2(m) {
      if m < j {
        Pow2Mono(m, j);
        DivIs(b, Pow2(j), 0, b);
      } else {
        Pow2Add(j, m - j);
        DivIs(b, Pow2(j), Pow2(m - j), 0);
      }
    }
  }

  // ----- the round-up

  /** `(size + (block - 1)) & ~(block - 1)`, the complement being a uint32_t. */
  function RoundUp(size: nat, block: Word): nat
    requires block >= 1
  {
    And(size + (block - 1), Not(block - 1))
  }

  /** Rounding down a number that overshoots by block - 1 gives the least multiple. */
  lemma LeastMultiple(size: nat, block: nat, other: nat)
    requires block >= 1
    ensures var x := size + (block - 1);
      var len := x - x % block;
      && size <= len < size + block && len % block == 0
      && (other >= size && other % block == 0 ==> len <= other)
  {
    var x := size + (block - 1);
    var q := x / block;
    DivIs(x, block, q, x % block);
    DivIs(block * q, block, q, 0);
    if other >= size && other % block == 0 {
      DivIs(other, block, other / block, 0);
      var gap := q - other / block;
      assert block * gap == block * q - other;
      if gap >= 1 {
        MulMono(1, gap, block);
      } else {
        MulMono(0, -gap, block);
      }
    }
  }

  /** The masked length is the least multiple of the block size that holds the image. */
  lemma RoundUpIsLeast(size: nat, block: Word, other: nat)
    requires IsPow2(block) && size + block <= U32
    ensures var len := RoundUp(size, block);
      && size <= len < size + block && len % block == 0
      && (other >= size && other % block == 0 ==> len <= other)
  {
    hide And, Pow2;
    var k: nat :| block == Pow2(k);
    MaskRoundsDown(size + (block - 1), k);
    LeastMultiple(size, block, other);
  }

  /** Masking with the complement of the block size less one rounds down to a multiple. */
  lemma MaskRoundsDown(x: Word, k: nat)
    requires Pow2(k) < U32
    ensures And(x, Not(Pow2(k) - 1)) == x - x % Pow2(k)
  {
    hide And, Pow2;
    WordBits();
    Pow2FromU32(k);
    AndHighMask(x, 32, k);
    assert HighMask(32, k) == Not(Pow2(k) - 1);
    DivIs(x, U32, 0, x);
  }

  lemma Pow2FromU32(k: nat)
    ensures k >= 32 ==> Pow2(k) >= U32
  {
    WordBits();
    if k > 32 {
      Pow2Mono(32, k);
    }
  }

  // ----- checksums

  /** The sum of the first n bytes. */
  function SumTo(s: seq<Byte>, n: nat): nat
    requires n <= |s|
  {
    if n == 0 then 0 else SumTo(s, n - 1) + s[n - 1]
  }

  function Sum(s: seq<Byte>): nat {
    SumTo(s, |s|)
  }

  lemma {:induction false} SumToAgrees(s: seq<Byte>, t: seq<Byte>, n: nat)
    requires n <= |s| && n <= |t| && s[..n] == t[..n]
    ensures SumTo(s, n) == SumTo(t, n)
    decreases n
  {
    if n > 0 {
      assert s[n - 1] == s[..n][n - 1] == t[n - 1];
      assert s[..n - 1] == s[..n][..n - 1] == t[..n - 1];
      SumToAgrees(s, t, n - 1);
    }
  }

  lemma {:induction false} SumAppend(s: seq<Byte>, t: seq<Byte>, n: nat)
    requires n <= |t|
    ensures SumTo(s + t, |s| + n) == Sum(s) + SumTo(t, n)
    decreases n
  {
    if n == 0 {
      assert (s + t)[..|s|] == s[..|s|];
      SumToAgrees(s + t, s, |s|);
    } else {
      SumAppend(s, t, n - 1);
    }
  }

  /** image_cksum */
  method ImageCksum(ss: array<Byte>, len: int) returns (sum: Word)
    requires len <= ss.Length
    ensures sum == ToU32(Sum(ss[..if len < 0 then 0 else len]))
  {
    sum := 0;
    ghost var bytes := ss[..if len < 0 then 0 else len];
    var ii := 0;
    while ii < len
      invariant 0 <= ii <= |bytes|
      invariant sum == ToU32(SumTo(bytes, ii))
    {
      assert ss[ii] == bytes[ii];
      sum := ToU32(sum + ss[ii]);
      ii := ii + 1;
    }
  }

  /** data_block_cksum, a 16-bit sum, over a structure's bytes. */
  method DataBlockCksum(ss: seq<Byte>, length: int) returns (sum: nat)
    requires length <= |ss|
    ensures sum == ToU16(Sum(ss[..if length < 0 then 0 else length]))
  {
    sum := 0;
    ghost var bytes := ss[..if length < 0 then 0 else length];
    var ii := 0;
    while ii < length
      invariant 0 <= ii <= |bytes|
      invariant sum == ToU16(SumTo(bytes, ii))
    {
      assert ss[ii] == bytes[ii];
      sum := ToU16(sum + ss[ii]);
      ii := ii + 1;
    }
  }

  // ----- the signature block

  type Half = x: int | 0 <= x < 0x1_0000

  /** Little-endian bytes of a uint16_t and a uint32_t. */
  function Bytes16(v: Half): (b: seq<Byte>)
    ensures |b| == 2
  {
    [v % 256, v / 256]
  }

  function Bytes32(v: Word): (b: seq<Byte>)
    ensures |b| == 4
  {
    Bytes16(v % 0x1_0000) + Bytes16(v / 0x1_0000)
  }

  function Read32(b: seq<Byte>): Word
    requires |b| == 4
  {
    (b[0] as int) + 256 * (b[1] as int) + 0x1_0000 * (b[2] as int) + 0x100_0000 * (b[3] as int)
  }

  lemma Read32Bytes32(v: Word)
    ensures Read32(Bytes32(v)) == v
  {
  }

  /** Flash_block_sig_v1 */
  datatype Sig = Sig(version: Word, length: Word, imageCksum: Word, loadAddr: Word, entryPoint: Word,
                     flags: Half, fbsVersion: Half, magicNum: Word, cksum: Half, progBits: Half) {
    function Bytes(): (b: seq<Byte>)
      ensures |b| == SIG_SIZE
    {
      Bytes32(version) + Bytes32(length) + Bytes32(imageCksum) + Bytes32(loadAddr)
      + Bytes32(entryPoint) + Bytes16(flags) + Bytes16(fbsVersion) + Bytes32(magicNum)
      + Bytes16(cksum) + Bytes16(progBits)
    }
  }

  /** The options, and the two fields of the structure that hold whatever the stack held. */
  datatype Options = Options(version: Word, loadAddr: Word, entryPoint: Word, magicNumber: Word,
                             junkFbsVersion: Half, junkCksum: Half, junkProgBits: Half)

  /** The number of leading signature bytes that its own checksum sums. */
  const SUMMED := SIG_SIZE - 3

  function Fill(n: nat): (f: seq<Byte>)
    ensures |f| == n && forall i :: 0 <= i < n ==> f[i] == 0xff
  {
    seq(n, _ => 0xff)
  }

  function Padded(image: seq<Byte>, len: nat): (p: seq<Byte>)
    requires |image| <= len
    ensures |p| == len
  {
    image + Fill(len - |image|)
  }

  function UnsummedSig(image: seq<Byte>, len: nat, o: Options): Sig
    requires |image| <= len && SIG_SIZE <= len && len < U32
  {
    Sig(o.version, |image|, ToU32(Sum(Padded(image, len)[..len - SIG_SIZE])), o.loadAddr,
        o.entryPoint, 0, o.junkFbsVersion, o.magicNumber, o.junkCksum, o.junkProgBits)
  }

  function FinalSig(image: seq<Byte>, len: nat, o: Options): Sig
    requires |image| <= len && SIG_SIZE <= len && len < U32
  {
    var s := UnsummedSig(image, len, o);
    s.(cksum := ToU16(Sum(s.Bytes()[..SUMMED])), progBits := 0xffff)
  }

  function SignedImage(image: seq<Byte>, len: nat, o: Options): (r: seq<Byte>)
    requires |image| <= len && SIG_SIZE <= len && len < U32
    ensures |r| == len
  {
    Padded(image, len)[..len - SIG_SIZE] + FinalSig(image, len, o).Bytes()
  }

  /** The image read into a buffer of the rounded-up size, the rest filled with 0xff. */
  method ReadAndPad(image: seq<Byte>, memToGet: nat) returns (fileBuf: array<Byte>)
    requires |image| <= memToGet
    ensures fresh(fileBuf) && fileBuf[..] == Padded(image, memToGet)
  {
    fileBuf := new Byte[memToGet];
    forall i | 0 <= i < |image| {
      fileBuf[i] := image[i];
    }
    var ii := |image|;
    while ii < memToGet
      invariant |image| <= ii <= memToGet
      invariant fileBuf[..ii] == image + Fill(ii - |image|)
    {
      fileBuf[ii] := 0xff;
      ii := ii + 1;
    }
  }

  /** The part of main between reading the image and writing the block. The buffer must have
      room for the signature, as the C code assumes. */
  method Sign(image: seq<Byte>, flashBlockSize: Word, o: Options) returns (fileBuf: array<Byte>)
    requires IsPow2(flashBlockSize) && |image| + flashBlockSize <= 0x8000_0000
    requires SIG_SIZE <= RoundUp(|image|, flashBlockSize)
    ensures |image| <= fileBuf.Length == RoundUp(|image|, flashBlockSize) < U32
    ensures fileBuf[..] == SignedImage(image, fileBuf.Length, o)
  {
    hide And, Not, IsPow2, Sum, Sig.Bytes, Fill;
    RoundUpIsLeast(|image|, flashBlockSize, 0);
    var memToGet := |image| + (flashBlockSize - 1);
    memToGet := And(memToGet, Not(flashBlockSize - 1));
    fileBuf := ReadAndPad(image, memToGet);
    var cksum := ImageCksum(fileBuf, memToGet - SIG_SIZE);
    assert fileBuf[..memToGet - SIG_SIZE] == Padded(image, memToGet)[..memToGet - SIG_SIZE];
    var fbs := Sig(o.version, |image|, cksum, o.loadAddr, o.entryPoint, 0,
                   o.junkFbsVersion, o.magicNumber, o.junkCksum, o.junkProgBits);
    var own := DataBlockCksum(fbs.Bytes(), SUMMED);
    fbs := fbs.(cksum := own, progBits := 0xffff);
    PlaceSignature(fileBuf, memToGet - SIG_SIZE, fbs.Bytes());
  }

  method PlaceSignature(fileBuf: array<Byte>, at: nat, sig: seq<Byte>)
    requires at + |sig| == fileBuf.Length
    modifies fileBuf
    ensures fileBuf[..] == old(fileBuf[..at]) + sig
  {
    forall i | at <= i < fileBuf.Length {
      fileBuf[i] := sig[i - at];
    }
  }

  // ----- what a loader finds

  /** The image checksum stored in the last block agrees with the bytes before the signature. */
  predicate ImageVerifies(flash: seq<Byte>)
    requires |flash| >= SIG_SIZE
  {
    var n := |flash|;
    Read32(flash[n - 24..n - 20]) == ToU32(Sum(flash[..n - SIG_SIZE]))
  }

  function Read16(b: seq<Byte>): Half
    requires |b| == 2
  {
    (b[0] as int) + 256 * (b[1] as int)
  }

  /** The fields of the packed structure in order. */
  lemma SigLayout(s: Sig)
    ensures s.Bytes()[0..4] == Bytes32(s.version) && s.Bytes()[4..8] == Bytes32(s.length)
    ensures s.Bytes()[8..12] == Bytes32(s.imageCksum) && s.Bytes()[12..16] == Bytes32(s.loadAddr)
    ensures s.Bytes()[16..20] == Bytes32(s.entryPoint) && s.Bytes()[20..22] == Bytes16(s.flags)
    ensures s.Bytes()[22..24] == Bytes16(s.fbsVersion) && s.Bytes()[24..28] == Bytes32(s.magicNum)
    ensures s.Bytes()[28..30] == Bytes16(s.cksum) && s.Bytes()[30..32] == Bytes16(s.progBits)
  {
  }

  /** The first 29 bytes of a signature sum to its first 28 and the low byte of its checksum. */
  lemma SummedBytes(s: Sig)
    ensures Sum(s.Bytes()[..SUMMED]) == Sum(s.Bytes()[..28]) + s.cksum % 256
  {
    var b := s.Bytes();
    assert b[28..30] == Bytes16(s.cksum);
    assert b[28] == b[28..30][0] == s.cksum % 256;
    SumToAgrees(b[..29], b[..28], 28);
    assert SUMMED == 29 && b[..29][28] == b[28];
  }

  /** The two fields stored last do not touch the first 28 bytes. */
  lemma EarlierBytes(s: Sig, cksum: Half, progBits: Half)
    ensures s.(cksum := cksum, progBits := progBits).Bytes()[..28] == s.Bytes()[..28]
  {
  }

  lemma SliceBehind(front: seq<Byte>, s: seq<Byte>, i: nat, j: nat)
    requires i <= j <= |s|
    ensures (front + s)[|front| + i..|front| + j] == s[i..j]
  {
  }

  /** A field of the signature read behind what precedes it. */
  lemma FieldAt(front: seq<Byte>, s: seq<Byte>, i: nat, v: Word)
    requires i + 4 <= |s| && s[i..i + 4] == Bytes32(v)
    ensures Read32((front + s)[|front| + i..|front| + i + 4]) == v
    ensures (front + s)[|front| + i] == v % 256
  {
    SliceBehind(front, s, i, i + 4);
    Read32Bytes32(v);
    assert s[i] == s[i..i + 4][0] == Bytes32(v)[0];
  }

  /** The signature's own checksum is the 16-bit sum of its first 29 bytes as they stood before it
      was stored: 28 bytes as they are in the image, and the low byte of what was in its place. */
  lemma OwnChecksum(image: seq<Byte>, len: nat, o: Options)
    requires |image| <= len && SIG_SIZE <= len && len < U32
    ensures var r := SignedImage(image, len, o);
      Read16(r[len - 4..len - 2]) == ToU16(Sum(r[len - 32..len - 4]) + o.junkCksum % 256)
  {
    hide Sig.Bytes, Sum, Padded;
    var r, front := SignedImage(image, len, o), Padded(image, len)[..len - SIG_SIZE];
    var u, s := UnsummedSig(image, len, o), FinalSig(image, len, o);
    SigLayout(s);
    SummedBytes(u);
    EarlierBytes(u, s.cksum, s.progBits);
    SliceBehind(front, s.Bytes(), 28, 30);
    SliceBehind(front, s.Bytes(), 0, 28);
    assert r[len - 4..len - 2] == Bytes16(s.cksum);
    assert r[len - 32..len - 4] == s.Bytes()[0..28] == u.Bytes()[..28];
  }

  lemma WordFields(front: seq<Byte>, s: Sig)
    ensures var r, n := front + s.Bytes(), |front|;
      && Read32(r[n..n + 4]) == s.version && Read32(r[n + 4..n + 8]) == s.length
      && Read32(r[n + 8..n + 12]) == s.imageCksum && Read32(r[n + 12..n + 16]) == s.loadAddr
      && Read32(r[n + 16..n + 20]) == s.entryPoint
      && Read32(r[n + 24..n + 28]) == s.magicNum && r[n + 24] == s.magicNum % 256
  {
    hide Sig.Bytes, Read32, Bytes32;
    SigLayout(s);
    FieldAt(front, s.Bytes(), 0, s.version);
    FieldAt(front, s.Bytes(), 4, s.length);
    FieldAt(front, s.Bytes(), 8, s.imageCksum);
    FieldAt(front, s.Bytes(), 12, s.loadAddr);
    FieldAt(front, s.Bytes(), 16, s.entryPoint);
    FieldAt(front, s.Bytes(), 24, s.magicNum);
  }

  lemma HalfFields(front: seq<Byte>, s: Sig)
    ensures var r, n := front + s.Bytes(), |front|;
      && r[n + 20..n + 22] == Bytes16(s.flags) && r[n + 22..n + 24] == Bytes16(s.fbsVersion)
      && r[n + 30..] == Bytes16(s.progBits)
  {
    hide Sig.Bytes, Bytes16;
    SigLayout(s);
    SliceBehind(front, s.Bytes(), 20, 22);
    SliceBehind(front, s.Bytes(), 22, 24);
    SliceBehind(front, s.Bytes(), 30, 32);
    var r, n := front + s.Bytes(), |front|;
    assert r[n + 30..] == r[n + 30..n + 32];
  }

  /** Signed image layout, field by field on the bytes written: the magic number is 8 bytes from
      the end, least significant byte first, the length field is the image size, and the stored
      image checksum is the one a loader recomputes. */
  lemma SignedImageLayout(image: seq<Byte>, len: nat, o: Options)
    requires |image| <= len && SIG_SIZE <= len && len < U32
    ensures var r := SignedImage(image, len, o);
      && Read32(r[len - 32..len - 28]) == o.version
      && Read32(r[len - 28..len - 24]) == |image|
      && Read32(r[len - 20..len - 16]) == o.loadAddr
      && Read32(r[len - 16..len - 12]) == o.entryPoint
      && r[len - 12..len - 10] == [0, 0]
      && Read16(r[len - 10..len - 8]) == o.junkFbsVersion
      && Read32(r[len - 8..len - 4]) == o.magicNumber && r[len - 8] == o.magicNumber % 256
      && r[len - 2..] == [0xff, 0xff]
      && ImageVerifies(r)
  {
    hide Sig.Bytes, Read32, Sum, Padded, ToU32;
    var s, r := FinalSig(image, len, o), SignedImage(image, len, o);
    var front := Padded(image, len)[..len - SIG_SIZE];
    assert |front| == len - 32 && r == front + s.Bytes();
    WordFields(front, s);
    HalfFields(front, s);
    assert r[..len - SIG_SIZE] == front;
  }

  lemma {:induction false} SumFill(s: seq<Byte>, n: nat)
    requires n <= |s| && forall i :: 0 <= i < n ==> s[i] == 0xff
    ensures SumTo(s, n) == 255 * n
    decreases n
  {
    if n > 0 {
      SumFill(s, n - 1);
    }
  }

  lemma PaddedParts(image: seq<Byte>, len: nat)
    requires |image| + SIG_SIZE <= len
    ensures Padded(image, len)[..len - SIG_SIZE] == image + Fill(len - SIG_SIZE - |image|)
    ensures Sum(Padded(image, len)[..len - SIG_SIZE])
         == Sum(image) + 255 * (len - SIG_SIZE - |image|)
  {
    var gap := len - SIG_SIZE - |image|;
    assert Padded(image, len)[..len - SIG_SIZE] == image + Fill(gap);
    SumAppend(image, Fill(gap), gap);
    SumFill(Fill(gap), gap);
  }

  lemma FrontOfSigned(image: seq<Byte>, len: nat, o: Options)
    requires |image| <= len && SIG_SIZE <= len < U32
    ensures SignedImage(image, len, o)[..len - SIG_SIZE] == Padded(image, len)[..len - SIG_SIZE]
  {
  }

  lemma GapFacts(image: seq<Byte>, r: seq<Byte>)
    requires |image| + SIG_SIZE <= |r| && ImageVerifies(r)
    requires r[..|r| - SIG_SIZE] == Padded(image, |r|)[..|r| - SIG_SIZE]
    ensures r[..|image|] == image && r[|image|..|r| - SIG_SIZE] == Fill(|r| - SIG_SIZE - |image|)
    ensures Read32(r[|r| - 24..|r| - 20]) == ToU32(Sum(image) + 255 * (|r| - SIG_SIZE - |image|))
  {
    PaddedParts(image, |r|);
    var front := r[..|r| - SIG_SIZE];
    assert r[..|image|] == front[..|image|];
    assert r[|image|..|r| - SIG_SIZE] == front[|image|..];
    var total := Sum(image) + 255 * (|r| - SIG_SIZE - |image|);
    assert Sum(front) == total;
    assert Read32(r[|r| - 24..|r| - 20]) == ToU32(Sum(front)) == ToU32(total);
  }

  /** When the signature fits behind the image, the image is unchanged, the gap is 0xff, and the
      stored checksum is the image's sum plus 255 for every byte of the gap. */
  lemma GapIsErased(image: seq<Byte>, len: nat, o: Options)
    requires |image| + SIG_SIZE <= len < U32
    ensures var r := SignedImage(image, len, o);
      && r[..|image|] == image && r[|image|..len - SIG_SIZE] == Fill(len - SIG_SIZE - |image|)
      && Read32(r[len - 24..len - 20]) == ToU32(Sum(image) + 255 * (len - SIG_SIZE - |image|))
  {
    hide SignedImage, Read32, Sum;
    FrontOfSigned(image, len, o);
    SignedImageLayout(image, len, o);
    GapFacts(image, SignedImage(image, len, o));
  }

  /** Every image of a size survives signing exactly when the signature fits behind it in the
      rounded-up length; otherwise the signature is written over its end. */
  lemma ImagePreservedIff(size: nat, len: nat, o: Options)
    requires size <= len && SIG_SIZE <= len < U32
    ensures (forall image: seq<Byte> :: |image| == size ==> SignedImage(image, len, o)[..size] == image)
       <==> size + SIG_SIZE <= len
  {
    if size + SIG_SIZE <= len {
      forall image: seq<Byte> | |image| == size
        ensures SignedImage(image, len, o)[..size] == image
      {
        GapIsErased(image, len, o);
      }
    } else {
      var image := OverwrittenImage(size, len, o);
    }
  }

  /** An image whose end differs from the first byte of the signature. */
  lemma OverwrittenImage(size: nat, len: nat, o: Options) returns (image: seq<Byte>)
    requires size <= len < size + SIG_SIZE && SIG_SIZE <= len < U32
    ensures |image| == size && SignedImage(image, len, o)[..size] != image
  {
    hide Sig.Bytes, Sum;
    var at := len - SIG_SIZE;
    var wrong := (o.version % 256 + 1) % 256;
    image := seq(size, _ => wrong);
    var r := SignedImage(image, len, o);
    FirstByte(FinalSig(image, len, o));
    assert r[..size][at] == r[at] != image[at];
  }

  lemma FirstByte(s: Sig)
    ensures s.Bytes()[0] == s.version % 256
  {
  }

  /** Any change of one byte before the signature is detected. */
  lemma OneByteChangeDetected(flash: seq<Byte>, p: nat, b: Byte)
    requires SIG_SIZE <= |flash| && p < |flash| - SIG_SIZE && flash[p] != b && ImageVerifies(flash)
    ensures !ImageVerifies(flash[p := b])
  {
    hide SumTo, Read32;
    var n := |flash| - SIG_SIZE;
    var changed := flash[p := b];
    assert changed[|flash| - 24..|flash| - 20] == flash[|flash| - 24..|flash| - 20];
    SumWithChange(flash[..n], p, b, n);
    assert changed[..n] == flash[..n][p := b];
    var x, y := Sum(flash[..n]), Sum(changed[..n]);
    DivIs(x, U32, x / U32, x % U32);
    DivIs(y, U32, y / U32, y % U32);
  }

  lemma {:induction false} SumWithChange(s: seq<Byte>, p: nat, b: Byte, n: nat)
    requires p < |s| && n <= |s|
    ensures SumTo(s[p := b], n) == SumTo(s, n) + if p < n then b - s[p] else 0
    decreases n
  {
    if n > 0 {
      SumWithChange(s, p, b, n - 1);
    }
  }

  /** The progression bits lie outside both sums, so they can be rewritten in place. */
  lemma ProgBitsAreFree(flash: seq<Byte>, bits: Half)
    requires SIG_SIZE <= |flash|
    ensures var n := |flash|;
      var r := flash[..n - 2] + Bytes16(bits);
      && (ImageVerifies(r) <==> ImageVerifies(flash))
      && r[n - SIG_SIZE..][..SUMMED] == flash[n - SIG_SIZE..][..SUMMED]
      && r[n - 4..n - 2] == flash[n - 4..n - 2]
  {
    var n := |flash|;
    var r := flash[..n - 2] + Bytes16(bits);
    assert r[n - 24..n - 20] == flash[n - 24..n - 20];
    assert r[..n - SIG_SIZE] == flash[..n - SIG_SIZE];
  }
}
