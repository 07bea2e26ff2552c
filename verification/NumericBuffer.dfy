/** Decimals in the 19-byte SQL_NUMERIC_STRUCT buffer (Appendix D of the ODBC Programmer's
    Reference): precision, scale, sign, and a 16-byte little-endian magnitude. */
module NumericBuffer {
  import opened Wrappers
  import Division
  import opened Bits

  const WORD := 0x1_0000_0000
  const LIMIT := 0x1_0000_0000_0000_0000_0000_0000 // 2^96

  // System.Decimal: a 96-bit magnitude, a sign and a power of ten.
  datatype Decimal = Decimal(magnitude: nat, negative: bool, scale: nat)

  predicate IsDecimal(d: Decimal) {
    d.magnitude < LIMIT && d.scale <= 28
  }

  // An int given by its 32 bits.
  function AsInt(w: nat): int {
    if w >= 0x8000_0000 then w - WORD else w
  }

  // The words of Decimal.GetBits.
  function Word(d: Decimal, i: nat): int
    requires i < 3
  {
    AsInt(if i == 0 then d.magnitude % WORD
          else if i == 1 then d.magnitude / WORD % WORD
          else d.magnitude / WORD / WORD % WORD)
  }

  function Flags(d: Decimal): int {
    d.scale * 65536 - (if d.negative then 0x8000_0000 else 0)
  }

  function SignByte(flags: int): Byte {
    if And(flags, 0x8000_0000) != 0 then 0 else 1
  }

  function ScaleByte(flags: int): Byte {
    LowByte(And(Shr(flags, 16), 0x7f))
  }

  // The four bytes of Marshal.WriteInt32.
  function Int32Bytes(x: int): (b: seq<Byte>)
    ensures |b| == 4
  {
    [LowByte(x), LowByte(x / 0x100), LowByte(x / 0x1_0000), LowByte(x / 0x100_0000)]
  }

  function LittleEndian(b: seq<Byte>): nat {
    if b == [] then 0 else b[0] as nat + 256 * LittleEndian(b[1..])
  }

  // Marshal.ReadInt32.
  function ReadInt32(b: seq<Byte>, at: nat): int
    requires at + 4 <= |b|
  {
    AsInt(LittleEndian(b[at..at + 4]))
  }

  // The buffer after ManagedToNative.
  function Written(d: Decimal): (b: seq<Byte>)
    ensures |b| == 19
  {
    [0, ScaleByte(Flags(d)), SignByte(Flags(d))]
    + Int32Bytes(Word(d, 0)) + Int32Bytes(Word(d, 1)) + Int32Bytes(Word(d, 2)) + Int32Bytes(0)
  }

  // new Decimal (lo, mid, hi, isNegative, scale), which refuses a scale above 28.
  function MakeDecimal(lo: int, mid: int, hi: int, negative: bool, scale: nat): Option<Decimal> {
    if scale > 28 then None
    else Some(Decimal(lo % WORD + WORD * (mid % WORD + WORD * (hi % WORD)), negative, scale))
  }

  // NativeToManaged; None is an exception.
  function ReadBack(b: seq<Byte>): Option<Decimal>
    requires |b| == 19
  {
    if ReadInt32(b, 15) != 0 then None
    else MakeDecimal(ReadInt32(b, 3), ReadInt32(b, 7), ReadInt32(b, 11), b[2] == 0, b[1] as nat)
  }

  // ---------------------------------------------------------------------------------------

  lemma LittleEndianFour(b: seq<Byte>)
    requires |b| == 4
    ensures LittleEndian(b) == b[0] as int + 256 * b[1] as int + 0x1_0000 * b[2] as int
                               + 0x100_0000 * b[3] as int
    ensures LittleEndian(b) < WORD
  {
    assert b[1..][1..] == b[2..] && b[2..][1..] == b[3..] && b[3..][1..] == [];
    assert LittleEndian(b[3..]) == b[3] as nat;
    assert LittleEndian(b[2..]) == b[2] as nat + 256 * LittleEndian(b[3..]);
    assert LittleEndian(b[1..]) == b[1] as nat + 256 * LittleEndian(b[2..]);
  }

  // Four bytes hold an integer modulo 2^32.
  lemma BytesOfInt(x: int)
    ensures LittleEndian(Int32Bytes(x)) == x % WORD
  {
    LittleEndianFour(Int32Bytes(x));
    var a, b, c, e := x % 0x100, x / 0x100 % 0x100, x / 0x1_0000 % 0x100, x / 0x100_0000 % 0x100;
    var r := a + 0x100 * b + 0x1_0000 * c + 0x100_0000 * e;
    NextByte(x, 1);
    NextByte(x, 0x100);
    NextByte(x, 0x1_0000);
    NextByte(x, 0x100_0000);
    assert x / 1 == x;
    Division.Unique(x, WORD, x / 0x100_0000 / 0x100, r);
  }

  lemma NextByte(x: int, p: int)
    requires p > 0
    ensures x / p == x / (p * 0x100) * 0x100 + x / p % 0x100
  {
    var y := x / p;
    assert x == p * y + x % p;
    var q, t := y / 0x100, y % 0x100;
    assert x == q * (p * 0x100) + (p * t + x % p) by {
      assert p * y == p * (0x100 * q + t);
      assert p * (0x100 * q) == q * (p * 0x100);
    }
    Division.MulMono(t, 0xFF, p);
    Division.MulMono(0, t, p);
    Division.Unique(x, p * 0x100, q, p * t + x % p);
  }

  lemma {:induction false} LittleEndianAppend(a: seq<Byte>, b: seq<Byte>)
    requires |a| == 4
    ensures LittleEndian(a + b) == LittleEndian(a) + WORD * LittleEndian(b)
  {
    LittleEndianFour(a);
    var s := a + b;
    assert s[1..] == a[1..] + b;
    assert s[1..][1..] == a[2..] + b;
    assert s[1..][1..][1..] == a[3..] + b;
    assert s[1..][1..][1..][1..] == b;
    assert LittleEndian(a[3..] + b) == a[3] as nat + 256 * LittleEndian(b);
    assert LittleEndian(a[2..] + b) == a[2] as nat + 256 * LittleEndian(a[3..] + b);
    assert LittleEndian(a[1..] + b) == a[1] as nat + 256 * LittleEndian(a[2..] + b);
  }

  // The bytes from number 3 on are the magnitude.
  lemma MagnitudeOfBytes(b: seq<Byte>)
    requires |b| == 19
    ensures LittleEndian(b[3..])
            == LittleEndian(b[3..7]) + WORD * (LittleEndian(b[7..11]) + WORD *
               (LittleEndian(b[11..15]) + WORD * LittleEndian(b[15..19])))
  {
    assert b[3..] == b[3..7] + b[7..];
    assert b[7..] == b[7..11] + b[11..];
    assert b[11..] == b[11..15] + b[15..];
    assert b[15..] == b[15..19];
    LittleEndianAppend(b[3..7], b[7..]);
    LittleEndianAppend(b[7..11], b[11..]);
    LittleEndianAppend(b[11..15], b[15..]);
  }

  lemma WordOfBytes(b: seq<Byte>, at: nat)
    requires at + 4 <= |b|
    ensures ReadInt32(b, at) % WORD == LittleEndian(b[at..at + 4])
    ensures ReadInt32(b, at) == 0 <==> LittleEndian(b[at..at + 4]) == 0
    ensures LittleEndian(b[at..at + 4]) < WORD
  {
    LittleEndianFour(b[at..at + 4]);
    var w := LittleEndian(b[at..at + 4]);
    if w >= 0x8000_0000 {
      Division.Unique(w - WORD, WORD, -1, w);
    } else {
      Division.Unique(w, WORD, 0, w);
    }
  }

  // Which buffers are refused, and what the others hold.
  lemma ReadBackExactly(b: seq<Byte>)
    requires |b| == 19
    ensures ReadBack(b).None? <==> LittleEndian(b[3..]) >= LIMIT || b[1] > 28
    ensures ReadBack(b).Some? ==>
              && ReadBack(b).value == Decimal(LittleEndian(b[3..]), b[2] == 0, b[1] as nat)
              && IsDecimal(ReadBack(b).value)
  {
    MagnitudeOfBytes(b);
    WordOfBytes(b, 3);
    WordOfBytes(b, 7);
    WordOfBytes(b, 11);
    WordOfBytes(b, 15);
  }

  lemma FlagBytes(d: Decimal)
    requires IsDecimal(d)
    ensures ScaleByte(Flags(d)) as nat == d.scale
    ensures SignByte(Flags(d)) == if d.negative then 0 else 1
  {
    ScaleBits(d.scale, d.negative, Flags(d));
    SignBit(d.scale, d.negative, Flags(d));
  }

  lemma ScaleBits(scale: nat, negative: bool, f: int)
    requires scale <= 28 && f == scale * 65536 - (if negative then 0x8000_0000 else 0)
    ensures ScaleByte(f) as nat == scale
  {
    var high := scale - (if negative then 0x8000 else 0);
    HighHalf(scale, negative, f, high);
    MaskedScale(scale, negative, high);
  }

  lemma HighHalf(scale: nat, negative: bool, f: int, high: int)
    requires f == scale * 65536 - (if negative then 0x8000_0000 else 0)
    requires high == scale - (if negative then 0x8000 else 0)
    ensures Shr(f, 16) == high
  {
    PowersForFlags();
    Shift(f, 16, 65536);
    Division.Unique(f, 65536, high, 0);
  }

  lemma MaskedScale(scale: nat, negative: bool, high: int)
    requires scale <= 28 && high == scale - (if negative then 0x8000 else 0)
    ensures And(high, 0x7F) == scale
  {
    PowersForFlags();
    AndMask(high, 7, 128);
    Division.Unique(high, 128, if negative then -256 else 0, scale);
  }

  lemma SignBit(scale: nat, negative: bool, f: int)
    requires scale <= 28 && f == scale * 65536 - (if negative then 0x8000_0000 else 0)
    ensures SignByte(f) == if negative then 0 else 1
  {
    PowersForFlags();
    AndBit(f, 31);
    Division.Unique(f, 0x8000_0000, if negative then -1 else 0, scale * 65536);
  }

  lemma PowersForFlags()
    ensures Pow2(7) == 128 && Pow2(16) == 65536 && Pow2(31) == 0x8000_0000
  {
    Powers();
    assert Pow2(24) == 0x100_0000;
    assert Pow2(28) == 0x1000_0000;
  }

  lemma WordsOfMagnitude(m: nat)
    requires m < LIMIT
    ensures m == m % WORD + WORD * (m / WORD % WORD + WORD * (m / WORD / WORD % WORD))
  {
    var h := m / WORD;
    assert h / WORD < WORD;
  }

  lemma WordBytes(d: Decimal, i: nat)
    requires i < 3
    ensures LittleEndian(Int32Bytes(Word(d, i)))
            == if i == 0 then d.magnitude % WORD
               else if i == 1 then d.magnitude / WORD % WORD
               else d.magnitude / WORD / WORD % WORD
  {
    BytesOfInt(Word(d, i));
    var w := if i == 0 then d.magnitude % WORD
             else if i == 1 then d.magnitude / WORD % WORD
             else d.magnitude / WORD / WORD % WORD;
    Division.Unique(AsInt(w), WORD, if w >= 0x8000_0000 then -1 else 0, w);
  }

  lemma PartsOf(h: seq<Byte>, p: seq<Byte>, q: seq<Byte>, r: seq<Byte>, t: seq<Byte>)
    requires |h| == 3 && |p| == |q| == |r| == |t| == 4
    ensures var b := h + p + q + r + t;
            b[..3] == h && b[3..7] == p && b[7..11] == q && b[11..15] == r && b[15..19] == t
  {
  }

  // Every decimal comes back with its magnitude, sign and scale, a negative zero included, and
  // its magnitude stands in the buffer byte by byte.
  lemma WrittenReadsBack(d: Decimal)
    requires IsDecimal(d)
    ensures LittleEndian(Written(d)[3..]) == d.magnitude
    ensures ReadBack(Written(d)) == Some(d)
  {
    var b := Written(d);
    var head := [0, ScaleByte(Flags(d)), SignByte(Flags(d))];
    PartsOf(head, Int32Bytes(Word(d, 0)), Int32Bytes(Word(d, 1)), Int32Bytes(Word(d, 2)),
            Int32Bytes(0));
    WordBytes(d, 0);
    WordBytes(d, 1);
    WordBytes(d, 2);
    BytesOfInt(0);
    MagnitudeOfBytes(b);
    WordsOfMagnitude(d.magnitude);
    FlagBytes(d);
    ReadBackExactly(b);
  }

  // Four bytes in place.
  method WriteFour(buffer: array<Byte>, at: nat, b: seq<Byte>)
    requires |b| == 4 && at + 4 <= buffer.Length
    modifies buffer
    ensures buffer[..] == old(buffer[..at]) + b + old(buffer[at + 4..])
  {
    buffer[at], buffer[at + 1], buffer[at + 2], buffer[at + 3] := b[0], b[1], b[2], b[3];
  }

  // The writes of ManagedToNative, in its order; what lies behind the 19 bytes stays.
  method WriteParts(buffer: array<Byte>, scale: Byte, sign: Byte,
                    lo: seq<Byte>, mid: seq<Byte>, hi: seq<Byte>, extra: seq<Byte>)
    requires buffer.Length >= 19 && |lo| == |mid| == |hi| == |extra| == 4
    modifies buffer
    ensures buffer[..] == [0, scale, sign] + lo + mid + hi + extra + old(buffer[19..])
  {
    buffer[0], buffer[1], buffer[2] := 0, scale, sign;
    ghost var all := buffer[..];
    assert all[..3] == [0, scale, sign] && all[19..] == old(buffer[19..]);
    WriteFour(buffer, 3, lo);
    assert buffer[..] == all[..3] + lo + all[7..];
    WriteFour(buffer, 7, mid);
    assert buffer[..] == all[..3] + lo + mid + all[11..];
    WriteFour(buffer, 11, hi);
    assert buffer[..] == all[..3] + lo + mid + hi + all[15..];
    WriteFour(buffer, 15, extra);
    assert buffer[..] == all[..3] + lo + mid + hi + extra + all[19..];
  }

  method ManagedToNative(d: Decimal, buffer: array<Byte>)
    requires IsDecimal(d) && buffer.Length >= 19
    modifies buffer
    ensures buffer[..] == Written(d) + old(buffer[19..])
  {
    WriteParts(buffer, ScaleByte(Flags(d)), SignByte(Flags(d)),
               Int32Bytes(Word(d, 0)), Int32Bytes(Word(d, 1)), Int32Bytes(Word(d, 2)),
               Int32Bytes(0));
  }
}
