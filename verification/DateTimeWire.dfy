/** The 10-byte wire form of dates and times: packing and unpacking fields, and their order. */
module DateTimeWire {
  import Division
  import opened Bits

  datatype Fields = Fields(days: int, hour: int, minute: int, second: int, fraction: int,
                           zone: int, kind: int)

  // Bytes 4, 5 and 8, which carry parts of two fields.
  function MinuteByte(minute: int, second: int): Byte {
    LowByte(Or(Shl(minute, 2), Shr(second, 4)))
  }

  function SecondByte(second: int, fraction: int): Byte {
    LowByte(Or(Shl(second, 4), Shr(fraction, 16)))
  }

  function KindByte(zone: int, kind: int): Byte {
    LowByte(Or(And(Shr(zone, 8), 0x07), Shl(kind, 5)))
  }

  function Pack(f: Fields): (b: seq<Byte>)
    ensures |b| == 10
  {
    [ LowByte(Shr(f.days, 16)), LowByte(Shr(f.days, 8)), LowByte(f.days),
      LowByte(f.hour),
      MinuteByte(f.minute, f.second),
      SecondByte(f.second, f.fraction),
      LowByte(Shr(f.fraction, 8)), LowByte(f.fraction),
      KindByte(f.zone, f.kind), LowByte(f.zone) ]
  }

  // A 32-bit pattern read as a signed int.
  function AsInt32(x: int): int {
    if x >= 0x8000_0000 then x - 0x1_0000_0000 else x
  }

  // Three bytes, the first most significant; 20- and 24-bit fields are read this way.
  function Join3(b0: int, b1: int, b2: int): int {
    Or(Or(Shl(b0, 16), Shl(b1, 8)), b2)
  }

  function UnpackDays(b0: int, b1: int, b2: int): int {
    AsInt32(Or(Join3(b0, b1, b2), if And(b0, 0x80) != 0 then 0xff00_0000 else 0))
  }

  function UnpackSecond(b4: int, b5: int): int {
    Or(Shl(And(b4, 0x03), 4), Shr(b5, 4))
  }

  function ZoneHigh(b8: int): int {
    if And(b8, 0x4) != 0 then Or(And(b8, 0x07), 0xF8) else And(b8, 0x03)
  }

  function UnpackZone(b8: int, b9: int): int {
    var zone := Or(Shl(ZoneHigh(b8), 8), b9);
    if zone > 32767 then zone - 65536 else zone
  }

  function Unpack(b: seq<Byte>): Fields
    requires |b| == 10
  {
    Fields(UnpackDays(b[0] as int, b[1] as int, b[2] as int),
           And(b[3] as int, 0x1F),
           Shr(b[4] as int, 2),
           UnpackSecond(b[4] as int, b[5] as int),
           Join3(And(b[5] as int, 0x0f), b[6] as int, b[7] as int),
           UnpackZone(b[8] as int, b[9] as int),
           Shr(b[8] as int, 5))
  }

  // ---------------------------------------------------------------------------------------
  // The layout as arithmetic
  // ---------------------------------------------------------------------------------------

  predicate Packable(f: Fields) {
    && -0x80_0000 <= f.days < 0x80_0000
    && 0 <= f.hour < 32
    && 0 <= f.minute < 64
    && 0 <= f.second < 64
    && 0 <= f.fraction < 0x10_0000
    && -1024 <= f.zone < 1024
    && 0 <= f.kind < 8
  }

  lemma MinuteOr(minute: int, second: int)
    requires 0 <= second < 64
    ensures Or(Shl(minute, 2), Shr(second, 4)) == minute * 4 + second / 16
  {
    Powers();
    Shift(second, 4, 16);
    OrShifted(minute, 2, 4, second / 16);
  }

  lemma MinuteByteLayout(minute: int, second: int)
    requires 0 <= minute < 64 && 0 <= second < 64
    ensures MinuteByte(minute, second) as int == 4 * minute + second / 16
  {
    MinuteOr(minute, second);
    Division.Unique(minute * 4 + second / 16, 256, 0, 4 * minute + second / 16);
  }

  lemma SecondOr(second: int, fraction: int)
    requires 0 <= fraction < 0x10_0000
    ensures Or(Shl(second, 4), Shr(fraction, 16)) == second * 16 + fraction / 65536
  {
    Powers();
    Shift(fraction, 16, 65536);
    OrShifted(second, 4, 16, fraction / 65536);
  }

  lemma SecondByteLayout(second: int, fraction: int)
    requires 0 <= second < 64 && 0 <= fraction < 0x10_0000
    ensures SecondByte(second, fraction) as int == 16 * (second % 16) + fraction / 65536
  {
    SecondOr(second, fraction);
    LowNibble(second, fraction / 65536);
  }

  lemma LowNibble(second: int, q: int)
    requires 0 <= q < 16
    ensures (second * 16 + q) % 256 == 16 * (second % 16) + q
  {
    Division.Unique(second * 16 + q, 256, second / 16, 16 * (second % 16) + q);
  }

  lemma ZoneTop(zone: int)
    ensures And(Shr(zone, 8), 0x07) == zone / 256 % 8
  {
    Powers();
    Shift(zone, 8, 256);
    AndMask(zone / 256, 3, 8);
  }

  lemma KindAbove(top: int, kind: int)
    requires 0 <= top < 8 && 0 <= kind < 8
    ensures Or(top, Shl(kind, 5)) == top + 32 * kind
    ensures (top + 32 * kind) % 256 == top + 32 * kind
  {
    Powers();
    OrShifted(kind, 5, 32, top);
    Division.Unique(top + 32 * kind, 256, 0, top + 32 * kind);
  }

  lemma KindByteLayout(zone: int, kind: int)
    requires 0 <= kind < 8
    ensures KindByte(zone, kind) as int == zone / 256 % 8 + 32 * kind
  {
    ZoneTop(zone);
    KindAbove(zone / 256 % 8, kind);
  }

  // What each of the ten bytes says about the fields written.
  predicate Written(f: Fields, b: seq<Byte>)
    requires |b| == 10
  {
    && b[0] as int == f.days / 65536 % 256
    && b[1] as int == f.days / 256 % 256
    && b[2] as int == f.days % 256
    && b[3] as int == f.hour
    && b[4] as int == 4 * f.minute + f.second / 16
    && b[5] as int == 16 * (f.second % 16) + f.fraction / 65536
    && b[6] as int == f.fraction / 256 % 256
    && b[7] as int == f.fraction % 256
    && b[8] as int == f.zone / 256 % 8 + 32 * f.kind
    && b[9] as int == f.zone % 256
  }

  // What each field read says about the ten bytes.
  predicate ReadFrom(f: Fields, b: seq<Byte>)
    requires |b| == 10
  {
    && f.days == 65536 * b[0] as int + 256 * b[1] as int + b[2] as int
                 - (if b[0] >= 128 then 0x100_0000 else 0)
    && f.hour == b[3] as int % 32
    && f.minute == b[4] as int / 4
    && f.second == 16 * (b[4] as int % 4) + b[5] as int / 16
    && f.fraction == 65536 * (b[5] as int % 16) + 256 * b[6] as int + b[7] as int
    && f.zone == 256 * (b[8] as int % 8) + b[9] as int
                 - (if b[8] as int % 8 >= 4 then 2048 else 0)
    && f.kind == b[8] as int / 32
  }

  lemma PackedBytes(f: Fields)
    requires Packable(f)
    ensures Written(f, Pack(f))
  {
    PackedShifts(f.days, f.fraction);
    PlainByte(f.hour);
    MinuteByteLayout(f.minute, f.second);
    SecondByteLayout(f.second, f.fraction);
    KindByteLayout(f.zone, f.kind);
    BytesWritten(f, Pack(f));
  }

  lemma PlainByte(x: int)
    requires 0 <= x < 256
    ensures LowByte(x) as int == x
  {
  }

  lemma BytesWritten(f: Fields, b: seq<Byte>)
    requires Packable(f) && |b| == 10 && b == Pack(f)
    requires b[0] as int == f.days / 65536 % 256 && b[1] as int == f.days / 256 % 256
    requires b[3] as int == f.hour && b[4] as int == 4 * f.minute + f.second / 16
    requires b[5] as int == 16 * (f.second % 16) + f.fraction / 65536
    requires b[6] as int == f.fraction / 256 % 256
    requires b[8] as int == f.zone / 256 % 8 + 32 * f.kind
    ensures Written(f, b)
  {
  }

  lemma PackedShifts(days: int, fraction: int)
    ensures LowByte(Shr(days, 16)) as int == days / 65536 % 256
    ensures LowByte(Shr(days, 8)) as int == days / 256 % 256
    ensures LowByte(Shr(fraction, 8)) as int == fraction / 256 % 256
  {
    Powers();
  }

  lemma JoinedBytes(b0: int, b1: int, b2: int)
    requires 0 <= b0 < 256 && 0 <= b1 < 256 && 0 <= b2 < 256
    ensures Join3(b0, b1, b2) == 65536 * b0 + 256 * b1 + b2
  {
    JoinedHigh(b0, b1);
    Powers();
    OrDisjoint(256 * b0 + b1, b2, 8, 256);
  }

  lemma JoinedHigh(b0: int, b1: int)
    requires 0 <= b0 < 256 && 0 <= b1 < 256
    ensures Or(Shl(b0, 16), Shl(b1, 8)) == 65536 * b0 + 256 * b1
  {
    Powers();
    Shift(b1, 8, 256);
    OrShifted(b0, 16, 65536, b1 * 256);
  }

  lemma SignBit(b0: int)
    requires 0 <= b0 < 256
    ensures And(b0, 0x80) != 0 <==> b0 >= 128
  {
    Powers();
    AndBit(b0, 7);
  }

  lemma SignExtended(days: int)
    requires 0 <= days < 0x100_0000
    ensures Or(days, 0xff00_0000) == days + 0xff00_0000
    ensures Or(days, 0) == days
  {
    Powers();
    OrDisjoint(0xff, days, 24, 0x100_0000);
  }

  lemma UnpackedDays(b0: int, b1: int, b2: int)
    requires 0 <= b0 < 256 && 0 <= b1 < 256 && 0 <= b2 < 256
    ensures UnpackDays(b0, b1, b2)
            == 65536 * b0 + 256 * b1 + b2 - (if b0 >= 128 then 0x100_0000 else 0)
  {
    JoinedBytes(b0, b1, b2);
    SignBit(b0);
    SignExtended(65536 * b0 + 256 * b1 + b2);
  }

  lemma UnpackedSecond(b4: int, b5: int)
    requires 0 <= b4 < 256 && 0 <= b5 < 256
    ensures UnpackSecond(b4, b5) == 16 * (b4 % 4) + b5 / 16
  {
    Powers();
    AndMask(b4, 2, 4);
    Shift(b4 % 4, 4, 16);
    Shift(b5, 4, 16);
    OrDisjoint(b4 % 4, b5 / 16, 4, 16);
  }

  lemma ZoneSign(b8: int)
    requires 0 <= b8 < 256
    ensures And(b8, 0x4) != 0 <==> b8 % 8 >= 4
  {
    Powers();
    BitTest(b8, 2, 4);
    HalfOfEight(b8);
  }

  lemma HalfOfEight(b8: int)
    ensures b8 / 4 % 2 == 1 <==> b8 % 8 >= 4
  {
    var q, r := b8 / 8, b8 % 8;
    Division.Unique(b8, 4, 2 * q + r / 4, r % 4);
  }

  lemma ZoneMasks(b8: int)
    ensures And(b8, 0x07) == b8 % 8 && And(b8, 0x03) == b8 % 4
  {
    Powers();
    AndMask(b8, 3, 8);
    AndMask(b8, 2, 4);
  }

  lemma ZoneExtended(low: int)
    requires 0 <= low < 8
    ensures Or(low, 0xF8) == low + 0xF8
  {
    Powers();
    OrDisjoint(0x1F, low, 3, 8);
  }

  lemma ZoneHighBits(b8: int)
    requires 0 <= b8 < 256
    ensures ZoneHigh(b8) == if b8 % 8 >= 4 then b8 % 8 + 0xF8 else b8 % 8
  {
    ZoneSign(b8);
    ZoneMasks(b8);
    ZoneExtended(b8 % 8);
    ZoneLow(b8);
  }

  lemma ZoneLow(b8: int)
    ensures b8 % 8 < 4 ==> b8 % 4 == b8 % 8
  {
  }

  lemma ZoneJoined(high: int, b9: int)
    requires 0 <= high < 256 && 0 <= b9 < 256
    ensures Or(Shl(high, 8), b9) == 256 * high + b9
  {
    Powers();
    Shift(high, 8, 256);
    OrDisjoint(high, b9, 8, 256);
  }

  lemma UnpackedZone(b8: int, b9: int)
    requires 0 <= b8 < 256 && 0 <= b9 < 256
    ensures UnpackZone(b8, b9) == 256 * (b8 % 8) + b9 - (if b8 % 8 >= 4 then 2048 else 0)
  {
    ZoneHighBits(b8);
    ZoneJoined(ZoneHigh(b8), b9);
  }

  lemma UnpackedShort(b3: int, b4: int, b8: int)
    ensures And(b3, 0x1F) == b3 % 32 && Shr(b4, 2) == b4 / 4 && Shr(b8, 5) == b8 / 32
  {
    Powers();
    AndMask(b3, 5, 32);
    Shift(b4, 2, 4);
    Shift(b8, 5, 32);
  }

  lemma UnpackedFraction(b5: int, b6: int, b7: int)
    requires 0 <= b5 < 256 && 0 <= b6 < 256 && 0 <= b7 < 256
    ensures Join3(And(b5, 0x0f), b6, b7) == 65536 * (b5 % 16) + 256 * b6 + b7
  {
    Powers();
    AndMask(b5, 4, 16);
    JoinedBytes(b5 % 16, b6, b7);
  }

  lemma UnpackedFields(b: seq<Byte>)
    requires |b| == 10
    ensures ReadFrom(Unpack(b), b)
  {
    UnpackedDays(b[0] as int, b[1] as int, b[2] as int);
    UnpackedShort(b[3] as int, b[4] as int, b[8] as int);
    UnpackedSecond(b[4] as int, b[5] as int);
    UnpackedFraction(b[5] as int, b[6] as int, b[7] as int);
    UnpackedZone(b[8] as int, b[9] as int);
  }

  // Splitting an integer into bytes and putting it together again, field by field.
  lemma DaysSplit(days: int)
    requires -0x80_0000 <= days < 0x80_0000
    ensures var hi := days / 65536 % 256;
            days == 65536 * hi + 256 * (days / 256 % 256) + days % 256
                    - (if hi >= 128 then 0x100_0000 else 0)
  {
  }

  lemma FractionSplit(fraction: int)
    requires 0 <= fraction < 0x10_0000
    ensures fraction == 65536 * (fraction / 65536) + 256 * (fraction / 256 % 256) + fraction % 256
    ensures 0 <= fraction / 65536 < 16
  {
  }

  lemma ZoneSplit(zone: int)
    requires -1024 <= zone < 1024
    ensures var hi := zone / 256 % 8;
            zone == 256 * hi + zone % 256 - (if hi >= 4 then 2048 else 0)
  {
  }

  lemma SecondSplit(minute: int, second: int, q: int)
    requires 0 <= second < 64 && 0 <= q < 16
    ensures (4 * minute + second / 16) / 4 == minute && (4 * minute + second / 16) % 4 == second / 16
    ensures (16 * (second % 16) + q) / 16 == second % 16 && (16 * (second % 16) + q) % 16 == q
    ensures second == 16 * (second / 16) + second % 16
  {
  }

  lemma KindSplit(high: int, kind: int)
    requires 0 <= high < 8
    ensures (high + 32 * kind) % 8 == high && (high + 32 * kind) / 32 == kind
  {
    Division.Unique(high + 32 * kind, 8, 4 * kind, high);
    Division.Unique(high + 32 * kind, 32, kind, high);
  }

  lemma ReadOfWritten(f: Fields, g: Fields, b: seq<Byte>)
    requires |b| == 10 && Packable(f) && Written(f, b) && ReadFrom(g, b)
    ensures g == f
  {
    DaysSplit(f.days);
    FractionSplit(f.fraction);
    SecondSplit(f.minute, f.second, f.fraction / 65536);
    ZoneSplit(f.zone);
    KindSplit(f.zone / 256 % 8, f.kind);
  }

  lemma DaysJoin(x: int, y: int, z: int, days: int)
    requires 0 <= x < 256 && 0 <= y < 256 && 0 <= z < 256
    requires days == 65536 * x + 256 * y + z - (if x >= 128 then 0x100_0000 else 0)
    ensures days / 65536 % 256 == x && days / 256 % 256 == y && days % 256 == z
  {
    var g := if x >= 128 then 1 else 0;
    Division.Unique(days, 256, 256 * x + y - 65536 * g, z);
    Division.Unique(256 * x + y - 65536 * g, 256, x - 256 * g, y);
    Division.Unique(days, 65536, x - 256 * g, 256 * y + z);
    Division.Unique(x - 256 * g, 256, -g, x);
  }

  lemma SecondJoin(x: int, y: int, second: int)
    requires 0 <= x < 256 && 0 <= y < 256 && second == 16 * (x % 4) + y / 16
    ensures 4 * (x / 4) + second / 16 == x && second % 16 == y / 16
  {
  }

  lemma FractionJoin(x: int, y: int, z: int, fraction: int)
    requires 0 <= x < 16 && 0 <= y < 256 && 0 <= z < 256
    requires fraction == 65536 * x + 256 * y + z
    ensures fraction / 65536 == x && fraction / 256 % 256 == y && fraction % 256 == z
  {
  }

  lemma ZoneJoin(x: int, y: int, zone: int)
    requires 0 <= x < 8 && 0 <= y < 256
    requires zone == 256 * x + y - (if x >= 4 then 2048 else 0)
    ensures zone / 256 % 8 == x && zone % 256 == y
  {
  }

  lemma WrittenOfRead(f: Fields, b: seq<Byte>, c: seq<Byte>)
    requires |b| == |c| == 10 && ReadFrom(f, b) && Written(f, c)
    ensures forall i :: 0 <= i < 10 && i != 3 && i != 8 ==> c[i] == b[i]
    ensures c[3] as int == b[3] as int % 32
    ensures c[8] as int == b[8] as int % 8 + 32 * (b[8] as int / 32)
  {
    DaysJoin(b[0] as int, b[1] as int, b[2] as int, f.days);
    SecondJoin(b[4] as int, b[5] as int, f.second);
    FractionJoin(b[5] as int % 16, b[6] as int, b[7] as int, f.fraction);
    ZoneJoin(b[8] as int % 8, b[9] as int, f.zone);
  }

  lemma ReadIsPackable(f: Fields, b: seq<Byte>)
    requires |b| == 10 && ReadFrom(f, b)
    ensures Packable(f)
  {
  }

  // ---------------------------------------------------------------------------------------
  // Packing and unpacking undo each other
  // ---------------------------------------------------------------------------------------

  // Unpacking undoes packing exactly on the fields that fit their bits, both signs included.
  lemma UnpackOfPack(f: Fields)
    ensures Unpack(Pack(f)) == f <==> Packable(f)
  {
    UnpackedFields(Pack(f));
    ReadIsPackable(Unpack(Pack(f)), Pack(f));
    if Packable(f) {
      PackedBytes(f);
      ReadOfWritten(f, Unpack(Pack(f)), Pack(f));
    }
  }

  // Packing undoes unpacking exactly on bytes whose unused bits are clear: the three high bits
  // of the hour (the server's zone-less mark among them) and bits 3 and 4 of byte 8.
  lemma PackOfUnpack(b: seq<Byte>)
    requires |b| == 10
    ensures Pack(Unpack(b)) == b <==> b[3] < 32 && b[8] as int / 8 % 4 == 0
  {
    var f := Unpack(b);
    UnpackedFields(b);
    ReadIsPackable(f, b);
    PackedBytes(f);
    WrittenOfRead(f, b, Pack(f));
    SpareBits(b, Pack(f));
  }

  lemma SpareBits(b: seq<Byte>, c: seq<Byte>)
    requires |b| == |c| == 10
    requires forall i :: 0 <= i < 10 && i != 3 && i != 8 ==> c[i] == b[i]
    requires c[3] as int == b[3] as int % 32
    requires c[8] as int == b[8] as int % 8 + 32 * (b[8] as int / 32)
    ensures c == b <==> b[3] < 32 && b[8] as int / 8 % 4 == 0
  {
    assert c == b <==> c[3] == b[3] && c[8] == b[8];
    KindBits(b[8] as int);
  }

  lemma KindBits(x: int)
    ensures x % 8 + 32 * (x / 32) == x <==> x / 8 % 4 == 0
  {
  }

  // ---------------------------------------------------------------------------------------
  // Byte order is time order
  // ---------------------------------------------------------------------------------------

  predicate LexLess(a: seq<Byte>, b: seq<Byte>)
    requires |a| == |b|
  {
    |a| > 0 && (a[0] < b[0] || (a[0] == b[0] && LexLess(a[1..], b[1..])))
  }

  function BigEndian(b: seq<Byte>): nat {
    if b == [] then 0 else b[0] as nat * Pow256(|b| - 1) + BigEndian(b[1..])
  }

  function Pow256(k: nat): (p: nat)
    ensures p >= 1
  {
    if k == 0 then 1 else 256 * Pow256(k - 1)
  }

  lemma {:induction false} BigEndianBound(b: seq<Byte>)
    ensures BigEndian(b) < Pow256(|b|)
  {
    if b == [] {
    } else {
      BigEndianBound(b[1..]);
      var p := Pow256(|b| - 1);
      Division.MulMono(b[0] as int, 255, p);
    }
  }

  lemma {:induction false} LexIsNumeric(a: seq<Byte>, b: seq<Byte>)
    requires |a| == |b|
    ensures LexLess(a, b) <==> BigEndian(a) < BigEndian(b)
  {
    if a == [] {
    } else {
      LexIsNumeric(a[1..], b[1..]);
      BigEndianBound(a[1..]);
      BigEndianBound(b[1..]);
      Division.HeadDecides(a[0] as int, b[0] as int, Pow256(|a| - 1), BigEndian(a[1..]), BigEndian(b[1..]));
    }
  }

  lemma Eight(b: seq<Byte>)
    requires |b| == 8
    ensures BigEndian(b) == ((((((b[0] as int * 256 + b[1] as int) * 256 + b[2] as int) * 256
                              + b[3] as int) * 256 + b[4] as int) * 256 + b[5] as int) * 256
                              + b[6] as int) * 256 + b[7] as int
  {
    BigEndianSnoc(b[..7], b[7]);
    BigEndianSnoc(b[..6], b[6]);
    BigEndianSnoc(b[..5], b[5]);
    BigEndianSnoc(b[..4], b[4]);
    BigEndianSnoc(b[..3], b[3]);
    BigEndianSnoc(b[..2], b[2]);
    BigEndianSnoc(b[..1], b[1]);
    BigEndianSnoc([], b[0]);
    assert forall i :: 0 <= i < 8 ==> b[..i] + [b[i]] == b[..i + 1];
    assert b[..8] == b && b[..0] == [];
  }

  lemma {:induction false} BigEndianSnoc(b: seq<Byte>, x: Byte)
    ensures BigEndian(b + [x]) == BigEndian(b) * 256 + x as int
  {
    if b == [] {
      assert [] + [x] == [x];
    } else {
      BigEndianSnoc(b[1..], x);
      assert (b + [x])[1..] == b[1..] + [x];
      var p := Pow256(|b| - 1);
      assert b[0] as int * (256 * p) == b[0] as int * p * 256;
    }
  }

  // The first eight bytes of a packed date-time, read as one number.
  lemma PackedNumber(f: Fields)
    requires Packable(f) && f.days >= 0
    ensures BigEndian(Pack(f)[..8])
            == (((f.days * 256 + f.hour) * 64 + f.minute) * 64 + f.second) * 0x10_0000 + f.fraction
  {
    PackedBytes(f);
    var b := Pack(f);
    Eight(b[..8]);
    DaysSplit(f.days);
    FractionSplit(f.fraction);
  }

  // The first eight bytes compare as the day and the time of day do.
  lemma FieldOrder(f: Fields, g: Fields)
    requires Packable(f) && Packable(g) && f.days >= 0 && g.days >= 0
    ensures LexLess(Pack(f)[..8], Pack(g)[..8]) <==>
            || f.days < g.days
            || (f.days == g.days
                && (f.hour < g.hour
                    || (f.hour == g.hour
                        && (f.minute < g.minute
                            || (f.minute == g.minute
                                && (f.second < g.second
                                    || (f.second == g.second && f.fraction < g.fraction)))))))
  {
    LexIsNumeric(Pack(f)[..8], Pack(g)[..8]);
    PackedNumber(f);
    PackedNumber(g);
  }

  // Type and zone survive whatever the other fields are.
  lemma ZoneSurvives(f: Fields)
    requires -1024 <= f.zone < 1024 && 0 <= f.kind < 8
    ensures Unpack(Pack(f)).zone == f.zone && Unpack(Pack(f)).kind == f.kind
  {
    var b := Pack(f);
    UnpackedFields(b);
    KindByteLayout(f.zone, f.kind);
    ZoneBytes(f.zone, f.kind, b[8] as int, b[9] as int);
  }

  lemma ZoneBytes(zone: int, kind: int, b8: int, b9: int)
    requires -1024 <= zone < 1024
    requires b8 == zone / 256 % 8 + 32 * kind && b9 == zone % 256
    ensures 256 * (b8 % 8) + b9 - (if b8 % 8 >= 4 then 2048 else 0) == zone && b8 / 32 == kind
  {
    ZoneSplit(zone);
    KindSplit(zone / 256 % 8, kind);
  }
}
