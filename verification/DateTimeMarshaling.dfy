/** Dates, times and time spans of .NET through the wire: what is sent, what comes back, and in
    which order the bytes stand. */
module DateTimeMarshaling {
  import Division
  import opened Wrappers
  import opened Bits
  import opened Calendar
  import opened DotNetCalendar
  import opened ReceivedDates
  import opened DateTimeWire

  const DT_TYPE_DATETIME := 1
  const DT_TYPE_DATE := 2
  const DT_TYPE_TIME := 3
  const DAY_ZERO := 1999 * 365
  const DV_DATETIME: Byte := 211

  const SECOND_TICKS := 10000000
  const MINUTE_TICKS := 600000000
  const HOUR_TICKS := 36000000000
  const DAY_TICKS := 864000000000

  // A value already moved to UTC. A Moment stands for DateTime, VirtuosoDateTime and
  // VirtuosoDateTimeOffset: a date and the ticks since midnight. A Span stands for TimeSpan and
  // VirtuosoTimeSpan: a number of ticks of either sign.
  datatype Value =
    | Moment(date: Date, ticks: int, zone: int)
    | Span(ticks: int)
    | Foreign

  // The components .NET derives from ticks.
  function Hours(t: int): int {
    Rem(Quot(t, HOUR_TICKS), 24)
  }

  function Minutes(t: int): int {
    Rem(Quot(t, MINUTE_TICKS), 60)
  }

  function Seconds(t: int): int {
    Rem(Quot(t, SECOND_TICKS), 60)
  }

  function Microseconds(t: int): int {
    Quot(Rem(t, SECOND_TICKS), 10)
  }

  // The fields written for a value, or None where the source throws InvalidCastException.
  function FieldsOf(value: Value, kind: int): Option<Fields>
    requires value.Moment? ==> 1 <= value.date.month <= 12
  {
    match value
    case Moment(date, t, zone) =>
      if kind == DT_TYPE_DATETIME then
        Some(Fields(GetDays(date), Hours(t), Minutes(t), Seconds(t), Microseconds(t), zone, kind))
      else if kind == DT_TYPE_DATE then Some(Fields(GetDays(date), 0, 0, 0, 0, zone, kind))
      else None
    case Span(t) =>
      if kind == DT_TYPE_TIME then
        Some(Fields(DAY_ZERO, Hours(t), Minutes(t), Seconds(t), Microseconds(t), 0, kind))
      else None
    case Foreign => None
  }

  // What BytesToObject delivers: the time in UTC and the zone. OutOfRange is the exception of a
  // constructor that is given a date, time or zone it does not take.
  datatype Received =
    | ReceivedMoment(stamp: DatedEra, ticks: int, zone: int, kind: int)
    | ReceivedSpan(ticks: int)
    | OutOfRange
    | InvalidCast

  function TicksOf(f: Fields): int {
    f.hour * HOUR_TICKS + f.minute * MINUTE_TICKS + f.second * SECOND_TICKS + f.fraction * 10
  }

  predicate ClockTime(f: Fields) {
    && 0 <= f.hour < 24 && 0 <= f.minute < 60 && 0 <= f.second < 60
    && 0 <= f.fraction <= 999999
  }

  const MAX_OFFSET := 840

  // The constructors add the zone to the time, which must not leave the years 1 to 9999, and
  // DateTimeOffset, used for a DATETIME, takes zones up to 14 hours.
  predicate LocalTimeExists(date: Date, ticks: int, zone: int, kind: int) {
    && (kind == DT_TYPE_DATETIME ==> -MAX_OFFSET <= zone <= MAX_OFFSET)
    && (date == FIRST_DATE ==> 0 <= ticks + zone * MINUTE_TICKS)
    && (date == LAST_DATE ==> ticks + zone * MINUTE_TICKS < DAY_TICKS)
  }

  function Decode(b: seq<Byte>): Received
    requires |b| == 10
  {
    var f := Unpack(b);
    if f.kind == DT_TYPE_TIME then
      if 0 <= f.fraction <= 999999 then ReceivedSpan(TicksOf(f) + f.zone * MINUTE_TICKS)
      else OutOfRange
    else if f.kind == DT_TYPE_DATETIME || f.kind == DT_TYPE_DATE then
      var stamp := GetDate(f.days);
      if && DotNetDate(stamp.date) && ClockTime(f)
         && LocalTimeExists(stamp.date, TicksOf(f), f.zone, f.kind)
      then ReceivedMoment(stamp, TicksOf(f), f.zone, f.kind)
      else OutOfRange
    else
      InvalidCast
  }

  // ---------------------------------------------------------------------------------------
  // Ticks and clock components
  // ---------------------------------------------------------------------------------------

  // Seconds of a day, split by 60, 60 and 24.
  lemma ClockSplit(s: int)
    requires s >= 0
    ensures s / 3600 % 24 * 3600 + s / 60 % 60 * 60 + s % 60 == s % 86400
  {
    Division.Twice(s, 60, 60);
    Division.Twice(s, 3600, 24);
    var m := s / 60;
    var h := m / 60;
    var r := h % 24 * 3600 + m % 60 * 60 + s % 60;
    Division.Unique(s, 86400, h / 24, r);
  }

  lemma ComponentsInRange(t: int)
    requires t >= 0
    ensures 0 <= Hours(t) < 24 && 0 <= Minutes(t) < 60 && 0 <= Seconds(t) < 60
    ensures 0 <= Microseconds(t) <= 999999
    ensures Hours(t) == t / SECOND_TICKS / 3600 % 24
    ensures Minutes(t) == t / SECOND_TICKS / 60 % 60
    ensures Seconds(t) == t / SECOND_TICKS % 60
    ensures Microseconds(t) == t % SECOND_TICKS / 10
  {
    Division.Twice(t, SECOND_TICKS, 3600);
    Division.Twice(t, SECOND_TICKS, 60);
  }

  // The components say everything about a number of ticks but the days and the last digit.
  lemma ComponentsRebuild(t: int)
    requires t >= 0
    ensures Hours(t) * HOUR_TICKS + Minutes(t) * MINUTE_TICKS + Seconds(t) * SECOND_TICKS
            + Microseconds(t) * 10 == t % DAY_TICKS - t % 10
  {
    ComponentsInRange(t);
    var s, r := t / SECOND_TICKS, t % SECOND_TICKS;
    ClockSplit(s);
    Division.Unique(t, DAY_TICKS, s / 86400, s % 86400 * SECOND_TICKS + r);
    Division.Shift(r, 10, s * 1000000);
  }

  // ---------------------------------------------------------------------------------------
  // Time spans
  // ---------------------------------------------------------------------------------------

  function SpanWire(t: int): seq<Byte> {
    Pack(FieldsOf(Span(t), DT_TYPE_TIME).value)
  }

  lemma SpanDecoded(f: Fields)
    requires Packable(f) && f.kind == DT_TYPE_TIME && f.zone == 0 && 0 <= f.fraction <= 999999
    ensures Decode(Pack(f)) == ReceivedSpan(TicksOf(f))
  {
    UnpackOfPack(f);
  }

  lemma NonNegativeSpan(t: int)
    requires t >= 0
    ensures Decode(SpanWire(t)) == ReceivedSpan(t % DAY_TICKS - t % 10)
  {
    ComponentsInRange(t);
    ComponentsRebuild(t);
    SpanDecoded(FieldsOf(Span(t), DT_TYPE_TIME).value);
  }

  lemma ReceivedSpanIsNonNegative(t: int)
    ensures Decode(SpanWire(t)).OutOfRange?
            || (Decode(SpanWire(t)).ReceivedSpan? && Decode(SpanWire(t)).ticks >= 0)
  {
    var f := FieldsOf(Span(t), DT_TYPE_TIME).value;
    ZoneSurvives(f);
    UnpackedFields(Pack(f));
    ReadIsPackable(Unpack(Pack(f)), Pack(f));
  }

  lemma DayZeroBytes(f: Fields)
    requires f.days == 729635
    ensures Pack(f)[0] == 11 && Pack(f)[1] == 34 && Pack(f)[2] == 35
  {
    PackedShifts(f.days, f.fraction);
  }

  lemma TimeKindBytes(f: Fields)
    requires f.zone == 0 && f.kind == 3
    ensures Pack(f)[8] == 96 && Pack(f)[9] == 0
  {
    KindByteLayout(f.zone, f.kind);
  }

  // Every time span is sent on day 729635 and without a zone.
  lemma SpanIsSentOnDayZero(t: int)
    ensures SpanWire(t)[0] == 11 && SpanWire(t)[1] == 34 && SpanWire(t)[2] == 35
    ensures SpanWire(t)[8] == 96 && SpanWire(t)[9] == 0
  {
    DayZeroBytes(FieldsOf(Span(t), DT_TYPE_TIME).value);
    TimeKindBytes(FieldsOf(Span(t), DT_TYPE_TIME).value);
  }

  lemma TimeOfDayInMicroseconds(t: int)
    requires t >= 0
    ensures t % DAY_TICKS - t % 10 == t <==> t < DAY_TICKS && t % 10 == 0
  {
  }

  // Of a time span its days and the last digit of its ticks are lost, and a negative one never
  // comes back: the ticks survive exactly when they are those of a time of day in microseconds.
  lemma SpanThroughWire(t: int)
    ensures t >= 0 ==> Decode(SpanWire(t)) == ReceivedSpan(t % DAY_TICKS - t % 10)
    ensures Decode(SpanWire(t)) == ReceivedSpan(t) <==> 0 <= t < DAY_TICKS && t % 10 == 0
  {
    var r := Decode(SpanWire(t));
    if t >= 0 {
      NonNegativeSpan(t);
      TimeOfDayInMicroseconds(t);
    } else {
      ReceivedSpanIsNonNegative(t);
    }
  }

  lemma SpanComesBackAs(t: int, r: int)
    requires t >= 0 && r == t % DAY_TICKS - t % 10
    ensures Decode(SpanWire(t)) == ReceivedSpan(r)
  {
    NonNegativeSpan(t);
  }

  lemma DayDropsOut(t: int, u: int)
    requires 0 <= t < DAY_TICKS && u == DAY_TICKS + t
    ensures u % DAY_TICKS - u % 10 == t - t % 10
  {
    Division.Unique(u, DAY_TICKS, 1, t);
    Division.Shift(t, 10, 86400000000);
  }

  // A day is lost from a span of one to two days: 26 hours come back as two.
  lemma LongSpanIsCut(t: int, u: int)
    requires 0 <= t < DAY_TICKS && u == DAY_TICKS + t
    ensures Decode(SpanWire(u)) == ReceivedSpan(t - t % 10)
  {
    DayDropsOut(t, u);
    SpanComesBackAs(u, t - t % 10);
  }

  // ---------------------------------------------------------------------------------------
  // Date-times
  // ---------------------------------------------------------------------------------------

  // A date-time System.DateTime can hold, with a zone offset of at most 17 hours.
  predicate DotNetMoment(v: Value) {
    && v.Moment?
    && DotNetDate(v.date) && 0 <= v.ticks < DAY_TICKS && -1024 <= v.zone < 1024
  }

  lemma MomentIsPackable(v: Value, kind: int)
    requires DotNetMoment(v) && (kind == DT_TYPE_DATETIME || kind == DT_TYPE_DATE)
    ensures Packable(FieldsOf(v, kind).value) && ClockTime(FieldsOf(v, kind).value)
    ensures FieldsOf(v, kind).value.days >= 1
  {
    DotNetDatesFit(v.date);
    ComponentsInRange(v.ticks);
  }

  // The time of day that is sent: to the microsecond, or none for a DATE.
  function SentTicks(v: Value, kind: int): int
    requires v.Moment?
  {
    if kind == DT_TYPE_DATE then 0 else v.ticks - v.ticks % 10
  }

  lemma MomentDecoded(f: Fields)
    requires Packable(f) && ClockTime(f)
    requires f.kind == DT_TYPE_DATETIME || f.kind == DT_TYPE_DATE
    requires DotNetDate(GetDate(f.days).date)
    ensures Decode(Pack(f))
            == if LocalTimeExists(GetDate(f.days).date, TicksOf(f), f.zone, f.kind)
               then ReceivedMoment(GetDate(f.days), TicksOf(f), f.zone, f.kind)
               else OutOfRange
  {
    UnpackOfPack(f);
  }

  lemma TicksOfMoment(v: Value, kind: int)
    requires DotNetMoment(v) && FieldsOf(v, kind).Some?
    ensures TicksOf(FieldsOf(v, kind).value) == SentTicks(v, kind)
  {
    ComponentsRebuild(v.ticks);
    Division.Unique(v.ticks, DAY_TICKS, 0, v.ticks);
  }

  // What a receiver gets for a date-time.
  function ReceivedFor(v: Value, kind: int): Received
    requires DotNetMoment(v)
  {
    if LocalTimeExists(v.date, SentTicks(v, kind), v.zone, kind)
    then ReceivedMoment(DatedEra(CameBack(v.date), AD), SentTicks(v, kind), v.zone, kind)
    else OutOfRange
  }

  // A date-time comes back on the date that its day number stands for, to the microsecond, if its
  // local time exists. So the date survives exactly outside March to December of AD 4 and the ten
  // dropped days.
  lemma MomentThroughWire(v: Value, kind: int)
    requires DotNetMoment(v)
    ensures FieldsOf(v, kind).Some? <==> kind == DT_TYPE_DATETIME || kind == DT_TYPE_DATE
    ensures FieldsOf(v, kind).Some? ==>
              Decode(Pack(FieldsOf(v, kind).value)) == ReceivedFor(v, kind)
    ensures CameBack(v.date) == v.date <==> !Dropped(v.date) && !InYear4Window(v.date)
  {
    DateOfDotNetDays(v.date);
    EndsComeBack(v.date);
    if FieldsOf(v, kind).Some? {
      MomentIsPackable(v, kind);
      TicksOfMoment(v, kind);
      MomentDecoded(FieldsOf(v, kind).value);
    }
  }

  // A date-time comes back as it was sent exactly when its date does, its local time exists and
  // its time of day has whole microseconds, or is midnight if it is sent as a DATE.
  lemma ComesBackAsSentExactly(v: Value, kind: int)
    requires DotNetMoment(v) && (kind == DT_TYPE_DATETIME || kind == DT_TYPE_DATE)
    ensures Decode(Pack(FieldsOf(v, kind).value))
            == ReceivedMoment(DatedEra(v.date, AD), v.ticks, v.zone, kind)
            <==> && !Dropped(v.date) && !InYear4Window(v.date)
                 && LocalTimeExists(v.date, v.ticks, v.zone, kind)
                 && (if kind == DT_TYPE_DATE then v.ticks == 0 else v.ticks % 10 == 0)
  {
    MomentThroughWire(v, kind);
  }

  // The zone is added to midnight, not to the time of day that was left out.
  lemma FirstDateIsLost(v: Value)
    requires DotNetMoment(v) && v.date == FIRST_DATE && v.zone < 0
    ensures Decode(Pack(FieldsOf(v, DT_TYPE_DATE).value)) == OutOfRange
  {
    MomentThroughWire(v, DT_TYPE_DATE);
  }

  // ---------------------------------------------------------------------------------------
  // Byte order and time order
  // ---------------------------------------------------------------------------------------

  predicate Earlier(v: Value, w: Value)
    requires v.Moment? && w.Moment?
  {
    Before(v.date, w.date) || (v.date == w.date && v.ticks < w.ticks)
  }

  predicate BytesLess(v: Value, w: Value)
    requires DotNetMoment(v) && DotNetMoment(w)
  {
    LexLess(Pack(FieldsOf(v, DT_TYPE_DATETIME).value)[..8],
            Pack(FieldsOf(w, DT_TYPE_DATETIME).value)[..8])
  }

  lemma ClockOrder(t: int, u: int)
    requires 0 <= t < DAY_TICKS && 0 <= u < DAY_TICKS
    ensures t / 10 < u / 10 <==>
            || Hours(t) < Hours(u)
            || (Hours(t) == Hours(u)
                && (Minutes(t) < Minutes(u)
                    || (Minutes(t) == Minutes(u)
                        && (Seconds(t) < Seconds(u)
                            || (Seconds(t) == Seconds(u) && Microseconds(t) < Microseconds(u))))))
  {
    TenthsOf(t);
    TenthsOf(u);
  }

  lemma TenthsOf(t: int)
    requires 0 <= t < DAY_TICKS
    ensures 0 <= Hours(t) < 24 && 0 <= Minutes(t) < 60 && 0 <= Seconds(t) < 60
    ensures 0 <= Microseconds(t) <= 999999
    ensures t / 10 == ((Hours(t) * 60 + Minutes(t)) * 60 + Seconds(t)) * 1000000 + Microseconds(t)
  {
    ComponentsInRange(t);
    ComponentsRebuild(t);
    Division.Unique(t, DAY_TICKS, 0, t);
  }

  // The bytes order date-times by the dates their numbers stand for and then by microseconds.
  lemma BytesOrderCanonicalDates(v: Value, w: Value)
    requires DotNetMoment(v) && DotNetMoment(w)
    ensures BytesLess(v, w) <==>
            || Before(Canonical(v.date), Canonical(w.date))
            || (Canonical(v.date) == Canonical(w.date) && v.ticks / 10 < w.ticks / 10)
  {
    MomentIsPackable(v, DT_TYPE_DATETIME);
    MomentIsPackable(w, DT_TYPE_DATETIME);
    FieldOrder(FieldsOf(v, DT_TYPE_DATETIME).value, FieldsOf(w, DT_TYPE_DATETIME).value);
    ClockOrder(v.ticks, w.ticks);
    CanonicalHasSameNumber(v.date);
    CanonicalHasSameNumber(w.date);
    DaysOrderDates(Canonical(v.date), Canonical(w.date));
  }

  // A dropped day whose number is past that of e, a later day of October 1582.
  predicate Overtakes(d: Date, e: Date) {
    Dropped(d) && e.year == GREG_YEAR && e.month == GREG_MONTH && GREG_LAST_DAY < e.day < d.day + 10
  }

  // Two different dates with the same number.
  predicate SameNumber(d: Date, e: Date) {
    || (Dropped(d) && e == d.(day := d.day + 10))
    || (d == LEAP_DAY_OF_YEAR_4 && e == Date(4, 3, 1))
  }

  // The pairs on which byte order and time order differ.
  predicate OrdersDiffer(v: Value, w: Value)
    requires v.Moment? && w.Moment?
  {
    || Overtakes(v.date, w.date)
    || Overtakes(w.date, v.date)
    || (v.date == w.date && v.ticks < w.ticks && v.ticks / 10 == w.ticks / 10)
    || (SameNumber(v.date, w.date) && v.ticks / 10 >= w.ticks / 10)
    || (SameNumber(w.date, v.date) && v.ticks / 10 < w.ticks / 10)
  }

  // On all date-times of System.DateTime the first eight bytes compare as the date-times do in
  // time, except for exactly these pairs.
  lemma WireOrder(v: Value, w: Value)
    requires DotNetMoment(v) && DotNetMoment(w)
    ensures (BytesLess(v, w) <==> Earlier(v, w)) <==> !OrdersDiffer(v, w)
  {
    BytesOrderCanonicalDates(v, w);
    OrderOfDates(v.date, w.date);
    TickOrder(v.ticks, w.ticks);
  }

  lemma TickOrder(t: int, u: int)
    ensures t / 10 < u / 10 ==> t < u
    ensures t < u ==> t / 10 <= u / 10
  {
  }

  lemma OrderOfDates(d: Date, e: Date)
    requires DotNetDate(d) && DotNetDate(e)
    ensures Canonical(d) == Canonical(e) <==> d == e || SameNumber(d, e) || SameNumber(e, d)
    ensures Before(d, e) ==>
              !Before(Canonical(e), Canonical(d)) || Overtakes(d, e)
    ensures Overtakes(d, e) ==> Before(d, e) && Before(Canonical(e), Canonical(d))
    ensures SameNumber(d, e) ==> Before(d, e)
    ensures Before(d, e) || d == e || Before(e, d)
    ensures Before(Canonical(d), Canonical(e)) || Canonical(d) == Canonical(e)
            || Before(Canonical(e), Canonical(d))
  {
  }

  // In particular they agree on valid dates and whole microseconds.
  lemma WireOrderOnValidDates(v: Value, w: Value)
    requires DotNetMoment(v) && DotNetMoment(w) && ValidDate(v.date) && ValidDate(w.date)
    requires v.ticks % 10 == 0 && w.ticks % 10 == 0
    ensures BytesLess(v, w) <==> Earlier(v, w)
  {
    WireOrder(v, w);
    DotNetIsValid(v.date);
    DotNetIsValid(w.date);
  }

  // ---------------------------------------------------------------------------------------
  // The marshaler object
  // ---------------------------------------------------------------------------------------

  // What the ten bytes say, as arithmetic: the signed day number, the time of day in ticks, and the
  // signed zone.
  ghost function NumberIn(b: seq<Byte>): int
    requires |b| == 10
  {
    65536 * b[0] as int + 256 * b[1] as int + b[2] as int - (if b[0] >= 128 then 0x100_0000 else 0)
  }

  ghost function FractionIn(b: seq<Byte>): int
    requires |b| == 10
  {
    65536 * (b[5] as int % 16) + 256 * b[6] as int + b[7] as int
  }

  ghost function ZoneIn(b: seq<Byte>): int
    requires |b| == 10
  {
    256 * (b[8] as int % 8) + b[9] as int - (if b[8] as int % 8 >= 4 then 2048 else 0)
  }

  ghost function TicksIn(b: seq<Byte>): int
    requires |b| == 10
  {
    36000000000 * (b[3] as int % 32) + 600000000 * (b[4] as int / 4)
    + 10000000 * (16 * (b[4] as int % 4) + b[5] as int / 16) + 10 * FractionIn(b)
  }

  lemma FieldsIn(f: Fields, b: seq<Byte>)
    requires |b| == 10 && ReadFrom(f, b)
    ensures TicksOf(f) == TicksIn(b) && f.fraction == FractionIn(b)
    ensures f.days == NumberIn(b) && f.zone == ZoneIn(b)
  {
  }

  // Ten bytes of a TIME are its time of day plus its zone, whatever they say, or out of range for a
  // fraction of a second or more.
  lemma TimeReceived(b: seq<Byte>)
    requires |b| == 10 && 96 <= b[8] < 128
    ensures Decode(b) == if FractionIn(b) <= 999999
                         then ReceivedSpan(TicksIn(b) + 600000000 * ZoneIn(b))
                         else OutOfRange
  {
    UnpackedFields(b);
    FieldsIn(Unpack(b), b);
  }

  // Ten bytes of a DATETIME or DATE are the date of their number, their time of day and their zone,
  // or out of range.
  lemma MomentReceived(b: seq<Byte>, kind: int)
    requires |b| == 10 && 32 <= b[8] < 96 && kind == if b[8] < 64 then 1 else 2
    ensures Decode(b).OutOfRange?
            || Decode(b) == ReceivedMoment(GetDate(NumberIn(b)), TicksIn(b), ZoneIn(b), kind)
  {
    var f := Unpack(b);
    UnpackedFields(b);
    FieldsIn(f, b);
    assert f.kind == kind;
  }

  // 02:00 in UTC with a zone of one hour is received as 03:00.
  lemma ZoneIsAdded(b: seq<Byte>)
    requires |b| == 10 && b[3..] == [2, 0, 0, 0, 0, 96, 60]
    ensures Decode(b) == ReceivedSpan(3 * HOUR_TICKS)
  {
    assert forall i :: 0 <= i < 7 ==> b[3 + i] == b[3..][i];
    assert b[3] == 2 && b[4] == 0 && b[5] == 0 && b[6] == 0 && b[7] == 0 && b[8] == 96 && b[9] == 60;
    TimeReceived(b);
  }

  // The fields a constructor refuses.
  predicate Refused(f: Fields) {
    || f.fraction > 999999
    || (f.kind != DT_TYPE_TIME
        && (|| f.hour >= 24 || f.minute >= 60 || f.second >= 60
            || !HasDotNetDate(f.days)
            || (f.kind == DT_TYPE_DATETIME && !(-14 * 60 <= f.zone <= 14 * 60))
            || (f.days == 1 && TicksOf(f) + f.zone * MINUTE_TICKS < 0)
            || (f.days == LAST_NUMBER && TicksOf(f) + f.zone * MINUTE_TICKS >= DAY_TICKS)))
  }

  lemma DateRefused(n: int)
    ensures DotNetDate(GetDate(n).date) <==> HasDotNetDate(n)
    ensures HasDotNetDate(n) ==>
              && (GetDate(n).date == FIRST_DATE <==> n == 1)
              && (GetDate(n).date == LAST_DATE <==> n == LAST_NUMBER)
  {
    ReceivedNumberExactly(n);
    if HasDotNetDate(n) {
      EndsOfCalendar(n);
    }
  }

  lemma FieldsRefused(f: Fields, d: Date)
    requires 0 <= f.hour && 0 <= f.minute && 0 <= f.second && 0 <= f.fraction
    requires f.kind == DT_TYPE_DATETIME || f.kind == DT_TYPE_DATE
    requires DotNetDate(d) <==> HasDotNetDate(f.days)
    requires HasDotNetDate(f.days) ==> (d == FIRST_DATE <==> f.days == 1)
    requires HasDotNetDate(f.days) ==> (d == LAST_DATE <==> f.days == LAST_NUMBER)
    ensures Refused(f) <==>
            !(DotNetDate(d) && ClockTime(f) && LocalTimeExists(d, TicksOf(f), f.zone, f.kind))
  {
  }

  // Ten bytes of type 1 to 3 are out of range exactly when their fields are refused.
  lemma OutOfRangeExactly(b: seq<Byte>)
    requires |b| == 10
    ensures Decode(b).OutOfRange? <==> 32 <= b[8] < 128 && Refused(Unpack(b))
  {
    var f := Unpack(b);
    UnpackedFields(b);
    ReadIsPackable(f, b);
    if f.kind == DT_TYPE_DATETIME || f.kind == DT_TYPE_DATE {
      DateRefused(f.days);
      FieldsRefused(f, GetDate(f.days).date);
    }
  }

  // The type bits decide what ten bytes are; 0 and 4 to 7 are refused.
  lemma DecodedByType(b: seq<Byte>)
    requires |b| == 10
    ensures Decode(b).InvalidCast? <==> b[8] < 32 || b[8] >= 128
    ensures Decode(b).ReceivedSpan? ==> 96 <= b[8] < 128
    ensures Decode(b).ReceivedMoment? ==>
              32 <= b[8] < 96
              && Decode(b).kind == if b[8] < 64 then DT_TYPE_DATETIME else DT_TYPE_DATE
  {
    UnpackedFields(b);
  }

  /** A ten-byte buffer, created on first use and then overwritten. */
  class DateTimeMarshaler {
    var bytes: array?<Byte>

    ghost predicate Valid()
      reads this
    {
      bytes != null ==> bytes.Length == 10
    }

    constructor ()
      ensures Valid() && bytes == null
    {
      bytes := null;
    }

    // Writes the value, or answers false (InvalidCastException) with the buffer untouched.
    method ObjectToBytes(value: Value, kind: int) returns (ok: bool)
      requires Valid()
      requires value.Moment? ==> 1 <= value.date.month <= 12
      modifies this, bytes
      ensures Valid()
      ensures ok <==> FieldsOf(value, kind).Some?
      ensures ok ==> bytes != null && bytes[..] == Pack(FieldsOf(value, kind).value)
      ensures old(bytes) == null ==> bytes == null || fresh(bytes)
      ensures old(bytes) != null ==> bytes == old(bytes)
      ensures !ok ==> bytes == old(bytes)
      ensures !ok && old(bytes) != null ==> bytes[..] == old(bytes[..])
    {
      match FieldsOf(value, kind)
      case None => ok := false;
      case Some(f) =>
        ok := true;
        if bytes == null {
          bytes := new Byte[10];
        }
        WriteFields(f);
    }

    method WriteFields(f: Fields)
      requires Valid() && bytes != null
      modifies bytes
      ensures bytes[..] == Pack(f)
    {
      bytes[0] := LowByte(Shr(f.days, 16));
      bytes[1] := LowByte(Shr(f.days, 8));
      bytes[2] := LowByte(f.days);
      bytes[3] := LowByte(f.hour);
      bytes[4] := MinuteByte(f.minute, f.second);
      bytes[5] := SecondByte(f.second, f.fraction);
      bytes[6] := LowByte(Shr(f.fraction, 8));
      bytes[7] := LowByte(f.fraction);
      bytes[8] := KindByte(f.zone, f.kind);
      bytes[9] := LowByte(f.zone);
      assert bytes[..] == Pack(f);
    }

    // The tag and the ten bytes, or None where the source throws because nothing was set.
    method Marshal() returns (stream: Option<seq<Byte>>)
      requires Valid()
      ensures stream == if bytes == null then None else Some([DV_DATETIME] + bytes[..])
      ensures stream.Some? ==> |stream.value| == 11 && stream.value[0] == 211
    {
      if bytes == null {
        return None;
      }
      return Some([DV_DATETIME] + bytes[..]);
    }

    // Stream.Read into the buffer: a short stream overwrites only the bytes it has.
    method Unmarshal(stream: seq<Byte>)
      requires Valid()
      modifies this, bytes
      ensures Valid() && bytes != null
      ensures old(bytes) == null ==> fresh(bytes)
      ensures old(bytes) != null ==> bytes == old(bytes)
      ensures forall i :: 0 <= i < 10 ==>
                bytes[i] == if i < |stream| then stream[i]
                            else if old(bytes) == null then 0
                            else old(bytes[..])[i]
    {
      if bytes == null {
        bytes := new Byte[10](_ => 0);
      }
      forall i | 0 <= i < 10 && i < |stream| {
        bytes[i] := stream[i];
      }
    }

    method BytesToObject() returns (value: Received)
      requires Valid() && bytes != null
      ensures value == Decode(bytes[..])
    {
      value := Decode(bytes[..]);
    }
  }

  // MarshalDate on one side and UnmarshalDate on the other, with separate objects. None is the
  // exception of the sender.
  method Transfer(v: Value, kind: int) returns (received: Option<Received>)
    requires v.Moment? ==> 1 <= v.date.month <= 12
    ensures received.Some? <==> FieldsOf(v, kind).Some?
    ensures received.Some? ==> received.value == Decode(Pack(FieldsOf(v, kind).value))
  {
    var sender := new DateTimeMarshaler();
    var ok := sender.ObjectToBytes(v, kind);
    if !ok {
      return None;
    }
    var stream := sender.Marshal();
    var receiver := new DateTimeMarshaler();
    receiver.Unmarshal(stream.value[1..]);
    assert receiver.bytes[..] == sender.bytes[..];
    var value := receiver.BytesToObject();
    return Some(value);
  }

  // The round trip: what a receiver gets for every date-time and every time span.
  method SendAndReceive(v: Value, kind: int) returns (received: Option<Received>)
    requires v.Moment? ==> DotNetMoment(v)
    ensures received.Some? <==>
            || (v.Moment? && (kind == DT_TYPE_DATETIME || kind == DT_TYPE_DATE))
            || (v.Span? && kind == DT_TYPE_TIME)
    ensures received.Some? && v.Moment? ==> received.value == ReceivedFor(v, kind)
    ensures received.Some? && v.Span? ==>
              (received.value == ReceivedSpan(v.ticks)
               <==> 0 <= v.ticks < DAY_TICKS && v.ticks % 10 == 0)
  {
    received := Transfer(v, kind);
    if received.Some? {
      match v
      case Moment(_, _, _) => MomentThroughWire(v, kind);
      case Span(t) => SpanThroughWire(t);
    }
  }
}
