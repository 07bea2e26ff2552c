# A Dafny model of the Virtuoso .NET client's data layer

The project models the parts of Virtuoso's .NET client that compute something, and four small
algorithms of the ODS JavaScript, and proves what they promise each other.

* **Calendar and wire form** (`Division`, `Bits`, `Calendar`, `DotNetCalendar`, `ReceivedDates`,
  `DateTimeWire`, `DateTimeMarshaling`). `GetDays` counts days by closed formulas, `GetDate` goes back by
  Julian-day arithmetic, and a date-time travels as ten bytes. Two reference definitions stand
  beside them: `Tomorrow`, the successor of a date from month lengths alone, and the order of dates
  and times. Dates are those System.DateTime holds, times and time spans are ticks.
* **Connection strings** (`Text`, `ConnectionOptions`, `ConnectionKeywords`, `ConnectionString`,
  `ConnectionStringPrinter`, `ConnectionStringParser`). The grammar is written once as plain
  recursion over the remaining text (`NextSetting`, `Settings`). The scanner with its span pointers,
  buffer and quote flag is an object proved against that grammar; the grammar is proved to be
  undone by a printer, and the secure string is proved to mean what the original means.
* **Connection pool** (`PoolModel`, `PoolProtocol`). One pool object over an array, proved against
  functions on the stack; and a state machine whose steps are the locked sections and the steps
  between them, for all interleavings of all threads.
* **ODS JavaScript** (`Selection`, `Ontology`, `Paginator`) and the 19-byte numeric buffer
  (`NumericBuffer`). `Wrappers` holds the option type they share.

## What turned out not to hold

Where the code does not meet a property, the code is modelled as it is and the exact condition is
proved.

* Dates from 1 March to 31 December of AD 4 come back one day early: the tables treat AD 4 as a
  common year, the Julian branch of `GetDate` as a leap year (`DateOfDays`, `DaysOfDate`). Day number
  1155 yields 29 February AD 4, a date the tables do not have; 1461 belongs to no date.
* Days of 1 BC are reported as AD 0; 2 BC and earlier are named correctly (`DateBeforeChrist`).
  Receiving a day of 1 BC therefore throws.
* System.DateTime has 5 to 14 October 1582, which the reform dropped. Each of these days has the
  number of the day ten days later and comes back as that day (`DroppedDayComesBackLater`,
  `MomentThroughWire`). 29 February AD 4 has the number of 1 March AD 4 and comes back.
* Because of these equal numbers, and because the last digit of the ticks is not sent, the bytes of
  date-times do not always compare as the date-times do; the pairs are given exactly (`WireOrder`).
* Not every received day number makes a date System.DateTime has. The constructor throws on
  29 February of 100, 200, 300, 500 and so on up to 1500, on every 29 February before AD 1, on 1 BC,
  on everything before 1 March 4801 BC and after 9999. Exactly these numbers are refused
  (`ReceivedNumberExactly`), and exactly which ten bytes are out of range follows
  (`OutOfRangeExactly`).
* A date-time sent as DATE loses its time of day but not its zone. So a DATE of 1 January AD 1 in a
  zone west of UTC is sent and cannot be received (`FirstDateIsLost`, `MomentThroughWire`).
* Of a time span the days and the last digit of the ticks are lost, and a negative one never comes
  back: 26 hours come back as two (`SpanThroughWire`, `LongSpanIsCut`).
* The first `GetConnection` hands out a connection that the pool has just closed, exactly when
  something was prefilled and nothing of it was accepted (`GetIsLive`, `GetCanDeliverClosed`).
* `PutConnection` compares the time stamp outside the lock, so a clear can be overtaken
  (`ClearCanBeOvertaken`). The idle connections stay as young as the last clear exactly when no
  step pushes an older one into a free slot (`RunsKeepIdleFresh`), and uncut puts never do
  (`AtomicRunsStayFresh`).
* `updateChecked` searches for the value and a comma, so a value that ends another one is confused
  with it (`CheckedExactly`, `UncheckedExactly`, `EndingsConfuse`). A set of values is safe exactly
  when it has no such pair (`OfferableExactly`).

Names in the code follow the source where it has a name. C# integer division and remainder
(`Quot`, `Rem`), shifts, casts to `byte` and the bit operators are written out. The comment of
`ConnectionStringParser` says that a value must be quoted to contain a quote; the code also accepts
quoted parts inside an unquoted value, and the model follows the code.

## Model

| member | source | states |
|---|---|---|
| `Calendar.DateOfDays` | binsrc/VirtuosoClient.Net/DateTimeMarshaler.cs:333-407 | `GetDate` undoes `GetDays` on every valid date of every year, if and only if the date is not in March to December of AD 4, where it answers the Julian day before |
| `Calendar.DaysOfDate` | binsrc/VirtuosoClient.Net/DateTimeMarshaler.cs:351-407 | for every day number from 1 on, `GetDate` gives an AD date with a month in 1..12, valid and with that number if and only if the number is outside 1155..1461, and with that number if and only if it is outside 1156..1461 |
| `Calendar.DaysOrderDates` | binsrc/VirtuosoClient.Net/DateTimeMarshaler.cs:333-349 | day numbers order dates exactly as year, month and day do, and are equal only for equal dates |
| `Calendar.DaysOfTomorrow` | binsrc/VirtuosoClient.Net/DateTimeMarshaler.cs:333-349 | the next calendar day, across 4 and 15 October 1582 too, has the next number, except that one number is skipped after 31 December AD 4 |
| `Calendar.DaysOfNthDate` | binsrc/VirtuosoClient.Net/DateTimeMarshaler.cs:333-349 | the n-th day of the calendar has number n up to 1460 and n + 1 after that |
| `Calendar.DaysImage` | binsrc/VirtuosoClient.Net/DateTimeMarshaler.cs:333-349 | a number is the number of a valid date if and only if it is at least 1 and not 1461 |
| `Calendar.DateOfNextNumber` | binsrc/VirtuosoClient.Net/DateTimeMarshaler.cs:351-407 | outside AD 4, consecutive numbers give consecutive calendar days |
| `Calendar.DateInYear4` | binsrc/VirtuosoClient.Net/DateTimeMarshaler.cs:378-393 | on the numbers 1155..1461 the date is never both valid and numbered so, and keeps its number only at 1155 |
| `Calendar.NotYear5Jdn` | binsrc/VirtuosoClient.Net/DateTimeMarshaler.cs:378-381 | the one day number that is patched belongs to no date |
| `Calendar.PatchedNumber` | binsrc/VirtuosoClient.Net/DateTimeMarshaler.cs:378-381 | that number, 1461, gives 1 January AD 5, as 1462 does |
| `Calendar.CutoverJdn` | binsrc/VirtuosoClient.Net/DateTimeMarshaler.cs:337-360 | the two functions put the calendar reform at the same day |
| `Calendar.GregorianDays` | binsrc/VirtuosoClient.Net/DateTimeMarshaler.cs:335-346 | after the reform the count from January equals the 400/100/4-year count from March |
| `Calendar.JulianDays` | binsrc/VirtuosoClient.Net/DateTimeMarshaler.cs:335-346 | before the reform the count equals the 4-year count from March, less one in the AD 4 window |
| `Calendar.GregorianInverse` | binsrc/VirtuosoClient.Net/DateTimeMarshaler.cs:360-377 | the cascade by 146097, 36524, 1461, 365 and 153 recovers the date from its March-based count |
| `Calendar.JulianInverse` | binsrc/VirtuosoClient.Net/DateTimeMarshaler.cs:382-393 | the divisions by 1461 and 153 recover the date from its Julian count, years before AD 1 shifted by one |
| `Calendar.DateBeforeChrist` | binsrc/VirtuosoClient.Net/DateTimeMarshaler.cs:383-403 | back to 1 March 4801 BC, `GetDate` names the year BC correctly if and only if it is not 1 BC, which comes out as AD 0 |
| `Calendar.JulianNumbersCountDown` | binsrc/VirtuosoClient.Net/DateTimeMarshaler.cs:384-390 | the numbers used there go down by one from day to day |
| `Calendar.JulianNumbersJoin` | binsrc/VirtuosoClient.Net/DateTimeMarshaler.cs:358-390 | and run from -1753505 on 1 March 4801 BC to the turn of the era, where they join on to `GetDays` |
| `DateTimeWire.PackedBytes` | binsrc/VirtuosoClient.Net/DateTimeMarshaler.cs:239-248 | the shifts, masks and ors put every field into its bits |
| `DateTimeWire.UnpackedFields` | binsrc/VirtuosoClient.Net/DateTimeMarshaler.cs:255-285 | the reading side, with both sign extensions, as arithmetic on the bytes |
| `DateTimeWire.UnpackOfPack` | binsrc/VirtuosoClient.Net/DateTimeMarshaler.cs:239-285 | unpacking undoes packing if and only if every field fits its bits |
| `DateTimeWire.PackOfUnpack` | binsrc/VirtuosoClient.Net/DateTimeMarshaler.cs:239-285 | packing undoes unpacking on ten bytes if and only if their unused bits are clear |
| `DateTimeWire.FieldOrder` | binsrc/VirtuosoClient.Net/DateTimeMarshaler.cs:239-246 | the first eight bytes compare as strings of bytes exactly as days, hour, minute, second and fraction do |
| `DateTimeWire.ZoneSurvives` | binsrc/VirtuosoClient.Net/DateTimeMarshaler.cs:247-285 | zone and type survive packing and unpacking whatever the other fields are |
| `DotNetCalendar.DotNetIsValid` | binsrc/VirtuosoClient.Net/DateTimeMarshaler.cs:333-349 | a date System.DateTime holds is a date of the client's calendar if and only if it is not one of the ten dropped days or 29 February AD 4 |
| `DotNetCalendar.DateOfDotNetDays` | binsrc/VirtuosoClient.Net/DateTimeMarshaler.cs:333-407 | a date System.DateTime holds comes back from its number as itself if and only if it is neither in March to December of AD 4 nor one of the ten dropped days, and otherwise as the date given |
| `DotNetCalendar.DroppedDayComesBackLater` | binsrc/VirtuosoClient.Net/DateTimeMarshaler.cs:333-407 | each of 5 to 14 October 1582 has the number of the day ten days later and comes back as that day |
| `DotNetCalendar.DotNetDatesFit` | binsrc/VirtuosoClient.Net/DateTimeMarshaler.cs:239-241 | every date System.DateTime can hold fits the 24 bits |
| `ReceivedDates.ReceivedNumberExactly` | binsrc/VirtuosoClient.Net/DateTimeMarshaler.cs:351-407 | for every day number, the date it makes is one System.DateTime has if and only if the number is at most 3652061 and not that of a leap day of the Julian rule only, or, below 1, from -1753505 to -366 and not that of a 29 February |
| `ReceivedDates.JulianLeapDayIsReceived` | binsrc/VirtuosoClient.Net/DateTimeMarshaler.cs:378-393 | leap days of the Julian rule only are dates of the client's calendar and come back from their numbers, which the closed form above names |
| `ReceivedDates.LeapDayByNumber` | binsrc/VirtuosoClient.Net/DateTimeMarshaler.cs:333-349 | a valid date is such a leap day if and only if its number plus 306 is 36525 times a number from 1 to 15 that is no multiple of 4 |
| `ReceivedDates.FurtherBack` | binsrc/VirtuosoClient.Net/DateTimeMarshaler.cs:384-390 | before 1 March 4801 BC the truncating divisions give a day of the month below 1 |
| `ReceivedDates.EndsOfCalendar` | binsrc/VirtuosoClient.Net/VirtuosoDateTime.cs:106-119 | 1 January AD 1 and 31 December 9999 are received for the numbers 1 and 3652061 only |
| `DateTimeMarshaling.ComponentsRebuild` | binsrc/VirtuosoClient.Net/DateTimeMarshaler.cs:152-156 | hours, minutes, seconds and microseconds determine the ticks up to whole days and the last digit |
| `DateTimeMarshaling.SpanThroughWire` | binsrc/VirtuosoClient.Net/DateTimeMarshaler.cs:144-157 | the ticks of a time span come back if and only if they are at least 0, less than a day and a multiple of 10; non-negative ones come back without their days and last digit |
| `DateTimeMarshaling.LongSpanIsCut` | binsrc/VirtuosoClient.Net/DateTimeMarshaler.cs:289-294 | a span of one to two days comes back as the span less one day, without the last digit |
| `DateTimeMarshaling.SpanIsSentOnDayZero` | binsrc/VirtuosoClient.Net/DateTimeMarshaler.cs:144-157 | every time span is sent on day 729635 with type 3 and no zone |
| `DateTimeMarshaling.MomentThroughWire` | binsrc/VirtuosoClient.Net/DateTimeMarshaler.cs:115-143 | a date-time System.DateTime can hold can be sent as DATETIME or DATE and as nothing else, and comes back on the date its number stands for, to the microsecond, with its zone, or throws if that local time leaves the years 1 to 9999 or the zone of a DATETIME is above 14 hours |
| `DateTimeMarshaling.ComesBackAsSentExactly` | binsrc/VirtuosoClient.Net/DateTimeMarshaler.cs:115-143 | it comes back as it was sent if and only if it is neither in March to December of AD 4 nor on a dropped day, its local time exists, and its ticks are a multiple of 10, or zero when sent as DATE |
| `DateTimeMarshaling.FirstDateIsLost` | binsrc/VirtuosoClient.Net/VirtuosoDateTime.cs:106-119 | 1 January AD 1 sent as DATE from a zone west of UTC makes the receiver throw |
| `DateTimeMarshaling.BytesOrderCanonicalDates` | binsrc/VirtuosoClient.Net/DateTimeMarshaler.cs:239-246 | the first eight bytes order date-times by the dates their numbers stand for and then by microseconds |
| `DateTimeMarshaling.WireOrder` | binsrc/VirtuosoClient.Net/DateTimeMarshaler.cs:239-246 | byte order and time order agree on two date-times System.DateTime can hold if and only if they are not one of the pairs listed: a dropped day against a day its number has passed, two dates of equal number, or two times in one microsecond |
| `DateTimeMarshaling.WireOrderOnValidDates` | binsrc/VirtuosoClient.Net/DateTimeMarshaler.cs:239-246 | on dates of the client's calendar and whole microseconds the first eight bytes compare as the date-times do in time |
| `DateTimeMarshaling.DecodedByType` | binsrc/VirtuosoClient.Net/DateTimeMarshaler.cs:272-330 | ten bytes are refused for their type if and only if the type is not 1 to 3, and the type decides whether the others can be a date-time, a date or a time |
| `DateTimeMarshaling.TimeReceived` | binsrc/VirtuosoClient.Net/VirtuosoTimeSpan.cs:86-97 | for all ten bytes of a TIME, the span received is hour, minute, second and fraction read from the bytes plus the signed zone in minutes, or the constructor throws for a fraction above 999999 |
| `DateTimeMarshaling.MomentReceived` | binsrc/VirtuosoClient.Net/DateTimeMarshaler.cs:251-330 | for all ten bytes of a DATETIME or DATE that are in range, the date is that of the signed 24-bit number, with the time, zone and type read from the bytes |
| `DateTimeMarshaling.ZoneIsAdded` | binsrc/VirtuosoClient.Net/VirtuosoTimeSpan.cs:86-97 | 02:00 in UTC with zone +60 is received as 03:00 |
| `DateTimeMarshaling.OutOfRangeExactly` | binsrc/VirtuosoClient.Net/DateTimeMarshaler.cs:289-330 | ten bytes of type 1 to 3 make a constructor throw if and only if the fraction is above 999999 or, unless they are a time, the clock, the day number or the zone is out of range or the local time leaves the years 1 to 9999 |
| `DateTimeMarshaling.DateTimeMarshaler.ObjectToBytes` | binsrc/VirtuosoClient.Net/DateTimeMarshaler.cs:110-249 | fills the buffer with the packed fields, creating it if need be, or fails and leaves it alone |
| `DateTimeMarshaling.DateTimeMarshaler.Unmarshal` | binsrc/VirtuosoClient.Net/DateTimeMarshaler.cs:89-94 | a short stream overwrites only the bytes it has |
| `DateTimeMarshaling.SendAndReceive` | binsrc/VirtuosoClient.Net/DateTimeMarshaler.cs:96-108 | the round trip through two marshaler objects and a stream, for every date-time and every time span, with the exact results above |
| `ConnectionOptions.KeywordsWithholdPassword` | binsrc/VirtuosoClient.Net/ConnectionOptions.cs:255-287 | a keyword is withheld from the secure string if and only if the keyword table maps it to the password |
| `ConnectionKeywords.CaseIsIgnored` | binsrc/VirtuosoClient.Net/ConnectionOptions.cs:255-333 | names that differ only in the case of letters A to Z name the same option and are withheld alike, for every keyword table |
| `ConnectionKeywords.SpellingsExactly` | binsrc/VirtuosoClient.Net/ConnectionOptions.cs:173-287 | a name sets an option if and only if it is, in any case, one of the spellings listed for that option |
| `ConnectionKeywords.UnknownExactly` | binsrc/VirtuosoClient.Net/ConnectionOptions.cs:330-333 | a name is unknown if and only if it is a spelling of no option |
| `ConnectionKeywords.WithheldExactly` | binsrc/VirtuosoClient.Net/ConnectionOptions.cs:448-452 | a name is withheld if and only if it is, in any case, a spelling of the password |
| `Text.UpperExactly` | binsrc/VirtuosoClient.Net/ConnectionOptions.cs:448-452 | two texts have the same upper-case form if and only if they differ in the case of letters A to Z only |
| `Text.WhiteSpaceExactly` | binsrc/VirtuosoClient.Net/ConnectionStringParser.cs:243-252 | whitespace is this list of characters |
| `ConnectionOptions.SetList` | binsrc/VirtuosoClient.Net/ConnectionOptions.cs:52-78 | the one-pass loop yields the non-empty comma fields of the text without whitespace, in order |
| `ConnectionOptions.ItemsAreClean` | binsrc/VirtuosoClient.Net/ConnectionOptions.cs:52-78 | items are non-empty and free of commas and whitespace |
| `ConnectionOptions.ItemsOfJoin` | binsrc/VirtuosoClient.Net/ConnectionOptions.cs:52-78 | every list of such items is what its comma-join sets |
| `ConnectionOptions.ListItemsIdempotent` | binsrc/VirtuosoClient.Net/ConnectionOptions.cs:52-78 | setting the comma-join of the items again changes nothing |
| `ConnectionOptions.JoinOfSplit` | binsrc/VirtuosoClient.Net/ConnectionOptions.cs:59-77 | the comma fields of a text join back to the text and contain no comma |
| `ConnectionOptions.SplitOfJoin` | binsrc/VirtuosoClient.Net/ConnectionOptions.cs:59-77 | comma-free fields are the fields of their join |
| `ConnectionOptions.LastSettingWins` | binsrc/VirtuosoClient.Net/ConnectionOptions.cs:330-333 | after any settings an option has the value of the last one given under any alias and case, or its old value |
| `ConnectionOptions.LastSettingIsHeld` | binsrc/VirtuosoClient.Net/ConnectionOptions.cs:52-157 | after settings that apply, a flag or number holds the answer of its parser for the last text given, a string the text, the host list the text and its items, and an option not given its old value |
| `ConnectionOptions.SettingFailsExactly` | binsrc/VirtuosoClient.Net/ConnectionOptions.cs:52-157 | a setting fails if and only if its keyword is unknown or the parser of its option throws, and then changes nothing |
| `ConnectionOptions.ApplyPublic` | binsrc/VirtuosoClient.Net/ConnectionOptions.cs:448-452 | leaving out the password settings changes no other option and does not touch the password |
| `ConnectionOptions.Options.Set` | binsrc/VirtuosoClient.Net/ConnectionOptions.cs:52-157 | fails if and only if the parser of a flag or number throws; otherwise the option holds the answer of its parser, the text, or the text and its items, and no other option changes |
| `ConnectionOptions.Options.Verify` | binsrc/VirtuosoClient.Net/ConnectionOptions.cs:310-322 | accepts exactly the options with 0 <= min <= max, 0 < max, enlistment only with transactions, and a log setting of -1..3 |
| `ConnectionOptions.AcceptableExactly` | binsrc/VirtuosoClient.Net/ConnectionOptions.cs:310-322 | options are acceptable if and only if none of the five complaints applies |
| `ConnectionOptions.InitialIsAcceptable` | binsrc/VirtuosoClient.Net/ConnectionOptions.cs:290-308 | the options in force before anything is set pass Verify on every platform |
| `ConnectionString.ItemLocal` | binsrc/VirtuosoClient.Net/ConnectionStringParser.cs:95-114 | a setting that ends with its semicolon is read the same in front of any other text |
| `ConnectionString.NameLocal` | binsrc/VirtuosoClient.Net/ConnectionStringParser.cs:136-168 | the same for a name, if no equal sign comes to stand behind its end |
| `ConnectionString.ValueLocal` | binsrc/VirtuosoClient.Net/ConnectionStringParser.cs:180-240 | the same for a value, inside and outside quotes |
| `ConnectionString.UnclosedExactly` | binsrc/VirtuosoClient.Net/ConnectionStringParser.cs:184-209 | a value has no end if and only if its text ends inside quotes, counted by opening and closing alone |
| `ConnectionString.InvalidExactly` | binsrc/VirtuosoClient.Net/ConnectionStringParser.cs:138-189 | the exception for an invalid string is thrown if and only if no undoubled equal sign follows or the value ends inside quotes |
| `ConnectionString.SettingsOfSecureText` | binsrc/VirtuosoClient.Net/ConnectionStringParser.cs:91-117 | for every text, the secure text reads without error as exactly the original settings without the passwords |
| `ConnectionStringPrinter.PrintRoundTrip` | binsrc/VirtuosoClient.Net/ConnectionStringParser.cs:44-62 | a list of settings written by the documented rules, with either quote, reads back as itself if and only if every name is non-empty, without whitespace at its ends and without a leading semicolon |
| `ConnectionStringPrinter.EitherQuoteRoundTrip` | binsrc/VirtuosoClient.Net/ConnectionStringParser.cs:59-62 | single and double quotes give the same settings |
| `ConnectionStringPrinter.ParsedNamesArePrintable` | binsrc/VirtuosoClient.Net/ConnectionStringParser.cs:124-169 | every name read has these properties |
| `ConnectionStringPrinter.ReprintRoundTrip` | binsrc/VirtuosoClient.Net/ConnectionStringParser.cs:86-118 | reading any text, writing the settings and reading again gives the same settings |
| `ConnectionStringParser.ReadName` | binsrc/VirtuosoClient.Net/ConnectionStringParser.cs:136-168 | the loop with start, i and buffer delivers the text up to the first undoubled '=', '==' as '=', trailing whitespace dropped, or the right exception |
| `ConnectionStringParser.ReadValue` | binsrc/VirtuosoClient.Net/ConnectionStringParser.cs:180-240 | the loop delivers the text up to the first unquoted semicolon or the end, quotes removed, only unquoted trailing whitespace dropped, or the exception for an open quote |
| `ConnectionStringParser.Parser.SkipWhiteSpace` | binsrc/VirtuosoClient.Net/ConnectionStringParser.cs:243-252 | moves to the first character that is not whitespace and says whether there is one |
| `ConnectionStringParser.Parser.SkipToName` | binsrc/VirtuosoClient.Net/ConnectionStringParser.cs:126-134 | moves past whitespace and semicolons |
| `ConnectionStringParser.Parser.GetName` | binsrc/VirtuosoClient.Net/ConnectionStringParser.cs:124-169 | the name the grammar has at this position, null, or the exception |
| `ConnectionStringParser.Parser.GetValue` | binsrc/VirtuosoClient.Net/ConnectionStringParser.cs:175-241 | the value the grammar has at this position, null, or the exception; a value moves the position |
| `ConnectionStringParser.Parser.GetSetting` | binsrc/VirtuosoClient.Net/ConnectionStringParser.cs:97-105 | one setting of the grammar; each completed setting strictly advances the position |
| `ConnectionStringParser.Parser.ParseTurn` | binsrc/VirtuosoClient.Net/ConnectionStringParser.cs:95-114 | one turn applies one setting and keeps its text unless it is a password |
| `ConnectionStringParser.Parser.ParseLoop` | binsrc/VirtuosoClient.Net/ConnectionStringParser.cs:95-114 | the loop applies the settings in order up to the first exception |
| `ConnectionStringParser.Parser.Parse` | binsrc/VirtuosoClient.Net/ConnectionStringParser.cs:86-118 | the options, the exception and the two stored strings after parsing, on success and on every failure |
| `ConnectionStringParser.ParsedIsHeld` | binsrc/VirtuosoClient.Net/ConnectionStringParser.cs:95-114 | a string that parses leaves every option holding the last text given for it, as its type reads it, or its old value |
| `ConnectionStringParser.EmptyStringMeansDefaults` | binsrc/VirtuosoClient.Net/ConnectionOptions.cs:290-308 | a string of separators only leaves pooling on, sizes 0 to 100, no lifetime, timeout 15 and the other defaults |
| `ConnectionStringParser.SecureStringMeansTheSame` | binsrc/VirtuosoClient.Net/ConnectionStringParser.cs:107-117 | whenever parsing succeeds, parsing the secure string succeeds, gives every other option the same value and leaves the password alone |
| `ConnectionStringParser.VisibleStringRestores` | binsrc/VirtuosoClient.Net/ConnectionOptions.cs:324-328 | the string visible after Secure parses, into fresh options, to the options in force, the password excepted unless it is to be kept |
| `ConnectionStringParser.ParseAndSecure` | binsrc/VirtuosoClient.Net/VirtuosoConnection.cs:609-617 | Parse, Verify and Secure together leave acceptable options and a string that restores them |
| `PoolModel.TicksKeepBottom` | binsrc/VirtuosoClient.Net/ConnectionPool.cs:302-314 | k ticks of the timer leave exactly the bottom max(min, size - k) connections, and a pool at or below its minimum alone |
| `PoolModel.ConnectionPool.constructor` | binsrc/VirtuosoClient.Net/ConnectionPool.cs:53-59 | options that pass Verify make an empty pool that meets the invariant, with their min size, max size and connection lifetime |
| `PoolModel.PrefillKeepsAccepted` | binsrc/VirtuosoClient.Net/ConnectionPool.cs:167-176 | a prefill keeps the accepted connections in order and closes exactly the others |
| `PoolModel.GetIsLive` | binsrc/VirtuosoClient.Net/ConnectionPool.cs:165-196 | a connection that is handed out is closed if and only if this is the first use, something was prefilled and nothing was accepted; exceptions of creating and pooling connections are included |
| `PoolModel.GetCanDeliverClosed` | binsrc/VirtuosoClient.Net/ConnectionPool.cs:165-196 | such a first use |
| `PoolModel.GetUndoesPut` | binsrc/VirtuosoClient.Net/ConnectionPool.cs:178-179 | what was put into a free slot is what the next get delivers, and the pool is as before |
| `PoolModel.PutExactly` | binsrc/VirtuosoClient.Net/ConnectionPool.cs:199-281 | a new connection ends on the stack if and only if it is not older than the last clear, valid, within its lifetime by time difference, its Pool does not throw and a slot is free, and ends closed otherwise |
| `PoolModel.ThrowsExactly` | binsrc/VirtuosoClient.Net/ConnectionPool.cs:259-269 | Pool fails out of a put only for a connection that passed the other tests |
| `PoolModel.LifetimeEnds` | binsrc/VirtuosoClient.Net/ConnectionPool.cs:249-254 | with lifetime 600 a connection is pooled after 5 seconds and closed after 8000 |
| `PoolModel.ConnectionPool.GetConnection` | binsrc/VirtuosoClient.Net/ConnectionPool.cs:149-197 | the pool and the result are those of the stack function, first use and both kinds of exception included |
| `PoolModel.ConnectionPool.FillPool` | binsrc/VirtuosoClient.Net/ConnectionPool.cs:170-175 | the prefill loop is the fold of put, and ends with an exception if and only if a connection cannot be created or pooled |
| `PoolModel.ConnectionPool.PutConnection` | binsrc/VirtuosoClient.Net/ConnectionPool.cs:199-225 | pushes exactly under the conditions of `PutExactly`, stated with the lifetime arithmetic, and closes otherwise |
| `PoolModel.ConnectionPool.DoPool` | binsrc/VirtuosoClient.Net/ConnectionPool.cs:259-281 | closes the connection when its Pool throws or the pool is full |
| `PoolModel.ConnectionPool.ClearPool` | binsrc/VirtuosoClient.Net/ConnectionPool.cs:132-147 | empties the stack, closes exactly its connections and sets the time of the clear |
| `PoolModel.ConnectionPool.ExpireConnections` | binsrc/VirtuosoClient.Net/ConnectionPool.cs:302-328 | closes the top connection exactly when the pool is above its minimum |
| `PoolProtocol.NextKeepsInv` | binsrc/VirtuosoClient.Net/ConnectionPool.cs:132-328 | a step keeps the invariant if and only if it is not a first get whose prefill keeps nothing |
| `PoolProtocol.RunsKeepInv` | binsrc/VirtuosoClient.Net/ConnectionPool.cs:132-328 | in all states of a run the pool has at most max connections, distinct and open, and every connection ever created is in exactly one place (idle, with a caller, with one thread, closed), if and only if no step is such a get |
| `PoolProtocol.GetKeepsInv` | binsrc/VirtuosoClient.Net/ConnectionPool.cs:165-180 | the same for the locked section of get |
| `PoolProtocol.RunsKeepIdleFresh` | binsrc/VirtuosoClient.Net/ConnectionPool.cs:132-281 | in all states of a run no idle connection is older than the last clear, if and only if no step pushes an older one into a free slot |
| `PoolProtocol.NextKeepsIdleFresh` | binsrc/VirtuosoClient.Net/ConnectionPool.cs:259-281 | a step, whatever step it is, keeps this if and only if it is not such a push |
| `PoolProtocol.AtomicRunsStayFresh` | binsrc/VirtuosoClient.Net/ConnectionPool.cs:203-209 | when no clear cuts a put in two, in all states of a run no idle connection, and none on its way to the pool, is older than the last clear |
| `PoolProtocol.ClearedIsNeverPooled` | binsrc/VirtuosoClient.Net/ConnectionPool.cs:142-145 | when no clear cuts a put in two, a connection from before a clear never enters the pool again, whatever steps follow |
| `PoolProtocol.ClearCanBeOvertaken` | binsrc/VirtuosoClient.Net/ConnectionPool.cs:203-209 | a run in which a clear between comparison and push leaves a stale connection in the pool |
| `PoolProtocol.AtomicPut` | binsrc/VirtuosoClient.Net/ConnectionPool.cs:199-281 | the steps of an uninterrupted put are the put of the pool object |
| `PoolProtocol.AtomicGet` | binsrc/VirtuosoClient.Net/ConnectionPool.cs:149-197 | the steps of an uninterrupted get, with or without an exception, are the get of the pool object |
| `PoolProtocol.AtomicExpire` | binsrc/VirtuosoClient.Net/ConnectionPool.cs:302-328 | the steps of an uninterrupted timer tick close the top connection exactly when the pool is above its minimum |
| `PoolProtocol.FirstGetPrefills` | binsrc/VirtuosoClient.Net/ConnectionPool.cs:165-176 | before the first get there is nothing, and the first get creates the prefilled connections |
| `PoolProtocol.PrefillIsPossible` | binsrc/VirtuosoClient.Net/ConnectionPool.cs:167-176 | a prefill can create any number of connections up to the minimum, at any times, the last of which may fail to be pooled |
| `Selection.Trim` | appsrc/ODS-Framework/users_select.js:88-99 | the two loops drop the character from both ends |
| `Selection.TrimBothExactly` | appsrc/ODS-Framework/users_select.js:88-99 | trimming takes off only that character, and the rest neither begins nor ends with it |
| `Selection.Form.UpdateChecked` | appsrc/ODS-Framework/users_select.js:204-227 | the field after a call, on any field and page |
| `Selection.CheckedExactly` | appsrc/ODS-Framework/users_select.js:218-220 | checking adds the value to the list if and only if it is there already or ends no item |
| `Selection.UncheckedExactly` | appsrc/ODS-Framework/users_select.js:221-223 | unchecking takes exactly the value out if and only if the first item that ends with it is the value or stands right before it, or there is none |
| `Selection.PageFollowsExactly` | appsrc/ODS-Framework/users_select.js:215-225 | over a page the string follows the list after every checkbox if and only if every checkbox meets its condition |
| `Selection.UpdatedIsIdeal` | appsrc/ODS-Framework/users_select.js:204-227 | a call on such a page turns the join of a list into the join of the updated list, trimming included |
| `Selection.RunHoldsChecked` | appsrc/ODS-Framework/users_select.js:204-227 | over any run of such pages from the empty field, the field lists without repeats exactly the values last seen checked |
| `Selection.OfferableRun` | appsrc/ODS-Framework/users_select.js:204-227 | values of which none is a proper ending of another meet the conditions in every run |
| `Selection.OfferableExactly` | appsrc/ODS-Framework/users_select.js:204-227 | tidy values leave the field equal to the list in every run if and only if none is a proper ending of another |
| `Selection.PageKeepsOrder` | appsrc/ODS-Framework/users_select.js:215-225 | values that are not on the page keep their order |
| `Selection.EndingsConfuse` | appsrc/ODS-Framework/users_select.js:218-222 | a value that ends another one is lost when checked and damages the other when unchecked |
| `Ontology.FindClassIsFirst` | appsrc/ODS-Framework/common.js:819-830 | the scan delivers the first class of that name, or nothing if there is none |
| `Ontology.PrefixIsBeforeColon` | appsrc/ODS-Framework/common.js:868-876 | a class is looked up under the text before its first colon |
| `Ontology.ClassUnderPrefix` | appsrc/ODS-Framework/common.js:819-876 | the class found for prefix:local is the first of that name under the prefix, and the searches see its own properties and superclasses in order |
| `Ontology.ClassWithoutPrefix` | appsrc/ODS-Framework/common.js:868-876 | a name without a colon is looked up under the key null |
| `Ontology.RankingExactly` | appsrc/ODS-Framework/common.js:849-854 | a numbering along which the searches from a class terminate exists if and only if no cycle can be reached from that class |
| `Ontology.LookupIsFirst` | appsrc/ODS-Framework/common.js:832-858 | the lookup delivers the property at the first place in preorder that has the name, unchanged, or nothing |
| `Ontology.FoundIsInherited` | appsrc/ODS-Framework/common.js:832-858 | a property that is found has the name and is declared by the class or an ancestor |
| `Ontology.LookupFindsInherited` | appsrc/ODS-Framework/common.js:832-858 | it finds a name if and only if the class or an ancestor declares it, and if and only if the drop-down offers it |
| `Ontology.HasIffLookupFinds` | appsrc/ODS-Framework/common.js:923-946 | hasClassProperties holds if and only if some name can be found |
| `Ontology.SelectOption46` | appsrc/ODS-Framework/tbl.js:581-597 | pushes exactly the names of the preorder behind what was there |
| `Ontology.SearchesAgree` | appsrc/ODS-Framework/common.js:832-946 | from every class that reaches no cycle the three searches terminate and agree, whatever the rest of the graph is |
| `Paginator.WindowsPartition` | appsrc/ODS-Framework/nav_framework.js:426-435 | every item is in the window of exactly one page |
| `Paginator.WindowsAreAdjacent` | appsrc/ODS-Framework/nav_framework.js:426-435 | the windows follow on each other from 1 to the last item |
| `Paginator.Pager.Go` | appsrc/ODS-Framework/nav_framework.js:411-450 | shows page p with its window if and only if there is such a page |
| `Paginator.Pager.constructor` | appsrc/ODS-Framework/nav_framework.js:357-387 | a new pager shows page 1, or nothing for an empty list |
| `Paginator.Pager.First` | appsrc/ODS-Framework/nav_framework.js:383-388 | leads to page 1 |
| `Paginator.Pager.Last` | appsrc/ODS-Framework/nav_framework.js:390-395 | leads to the last page |
| `Paginator.Pager.Prev` | appsrc/ODS-Framework/nav_framework.js:397-402 | leads to the page before, or stays on page 1 |
| `Paginator.Pager.Next` | appsrc/ODS-Framework/nav_framework.js:404-409 | leads to the page after, or stays on the last page |
| `Paginator.Press` | appsrc/ODS-Framework/nav_framework.js:383-450 | any clicks keep the pager on a page of the list with that page's window |
| `NumericBuffer.WrittenReadsBack` | binsrc/VirtuosoClient.Net/BufferType.cs:263-294 | every decimal reads back with its magnitude, sign and scale, and bytes 3 to 18 are its little-endian magnitude |
| `NumericBuffer.ReadBackExactly` | binsrc/VirtuosoClient.Net/BufferType.cs:282-294 | a buffer is refused if and only if its magnitude is at least 2^96 or its scale above 28, and otherwise holds just that decimal, which is one .NET has |
| `NumericBuffer.ManagedToNative` | binsrc/VirtuosoClient.Net/BufferType.cs:263-280 | writes the 19 bytes in place and leaves the rest of the memory |

## Left out

- Time zones: the model starts from fields already in UTC; the zone offset is carried as a field.
- GetDays: integers are unbounded, so the 32-bit overflow for years beyond five million is not modelled; System.DateTime ends with year 9999.
- GetDate before 1 March 4801 BC, where truncating division takes over and no inverse is claimed.
- The received local time: `VirtuosoDateTime` and `VirtuosoDateTimeOffset` store the sum of UTC time and zone; the model delivers the two side by side and says when the sum exists.
- Builds without ADONET3, where a DATETIME is received as `VirtuosoDateTime` and its zone is not limited to 14 hours.
- Options.Set: int.Parse and bool.Parse are parameters, so their formats are not modelled.
- Text.ToUpper: folds the letters A to Z only; culture-dependent case rules are not modelled. Keyword tables are kept in upper case.
- Characters are Unicode scalar values, not UTF-16 units; whitespace is the list of Char.IsWhiteSpace.
- The static pool table (`GetPool`, `RemovePool`, `ClearAllPools`) and the DTC pool; pooling is modelled with enlistment off.
- Exceptions of Close.
- Selection.RunHoldsChecked: holds under the condition that is exact for every single checkbox; that two failures could cancel out within a run is not followed up.
- The array form of a class name in the ontology searches, class properties that are not loaded yet, and the asynchronous loading.
- Ontologies whose classes are not loaded: looking a class up in one of them throws in the source.
- `currenISet`, the page images and the redrawing of the pager; page sizes below 1.
- The other buffer types, explicit strings, packed arrays, futures and the remaining JavaScript: nothing stated here depends on them.
