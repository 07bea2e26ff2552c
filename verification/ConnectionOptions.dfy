/** The options a connection string can set: aliases, typed values, list values and their checks. */
module ConnectionOptions {
  import opened Wrappers
  import opened Text

  datatype OptionId =
    | Odbc | Host | Uid | Pwd | Database | Charset | Encrypt | PersistSecurityInfo
    | ConnectionTimeout | ConnectionLifetime | MinPoolSize | MaxPoolSize
    | Pooling | Enlist | RoundRobin | LogEnable

  // String and list options start as null.
  datatype OptionValue =
    | Flag(flag: bool)
    | Number(number: int)
    | Str(setting: Option<string>)
    | ListValue(setting: Option<string>, items: seq<string>)

  datatype Setting = Setting(name: string, value: string)

  datatype Error = NullString | InvalidString | MissingKeyword | UnknownKeyword | BadFormat

  // What an options object is built on: its keyword table, int.Parse and bool.Parse (None is a
  // thrown exception), whether distributed transactions exist, and the build's default for ODBC.
  datatype Platform = Platform(keywords: map<string, OptionId>,
                               parseInt: string -> Option<int>, parseBool: string -> Option<bool>,
                               hasDtc: bool, useOdbc: bool)

  predicate HasType(id: OptionId, v: OptionValue) {
    match id
    case Odbc | PersistSecurityInfo | Pooling | Enlist | RoundRobin => v.Flag?
    case ConnectionTimeout | ConnectionLifetime | MinPoolSize | MaxPoolSize | LogEnable => v.Number?
    case Host => v.ListValue?
    case Uid | Pwd | Database | Charset | Encrypt => v.Str?
  }

  // The values of all options.
  type Store = m: map<OptionId, OptionValue> | WellTyped(m)
    ghost witness Initial(Platform(map[], _ => None, _ => None, false, false))

  ghost predicate WellTyped(m: map<OptionId, OptionValue>) {
    forall id: OptionId :: id in m && HasType(id, m[id])
  }

  function InitialValue(id: OptionId, p: Platform): OptionValue {
    match id
    case Odbc => Flag(p.useOdbc)
    case PersistSecurityInfo => Flag(false)
    case Pooling => Flag(true)
    case Enlist => Flag(p.hasDtc)
    case RoundRobin => Flag(false)
    case ConnectionTimeout => Number(15)
    case ConnectionLifetime => Number(0)
    case MinPoolSize => Number(0)
    case MaxPoolSize => Number(100)
    case LogEnable => Number(-1)
    case Host => ListValue(None, [])
    case Uid | Pwd | Database | Charset | Encrypt => Str(None)
  }

  function Initial(p: Platform): map<OptionId, OptionValue> {
    map id: OptionId {:trigger InitialValue(id, p)} | true :: InitialValue(id, p)
  }

  // Pooled connections in a pool of 0 to 100 without lifetime, a timeout of 15 seconds, enlistment
  // where the platform has it, and nothing else.
  ghost predicate Defaults(p: Platform, m: Store) {
    && m[Pooling].flag && !m[PersistSecurityInfo].flag && !m[RoundRobin].flag
    && m[Enlist].flag == p.hasDtc && m[Odbc].flag == p.useOdbc
    && m[MinPoolSize].number == 0 && m[MaxPoolSize].number == 100
    && m[ConnectionLifetime].number == 0 && m[ConnectionTimeout].number == 15
    && m[LogEnable].number == -1
    && m[Host] == ListValue(None, [])
    && m[Uid] == m[Pwd] == m[Database] == m[Charset] == m[Encrypt] == Str(None)
  }

  lemma InitialIsDefault(p: Platform)
    ensures Defaults(p, Initial(p))
  {
  }

  // ---------------------------------------------------------------------------------------
  // Aliases
  // ---------------------------------------------------------------------------------------

  // The keyword table, by upper-case keyword.
  function Keywords(): map<string, OptionId> {
    map[
      "ODBC" := Odbc,
      "HOST" := Host, "DATA SOURCE" := Host, "SERVER" := Host, "ADDRESS" := Host,
      "NETWORK ADDRESS" := Host,
      "UID" := Uid, "USER ID" := Uid, "USERID" := Uid,
      "PWD" := Pwd, "PASSWORD" := Pwd,
      "DATABASE" := Database, "INITIAL CATALOG" := Database,
      "CHARSET" := Charset,
      "ENCRYPT" := Encrypt,
      "PERSISTSECURITYINFO" := PersistSecurityInfo, "PERSIST SECURITY INFO" := PersistSecurityInfo,
      "CONNECTTIMEOUT" := ConnectionTimeout, "CONNECT TIMEOUT" := ConnectionTimeout,
      "CONNECTIONTIMEOUT" := ConnectionTimeout, "CONNECTION TIMEOUT" := ConnectionTimeout,
      "CONNECTIONLIFETIME" := ConnectionLifetime, "CONNECTION LIFETIME" := ConnectionLifetime,
      "MINPOOLSIZE" := MinPoolSize, "MIN POOL SIZE" := MinPoolSize,
      "MAXPOOLSIZE" := MaxPoolSize, "MAX POOL SIZE" := MaxPoolSize,
      "POOLING" := Pooling,
      "ENLIST" := Enlist,
      "ROUNDROBIN" := RoundRobin, "ROUND ROBIN" := RoundRobin,
      "LOG_ENABLE" := LogEnable ]
  }

  // Keywords are looked up without regard to case.
  function GetOption(p: Platform, name: string): Option<OptionId> {
    var u := ToUpper(name);
    if u in p.keywords then Some(p.keywords[u]) else None
  }

  predicate IsSecuritySensitive(name: string) {
    ToUpper(name) == "PWD" || ToUpper(name) == "PASSWORD"
  }

  // A keyword is withheld from the secure string exactly when it sets the password.
  ghost predicate WithholdsPassword(p: Platform) {
    forall name: string :: IsSecuritySensitive(name) <==> GetOption(p, name) == Some(Pwd)
  }

  // The rule for withholding, written apart from the keyword table, agrees with it.
  lemma KeywordsWithholdPassword(p: Platform)
    requires p.keywords == Keywords()
    ensures WithholdsPassword(p)
  {
    forall name: string
      ensures IsSecuritySensitive(name) <==> GetOption(p, name) == Some(Pwd)
    {
      PasswordKeywords(ToUpper(name));
    }
  }

  lemma PasswordKeywords(u: string)
    ensures u in Keywords() && Keywords()[u] == Pwd <==> u == "PWD" || u == "PASSWORD"
  {
  }

  // ---------------------------------------------------------------------------------------
  // List options
  // ---------------------------------------------------------------------------------------

  function RemoveWhite(s: string): string {
    if s == "" then ""
    else if IsWhiteSpace(s[0]) then RemoveWhite(s[1..])
    else [s[0]] + RemoveWhite(s[1..])
  }

  // The comma-separated fields of a string; there is always at least one.
  function Split(s: string): (fs: seq<string>)
    ensures |fs| >= 1
  {
    if s == "" then [""]
    else if s[0] == ',' then [""] + Split(s[1..])
    else PrependFirst([s[0]], Split(s[1..]))
  }

  function PrependFirst(t: string, fs: seq<string>): seq<string>
    requires |fs| >= 1
  {
    [t + fs[0]] + fs[1..]
  }

  function NonEmpty(fs: seq<string>): seq<string> {
    if fs == [] then []
    else (if fs[0] == "" then [] else [fs[0]]) + NonEmpty(fs[1..])
  }

  // What a list option holds: the non-empty comma fields of its text without whitespace.
  function ListItems(s: string): seq<string> {
    NonEmpty(Split(RemoveWhite(s)))
  }

  predicate ListItem(s: string) {
    s != "" && NoWhite(s) && ',' !in s
  }

  lemma {:induction false} FieldsHaveNoComma(s: string)
    ensures forall i :: 0 <= i < |Split(s)| ==> ',' !in Split(s)[i]
  {
    if s == "" {
    } else {
      FieldsHaveNoComma(s[1..]);
    }
  }

  lemma JoinPrepended(c: char, fs: seq<string>)
    requires fs != []
    ensures Join(PrependFirst([c], fs)) == [c] + Join(fs)
  {
    assert PrependFirst([c], fs)[1..] == fs[1..];
    if |fs| > 1 {
      assert [c] + fs[0] + "," + Join(fs[1..]) == [c] + (fs[0] + "," + Join(fs[1..]));
    }
  }

  lemma JoinEmptyFirst(fs: seq<string>)
    requires fs != []
    ensures Join([""] + fs) == "," + Join(fs)
  {
    assert ([""] + fs)[1..] == fs;
    assert "" + "," + Join(fs) == "," + Join(fs);
  }

  // Split is the inverse of Join on comma-free fields, both ways.
  lemma {:induction false} JoinOfSplit(s: string)
    ensures Join(Split(s)) == s
    ensures forall i :: 0 <= i < |Split(s)| ==> ',' !in Split(s)[i]
  {
    FieldsHaveNoComma(s);
    if s == "" {
    } else {
      JoinOfSplit(s[1..]);
      assert s == [s[0]] + s[1..];
      if s[0] == ',' {
        JoinEmptyFirst(Split(s[1..]));
      } else {
        JoinPrepended(s[0], Split(s[1..]));
      }
    }
  }

  lemma {:induction false} SplitOfField(f: string, rest: string)
    requires ',' !in f
    ensures Split(f + "," + rest) == [f] + Split(rest)
    ensures Split(f) == [f]
  {
    if f == "" {
      assert f + "," + rest == "," + rest;
      assert ("," + rest)[1..] == rest;
    } else {
      SplitOfField(f[1..], rest);
      assert f == [f[0]] + f[1..];
      assert (f + "," + rest)[1..] == f[1..] + "," + rest;
    }
  }

  lemma {:induction false} SplitOfJoin(fs: seq<string>)
    requires fs != [] && forall i :: 0 <= i < |fs| ==> ',' !in fs[i]
    ensures Split(Join(fs)) == fs
  {
    if |fs| == 1 {
      SplitOfField(fs[0], "");
    } else {
      SplitOfJoin(fs[1..]);
      SplitOfField(fs[0], Join(fs[1..]));
      assert fs == [fs[0]] + fs[1..];
    }
  }

  lemma {:induction false} RemoveWhiteIsClean(s: string)
    ensures NoWhite(RemoveWhite(s))
    ensures NoWhite(s) ==> RemoveWhite(s) == s
  {
    if s == "" {
    } else {
      RemoveWhiteIsClean(s[1..]);
      if NoWhite(s) {
        assert NoWhite(s[1..]);
      }
    }
  }

  lemma {:induction false} SplitKeepsClean(s: string)
    requires NoWhite(s)
    ensures forall i :: 0 <= i < |Split(s)| ==> NoWhite(Split(s)[i])
  {
    if s == "" {
    } else {
      SplitKeepsClean(s[1..]);
    }
  }

  lemma {:induction false} NonEmptyItems(fs: seq<string>)
    ensures forall f :: f in NonEmpty(fs) <==> f in fs && f != ""
    ensures (forall i :: 0 <= i < |fs| ==> fs[i] != "") ==> NonEmpty(fs) == fs
  {
    if fs == [] {
    } else {
      NonEmptyItems(fs[1..]);
      assert forall f :: f in fs <==> f == fs[0] || f in fs[1..];
    }
  }

  lemma ItemsAreClean(s: string)
    ensures forall i :: 0 <= i < |ListItems(s)| ==> ListItem(ListItems(s)[i])
  {
    var t := RemoveWhite(s);
    RemoveWhiteIsClean(s);
    SplitKeepsClean(t);
    JoinOfSplit(t);
    NonEmptyItems(Split(t));
    forall i | 0 <= i < |ListItems(s)|
      ensures ListItem(ListItems(s)[i])
    {
      assert ListItems(s)[i] in NonEmpty(Split(t));
    }
  }

  lemma {:induction false} JoinIsClean(fs: seq<string>)
    requires forall i :: 0 <= i < |fs| ==> NoWhite(fs[i])
    ensures NoWhite(Join(fs))
  {
    if |fs| <= 1 {
    } else {
      JoinIsClean(fs[1..]);
    }
  }

  // Items are what a list option can hold, and each such list is held by its comma-join.
  lemma ItemsOfJoin(items: seq<string>)
    requires forall i :: 0 <= i < |items| ==> ListItem(items[i])
    ensures ListItems(Join(items)) == items
  {
    JoinIsClean(items);
    RemoveWhiteIsClean(Join(items));
    if items == [] {
      assert NonEmpty([""]) == [];
    } else {
      SplitOfJoin(items);
      NonEmptyItems(items);
    }
  }

  // Setting the comma-join of the items again changes nothing.
  lemma ListItemsIdempotent(s: string)
    ensures ListItems(Join(ListItems(s))) == ListItems(s)
  {
    ItemsAreClean(s);
    ItemsOfJoin(ListItems(s));
  }

  lemma TrimOfClean(s: string)
    requires NoWhite(s)
    ensures Trim(s) == s
  {
  }

  // The items still to come, given the field read so far and the text not read yet.
  ghost function Pending(buff: string, s: string): seq<string> {
    NonEmpty(PrependFirst(buff, Split(RemoveWhite(s))))
  }

  function OneItem(s: string): seq<string> {
    if s == "" then [] else [s]
  }

  lemma PendingStart(s: string)
    ensures Pending("", s) == ListItems(s)
  {
    var fs := Split(RemoveWhite(s));
    assert "" + fs[0] == fs[0];
    assert PrependFirst("", fs) == fs;
  }

  lemma PendingEnd(buff: string)
    ensures Pending(buff, "") == OneItem(buff)
  {
    assert buff + "" == buff;
    assert PrependFirst(buff, [""]) == [buff];
    assert [buff][1..] == [] && NonEmpty([]) == [];
  }

  lemma PendingStep(buff: string, s: string)
    requires s != ""
    ensures s[0] == ',' ==> Pending(buff, s) == OneItem(buff) + Pending("", s[1..])
    ensures s[0] != ',' && IsWhiteSpace(s[0]) ==> Pending(buff, s) == Pending(buff, s[1..])
    ensures s[0] != ',' && !IsWhiteSpace(s[0]) ==> Pending(buff, s) == Pending(buff + [s[0]], s[1..])
  {
    var fs := Split(RemoveWhite(s[1..]));
    if s[0] == ',' {
      PendingStart(s[1..]);
      assert Split(RemoveWhite(s)) == [""] + fs;
      assert buff + "" == buff;
      assert PrependFirst(buff, [""] + fs) == [buff] + fs;
    } else if !IsWhiteSpace(s[0]) {
      assert Split(RemoveWhite(s)) == PrependFirst([s[0]], fs);
      assert buff + ([s[0]] + fs[0]) == buff + [s[0]] + fs[0];
      assert PrependFirst(buff, PrependFirst([s[0]], fs)) == PrependFirst(buff + [s[0]], fs);
    }
  }

  // The same with the items collected so far in front.
  lemma PendingTurn(all: seq<string>, items: seq<string>, buff: string, s: string)
    requires s != "" && all == items + Pending(buff, s)
    ensures s[0] == ',' ==> all == (items + OneItem(buff)) + Pending("", s[1..])
    ensures s[0] != ',' && IsWhiteSpace(s[0]) ==> all == items + Pending(buff, s[1..])
    ensures s[0] != ',' && !IsWhiteSpace(s[0]) ==> all == items + Pending(buff + [s[0]], s[1..])
  {
    PendingStep(buff, s);
    if s[0] == ',' {
      ConcatAssociates(items, OneItem(buff), Pending("", s[1..]));
    }
  }

  // Closing a field: what the source does at a comma and at the end.
  method AddField(items: seq<string>, buff: string) returns (items': seq<string>)
    requires NoWhite(buff)
    ensures items' == items + OneItem(buff)
  {
    TrimOfClean(buff);
    var val := Trim(buff);
    items' := if val != "" then items + [val] else items;
  }

  // ListOption.Set: one pass with a buffer.
  method SetList(settingString: string) returns (items: seq<string>)
    ensures items == ListItems(settingString)
  {
    items := [];
    var buff := "";
    PendingStart(settingString);
    var i := 0;
    while i < |settingString|
      invariant 0 <= i <= |settingString|
      invariant NoWhite(buff)
      invariant ListItems(settingString) == items + Pending(buff, settingString[i..])
    {
      var c := settingString[i];
      PendingTurn(ListItems(settingString), items, buff, settingString[i..]);
      assert settingString[i..][1..] == settingString[i + 1..];
      if c == ',' {
        items := AddField(items, buff);
        buff := "";
      } else if !IsWhiteSpace(c) {
        buff := buff + [c];
      }
      i := i + 1;
    }
    assert settingString[i..] == "";
    PendingEnd(buff);
    items := AddField(items, buff);
  }

  // ---------------------------------------------------------------------------------------
  // Applying settings
  // ---------------------------------------------------------------------------------------

  // Option.Set: None where int.Parse or bool.Parse throws.
  function ValueFor(p: Platform, id: OptionId, s: string): (r: Option<OptionValue>)
    ensures r.Some? ==> HasType(id, r.value)
  {
    match id
    case Odbc | PersistSecurityInfo | Pooling | Enlist | RoundRobin =>
      var b := p.parseBool(s);
      if b.Some? then Some(Flag(b.value)) else None
    case ConnectionTimeout | ConnectionLifetime | MinPoolSize | MaxPoolSize | LogEnable =>
      var n := p.parseInt(s);
      if n.Some? then Some(Number(n.value)) else None
    case Host => Some(ListValue(Some(s), ListItems(s)))
    case Uid | Pwd | Database | Charset | Encrypt => Some(Str(Some(s)))
  }

  predicate IsFlag(id: OptionId) {
    id in {Odbc, PersistSecurityInfo, Pooling, Enlist, RoundRobin}
  }

  predicate IsNumber(id: OptionId) {
    id in {ConnectionTimeout, ConnectionLifetime, MinPoolSize, MaxPoolSize, LogEnable}
  }

  predicate IsText(id: OptionId) {
    id in {Uid, Pwd, Database, Charset, Encrypt}
  }

  // `v` is what an option holds once it has been given the text s: the parser's answer for a flag
  // or a number, the text itself for a string, the text and its items for the host list.
  ghost predicate Holds(p: Platform, id: OptionId, s: string, v: OptionValue) {
    && (IsFlag(id) ==> v.Flag? && p.parseBool(s) == Some(v.flag))
    && (IsNumber(id) ==> v.Number? && p.parseInt(s) == Some(v.number))
    && (IsText(id) ==> v == Str(Some(s)))
    && (id == Host ==> v == ListValue(Some(s), ListItems(s)))
  }

  // The text is not one for the option: its parser throws.
  ghost predicate Unreadable(p: Platform, id: OptionId, s: string) {
    (IsFlag(id) && p.parseBool(s).None?) || (IsNumber(id) && p.parseInt(s).None?)
  }

  lemma ValueExactly(p: Platform, id: OptionId, s: string)
    ensures ValueFor(p, id, s).None? <==> Unreadable(p, id, s)
    ensures forall v :: ValueFor(p, id, s) == Some(v) <==> Holds(p, id, s, v)
  {
  }

  // The store after some settings, and the exception that stopped them, if any.
  datatype Applied = Applied(store: Store, error: Option<Error>)

  function ApplyOne(p: Platform, m: Store, s: Setting): Applied {
    match GetOption(p, s.name)
    case None => Applied(m, Some(UnknownKeyword))
    case Some(id) =>
      var v := ValueFor(p, id, s.value);
      if v.None? then Applied(m, Some(BadFormat)) else Applied(m[id := v.value], None)
  }

  function ApplyAll(p: Platform, m: Store, settings: seq<Setting>): Applied {
    if settings == [] then Applied(m, None)
    else
      var a := ApplyOne(p, m, settings[0]);
      if a.error.Some? then a else ApplyAll(p, a.store, settings[1..])
  }

  // The settings that are not withheld.
  function Public(settings: seq<Setting>): seq<Setting> {
    if settings == [] then []
    else (if IsSecuritySensitive(settings[0].name) then [] else [settings[0]])
         + Public(settings[1..])
  }

  ghost predicate AgreeOffPassword(m: Store, n: Store) {
    forall id: OptionId :: id != Pwd ==> m[id] == n[id]
  }

  // Dropping the password settings changes no other option and leaves the password alone.
  lemma {:induction false} ApplyPublic(p: Platform, m: Store, n: Store, settings: seq<Setting>)
    requires WithholdsPassword(p) && AgreeOffPassword(m, n)
    requires ApplyAll(p, m, settings).error.None?
    ensures var b := ApplyAll(p, n, Public(settings));
            && b.error.None?
            && AgreeOffPassword(ApplyAll(p, m, settings).store, b.store)
            && b.store[Pwd] == n[Pwd]
  {
    if settings == [] {
    } else {
      var s := settings[0];
      assert IsSecuritySensitive(s.name) <==> GetOption(p, s.name) == Some(Pwd);
      var m' := ApplyOne(p, m, s).store;
      if IsSecuritySensitive(s.name) {
        ApplyPublic(p, m', n, settings[1..]);
        assert Public(settings) == Public(settings[1..]);
      } else {
        var n' := ApplyOne(p, n, s).store;
        ApplyPublic(p, m', n', settings[1..]);
        assert Public(settings)[1..] == Public(settings[1..]);
      }
    }
  }

  // The last text given for an option under any of its names.
  function LastFor(p: Platform, settings: seq<Setting>, id: OptionId): Option<string> {
    if settings == [] then None
    else
      var k := |settings| - 1;
      if GetOption(p, settings[k].name) == Some(id) then Some(settings[k].value)
      else LastFor(p, settings[..k], id)
  }

  lemma {:induction false} ApplyAllSnoc(p: Platform, m: Store, settings: seq<Setting>, s: Setting)
    ensures var a := ApplyAll(p, m, settings);
            ApplyAll(p, m, settings + [s])
            == if a.error.Some? then a else ApplyOne(p, a.store, s)
  {
    if settings == [] {
      assert settings + [s] == [s];
    } else {
      assert (settings + [s])[1..] == settings[1..] + [s];
      var a := ApplyOne(p, m, settings[0]);
      if a.error.None? {
        ApplyAllSnoc(p, a.store, settings[1..], s);
      }
    }
  }

  // Settings for the same option override each other, whatever alias and case they use.
  lemma {:induction false} LastSettingWins(p: Platform, m: Store, settings: seq<Setting>, id: OptionId)
    requires ApplyAll(p, m, settings).error.None?
    ensures var last := LastFor(p, settings, id);
            ApplyAll(p, m, settings).store[id]
            == if last.None? then m[id]
               else var v := ValueFor(p, id, last.value); if v.Some? then v.value else m[id]
    ensures LastFor(p, settings, id).Some? ==> ValueFor(p, id, LastFor(p, settings, id).value).Some?
  {
    if settings == [] {
    } else {
      var k := |settings| - 1;
      assert settings == settings[..k] + [settings[k]];
      ApplyAllSnoc(p, m, settings[..k], settings[k]);
      LastSettingWins(p, m, settings[..k], id);
    }
  }

  // After settings that apply, an option holds the last text given for it, or its old value.
  lemma LastSettingIsHeld(p: Platform, m: Store, settings: seq<Setting>, id: OptionId)
    requires ApplyAll(p, m, settings).error.None?
    ensures var last := LastFor(p, settings, id);
            var v := ApplyAll(p, m, settings).store[id];
            if last.None? then v == m[id] else Holds(p, id, last.value, v)
  {
    LastSettingWins(p, m, settings, id);
    var last := LastFor(p, settings, id);
    if last.Some? {
      ValueExactly(p, id, last.value);
    }
  }

  // A setting fails exactly when its keyword is unknown or its text unreadable, and then changes
  // nothing.
  lemma SettingFailsExactly(p: Platform, m: Store, s: Setting)
    ensures var id := GetOption(p, s.name);
            var a := ApplyOne(p, m, s);
            && (a.error == Some(UnknownKeyword) <==> id.None?)
            && (a.error == Some(BadFormat) <==> id.Some? && Unreadable(p, id.value, s.value))
            && (a.error.None? <==> id.Some? && !Unreadable(p, id.value, s.value))
            && (a.error.Some? ==> a.store == m)
  {
    var id := GetOption(p, s.name);
    if id.Some? {
      ValueExactly(p, id.value, s.value);
    }
  }

  // ---------------------------------------------------------------------------------------
  // The options object
  // ---------------------------------------------------------------------------------------

  datatype Rejection = BadMinPoolSize | BadMaxPoolSize | MinAboveMax | NoDtc | BadLogEnable

  // What Verify accepts.
  predicate Acceptable(p: Platform, m: Store) {
    && 0 <= m[MinPoolSize].number <= m[MaxPoolSize].number
    && 0 < m[MaxPoolSize].number
    && (m[Enlist].flag ==> p.hasDtc)
    && -1 <= m[LogEnable].number <= 3
  }

  // The options in force before anything is set are acceptable on every platform.
  lemma InitialIsAcceptable(p: Platform)
    ensures Acceptable(p, Initial(p))
  {
  }

  // What each exception of Verify complains about.
  predicate Violates(p: Platform, m: Store, r: Rejection) {
    match r
    case BadMinPoolSize => m[MinPoolSize].number < 0
    case BadMaxPoolSize => m[MaxPoolSize].number <= 0
    case MinAboveMax => m[MinPoolSize].number > m[MaxPoolSize].number
    case NoDtc => m[Enlist].flag && !p.hasDtc
    case BadLogEnable => !(-1 <= m[LogEnable].number <= 3)
  }

  // A rejection is named exactly when there is something to complain about.
  lemma AcceptableExactly(p: Platform, m: Store)
    ensures Acceptable(p, m) <==> forall r: Rejection :: !Violates(p, m, r)
  {
    if !Acceptable(p, m) {
      assert || Violates(p, m, BadMinPoolSize) || Violates(p, m, BadMaxPoolSize)
             || Violates(p, m, MinAboveMax) || Violates(p, m, NoDtc) || Violates(p, m, BadLogEnable);
    }
  }

  class Options {
    const platform: Platform
    var store: Store
    var connectionString: Option<string>
    var secureConnectionString: Option<string>

    constructor (platform: Platform)
      ensures this.platform == platform && store == Initial(platform)
      ensures connectionString == None && secureConnectionString == None
    {
      this.platform := platform;
      store := Initial(platform);
      connectionString, secureConnectionString := None, None;
    }

    // option.Set (value) on the option found for a keyword.
    method Set(id: OptionId, value: string) returns (ok: bool)
      modifies this`store
      ensures ok <==> ValueFor(platform, id, value).Some?
      ensures store == if ok then old(store)[id := ValueFor(platform, id, value).value] else old(store)
      ensures ok <==> !Unreadable(platform, id, value)
      ensures ok ==> Holds(platform, id, value, store[id])
      ensures forall other: OptionId :: other != id || !ok ==> store[other] == old(store[other])
    {
      ValueExactly(platform, id, value);
      if id == Host {
        var items := SetList(value);
        store := store[Host := ListValue(Some(value), items)];
        return true;
      }
      var v := ValueFor(platform, id, value);
      if v.None? {
        return false;
      }
      store := store[id := v.value];
      return true;
    }

    // None means that no exception is thrown.
    method Verify() returns (rejection: Option<Rejection>)
      ensures rejection.None? <==> Acceptable(platform, store)
      ensures rejection.Some? ==> Violates(platform, store, rejection.value)
    {
      if store[MinPoolSize].number < 0 {
        return Some(BadMinPoolSize);
      }
      if store[MaxPoolSize].number <= 0 {
        return Some(BadMaxPoolSize);
      }
      if store[MinPoolSize].number > store[MaxPoolSize].number {
        return Some(MinAboveMax);
      }
      if store[Enlist].flag && !platform.hasDtc {
        return Some(NoDtc);
      }
      if store[LogEnable].number != -1
         && (store[LogEnable].number < 0 || store[LogEnable].number > 3) {
        return Some(BadLogEnable);
      }
      return None;
    }

    // Called when the connection opens: hides the password unless the user asked to keep it.
    method Secure()
      modifies this`connectionString
      ensures connectionString == if store[PersistSecurityInfo].flag then old(connectionString)
                                  else secureConnectionString
    {
      if store[PersistSecurityInfo].flag == false {
        connectionString := secureConnectionString;
      }
    }
  }
}
