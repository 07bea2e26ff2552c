/** The grammar of connection strings, by plain recursion over the remaining text. */
module ConnectionString {
  import opened Wrappers
  import opened Text
  import opened ConnectionOptions

  // ---------------------------------------------------------------------------------------
  // One setting
  // ---------------------------------------------------------------------------------------

  // Whitespace and semicolons before a name.
  function SkipSeparators(s: string): (r: string)
    ensures |r| <= |s|
  {
    if s != "" && (IsWhiteSpace(s[0]) || s[0] == ';') then SkipSeparators(s[1..]) else s
  }

  datatype NameScan = NoName | Name(text: string, rest: string)

  // Text up to the first undoubled '=', with each '==' standing for one '='.
  function ScanName(s: string): (r: NameScan)
    ensures r.Name? ==> |r.rest| < |s|
  {
    if s == "" then NoName
    else if s[0] == '=' && !(|s| > 1 && s[1] == '=') then Name("", s[1..])
    else WithText([s[0]], ScanName(if s[0] == '=' then s[2..] else s[1..]))
  }

  function WithText(t: string, r: NameScan): NameScan {
    match r
    case NoName => NoName
    case Name(u, rest) => Name(t + u, rest)
  }

  // A value is plain characters, quoted characters, and the points where a quote opens.
  datatype Piece = Plain(c: char) | Quoted(c: char) | QuoteMark

  datatype ValueScan = Unclosed | Pieces(pieces: seq<Piece>, terminated: bool, rest: string)

  function ScanValue(s: string, quote: Option<char>): (r: ValueScan)
    ensures r.Pieces? ==> |r.rest| <= |s|
    ensures r.Pieces? && !r.terminated ==> r.rest == ""
    ensures r.Pieces? && r.terminated ==> |r.rest| < |s|
    decreases |s|
  {
    match quote
    case None =>
      if s == "" then Pieces([], false, "")
      else if s[0] == ';' then Pieces([], true, s[1..])
      else if s[0] == '\'' || s[0] == '\"' then WithPieces([QuoteMark], ScanValue(s[1..], Some(s[0])))
      else WithPieces([Plain(s[0])], ScanValue(s[1..], None))
    case Some(q) =>
      if s == "" then Unclosed
      else if s[0] != q then WithPieces([Quoted(s[0])], ScanValue(s[1..], quote))
      else if |s| > 1 && s[1] == q then WithPieces([Quoted(q)], ScanValue(s[2..], quote))
      else ScanValue(s[1..], None)
  }

  function WithPieces(p: seq<Piece>, r: ValueScan): ValueScan {
    match r
    case Unclosed => Unclosed
    case Pieces(ps, t, rest) => Pieces(p + ps, t, rest)
  }

  function DropTrailingWhite(ps: seq<Piece>): seq<Piece> {
    if ps != [] && ps[|ps| - 1].Plain? && IsWhiteSpace(ps[|ps| - 1].c)
    then DropTrailingWhite(ps[..|ps| - 1])
    else ps
  }

  function Render(ps: seq<Piece>): string {
    if ps == [] then ""
    else (if ps[0].QuoteMark? then "" else [ps[0].c]) + Render(ps[1..])
  }

  // Only unquoted whitespace at the end is dropped.
  function ValueText(ps: seq<Piece>): string {
    Render(DropTrailingWhite(ps))
  }

  datatype Next =
    | End
    | Fail(error: Error)
    | Item(setting: Setting, terminated: bool, rest: string)

  // One pass of the loop in Parse: a name and a value, the end, or an exception. A name with no
  // value after it ends the text like no name at all.
  function NextSetting(s: string): (r: Next)
    ensures r.Item? ==> |r.rest| < |s|
    ensures r.Item? && !r.terminated ==> r.rest == ""
  {
    var t := SkipSeparators(s);
    if t == "" then End
    else match ScanName(t)
    case NoName => Fail(InvalidString)
    case Name(raw, afterName) =>
      if TrimRight(raw) == "" then Fail(MissingKeyword)
      else
        var v := TrimLeft(afterName);
        if v == "" then End
        else match ScanValue(v, None)
        case Unclosed => Fail(InvalidString)
        case Pieces(ps, terminated, rest) =>
          Item(Setting(TrimRight(raw), ValueText(ps)), terminated, rest)
  }

  // ---------------------------------------------------------------------------------------
  // All settings
  // ---------------------------------------------------------------------------------------

  datatype Parsed = Parsed(settings: seq<Setting>, error: Option<Error>)

  function Settings(s: string): Parsed
    decreases |s|
  {
    match NextSetting(s)
    case End => Parsed([], None)
    case Fail(e) => Parsed([], Some(e))
    case Item(x, _, rest) =>
      var r := Settings(rest);
      Parsed([x] + r.settings, r.error)
  }

  // The text of the settings that are not withheld, as Parse collects it.
  function SecureText(s: string): string
    decreases |s|
  {
    match NextSetting(s)
    case Item(x, _, rest) =>
      (if IsSecuritySensitive(x.name) then "" else Span(s, rest)) + SecureText(rest)
    case _ => ""
  }

  // What was read of s when `rest` is left.
  function Span(s: string, rest: string): string
    requires |rest| <= |s|
  {
    s[..|s| - |rest|]
  }

  // ---------------------------------------------------------------------------------------
  // A setting is read the same wherever its text stands
  // ---------------------------------------------------------------------------------------

  // What a scan leaves is the end of its text.
  predicate IsTail(s: string, rest: string) {
    |rest| <= |s| && rest == s[|s| - |rest|..]
  }

  lemma TailOfTail(s: string, k: nat, rest: string)
    requires k <= |s| && IsTail(s[k..], rest)
    ensures IsTail(s, rest)
  {
  }

  lemma TailSplit(s: string, rest: string)
    requires IsTail(s, rest)
    ensures s == Span(s, rest) + rest
  {
  }

  lemma {:induction false} NameTail(s: string)
    requires ScanName(s).Name?
    ensures IsTail(s, ScanName(s).rest)
    decreases |s|
  {
    if s[0] == '=' && !(|s| > 1 && s[1] == '=') {
    } else {
      var k := if s[0] == '=' then 2 else 1;
      NameTail(s[k..]);
      TailOfTail(s, k, ScanName(s).rest);
    }
  }

  // The characters one step of ScanValue consumes, and the quote it continues in.
  ghost function StepSize(s: string, quote: Option<char>): nat
    requires s != ""
  {
    if quote.Some? && s[0] == quote.value && |s| > 1 && s[1] == quote.value then 2 else 1
  }

  ghost function StepQuote(s: string, quote: Option<char>): Option<char>
    requires s != ""
  {
    if quote.None? && (s[0] == '\'' || s[0] == '\"') then Some(s[0])
    else if quote.Some? && s[0] == quote.value && StepSize(s, quote) == 1 then None
    else quote
  }

  lemma {:induction false} ValueTail(s: string, quote: Option<char>)
    requires ScanValue(s, quote).Pieces?
    ensures IsTail(s, ScanValue(s, quote).rest)
    decreases |s|
  {
    if s == "" || (quote.None? && s[0] == ';') {
    } else {
      var k, q := StepSize(s, quote), StepQuote(s, quote);
      ValueTail(s[k..], q);
      TailOfTail(s, k, ScanValue(s, quote).rest);
    }
  }

  // Whether the text ends inside quotes, by opening and closing alone: a doubled quote closes and
  // opens again.
  predicate OpenAtEnd(s: string, quote: Option<char>) {
    if s == "" then quote.Some?
    else match quote
    case None =>
      s[0] != ';' && OpenAtEnd(s[1..], if s[0] == '\'' || s[0] == '\"' then Some(s[0]) else None)
    case Some(q) => OpenAtEnd(s[1..], if s[0] == q then None else quote)
  }

  predicate IsQuoteState(quote: Option<char>) {
    quote.Some? ==> quote.value == '\'' || quote.value == '\"'
  }

  // A value has no end exactly when its text ends inside quotes.
  lemma {:induction false} UnclosedExactly(s: string, quote: Option<char>)
    requires IsQuoteState(quote)
    ensures ScanValue(s, quote).Unclosed? <==> OpenAtEnd(s, quote)
    decreases |s|
  {
    if s == "" || (quote.None? && s[0] == ';') {
    } else {
      var k, q := StepSize(s, quote), StepQuote(s, quote);
      UnclosedExactly(s[k..], q);
      if k == 2 {
        assert s[1..][1..] == s[2..];
      }
    }
  }

  // Parse throws "Invalid connection string" exactly when the text after the separators has no
  // undoubled equal sign or the value after a name ends inside quotes.
  lemma InvalidExactly(s: string)
    ensures var t := SkipSeparators(s);
            var n := ScanName(t);
            NextSetting(s) == Fail(InvalidString) <==>
            t != "" && (n.NoName?
                        || (TrimRight(n.text) != "" && OpenAtEnd(TrimLeft(n.rest), None)))
  {
    var n := ScanName(SkipSeparators(s));
    if n.Name? {
      UnclosedExactly(TrimLeft(n.rest), None);
    }
  }

  // Replacing what follows a name changes nothing, if no '=' comes to stand behind its end.
  lemma {:induction false} NameLocal(p: string, r: string, r': string)
    requires ScanName(p + r).Name? && ScanName(p + r).rest == r
    requires r' == "" || r'[0] != '='
    ensures ScanName(p + r') == Name(ScanName(p + r).text, r')
    decreases |p|
  {
    var s, s' := p + r, p + r';
    if p == "" {
      assert false;
    } else if s[0] == '=' && !(|s| > 1 && s[1] == '=') {
      NameStops(p, r, r');
    } else {
      var k := if s[0] == '=' then 2 else 1;
      NameHead(p, r, k);
      DropOfConcat(p, r, k);
      DropOfConcat(p, r', k);
      NameLocal(p[k..], r, r');
    }
  }

  lemma NameStops(p: string, r: string, r': string)
    requires p != "" && p[0] == '=' && !(|p + r| > 1 && (p + r)[1] == '=')
    requires ScanName(p + r).rest == r && (r' == "" || r'[0] != '=')
    ensures ScanName(p + r') == Name("", r') && ScanName(p + r).text == ""
  {
    assert (p + r)[1..] == p[1..] + r;
    assert |p| == 1;
    assert (p + r')[1..] == r';
  }

  // The characters a step of ScanName consumes belong to the name, not to what follows it.
  lemma NameHead(p: string, r: string, k: nat)
    requires p != "" && ScanName(p + r).Name? && ScanName(p + r).rest == r
    requires k == if p[0] == '=' then 2 else 1
    requires p[0] == '=' ==> |p + r| > 1 && (p + r)[1] == '='
    ensures k <= |p|
    ensures ScanName((p + r)[k..]).Name? && ScanName((p + r)[k..]).rest == r
  {
    var s := p + r;
    assert |ScanName(s[k..]).rest| < |s[k..]|;
  }

  // Replacing what follows a terminating semicolon changes nothing.
  lemma {:induction false} ValueLocal(p: string, r: string, r': string, quote: Option<char>)
    requires var v := ScanValue(p + r, quote); v.Pieces? && v.terminated && v.rest == r
    ensures ScanValue(p + r', quote) == Pieces(ScanValue(p + r, quote).pieces, true, r')
    decreases |p|
  {
    var s, s' := p + r, p + r';
    if p == "" {
      assert false;
    } else if quote.None? && s[0] == ';' {
      ValueStops(p, r, r');
    } else {
      var k, q := StepSize(s, quote), StepQuote(s, quote);
      ValueHead(p, r, quote);
      DropOfConcat(p, r, k);
      DropOfConcat(p, r', k);
      ValueLocal(p[k..], r, r', q);
    }
  }

  lemma ValueStops(p: string, r: string, r': string)
    requires p != "" && p[0] == ';' && ScanValue(p + r, None).rest == r
    ensures ScanValue(p + r', None) == Pieces(ScanValue(p + r, None).pieces, true, r')
  {
    assert (p + r)[1..] == p[1..] + r;
    assert |p| == 1;
    assert (p + r')[1..] == r';
  }

  // The characters a step of ScanValue consumes belong to the value, not to what follows it.
  lemma ValueHead(p: string, r: string, quote: Option<char>)
    requires var v := ScanValue(p + r, quote); v.Pieces? && v.terminated && v.rest == r
    requires p != "" && !(quote.None? && p[0] == ';')
    ensures var k, q := StepSize(p + r, quote), StepQuote(p + r, quote);
            && k <= |p|
            && (quote.Some? && p[0] == quote.value ==> |p| >= 2)
            && var v := ScanValue((p + r)[k..], q); v.Pieces? && v.terminated && v.rest == r
  {
    var s := p + r;
    var k, q := StepSize(s, quote), StepQuote(s, quote);
    assert |ScanValue(s[k..], q).rest| < |s[k..]|;
  }

  predicate IsSeparator(c: char) {
    IsWhiteSpace(c) || c == ';'
  }

  predicate AllSeparators(s: string) {
    forall i :: 0 <= i < |s| ==> IsSeparator(s[i])
  }

  lemma {:induction false} SkipSeparatorsSplit(s: string) returns (a: string)
    ensures s == a + SkipSeparators(s) && AllSeparators(a)
    ensures SkipSeparators(s) == "" || !IsSeparator(SkipSeparators(s)[0])
  {
    if s != "" && IsSeparator(s[0]) {
      var b := SkipSeparatorsSplit(s[1..]);
      a := [s[0]] + b;
    } else {
      a := "";
    }
  }

  lemma {:induction false} SkipSeparatorsOf(a: string, t: string)
    requires AllSeparators(a) && (t == "" || !IsSeparator(t[0]))
    ensures SkipSeparators(a + t) == t
  {
    if a == "" {
      assert a + t == t;
    } else {
      assert (a + t)[1..] == a[1..] + t;
      SkipSeparatorsOf(a[1..], t);
    }
  }

  lemma {:induction false} TrimLeftSplit(s: string) returns (a: string)
    ensures s == a + TrimLeft(s) && AllWhite(a)
    ensures TrimLeft(s) == "" || !IsWhiteSpace(TrimLeft(s)[0])
  {
    if s != "" && IsWhiteSpace(s[0]) {
      var b := TrimLeftSplit(s[1..]);
      a := [s[0]] + b;
    } else {
      a := "";
    }
  }

  lemma {:induction false} TrimLeftOf(a: string, t: string)
    requires AllWhite(a) && (t == "" || !IsWhiteSpace(t[0]))
    ensures TrimLeft(a + t) == t
  {
    if a == "" {
      assert a + t == t;
    } else {
      assert (a + t)[1..] == a[1..] + t;
      TrimLeftOf(a[1..], t);
    }
  }

  lemma {:induction false} NameEndIsUndoubled(s: string)
    requires ScanName(s).Name?
    ensures ScanName(s).rest == "" || ScanName(s).rest[0] != '='
    decreases |s|
  {
    if s[0] == '=' && !(|s| > 1 && s[1] == '=') {
    } else {
      NameEndIsUndoubled(if s[0] == '=' then s[2..] else s[1..]);
    }
  }

  // The name, the blanks before the value and the value of an item.
  lemma ItemParts(s: string) returns (a: string, b: string, c: string, d: string)
    requires NextSetting(s).Item?
    ensures var t := SkipSeparators(s);
            var n := ScanName(t);
            && s == a + t && AllSeparators(a) && t != "" && !IsSeparator(t[0])
            && n.Name? && t == b + n.rest
            && var v := TrimLeft(n.rest);
               && n.rest == c + v && AllWhite(c) && v != "" && !IsWhiteSpace(v[0])
               && ScanValue(v, None).Pieces? && v == d + ScanValue(v, None).rest
               && NextSetting(s).rest == ScanValue(v, None).rest
  {
    a := SkipSeparatorsSplit(s);
    var t := SkipSeparators(s);
    NameTail(t);
    var n := ScanName(t).rest;
    TailSplit(t, n);
    b := Span(t, n);
    c := TrimLeftSplit(n);
    var v := TrimLeft(n);
    ValueTail(v, None);
    var rest := ScanValue(v, None).rest;
    TailSplit(v, rest);
    d := Span(v, rest);
  }

  lemma SpanOfParts(s: string, a: string, b: string, c: string, d: string, rest: string, r: string)
    requires s == a + (b + (c + (d + rest)))
    ensures Span(s, rest) + r == a + (b + (c + (d + r)))
  {
    assert s == a + b + c + d + rest;
    assert Span(s, rest) == a + b + c + d;
  }

  // NextSetting from its parts.
  lemma NextFromParts(a: string, t: string, n: string, raw: string, v: string, w: ValueScan)
    requires AllSeparators(a) && t != "" && !IsSeparator(t[0])
    requires ScanName(t) == Name(raw, n) && TrimRight(raw) != ""
    requires TrimLeft(n) == v && v != "" && ScanValue(v, None) == w && w.Pieces?
    ensures NextSetting(a + t)
            == Item(Setting(TrimRight(raw), ValueText(w.pieces)), w.terminated, w.rest)
  {
    SkipSeparatorsOf(a, t);
  }

  // A setting that ends with its semicolon reads the same in front of any other text.
  lemma ItemLocal(s: string, r: string)
    requires NextSetting(s).Item? && NextSetting(s).terminated
    ensures NextSetting(Span(s, NextSetting(s).rest) + r) == Item(NextSetting(s).setting, true, r)
  {
    var a, b, c, d := ItemParts(s);
    var t := SkipSeparators(s);
    var n := ScanName(t).rest;
    var v := TrimLeft(n);
    var rest := NextSetting(s).rest;
    var v', n', t' := d + r, c + (d + r), b + (c + (d + r));
    SpanOfParts(s, a, b, c, d, rest, r);
    assert d != "" && v'[0] == v[0];
    ValueLocal(d, rest, r, None);
    TrimLeftOf(c, v');
    NameEndIsUndoubled(t);
    assert n'[0] == n[0];
    NameLocal(b, n, n');
    assert b != "" && t'[0] == t[0];
    NextFromParts(a, t', n', ScanName(t).text, v', ScanValue(v', None));
  }

  // ---------------------------------------------------------------------------------------
  // The secure text
  // ---------------------------------------------------------------------------------------

  // An unterminated setting is the last one.
  lemma LastIsEmpty(s: string)
    requires NextSetting(s).Item? && !NextSetting(s).terminated
    ensures Span(s, NextSetting(s).rest) == s && Settings(NextSetting(s).rest) == Parsed([], None)
  {
  }

  // Reading the secure text gives exactly the settings of the original without the passwords,
  // and it never fails: text that Parse rejects is not copied.
  lemma {:induction false} SettingsOfSecureText(s: string)
    ensures Settings(SecureText(s)) == Parsed(Public(Settings(s).settings), None)
    decreases |s|
  {
    var next := NextSetting(s);
    match next
    case End =>
    case Fail(_) =>
    case Item(x, terminated, rest) =>
      SettingsOfSecureText(rest);
      var later := SecureText(rest);
      var r := Settings(rest);
      assert Settings(s).settings == [x] + r.settings;
      assert ([x] + r.settings)[1..] == r.settings;
      if IsSecuritySensitive(x.name) {
        assert SecureText(s) == later;
      } else {
        if terminated {
          ItemLocal(s, later);
        } else {
          LastIsEmpty(s);
          assert SecureText(s) == s;
        }
      }
  }
}
