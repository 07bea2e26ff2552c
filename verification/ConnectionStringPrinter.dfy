/** Writing settings as a connection string, and reading them back. */
module ConnectionStringPrinter {
  import opened Wrappers
  import opened Text
  import opened ConnectionOptions
  import opened ConnectionString

  function DoubleEach(s: string, q: char): string {
    if s == "" then ""
    else (if s[0] == q then [q, q] else [s[0]]) + DoubleEach(s[1..], q)
  }

  predicate IsQuote(q: char) {
    q == '\'' || q == '\"'
  }

  // A setting by the documented rules: '=' doubled in the name, the value quoted.
  function PrintOne(x: Setting, q: char): string {
    DoubleEach(x.name, '=') + "=" + ([q] + (DoubleEach(x.value, q) + [q]))
  }

  function Print(xs: seq<Setting>, q: char): string {
    if xs == [] then ""
    else if |xs| == 1 then PrintOne(xs[0], q)
    else PrintOne(xs[0], q) + (";" + Print(xs[1..], q))
  }

  // Names that survive: not empty, no whitespace at either end, no semicolon in front.
  predicate PrintableName(n: string) {
    n != "" && !IsSeparator(n[0]) && !IsWhiteSpace(n[|n| - 1])
  }

  predicate AllPrintable(xs: seq<Setting>) {
    forall i :: 0 <= i < |xs| ==> PrintableName(xs[i].name)
  }

  lemma {:induction false} ScanPrintedName(n: string, r: string)
    requires r == "" || r[0] != '='
    ensures ScanName(DoubleEach(n, '=') + "=" + r) == Name(n, r)
  {
    var s := DoubleEach(n, '=') + "=" + r;
    if n == "" {
      assert s == "=" + r;
      assert s[1..] == r;
    } else {
      ScanPrintedName(n[1..], r);
      var s' := DoubleEach(n[1..], '=') + "=" + r;
      assert s == (if n[0] == '=' then "==" else [n[0]]) + s';
      assert s[if n[0] == '=' then 2 else 1..] == s';
      assert [n[0]] + n[1..] == n;
    }
  }

  function AllQuoted(v: string): seq<Piece> {
    if v == "" then [] else [Quoted(v[0])] + AllQuoted(v[1..])
  }

  lemma {:induction false} ScanPrintedValue(v: string, q: char, r: string)
    requires r == "" || r[0] != q
    ensures ScanValue(DoubleEach(v, q) + [q] + r, Some(q))
            == WithPieces(AllQuoted(v), ScanValue(r, None))
  {
    var s := DoubleEach(v, q) + [q] + r;
    if v == "" {
      assert s == [q] + r;
      assert s[1..] == r;
      var w := ScanValue(r, None);
      assert w.Pieces? ==> [] + w.pieces == w.pieces;
    } else {
      ScanPrintedValue(v[1..], q, r);
      var s' := DoubleEach(v[1..], q) + [q] + r;
      assert s == (if v[0] == q then [q, q] else [v[0]]) + s';
      assert s[if v[0] == q then 2 else 1..] == s';
      QuotedCons(v, ScanValue(r, None));
    }
  }

  lemma QuotedCons(v: string, w: ValueScan)
    requires v != ""
    ensures WithPieces([Quoted(v[0])], WithPieces(AllQuoted(v[1..]), w)) == WithPieces(AllQuoted(v), w)
  {
    if w.Pieces? {
      ConcatAssociates([Quoted(v[0])], AllQuoted(v[1..]), w.pieces);
    }
  }

  lemma {:induction false} QuotedEach(v: string)
    ensures |AllQuoted(v)| == |v|
    ensures forall i :: 0 <= i < |v| ==> AllQuoted(v)[i] == Quoted(v[i])
  {
    if v == "" {
    } else {
      QuotedEach(v[1..]);
    }
  }

  lemma RenderCons(c: char, ps: seq<Piece>)
    ensures Render([Quoted(c)] + ps) == [c] + Render(ps)
  {
    assert ([Quoted(c)] + ps)[1..] == ps;
  }

  lemma {:induction false} RenderQuoted(v: string)
    ensures Render(AllQuoted(v)) == v
  {
    if v == "" {
    } else {
      RenderQuoted(v[1..]);
      RenderCons(v[0], AllQuoted(v[1..]));
      assert v == [v[0]] + v[1..];
    }
  }

  lemma TextOfQuoted(v: string)
    ensures ValueText([QuoteMark] + AllQuoted(v)) == v
  {
    QuotedEach(v);
    RenderQuoted(v);
    var ps := [QuoteMark] + AllQuoted(v);
    assert ps[|ps| - 1].QuoteMark? || ps[|ps| - 1].Quoted?;
    assert DropTrailingWhite(ps) == ps;
    assert ps[1..] == AllQuoted(v);
  }

  // A printed value in front of the end, or of a semicolon and more text.
  lemma ScanQuotedValue(v: string, q: char, r: string)
    requires IsQuote(q) && (r == "" || r[0] == ';')
    ensures ScanValue([q] + (DoubleEach(v, q) + [q] + r), None)
            == Pieces([QuoteMark] + AllQuoted(v), r != "", if r == "" then "" else r[1..])
  {
    var s := DoubleEach(v, q) + [q] + r;
    ScanPrintedValue(v, q, r);
    assert ([q] + s)[1..] == s;
    assert AllQuoted(v) + [] == AllQuoted(v);
  }

  lemma TrimRightOfPrintable(n: string)
    requires PrintableName(n)
    ensures TrimRight(n) == n
  {
  }

  lemma {:induction false} DoubleEachHead(n: string)
    requires n != ""
    ensures DoubleEach(n, '=') != "" && DoubleEach(n, '=')[0] == n[0]
  {
  }

  // A printed setting in front of r is the printed name, '=' and the quoted value with r behind.
  lemma PrintedParts(x: Setting, q: char, r: string)
    ensures PrintOne(x, q) + r
            == DoubleEach(x.name, '=') + "=" + ([q] + (DoubleEach(x.value, q) + [q] + r))
  {
  }

  lemma NextOfPrinted(x: Setting, q: char, r: string)
    requires PrintableName(x.name) && IsQuote(q) && (r == "" || r[0] == ';')
    ensures NextSetting(PrintOne(x, q) + r) == Item(x, r != "", if r == "" then "" else r[1..])
  {
    var v := [q] + (DoubleEach(x.value, q) + [q] + r);
    var t := DoubleEach(x.name, '=') + "=" + v;
    PrintedParts(x, q, r);
    ScanPrintedName(x.name, v);
    TrimRightOfPrintable(x.name);
    DoubleEachHead(x.name);
    ScanQuotedValue(x.value, q, r);
    TextOfQuoted(x.value);
    TrimLeftOf("", v);
    assert "" + v == v && "" + t == t;
    NextFromParts("", t, v, x.name, v, ScanValue(v, None));
  }

  lemma SettingsCons(s: string, x: Setting, terminated: bool, rest: string, xs: seq<Setting>)
    requires NextSetting(s) == Item(x, terminated, rest)
    requires |rest| < |s| && Settings(rest) == Parsed(xs, None)
    ensures Settings(s) == Parsed([x] + xs, None)
  {
  }

  lemma PrintCons(xs: seq<Setting>, q: char)
    requires |xs| > 1
    ensures Print(xs, q) == PrintOne(xs[0], q) + (";" + Print(xs[1..], q))
    ensures (";" + Print(xs[1..], q))[1..] == Print(xs[1..], q)
    ensures xs == [xs[0]] + xs[1..]
  {
  }

  lemma {:induction false} SettingsOfPrinted(xs: seq<Setting>, q: char)
    requires AllPrintable(xs) && IsQuote(q)
    ensures Settings(Print(xs, q)) == Parsed(xs, None)
  {
    if xs == [] {
    } else if |xs| == 1 {
      NextOfPrinted(xs[0], q, "");
      assert PrintOne(xs[0], q) + "" == Print(xs, q);
      SettingsCons(Print(xs, q), xs[0], false, "", []);
      assert xs == [xs[0]] + [];
    } else {
      SettingsOfPrinted(xs[1..], q);
      NextOfPrinted(xs[0], q, ";" + Print(xs[1..], q));
      PrintCons(xs, q);
      SettingsCons(Print(xs, q), xs[0], true, Print(xs[1..], q), xs[1..]);
    }
  }

  lemma ItemNameIsPrintable(s: string)
    requires NextSetting(s).Item?
    ensures PrintableName(NextSetting(s).setting.name)
  {
    var t := SkipSeparators(s);
    var a := SkipSeparatorsSplit(s);
    var raw := ScanName(t).text;
    TrimmedNameIsPrintable(t, raw);
  }

  lemma TrimmedNameIsPrintable(t: string, raw: string)
    requires t != "" && !IsSeparator(t[0])
    requires ScanName(t).Name? && ScanName(t).text == raw && TrimRight(raw) != ""
    ensures PrintableName(TrimRight(raw))
  {
    TrimRightEnd(raw);
    NameHeadKept(t);
    assert TrimRight(raw)[0] == raw[0];
  }

  // Every name the parser delivers is printable.
  lemma {:induction false} ParsedNamesArePrintable(s: string)
    ensures AllPrintable(Settings(s).settings)
    decreases |s|
  {
    if !NextSetting(s).Item? {
    } else {
      ParsedNamesArePrintable(NextSetting(s).rest);
      ItemNameIsPrintable(s);
    }
  }

  lemma NameHeadKept(t: string)
    requires ScanName(t).Name? && ScanName(t).text != ""
    ensures ScanName(t).text[0] == t[0]
  {
  }

  // The printer is a right inverse of the parser exactly on lists with printable names.
  lemma PrintRoundTrip(xs: seq<Setting>, q: char)
    requires IsQuote(q)
    ensures Settings(Print(xs, q)) == Parsed(xs, None) <==> AllPrintable(xs)
  {
    ParsedNamesArePrintable(Print(xs, q));
    if AllPrintable(xs) {
      SettingsOfPrinted(xs, q);
    }
  }

  // Single and double quotes both do.
  lemma EitherQuoteRoundTrip(xs: seq<Setting>)
    requires AllPrintable(xs)
    ensures Settings(Print(xs, '\'')) == Settings(Print(xs, '\"')) == Parsed(xs, None)
  {
    PrintRoundTrip(xs, '\'');
    PrintRoundTrip(xs, '\"');
  }

  // Parsing, printing and parsing again loses nothing, whatever text came first.
  lemma ReprintRoundTrip(s: string, q: char)
    requires IsQuote(q)
    ensures Settings(Print(Settings(s).settings, q)) == Parsed(Settings(s).settings, None)
  {
    ParsedNamesArePrintable(s);
    SettingsOfPrinted(Settings(s).settings, q);
  }
}
