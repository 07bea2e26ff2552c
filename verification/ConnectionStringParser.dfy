/** The scanner itself: one object that walks the string with span pointers and a buffer. */
module ConnectionStringParser {
  import opened Wrappers
  import opened Text
  import opened ConnectionOptions
  import opened ConnectionString

  // A string, null, or a thrown exception.
  datatype Outcome = Got(text: string) | Null | Throws(error: Error)

  // What GetName should deliver for the text that is left.
  function NameOutcome(s: string): Outcome {
    var t := SkipSeparators(s);
    if t == "" then Null
    else match ScanName(t)
    case NoName => Throws(InvalidString)
    case Name(raw, _) =>
      if TrimRight(raw) == "" then Throws(MissingKeyword) else Got(TrimRight(raw))
  }

  // What GetValue should deliver for the text that is left.
  function ValueOutcome(s: string): Outcome {
    var v := TrimLeft(s);
    if v == "" then Null
    else match ScanValue(v, None)
    case Unclosed => Throws(InvalidString)
    case Pieces(ps, _, _) => Got(ValueText(ps))
  }

  lemma {:induction false} SeparatorsAfterWhite(s: string)
    ensures SkipSeparators(TrimLeft(s)) == SkipSeparators(s)
  {
    if s == "" || !IsWhiteSpace(s[0]) {
    } else {
      SeparatorsAfterWhite(s[1..]);
    }
  }

  lemma WithTextTwice(t: string, u: string, r: NameScan)
    ensures WithText(t, WithText(u, r)) == WithText(t + u, r)
  {
    if r.Name? {
      assert t + (u + r.text) == t + u + r.text;
    }
  }

  lemma WithPiecesTwice(p: seq<Piece>, q: seq<Piece>, r: ValueScan)
    ensures WithPieces(p, WithPieces(q, r)) == WithPieces(p + q, r)
  {
    if r.Pieces? {
      assert p + (q + r.pieces) == p + q + r.pieces;
    }
  }

  lemma {:induction false} RenderSnoc(ps: seq<Piece>, p: Piece)
    ensures Render(ps + [p]) == Render(ps) + (if p.QuoteMark? then "" else [p.c])
  {
    if ps == [] {
      assert ps + [p] == [p] && [p][1..] == [];
    } else {
      assert (ps + [p])[1..] == ps[1..] + [p];
      RenderSnoc(ps[1..], p);
      var first := if ps[0].QuoteMark? then "" else [ps[0].c];
      var last := if p.QuoteMark? then "" else [p.c];
      assert first + (Render(ps[1..]) + last) == first + Render(ps[1..]) + last;
    }
  }

  // State of the scan for a name that began at `from`: the buffer holds everything read, except
  // the whitespace of the open span [start, i).
  ghost predicate ReadingName(source: string, from: nat, start: nat, i: nat, sb: string) {
    && from <= start <= i <= |source|
    && AllWhite(source[start..i])
    && (sb == "" || !IsWhiteSpace(sb[|sb| - 1]))
    && ScanName(source[from..]) == WithText(sb + source[start..i], ScanName(source[i..]))
  }

  lemma NameStart(source: string, from: nat)
    requires from <= |source|
    ensures ReadingName(source, from, from, from, "")
  {
    var r := ScanName(source[from..]);
    assert r.Name? ==> "" + r.text == r.text;
    assert "" + source[from..from] == "";
  }

  // One more character read, white or not.
  lemma NameChar(source: string, from: nat, start: nat, i: nat, sb: string)
    requires ReadingName(source, from, start, i, sb) && i < |source| && source[i] != '='
    ensures IsWhiteSpace(source[i]) ==> ReadingName(source, from, start, i + 1, sb)
    ensures !IsWhiteSpace(source[i]) ==>
              ReadingName(source, from, i + 1, i + 1, sb + source[start..i + 1])
  {
    var s := source[i..];
    assert s[1..] == source[i + 1..];
    WithTextTwice(sb + source[start..i], [s[0]], ScanName(s[1..]));
    assert source[start..i + 1] == source[start..i] + [source[i]];
    var read := sb + source[start..i + 1];
    assert sb + source[start..i] + [s[0]] == read;
    assert read + source[i + 1..i + 1] == read;
  }

  lemma NameDoubled(source: string, from: nat, start: nat, i: nat, sb: string)
    requires ReadingName(source, from, start, i, sb)
    requires i + 1 < |source| && source[i] == '=' && source[i + 1] == '='
    ensures ReadingName(source, from, i + 2, i + 2, sb + source[start..i + 1])
  {
    var s := source[i..];
    assert s[2..] == source[i + 2..];
    WithTextTwice(sb + source[start..i], "=", ScanName(s[2..]));
    assert source[start..i + 1] == source[start..i] + "=";
    var read := sb + source[start..i + 1];
    assert sb + source[start..i] + "=" == read;
    assert read + source[i + 2..i + 2] == read;
  }

  lemma NameFinished(source: string, from: nat, start: nat, i: nat, sb: string)
    requires ReadingName(source, from, start, i, sb)
    requires i < |source| && source[i] == '=' && !(i + 1 < |source| && source[i + 1] == '=')
    ensures var r := ScanName(source[from..]);
            r.Name? && TrimRight(r.text) == sb && r.rest == source[i + 1..]
  {
    var s := source[i..];
    assert s[1..] == source[i + 1..];
    var read := sb + source[start..i];
    assert read + "" == read;
    TrimRightOfWhite(sb, source[start..i]);
  }

  // State of the scan for a value that began at `from`: `ps` are the pieces read; the buffer
  // renders them, except for whitespace of the open span [start, i) outside quotes.
  ghost predicate ReadingValue(source: string, from: nat, start: nat, i: nat, sb: string,
                               quote: Option<char>, ps: seq<Piece>)
  {
    && from <= start <= i <= |source|
    && ScanValue(source[from..], None) == WithPieces(ps, ScanValue(source[i..], quote))
    && (if quote.Some? then Kept(ps) && sb == Render(ps)
        else AllWhite(source[start..i]) && Buffered(ps, sb, source[start..i]))
  }

  // A piece sequence that loses nothing at its end.
  predicate Kept(ps: seq<Piece>) {
    ps == [] || !(ps[|ps| - 1].Plain? && IsWhiteSpace(ps[|ps| - 1].c))
  }

  function AllPlain(w: string): (ps: seq<Piece>)
    ensures |ps| == |w| && forall i :: 0 <= i < |w| ==> ps[i] == Plain(w[i])
  {
    seq(|w|, i requires 0 <= i < |w| => Plain(w[i]))
  }

  // ps is a kept part that renders to sb, and then plain text w.
  ghost predicate Buffered(ps: seq<Piece>, sb: string, w: string) {
    && |w| <= |ps|
    && ps[|ps| - |w|..] == AllPlain(w)
    && Kept(ps[..|ps| - |w|])
    && sb == Render(ps[..|ps| - |w|])
  }

  lemma {:induction false} RenderPlain(ps: seq<Piece>, w: string)
    ensures Render(ps + AllPlain(w)) == Render(ps) + w
  {
    if w == "" {
      assert ps + AllPlain(w) == ps;
    } else {
      var k := |w| - 1;
      RenderPlain(ps, w[..k]);
      assert ps + AllPlain(w) == (ps + AllPlain(w[..k])) + [Plain(w[k])];
      RenderSnoc(ps + AllPlain(w[..k]), Plain(w[k]));
      assert Render(ps) + w[..k] + [w[k]] == Render(ps) + w;
    }
  }

  lemma {:induction false} DropPlainWhite(ps: seq<Piece>, w: string)
    requires Kept(ps) && AllWhite(w)
    ensures DropTrailingWhite(ps + AllPlain(w)) == ps
  {
    if w == "" {
      assert ps + AllPlain(w) == ps;
    } else {
      var k := |w| - 1;
      var all := ps + AllPlain(w);
      assert all[..|all| - 1] == ps + AllPlain(w[..k]);
      DropPlainWhite(ps, w[..k]);
    }
  }

  // Where the value ends, the buffer is its text.
  lemma ValueFinished(ps: seq<Piece>, sb: string, w: string)
    requires Buffered(ps, sb, w) && AllWhite(w)
    ensures ValueText(ps) == sb
  {
    var kept := ps[..|ps| - |w|];
    assert ps == kept + AllPlain(w);
    DropPlainWhite(kept, w);
  }

  // One more plain character: whitespace stays in the span, anything else closes it.
  lemma SplitPlain(ps: seq<Piece>, sb: string, w: string, c: char)
    requires Buffered(ps, sb, w)
    ensures Buffered(ps + [Plain(c)], sb, w + [c])
    ensures !IsWhiteSpace(c) ==> Buffered(ps + [Plain(c)], sb + (w + [c]), "")
  {
    var kept := ps[..|ps| - |w|];
    var all := ps + [Plain(c)];
    assert ps == kept + AllPlain(w);
    assert all[..|all| - |w + [c]|] == kept;
    assert all[|all| - |w + [c]|..] == AllPlain(w + [c]);
    RenderPlain(kept, w + [c]);
    assert all == kept + AllPlain(w + [c]);
    assert all[..|all| - 0] == all;
  }

  // An opening quote keeps the whitespace before it.
  lemma SplitQuote(ps: seq<Piece>, sb: string, w: string)
    requires Buffered(ps, sb, w)
    ensures Kept(ps + [QuoteMark]) && Render(ps + [QuoteMark]) == sb + w
  {
    var kept := ps[..|ps| - |w|];
    assert ps == kept + AllPlain(w);
    RenderPlain(kept, w);
    RenderSnoc(ps, QuoteMark);
  }

  lemma ValueStart(source: string, from: nat)
    requires from <= |source|
    ensures ReadingValue(source, from, from, from, "", None, [])
  {
    var r := ScanValue(source[from..], None);
    assert r.Pieces? ==> [] + r.pieces == r.pieces;
    assert source[from..from] == "";
  }

  // Outside quotes, on anything but a semicolon.
  lemma ValuePlain(source: string, from: nat, start: nat, i: nat, sb: string, ps: seq<Piece>)
    requires ReadingValue(source, from, start, i, sb, None, ps)
    requires i < |source| && source[i] != ';' && source[i] != '\'' && source[i] != '\"'
    ensures IsWhiteSpace(source[i]) ==>
              ReadingValue(source, from, start, i + 1, sb, None, ps + [Plain(source[i])])
    ensures !IsWhiteSpace(source[i]) ==>
              ReadingValue(source, from, i + 1, i + 1, sb + source[start..i + 1], None,
                           ps + [Plain(source[i])])
  {
    var s := source[i..];
    assert s[1..] == source[i + 1..];
    WithPiecesTwice(ps, [Plain(s[0])], ScanValue(s[1..], None));
    assert source[start..i + 1] == source[start..i] + [source[i]];
    SplitPlain(ps, sb, source[start..i], source[i]);
    assert source[i + 1..i + 1] == "";
  }

  lemma ValueOpens(source: string, from: nat, start: nat, i: nat, sb: string, ps: seq<Piece>)
    requires ReadingValue(source, from, start, i, sb, None, ps)
    requires i < |source| && (source[i] == '\'' || source[i] == '\"')
    ensures ReadingValue(source, from, i + 1, i + 1, sb + source[start..i], Some(source[i]),
                         ps + [QuoteMark])
  {
    var s := source[i..];
    assert s[1..] == source[i + 1..];
    WithPiecesTwice(ps, [QuoteMark], ScanValue(s[1..], Some(s[0])));
    SplitQuote(ps, sb, source[start..i]);
  }

  // Inside quotes: an ordinary character, a doubled quote, the closing quote.
  lemma ValueQuoted(source: string, from: nat, start: nat, i: nat, sb: string, q: char,
                    ps: seq<Piece>, k: nat)
    requires ReadingValue(source, from, start, i, sb, Some(q), ps) && i < |source|
    requires source[i] == q ==> i + 1 < |source| && source[i + 1] == q
    requires k == if source[i] == q then 2 else 1
    ensures ReadingValue(source, from, start, i + k, sb + [source[i]], Some(q),
                         ps + [Quoted(source[i])])
  {
    var s := source[i..];
    assert s[k..] == source[i + k..];
    WithPiecesTwice(ps, [Quoted(s[0])], ScanValue(s[k..], Some(q)));
    RenderSnoc(ps, Quoted(s[0]));
  }

  lemma ValueCloses(source: string, from: nat, start: nat, i: nat, sb: string, q: char,
                    ps: seq<Piece>)
    requires ReadingValue(source, from, start, i, sb, Some(q), ps)
    requires i < |source| && source[i] == q && !(i + 1 < |source| && source[i + 1] == q)
    ensures ReadingValue(source, from, i + 1, i + 1, sb, None, ps)
  {
    var s := source[i..];
    assert s[1..] == source[i + 1..];
    assert source[i + 1..i + 1] == "";
    assert ps[..|ps| - 0] == ps;
    assert Buffered(ps, sb, "");
  }

  // At the end or at a semicolon outside quotes.
  lemma ValueEnds(source: string, from: nat, start: nat, i: nat, sb: string, ps: seq<Piece>)
    requires ReadingValue(source, from, start, i, sb, None, ps)
    requires i == |source| || source[i] == ';'
    ensures ScanValue(source[from..], None)
            == Pieces(ps, i < |source|, if i < |source| then source[i + 1..] else "")
    ensures ValueText(ps) == sb
  {
    assert ps + [] == ps;
    ValueFinished(ps, sb, source[start..i]);
    assert i < |source| ==> source[i..][1..] == source[i + 1..];
  }

  // One turn of the loop in GetName.
  method NameTurn(source: string, ghost from: nat, start: nat, i: nat, sb: string)
    returns (done: bool, start': nat, i': nat, sb': string)
    requires i < |source| && ReadingName(source, from, start, i, sb)
    ensures i < i' <= |source|
    ensures !done ==> ReadingName(source, from, start', i', sb')
    ensures done ==> var n := ScanName(source[from..]);
                     n.Name? && TrimRight(n.text) == sb' && n.rest == source[i'..]
  {
    done, start', i', sb' := false, start, i + 1, sb;
    var c := source[i];
    if !IsWhiteSpace(c) {
      if c == '=' {
        if i' < |source| && source[i'] == '=' {
          NameDoubled(source, from, start, i, sb);
          sb' := sb + source[start..i'];
          i' := i' + 1;
        } else {
          NameFinished(source, from, start, i, sb);
          done := true;
        }
      } else {
        NameChar(source, from, start, i, sb);
        sb' := sb + source[start..i'];
      }
      start' := i';
    } else {
      NameChar(source, from, start, i, sb);
    }
  }

  // The scanning loop of GetName, from the first character of a name: the outcome and the new
  // position.
  method ReadName(source: string, from: nat) returns (r: Outcome, next: nat)
    requires from < |source|
    ensures from <= next <= |source|
    ensures var n := ScanName(source[from..]);
            && r == (if n.NoName? then Throws(InvalidString)
                     else if TrimRight(n.text) == "" then Throws(MissingKeyword)
                     else Got(TrimRight(n.text)))
            && (r.Got? ==> source[next..] == n.rest)
  {
    var start: nat, i: nat, sb := from, from, "";
    NameStart(source, from);
    while i < |source|
      invariant ReadingName(source, from, start, i, sb)
    {
      var done;
      done, start, i, sb := NameTurn(source, from, start, i, sb);
      if done {
        if |sb| == 0 {
          return Throws(MissingKeyword), from;
        }
        return Got(sb), i;
      }
    }
    return Throws(InvalidString), from;
  }

  // One turn of the loop in GetValue inside quotes.
  method QuotedTurn(source: string, ghost from: nat, start: nat, i: nat, sb: string, quote: char,
                    ghost ps: seq<Piece>)
    returns (quoted: bool, start': nat, i': nat, sb': string, ghost ps': seq<Piece>)
    requires i < |source| && ReadingValue(source, from, start, i, sb, Some(quote), ps)
    ensures i < i' <= |source|
    ensures ReadingValue(source, from, start', i', sb', if quoted then Some(quote) else None, ps')
  {
    var c := source[i];
    if c == quote && !(i + 1 < |source| && source[i + 1] == quote) {
      ValueCloses(source, from, start, i, sb, quote, ps);
      quoted, start', i', sb', ps' := false, i + 1, i + 1, sb, ps;
    } else {
      var k := if c == quote then 2 else 1;
      ValueQuoted(source, from, start, i, sb, quote, ps, k);
      quoted, start', i', sb', ps' := true, start, i + k, sb + [c], ps + [Quoted(c)];
    }
  }

  // One turn of the loop in GetValue outside quotes, on anything but a semicolon.
  method PlainTurn(source: string, ghost from: nat, start: nat, i: nat, sb: string,
                   ghost ps: seq<Piece>)
    returns (quote: Option<char>, start': nat, i': nat, sb': string, ghost ps': seq<Piece>)
    requires i < |source| && source[i] != ';'
    requires ReadingValue(source, from, start, i, sb, None, ps)
    ensures i < i' <= |source|
    ensures ReadingValue(source, from, start', i', sb', quote, ps')
  {
    quote, start', i', sb' := None, start, i + 1, sb;
    var c := source[i];
    if c == '\'' || c == '\"' {
      ValueOpens(source, from, start, i, sb, ps);
      assert i' - 1 == start ==> sb + source[start..i' - 1] == sb;
      sb' := if i' - 1 > start then sb + source[start..i' - 1] else sb;
      quote, start', ps' := Some(c), i', ps + [QuoteMark];
    } else {
      ValuePlain(source, from, start, i, sb, ps);
      ps' := ps + [Plain(c)];
      if !IsWhiteSpace(c) {
        sb' := sb + source[start..i'];
        start' := i';
      }
    }
  }

  // The scanning loop of GetValue, from the first character of a value.
  method ReadValue(source: string, from: nat) returns (r: Outcome, next: nat)
    requires from < |source|
    ensures from <= next <= |source|
    ensures var v := ScanValue(source[from..], None);
            && r == (if v.Unclosed? then Throws(InvalidString) else Got(ValueText(v.pieces)))
            && (r.Got? ==> from < next && source[next..] == v.rest)
  {
    var quote: Option<char> := None;
    var start: nat, i: nat, sb := from, from, "";
    ghost var ps := [];
    ValueStart(source, from);
    while i < |source| && (quote.Some? || source[i] != ';')
      invariant ReadingValue(source, from, start, i, sb, quote, ps)
    {
      if quote.Some? {
        var quoted;
        quoted, start, i, sb, ps := QuotedTurn(source, from, start, i, sb, quote.value, ps);
        quote := if quoted then quote else None;
      } else {
        quote, start, i, sb, ps := PlainTurn(source, from, start, i, sb, ps);
      }
    }
    if quote.Some? {
      return Throws(InvalidString), from;
    }
    ValueEnds(source, from, start, i, sb, ps);
    return Got(sb), if i == |source| then i else i + 1;
  }

  // What parsing the text that is left will do to the options: their values and the exception.
  function Remaining(p: Platform, m: Store, s: string): Applied {
    var all := Settings(s);
    var a := ApplyAll(p, m, all.settings);
    if a.error.Some? then a else Applied(a.store, all.error)
  }

  lemma RemainingUnfold(p: Platform, m: Store, s: string)
    ensures NextSetting(s).End? ==> Remaining(p, m, s) == Applied(m, None) && SecureText(s) == ""
    ensures NextSetting(s).Fail? ==> Remaining(p, m, s) == Applied(m, Some(NextSetting(s).error))
    ensures NextSetting(s).Item? ==>
              var x, rest := NextSetting(s).setting, NextSetting(s).rest;
              var one := ApplyOne(p, m, x);
              && Remaining(p, m, s)
                 == (if one.error.Some? then one else Remaining(p, one.store, rest))
              && SecureText(s) == (if IsSecuritySensitive(x.name) then "" else Span(s, rest))
                                  + SecureText(rest)
  {
    var next := NextSetting(s);
    if next.Item? {
      assert ([next.setting] + Settings(next.rest).settings)[1..] == Settings(next.rest).settings;
    }
  }

  // Looks the keyword up and sets its option, or answers the exception.
  method ApplySetting(options: Options, name: string, value: string) returns (error: Option<Error>)
    modifies options`store
    ensures Applied(options.store, error)
            == ApplyOne(options.platform, old(options.store), Setting(name, value))
  {
    var option := GetOption(options.platform, name);
    if option.None? {
      return Some(UnknownKeyword);
    }
    var ok := options.Set(option.value, value);
    return if ok then None else Some(BadFormat);
  }

  class Parser {
    var source: string
    var currentPosition: nat

    ghost predicate Valid()
      reads this
    {
      currentPosition <= |source|
    }

    ghost function Rest(): string
      requires Valid()
      reads this
    {
      source[currentPosition..]
    }

    constructor ()
      ensures Valid()
    {
      source, currentPosition := "", 0;
    }

    method SkipWhiteSpace() returns (more: bool)
      requires Valid()
      modifies this`currentPosition
      ensures Valid() && currentPosition >= old(currentPosition)
      ensures Rest() == TrimLeft(old(Rest()))
      ensures more <==> Rest() != ""
    {
      while currentPosition < |source|
        invariant old(currentPosition) <= currentPosition <= |source|
        invariant TrimLeft(source[currentPosition..]) == TrimLeft(old(Rest()))
      {
        if !IsWhiteSpace(source[currentPosition]) {
          return true;
        }
        currentPosition := currentPosition + 1;
      }
      return false;
    }

    // Leading whitespace and excess semicolons; false at the end of the text.
    method SkipToName() returns (more: bool)
      requires Valid()
      modifies this`currentPosition
      ensures Valid() && currentPosition >= old(currentPosition)
      ensures Rest() == SkipSeparators(old(Rest()))
      ensures more <==> Rest() != ""
    {
      while true
        invariant Valid() && currentPosition >= old(currentPosition)
        invariant SkipSeparators(Rest()) == SkipSeparators(old(Rest()))
        decreases |source| - currentPosition
      {
        ghost var before := Rest();
        var found := SkipWhiteSpace();
        SeparatorsAfterWhite(before);
        if !found {
          return false;
        }
        if source[currentPosition] != ';' {
          assert !IsWhiteSpace(Rest()[0]) by {
            var a := TrimLeftSplit(before);
          }
          return true;
        }
        currentPosition := currentPosition + 1;
      }
    }

    method GetName() returns (r: Outcome)
      requires Valid()
      modifies this`currentPosition
      ensures Valid() && currentPosition >= old(currentPosition)
      ensures r == NameOutcome(old(Rest()))
      ensures r.Got? ==> Rest() == ScanName(SkipSeparators(old(Rest()))).rest
    {
      var more := SkipToName();
      if !more {
        return Null;
      }
      var next;
      r, next := ReadName(source, currentPosition);
      currentPosition := next;
    }

    method GetValue() returns (r: Outcome)
      requires Valid()
      modifies this`currentPosition
      ensures Valid() && currentPosition >= old(currentPosition)
      ensures r == ValueOutcome(old(Rest()))
      ensures r.Got? ==> currentPosition > old(currentPosition)
      ensures r.Got? ==> Rest() == ScanValue(TrimLeft(old(Rest())), None).rest
    {
      var more := SkipWhiteSpace();
      if !more {
        return Null;
      }
      var next;
      r, next := ReadValue(source, currentPosition);
      currentPosition := next;
    }

    // The name and value of the next setting, if there are both.
    method GetSetting() returns (name: Outcome, value: Outcome)
      requires Valid()
      modifies this`currentPosition
      ensures Valid() && currentPosition >= old(currentPosition)
      ensures var next := NextSetting(old(Rest()));
              && (next.End? ==> name.Null? || (name.Got? && value.Null?))
              && (next.Fail? ==>
                    name == Throws(next.error) || (name.Got? && value == Throws(next.error)))
              && (next.Item? ==>
                    && name == Got(next.setting.name) && value == Got(next.setting.value)
                    && currentPosition > old(currentPosition) && Rest() == next.rest)
    {
      value := Null;
      name := GetName();
      if name.Got? {
        value := GetValue();
      }
    }

    // One turn of the loop in Parse: the exception that ends it, if any, and the text kept for
    // the secure string.
    method ParseTurn(options: Options) returns (more: bool, error: Option<Error>, kept: string)
      requires Valid()
      modifies this`currentPosition, options`store
      ensures Valid() && currentPosition >= old(currentPosition)
      ensures more ==>
                && error == None
                && currentPosition > old(currentPosition)
                && Remaining(options.platform, old(options.store), old(Rest()))
                   == Remaining(options.platform, options.store, Rest())
                && SecureText(old(Rest())) == kept + SecureText(Rest())
      ensures !more ==>
                && Remaining(options.platform, old(options.store), old(Rest()))
                   == Applied(options.store, error)
                && kept == ""
                && (error.None? ==> SecureText(old(Rest())) == "")
    {
      var start := currentPosition;
      RemainingUnfold(options.platform, options.store, Rest());
      var name, value := GetSetting();
      if name.Null? || (name.Got? && value.Null?) {
        return false, None, "";
      }
      if name.Throws? || value.Throws? {
        return false, Some(if name.Throws? then name.error else value.error), "";
      }
      assert source[start..currentPosition] == Span(old(Rest()), Rest());
      error := ApplySetting(options, name.text, value.text);
      if error.Some? {
        return false, error, "";
      }
      return true, None,
        if IsSecuritySensitive(name.text) then "" else source[start..currentPosition];
    }

    // The loop in Parse.
    method ParseLoop(options: Options) returns (error: Option<Error>, secure: string)
      requires Valid()
      modifies this`currentPosition, options`store
      ensures Remaining(options.platform, old(options.store), old(Rest()))
              == Applied(options.store, error)
      ensures error.None? ==> secure == SecureText(old(Rest()))
    {
      error, secure := None, "";
      var more := true;
      while more
        invariant Valid() && error == None
        invariant more ==>
            && Remaining(options.platform, old(options.store), old(Rest()))
               == Remaining(options.platform, options.store, Rest())
            && SecureText(old(Rest())) == secure + SecureText(Rest())
        invariant !more ==>
            && Remaining(options.platform, old(options.store), old(Rest()))
               == Applied(options.store, None)
            && SecureText(old(Rest())) == secure
        decreases |source| - currentPosition, more
      {
        var kept;
        more, error, kept := ParseTurn(options);
        if error.Some? {
          return;
        }
        assert more ==> secure + (kept + SecureText(Rest())) == secure + kept + SecureText(Rest());
        secure := secure + kept;
      }
    }

    // Fills the options from the string. On an exception the options set so far stay set and the
    // two stored strings stay as they were.
    method Parse(connectionString: Option<string>, options: Options) returns (error: Option<Error>)
      modifies this, options
      ensures connectionString.None? ==>
                error == Some(NullString) && options.store == old(options.store)
      ensures connectionString.Some? ==>
                Applied(options.store, error)
                == Remaining(options.platform, old(options.store), connectionString.value)
      ensures error.None? ==>
                && options.connectionString == connectionString
                && options.secureConnectionString == Some(SecureText(connectionString.value))
      ensures error.Some? ==>
                && options.connectionString == old(options.connectionString)
                && options.secureConnectionString == old(options.secureConnectionString)
    {
      if connectionString.None? {
        return Some(NullString);
      }
      source := connectionString.value;
      currentPosition := 0;
      assert Rest() == connectionString.value;
      var secure;
      error, secure := ParseLoop(options);
      if error.None? {
        options.connectionString := connectionString;
        options.secureConnectionString := Some(secure);
      }
    }
  }

  // A string that parses leaves every option holding the last text given for it in the string, or
  // as it was.
  lemma ParsedIsHeld(p: Platform, m: Store, s: string, id: OptionId)
    requires Remaining(p, m, s).error.None?
    ensures var last := LastFor(p, Settings(s).settings, id);
            var v := Remaining(p, m, s).store[id];
            if last.None? then v == m[id] else Holds(p, id, last.value, v)
  {
    LastSettingIsHeld(p, m, Settings(s).settings, id);
  }

  lemma SeparatorsSetNothing(p: Platform, m: Store, s: string)
    requires AllSeparators(s)
    ensures Remaining(p, m, s) == Applied(m, None)
  {
    SkipSeparatorsOf(s, "");
    assert s + "" == s;
    RemainingUnfold(p, m, s);
  }

  // The empty string, or one of separators only, asks for the defaults.
  lemma EmptyStringMeansDefaults(p: Platform, s: string)
    requires AllSeparators(s)
    ensures Remaining(p, Initial(p), s).error.None?
    ensures Defaults(p, Remaining(p, Initial(p), s).store)
  {
    SeparatorsSetNothing(p, Initial(p), s);
    InitialIsDefault(p);
  }

  // The secure string means what the original means, apart from the password: parsing it into
  // the same options succeeds whenever the original did, gives every other option the same
  // value, and leaves the password alone.
  lemma SecureStringMeansTheSame(p: Platform, m: Store, s: string)
    requires WithholdsPassword(p)
    requires Remaining(p, m, s).error.None?
    ensures var r := Remaining(p, m, SecureText(s));
            && r.error.None?
            && AgreeOffPassword(Remaining(p, m, s).store, r.store)
            && r.store[Pwd] == m[Pwd]
  {
    SettingsOfSecureText(s);
    ApplyPublic(p, m, m, Settings(s).settings);
  }

  // Parsing a string into fresh options gives these options, the password excepted unless it is
  // to be kept.
  ghost predicate Restores(p: Platform, m: Store, visible: string) {
    var again := Remaining(p, Initial(p), visible);
    && again.error.None?
    && AgreeOffPassword(m, again.store)
    && again.store[Pwd] == if m[PersistSecurityInfo].flag then m[Pwd] else Str(None)
  }

  lemma VisibleStringRestores(p: Platform, m: Store, s: string)
    requires WithholdsPassword(p) && Remaining(p, Initial(p), s) == Applied(m, None)
    ensures Restores(p, m, if m[PersistSecurityInfo].flag then s else SecureText(s))
  {
    if m[PersistSecurityInfo].flag {
      assert Restores(p, m, s);
    } else {
      SecureRestores(p, Initial(p), m, s);
      InitialPassword(p);
    }
  }

  lemma InitialPassword(p: Platform)
    ensures Initial(p)[Pwd] == Str(None)
  {
  }

  lemma SecureRestores(p: Platform, n: Store, m: Store, s: string)
    requires WithholdsPassword(p) && Remaining(p, n, s) == Applied(m, None)
    ensures var again := Remaining(p, n, SecureText(s));
            again.error.None? && AgreeOffPassword(m, again.store) && again.store[Pwd] == n[Pwd]
  {
    SecureStringMeansTheSame(p, n, s);
  }

  // A connection string is parsed and verified when it is set and secured when the connection
  // opens; the string then visible restores the options in force.
  method ParseAndSecure(parser: Parser, options: Options, s: string)
    returns (error: Option<Error>, rejection: Option<Rejection>)
    requires WithholdsPassword(options.platform) && options.store == Initial(options.platform)
    modifies parser, options
    ensures error.None? && rejection.None? ==>
              && Acceptable(options.platform, options.store)
              && options.connectionString.Some?
              && Restores(options.platform, options.store, options.connectionString.value)
  {
    rejection := None;
    error := parser.Parse(Some(s), options);
    if error.None? {
      rejection := options.Verify();
      if rejection.None? {
        VisibleStringRestores(options.platform, options.store, s);
        options.Secure();
      }
    }
  }
}
