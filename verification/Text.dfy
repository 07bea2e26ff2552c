/** Characters and strings as the .NET client treats them. */
module Text {

  // Char.IsWhiteSpace.
  predicate IsWhiteSpace(c: char) {
    var n := c as int;
    || 0x09 <= n <= 0x0D || n == 0x20 || n == 0x85 || n == 0xA0 || n == 0x1680
    || 0x2000 <= n <= 0x200A || n == 0x2028 || n == 0x2029 || n == 0x202F || n == 0x205F
    || n == 0x3000
  }

  // The whitespace characters one by one: controls, spaces and separators.
  lemma WhiteSpaceExactly(c: char)
    ensures IsWhiteSpace(c) <==>
            c in "\t\n\U{B}\U{C}\r \U{85}\U{A0}\U{1680}\U{2000}\U{2001}\U{2002}\U{2003}\U{2004}"
            || c in "\U{2005}\U{2006}\U{2007}\U{2008}\U{2009}\U{200A}\U{2028}\U{2029}\U{202F}"
            || c in "\U{205F}\U{3000}"
  {
  }

  predicate AllWhite(s: string) {
    forall i :: 0 <= i < |s| ==> IsWhiteSpace(s[i])
  }

  predicate NoWhite(s: string) {
    forall i :: 0 <= i < |s| ==> !IsWhiteSpace(s[i])
  }

  function TrimLeft(s: string): (r: string)
    ensures |r| <= |s|
  {
    if s != "" && IsWhiteSpace(s[0]) then TrimLeft(s[1..]) else s
  }

  function TrimRight(s: string): (r: string)
    ensures |r| <= |s|
  {
    if s != "" && IsWhiteSpace(s[|s| - 1]) then TrimRight(s[..|s| - 1]) else s
  }

  // String.Trim.
  function Trim(s: string): string {
    TrimRight(TrimLeft(s))
  }

  lemma {:induction false} TrimRightOfWhite(s: string, w: string)
    requires AllWhite(w)
    requires s == "" || !IsWhiteSpace(s[|s| - 1])
    ensures TrimRight(s + w) == s
  {
    if w == "" {
      assert s + w == s;
    } else {
      var t := s + w;
      assert t[..|t| - 1] == s + w[..|w| - 1];
      TrimRightOfWhite(s, w[..|w| - 1]);
    }
  }

  lemma {:induction false} TrimRightEnd(s: string)
    ensures TrimRight(s) == "" || !IsWhiteSpace(TrimRight(s)[|TrimRight(s)| - 1])
    ensures TrimRight(s) <= s
  {
    if s == "" || !IsWhiteSpace(s[|s| - 1]) {
    } else {
      TrimRightEnd(s[..|s| - 1]);
    }
  }

  // String.ToUpper on the letters A to Z.
  function UpperChar(c: char): char {
    if 'a' <= c <= 'z' then (c as int - 32) as char else c
  }

  function ToUpper(s: string): (r: string)
    ensures |r| == |s|
    ensures forall i :: 0 <= i < |s| ==> r[i] == UpperChar(s[i])
  {
    seq(|s|, i requires 0 <= i < |s| => UpperChar(s[i]))
  }

  // Equal, or the small and the capital form of one letter from A to Z.
  predicate SameLetter(c: char, d: char) {
    || c == d
    || ('a' <= c <= 'z' && 'A' <= d <= 'Z' && c - 'a' == d - 'A')
    || ('A' <= c <= 'Z' && 'a' <= d <= 'z' && c - 'A' == d - 'a')
  }

  predicate SameButCase(s: string, t: string) {
    |s| == |t| && forall i :: 0 <= i < |s| ==> SameLetter(s[i], t[i])
  }

  lemma UpperLetters(c: char, d: char)
    ensures UpperChar(c) == UpperChar(d) <==> SameLetter(c, d)
  {
  }

  // Strings have the same upper-case form exactly when they differ in the case of letters only.
  lemma UpperExactly(s: string, t: string)
    ensures ToUpper(s) == ToUpper(t) <==> SameButCase(s, t)
  {
    forall i | 0 <= i < |s| && i < |t|
      ensures ToUpper(s)[i] == ToUpper(t)[i] <==> SameLetter(s[i], t[i])
    {
      UpperLetters(s[i], t[i]);
    }
    if ToUpper(s) == ToUpper(t) {
      assert |s| == |t|;
    }
  }

  // The items with a comma between them.
  function Join(items: seq<string>): string {
    if items == [] then ""
    else if |items| == 1 then items[0]
    else items[0] + "," + Join(items[1..])
  }

  lemma ConcatAssociates<T>(a: seq<T>, b: seq<T>, c: seq<T>)
    ensures a + (b + c) == a + b + c
  {
  }

  lemma DropOfConcat<T>(a: seq<T>, b: seq<T>, k: nat)
    requires k <= |a|
    ensures (a + b)[k..] == a[k..] + b
  {
  }
}
