/** The set of checked users, kept across pages as a comma-separated string in a form field. */
module Selection {
  import Text

  // ---------------------------------------------------------------------------------------
  // String operations of the source
  // ---------------------------------------------------------------------------------------

  function TrimFront(s: string, ch: char): (r: string)
    ensures |r| <= |s|
  {
    if s != "" && s[0] == ch then TrimFront(s[1..], ch) else s
  }

  function TrimBack(s: string, ch: char): (r: string)
    ensures |r| <= |s|
  {
    if s != "" && s[|s| - 1] == ch then TrimBack(s[..|s| - 1], ch) else s
  }

  // The first place where p occurs in s, or -1.
  function IndexOf(s: string, p: string): (i: int)
    ensures -1 <= i && (i >= 0 ==> i + |p| <= |s|)
  {
    if p <= s then 0
    else if s == "" then -1
    else
      var i := IndexOf(s[1..], p);
      if i == -1 then -1 else i + 1
  }

  // String.replace with a string pattern and an empty replacement: the first occurrence goes.
  function RemoveFirst(s: string, p: string): string {
    var i := IndexOf(s, p);
    if i == -1 then s else s[..i] + s[i + |p|..]
  }

  // One element of the form.
  datatype Element = Element(isCheckbox: bool, name: string, value: string, checked: bool)

  // The rewriting of the string for one checkbox.
  function UpdateOne(s: string, value: string, checked: bool): string {
    if checked then if IndexOf(s, value + ",") == -1 then s + value + "," else s
    else RemoveFirst(s, value + ",")
  }

  function UpdateFor(s: string, objName: string, e: Element): string {
    if e.isCheckbox && e.name == objName then UpdateOne(s, e.value, e.checked) else s
  }

  function UpdateAll(s: string, objName: string, elements: seq<Element>): string
    decreases |elements|
  {
    if elements == [] then s
    else UpdateAll(UpdateFor(s, objName, elements[0]), objName, elements[1..])
  }

  function TrimBoth(s: string, ch: char): string {
    TrimBack(TrimFront(s, ch), ch)
  }

  predicate AllAre(s: string, ch: char) {
    forall c :: c in s ==> c == ch
  }

  lemma {:induction false} TrimFrontExactly(s: string, ch: char) returns (a: string)
    ensures s == a + TrimFront(s, ch) && AllAre(a, ch)
    ensures TrimFront(s, ch) != "" ==> TrimFront(s, ch)[0] != ch
  {
    if s == "" || s[0] != ch {
      a := "";
    } else {
      var b := TrimFrontExactly(s[1..], ch);
      a := [ch] + b;
    }
  }

  lemma {:induction false} TrimBackExactly(s: string, ch: char) returns (b: string)
    ensures s == TrimBack(s, ch) + b && AllAre(b, ch)
    ensures var r := TrimBack(s, ch); r != "" ==> r[|r| - 1] != ch
  {
    if s == "" || s[|s| - 1] != ch {
      b := "";
    } else {
      var a := TrimBackExactly(s[..|s| - 1], ch);
      b := a + [ch];
    }
  }

  // Trimming takes off that character only, and all of it at both ends.
  lemma TrimBothExactly(s: string, ch: char) returns (a: string, b: string)
    ensures s == a + TrimBoth(s, ch) + b && AllAre(a, ch) && AllAre(b, ch)
    ensures var r := TrimBoth(s, ch); r != "" ==> r[0] != ch && r[|r| - 1] != ch
  {
    var t := TrimFront(s, ch);
    a := TrimFrontExactly(s, ch);
    b := TrimBackExactly(t, ch);
    TrimmedBothWays(s, t, TrimBoth(s, ch), a, b, ch);
  }

  lemma TrimmedBothWays(s: string, t: string, r: string, a: string, b: string, ch: char)
    requires s == a + t && t == r + b && (t != "" ==> t[0] != ch)
    requires r != "" ==> r[|r| - 1] != ch
    ensures s == a + r + b
    ensures r != "" ==> r[0] != ch && r[|r| - 1] != ch
  {
    Text.ConcatAssociates(a, r, b);
    if r != "" {
      assert t[0] == r[0];
    }
  }

  // The new field value.
  function Updated(s1: string, objName: string, elements: seq<Element>): string {
    var s := TrimBoth(TrimBoth(TrimBoth(s1, ' '), ','), ' ');
    TrimBoth(UpdateAll(s + ",", objName, elements), ',')
  }

  method Trim(sString: string, ch: char) returns (r: string)
    ensures r == TrimBoth(sString, ch)
  {
    r := sString;
    while r != "" && r[0] == ch
      invariant TrimFront(r, ch) == TrimFront(sString, ch)
      decreases |r|
    {
      r := r[1..];
    }
    ghost var front := r;
    while r != "" && r[|r| - 1] == ch
      invariant TrimBack(r, ch) == TrimBack(front, ch)
      decreases |r|
    {
      r := r[..|r| - 1];
    }
  }

  /** The form: the hidden field and the elements of the current page. */
  class Form {
    var s1: string

    constructor ()
      ensures s1 == ""
    {
      s1 := "";
    }

    method UpdateChecked(elements: seq<Element>, objName: string)
      modifies this
      ensures s1 == Updated(old(s1), objName, elements)
    {
      var s1Value := Trim(s1, ' ');
      s1Value := Trim(s1Value, ',');
      s1Value := Trim(s1Value, ' ');
      s1Value := s1Value + ",";
      ghost var start := s1Value;
      var i := 0;
      while i < |elements|
        invariant 0 <= i <= |elements|
        invariant UpdateAll(s1Value, objName, elements[i..]) == UpdateAll(start, objName, elements)
      {
        var obj := elements[i];
        assert elements[i..][1..] == elements[i + 1..];
        if obj.isCheckbox && obj.name == objName {
          if obj.checked {
            if IndexOf(s1Value, obj.value + ",") == -1 {
              s1Value := s1Value + obj.value + ",";
            }
          } else {
            s1Value := RemoveFirst(s1Value, obj.value + ",");
          }
        }
        i := i + 1;
      }
      s1 := Trim(s1Value, ',');
    }
  }

  // ---------------------------------------------------------------------------------------
  // The list the string stands for
  // ---------------------------------------------------------------------------------------

  predicate Plain(v: string) {
    v != "" && ',' !in v
  }

  // Not changed by the trimming at the ends of the field.
  predicate Tidy(v: string) {
    Plain(v) && v[0] != ' ' && v[|v| - 1] != ' '
  }

  predicate AllPlain(l: seq<string>) {
    forall i :: 0 <= i < |l| ==> Plain(l[i])
  }

  // Every item followed by a comma: the string inside the loop, apart from a comma in front.
  function Flat(l: seq<string>): string {
    if l == [] then "" else l[0] + "," + Flat(l[1..])
  }

  predicate IsSuffix(v: string, x: string) {
    |v| <= |x| && x[|x| - |v|..] == v
  }

  // The first item that ends with v, or the number of items.
  function FirstEnding(l: seq<string>, v: string): (i: nat)
    ensures i <= |l|
    ensures i < |l| ==> IsSuffix(v, l[i])
    ensures forall j :: 0 <= j < i ==> !IsSuffix(v, l[j])
  {
    if l == [] then 0 else if IsSuffix(v, l[0]) then 0 else 1 + FirstEnding(l[1..], v)
  }

  lemma {:induction false} FlatAppend(a: seq<string>, b: seq<string>)
    ensures Flat(a + b) == Flat(a) + Flat(b)
  {
    if a == [] {
      assert a + b == b;
      assert "" + Flat(b) == Flat(b);
    } else {
      assert (a + b)[1..] == a[1..] + b;
      FlatAppend(a[1..], b);
      assert a[0] + "," + (Flat(a[1..]) + Flat(b)) == a[0] + "," + Flat(a[1..]) + Flat(b);
    }
  }

  // A comma-free pattern and its comma can only match where an item ends.
  lemma {:induction false} IndexInItem(x: string, rest: string, v: string)
    requires ',' !in x && Plain(v)
    ensures IndexOf(x + "," + rest, v + ",")
            == if IsSuffix(v, x) then |x| - |v|
               else var r := IndexOf(rest, v + ","); if r == -1 then -1 else |x| + 1 + r
  {
    var s, p := x + "," + rest, v + ",";
    MatchAtFront(x, rest, v);
    if x == "" {
      assert s[1..] == rest;
    } else if v != x {
      IndexInItem(x[1..], rest, v);
      assert s[1..] == x[1..] + "," + rest;
      assert IsSuffix(v, x) <==> IsSuffix(v, x[1..]) by {
        if |v| < |x| {
          assert x[1..][|x| - 1 - |v|..] == x[|x| - |v|..];
        } else if |v| == |x| {
          assert x[0..] == x;
        }
      }
    }
  }

  lemma MatchAtFront(x: string, rest: string, v: string)
    requires ',' !in x && Plain(v)
    ensures v + "," <= x + "," + rest <==> v == x
  {
    var s, p := x + "," + rest, v + ",";
    if p <= s {
      assert forall k :: 0 <= k < |x| ==> s[k] == x[k] && s[k] != ',';
      assert forall k :: 0 <= k < |v| ==> s[k] == v[k] && s[k] != ',';
      assert s[|x|] == ',' && s[|v|] == ',';
      assert p[..|v|] == v && s[..|v|] == x;
    }
    if v == x {
      assert s[..|p|] == p;
    }
  }

  lemma FlatPrefix(l: seq<string>, i: nat)
    requires 0 < i <= |l|
    ensures |Flat(l[..i])| == |l[0]| + 1 + |Flat(l[1..][..i - 1])|
  {
    assert l[..i][1..] == l[1..][..i - 1];
  }

  // Where the pattern is found in the whole string.
  lemma {:induction false} IndexInFlat(l: seq<string>, v: string)
    requires AllPlain(l) && Plain(v)
    ensures var i := FirstEnding(l, v);
            IndexOf(Flat(l), v + ",")
            == if i == |l| then -1 else |Flat(l[..i])| + |l[i]| - |v|
  {
    if l == [] {
    } else {
      var i := FirstEnding(l, v);
      IndexInItem(l[0], Flat(l[1..]), v);
      if IsSuffix(v, l[0]) {
        assert l[..0] == [];
      } else {
        IndexInFlat(l[1..], v);
        if i < |l| {
          FlatPrefix(l, i);
        }
      }
    }
  }

  predicate IsLead(lead: string) {
    lead == "" || lead == ","
  }

  lemma IndexWithLead(lead: string, l: seq<string>, v: string)
    requires IsLead(lead) && AllPlain(l) && Plain(v)
    ensures var i := FirstEnding(l, v);
            IndexOf(lead + Flat(l), v + ",")
            == if i == |l| then -1 else |lead| + |Flat(l[..i])| + |l[i]| - |v|
  {
    IndexInFlat(l, v);
    if lead == "" {
      assert lead + Flat(l) == Flat(l);
    } else {
      IndexInItem("", Flat(l), v);
      assert "" + "," + Flat(l) == lead + Flat(l);
    }
  }

  lemma RemoveAt(lead: string, l: seq<string>, i: nat, v: string)
    requires i < |l| && IsSuffix(v, l[i])
    requires IndexOf(lead + Flat(l), v + ",") == |lead| + |Flat(l[..i])| + |l[i]| - |v|
    ensures RemoveFirst(lead + Flat(l), v + ",")
            == lead + Flat(l[..i]) + l[i][..|l[i]| - |v|] + Flat(l[i + 1..])
  {
    var cut := l[i][..|l[i]| - |v|];
    FlatAround(lead, l, i, cut, v);
    CutOut(lead + Flat(l[..i]) + cut, v + ",", Flat(l[i + 1..]));
  }

  // What taking a value out does to the string: nothing, if no item ends with it.
  lemma RemoveNothing(lead: string, l: seq<string>, v: string)
    requires IsLead(lead) && AllPlain(l) && Plain(v) && FirstEnding(l, v) == |l|
    ensures RemoveFirst(lead + Flat(l), v + ",") == lead + Flat(l)
  {
    IndexWithLead(lead, l, v);
  }

  // Otherwise the first item that ends with it is cut, and whatever is left of that item runs
  // into the next one.
  lemma RemoveEnding(lead: string, l: seq<string>, v: string, i: nat)
    requires IsLead(lead) && AllPlain(l) && Plain(v) && i == FirstEnding(l, v) < |l|
    ensures RemoveFirst(lead + Flat(l), v + ",")
            == lead + Flat(l[..i]) + l[i][..|l[i]| - |v|] + Flat(l[i + 1..])
  {
    IndexWithLead(lead, l, v);
    RemoveAt(lead, l, i, v);
  }

  lemma FlatAround(lead: string, l: seq<string>, i: nat, cut: string, v: string)
    requires i < |l| && l[i] == cut + v
    ensures lead + Flat(l) == lead + Flat(l[..i]) + cut + (v + ",") + Flat(l[i + 1..])
  {
    assert l == l[..i] + l[i..];
    FlatAppend(l[..i], l[i..]);
    assert l[i..][1..] == l[i + 1..];
    assert Flat(l[i..]) == cut + v + "," + Flat(l[i + 1..]);
    CutBeforeItem(lead, Flat(l[..i]), cut, v, Flat(l[i + 1..]));
  }

  lemma CutBeforeItem(lead: string, a: string, cut: string, v: string, b: string)
    ensures lead + (a + (cut + v + "," + b)) == lead + a + cut + (v + ",") + b
  {
  }

  lemma CutOut(front: string, p: string, back: string)
    requires IndexOf(front + p + back, p) == |front|
    ensures RemoveFirst(front + p + back, p) == front + back
  {
    var s := front + p + back;
    assert s[..|front|] == front && s[|front| + |p|..] == back;
  }

  // ---------------------------------------------------------------------------------------
  // One checkbox: exactly when the string follows the list
  // ---------------------------------------------------------------------------------------

  predicate NoRepeats(l: seq<string>) {
    forall i, j :: 0 <= i < j < |l| ==> l[i] != l[j]
  }

  function Without(l: seq<string>, v: string): seq<string> {
    if l == [] then []
    else (if l[0] == v then [] else [l[0]]) + Without(l[1..], v)
  }

  // The list after one checkbox.
  function Ideal(l: seq<string>, v: string, checked: bool): seq<string> {
    if checked then if v in l then l else l + [v] else Without(l, v)
  }

  lemma FirstEndingFindsMember(l: seq<string>, v: string)
    ensures v in l ==> FirstEnding(l, v) < |l|
  {
    if v in l {
      var j :| 0 <= j < |l| && l[j] == v;
      assert IsSuffix(v, l[j]);
    }
  }

  // Checking adds the value exactly when it is there already or ends no other item.
  lemma CheckedExactly(lead: string, l: seq<string>, v: string)
    requires IsLead(lead) && AllPlain(l) && Plain(v)
    ensures UpdateOne(lead + Flat(l), v, true) == lead + Flat(Ideal(l, v, true))
            <==> v in l || FirstEnding(l, v) == |l|
  {
    IndexWithLead(lead, l, v);
    FirstEndingFindsMember(l, v);
    FlatSnoc(lead, l, v);
    assert |lead + Flat(l) + v + ","| > |lead + Flat(l)|;
  }

  lemma FlatSnoc(lead: string, l: seq<string>, v: string)
    ensures lead + Flat(l + [v]) == lead + Flat(l) + v + ","
  {
    FlatAppend(l, [v]);
    assert [v][1..] == [];
    assert Flat([v]) == v + "," + "";
    assert lead + (Flat(l) + (v + "," + "")) == lead + Flat(l) + v + ",";
  }

  lemma {:induction false} WithoutAt(l: seq<string>, v: string, j: nat)
    requires NoRepeats(l) && j < |l| && l[j] == v
    ensures Without(l, v) == l[..j] + l[j + 1..]
  {
    if j == 0 {
      WithoutAbsent(l[1..], v);
    } else {
      WithoutAt(l[1..], v, j - 1);
      assert l[..j] == [l[0]] + l[1..][..j - 1];
      assert l[1..][j..] == l[j + 1..];
    }
  }

  lemma {:induction false} WithoutAbsent(l: seq<string>, v: string)
    requires v !in l
    ensures Without(l, v) == l
  {
    if l == [] {
    } else {
      WithoutAbsent(l[1..], v);
    }
  }

  lemma {:induction false} FlatInjectiveHead(x: string, a: string, l: seq<string>)
    requires Plain(x) && AllPlain(l) && x + "," + a == Flat(l)
    ensures l != [] && l[0] == x
  {
    var s := Flat(l);
    assert s[|x|] == ',';
    assert forall k :: 0 <= k < |x| ==> s[k] == x[k] && s[k] != ',';
    assert s[|l[0]|] == ',';
    assert forall k :: 0 <= k < |l[0]| ==> s[k] == l[0][k] && s[k] != ',';
    assert x == s[..|x|];
    assert l[0] == s[..|l[0]|];
  }

  lemma SameFront(front: string, a: string, b: string)
    ensures front + a == front + b <==> a == b
  {
    assert (front + a)[|front|..] == a && (front + b)[|front|..] == b;
  }

  lemma FlatCons(l: seq<string>)
    requires l != []
    ensures Flat(l) == l[0] + "," + Flat(l[1..])
  {
  }

  lemma RestStartsWith(rest: seq<string>, v: string)
    requires AllPlain(rest) && NoRepeats(rest) && Plain(v)
    ensures Flat(rest) == v + "," + Flat(Without(rest, v)) <==> rest != [] && rest[0] == v
  {
    if Flat(rest) == v + "," + Flat(Without(rest, v)) {
      FlatInjectiveHead(v, Flat(Without(rest, v)), rest);
    }
    if rest != [] && rest[0] == v {
      WithoutAt(rest, v, 0);
      assert rest[..0] + rest[1..] == rest[1..];
      FlatCons(rest);
    }
  }

  lemma FlatKept(lead: string, l: seq<string>, i: nat, cut: string, v: string, kept: seq<string>)
    requires i < |l| && l[i] == cut + v
    ensures lead + Flat(l[..i + 1] + kept) == lead + Flat(l[..i]) + cut + (v + "," + Flat(kept))
  {
    assert l[..i + 1] == l[..i] + [l[i]];
    FlatAppend(l[..i + 1], kept);
    FlatSnoc("", l[..i], l[i]);
    assert "" + Flat(l[..i + 1]) == Flat(l[..i + 1]);
    assert "" + Flat(l[..i]) == Flat(l[..i]);
    CutBeforeRest(lead, Flat(l[..i]), cut, v, Flat(kept));
  }

  lemma CutBeforeRest(lead: string, a: string, cut: string, v: string, b: string)
    ensures lead + (a + (cut + v) + "," + b) == lead + a + cut + (v + "," + b)
  {
  }

  // An item that only ends with v is cut; the next item has to be v to repair it.
  lemma UncheckedDamage(lead: string, l: seq<string>, v: string, i: nat, cut: string)
    requires AllPlain(l) && NoRepeats(l) && Plain(v)
    requires i < |l| && l[i] == cut + v
    requires forall j :: 0 <= j <= i ==> l[j] != v
    ensures lead + Flat(l[..i]) + cut + Flat(l[i + 1..]) == lead + Flat(Without(l, v))
            <==> i + 1 < |l| && l[i + 1] == v
  {
    var rest := l[i + 1..];
    WithoutAfter(l, v, i + 1);
    FlatKept(lead, l, i, cut, v, Without(rest, v));
    SameFront(lead + Flat(l[..i]) + cut, Flat(rest), v + "," + Flat(Without(rest, v)));
    RestStartsWith(rest, v);
  }

  lemma UncheckedClean(lead: string, l: seq<string>, v: string, i: nat)
    requires NoRepeats(l) && i < |l| && l[i] == v
    ensures lead + Flat(l[..i]) + "" + Flat(l[i + 1..]) == lead + Flat(Without(l, v))
  {
    WithoutAt(l, v, i);
    FlatAppend(l[..i], l[i + 1..]);
    assert lead + Flat(l[..i]) + "" + Flat(l[i + 1..]) == lead + (Flat(l[..i]) + Flat(l[i + 1..]));
  }

  lemma UncheckedHit(lead: string, l: seq<string>, v: string)
    requires IsLead(lead) && AllPlain(l) && NoRepeats(l) && Plain(v)
    requires var i := FirstEnding(l, v); i < |l| && l[i] == v
    ensures RemoveFirst(lead + Flat(l), v + ",") == lead + Flat(Without(l, v))
  {
    var i := FirstEnding(l, v);
    RemoveEnding(lead, l, v, i);
    assert l[i][..|l[i]| - |v|] == "";
    UncheckedClean(lead, l, v, i);
  }

  lemma UncheckedMiss(lead: string, l: seq<string>, v: string)
    requires IsLead(lead) && AllPlain(l) && NoRepeats(l) && Plain(v)
    requires var i := FirstEnding(l, v); i < |l| && l[i] != v
    ensures RemoveFirst(lead + Flat(l), v + ",") == lead + Flat(Without(l, v))
            <==> (var i := FirstEnding(l, v); i + 1 < |l| && l[i + 1] == v)
  {
    var i := FirstEnding(l, v);
    var cut := l[i][..|l[i]| - |v|];
    assert l[i] == cut + v;
    RemoveEnding(lead, l, v, i);
    NotBefore(l, v, i);
    UncheckedDamage(lead, l, v, i, cut);
  }

  // Unchecking takes the value out exactly when the first item that ends with it is the value
  // itself or stands right before it; otherwise it damages that item.
  lemma UncheckedExactly(lead: string, l: seq<string>, v: string)
    requires IsLead(lead) && AllPlain(l) && NoRepeats(l) && Plain(v)
    ensures UpdateOne(lead + Flat(l), v, false) == lead + Flat(Ideal(l, v, false))
            <==> (var i := FirstEnding(l, v);
                  i == |l| || l[i] == v || (i + 1 < |l| && l[i + 1] == v))
  {
    var i := FirstEnding(l, v);
    if i == |l| {
      RemoveNothing(lead, l, v);
      FirstEndingFindsMember(l, v);
      WithoutAbsent(l, v);
    } else if l[i] == v {
      UncheckedHit(lead, l, v);
    } else {
      UncheckedMiss(lead, l, v);
    }
  }

  lemma NotBefore(l: seq<string>, v: string, i: nat)
    requires i < |l| && i == FirstEnding(l, v) && l[i] != v
    ensures forall j :: 0 <= j <= i ==> l[j] != v
  {
    assert forall x: string :: x == v ==> IsSuffix(v, x) by {
      assert v[0..] == v;
    }
  }

  lemma {:induction false} WithoutAfter(l: seq<string>, v: string, k: nat)
    requires k <= |l| && forall j :: 0 <= j < k ==> l[j] != v
    ensures Without(l, v) == l[..k] + Without(l[k..], v)
  {
    if k > 0 {
      WithoutAfter(l[1..], v, k - 1);
      assert l[1..][k - 1..] == l[k..];
      assert l[..k] == [l[0]] + l[1..][..k - 1];
    } else {
      assert l[0..] == l;
    }
  }

  // ---------------------------------------------------------------------------------------
  // A page, and a run of pages
  // ---------------------------------------------------------------------------------------

  predicate Matches(objName: string, e: Element) {
    e.isCheckbox && e.name == objName
  }

  // The checkboxes of the page offer tidy values.
  predicate TidyPage(objName: string, elements: seq<Element>) {
    forall i :: 0 <= i < |elements| && Matches(objName, elements[i]) ==> Tidy(elements[i].value)
  }

  // A selection: distinct tidy values.
  predicate IsSelection(l: seq<string>) {
    NoRepeats(l) && forall i :: 0 <= i < |l| ==> Tidy(l[i])
  }

  // The exact conditions above, for one checkbox.
  predicate StepOk(l: seq<string>, v: string, checked: bool) {
    var i := FirstEnding(l, v);
    if checked then v in l || i == |l|
    else i == |l| || l[i] == v || (i + 1 < |l| && l[i + 1] == v)
  }

  function After(l: seq<string>, objName: string, e: Element): seq<string> {
    if Matches(objName, e) then Ideal(l, e.value, e.checked) else l
  }

  function IdealPage(l: seq<string>, objName: string, elements: seq<Element>): seq<string>
    decreases |elements|
  {
    if elements == [] then l else IdealPage(After(l, objName, elements[0]), objName, elements[1..])
  }

  // Every checkbox of the page meets its condition when its turn comes.
  predicate PageOk(l: seq<string>, objName: string, elements: seq<Element>)
    decreases |elements|
  {
    elements == []
    || (var e := elements[0];
        && (Matches(objName, e) ==> StepOk(l, e.value, e.checked))
        && PageOk(After(l, objName, e), objName, elements[1..]))
  }

  // The string follows the list after every checkbox of the page.
  predicate PageFollows(lead: string, l: seq<string>, objName: string, elements: seq<Element>)
    decreases |elements|
  {
    elements == []
    || (var l' := After(l, objName, elements[0]);
        && UpdateFor(lead + Flat(l), objName, elements[0]) == lead + Flat(l')
        && PageFollows(lead, l', objName, elements[1..]))
  }

  lemma {:induction false} WithoutMembers(l: seq<string>, v: string)
    ensures forall w :: w in Without(l, v) <==> w in l && w != v
    ensures NoRepeats(l) ==> NoRepeats(Without(l, v))
  {
    if l == [] {
    } else {
      WithoutMembers(l[1..], v);
      assert forall w :: w in l <==> w == l[0] || w in l[1..];
      assert NoRepeats(l) ==> NoRepeats(l[1..]) && l[0] !in l[1..];
    }
  }

  lemma IdealMembers(l: seq<string>, v: string, checked: bool)
    ensures forall w :: w in Ideal(l, v, checked) <==> if w == v then checked else w in l
    ensures NoRepeats(l) ==> NoRepeats(Ideal(l, v, checked))
  {
    WithoutMembers(l, v);
  }

  lemma IdealIsSelection(l: seq<string>, v: string, checked: bool)
    requires IsSelection(l) && Tidy(v)
    ensures IsSelection(Ideal(l, v, checked))
  {
    IdealMembers(l, v, checked);
    var r := Ideal(l, v, checked);
    forall i | 0 <= i < |r|
      ensures Tidy(r[i])
    {
      assert r[i] in r;
    }
  }

  // The string follows the list over the whole page exactly when every checkbox meets its
  // condition.
  lemma {:induction false} PageFollowsExactly(lead: string, l: seq<string>, objName: string,
                                              elements: seq<Element>)
    requires IsSelection(l) && IsLead(lead) && TidyPage(objName, elements)
    ensures PageFollows(lead, l, objName, elements) <==> PageOk(l, objName, elements)
    ensures IsSelection(IdealPage(l, objName, elements))
    decreases |elements|
  {
    if elements == [] {
    } else {
      var e := elements[0];
      if Matches(objName, e) {
        IdealIsSelection(l, e.value, e.checked);
        if e.checked {
          CheckedExactly(lead, l, e.value);
        } else {
          UncheckedExactly(lead, l, e.value);
        }
      }
      PageFollowsExactly(lead, After(l, objName, e), objName, elements[1..]);
    }
  }

  lemma {:induction false} FollowedPage(lead: string, l: seq<string>, objName: string,
                                        elements: seq<Element>)
    requires PageFollows(lead, l, objName, elements)
    ensures UpdateAll(lead + Flat(l), objName, elements)
            == lead + Flat(IdealPage(l, objName, elements))
    decreases |elements|
  {
    if elements == [] {
    } else {
      FollowedPage(lead, After(l, objName, elements[0]), objName, elements[1..]);
    }
  }

  lemma {:induction false} JoinFlat(l: seq<string>)
    requires l != []
    ensures Flat(l) == Text.Join(l) + ","
  {
    if |l| > 1 {
      JoinFlat(l[1..]);
      assert l[0] + "," + (Text.Join(l[1..]) + ",") == l[0] + "," + Text.Join(l[1..]) + ",";
    } else {
      assert l[1..] == [];
      assert l[0] + "," + "" == l[0] + ",";
    }
  }

  predicate Begins(s: string, first: char) {
    s != "" && s[0] == first
  }

  predicate Ends(s: string, last: char) {
    s != "" && s[|s| - 1] == last
  }

  lemma EndsOfPair(a: string, b: string, first: char, last: char)
    requires Begins(a, first) && Ends(b, last)
    ensures Begins(a + "," + b, first) && Ends(a + "," + b, last)
  {
  }

  // What the trimming at the ends of the field sees.
  lemma {:induction false} JoinEnds(l: seq<string>)
    requires AllPlain(l) && l != []
    ensures Begins(Text.Join(l), l[0][0])
    ensures var last := l[|l| - 1]; Ends(Text.Join(l), last[|last| - 1])
    ensures Flat(l) == Text.Join(l) + ","
  {
    JoinFlat(l);
    if |l| == 1 {
    } else {
      JoinEnds(l[1..]);
      var last := l[|l| - 1];
      assert l[1..][|l| - 2] == last;
      EndsOfPair(l[0], Text.Join(l[1..]), l[0][0], last[|last| - 1]);
    }
  }

  lemma TrimNothing(s: string, ch: char)
    requires s == "" || (s[0] != ch && s[|s| - 1] != ch)
    ensures TrimBoth(s, ch) == s
  {
  }

  lemma TrimLead(lead: string, t: string)
    requires IsLead(lead)
    ensures TrimFront(lead + t, ',') == TrimFront(t, ',')
  {
    if lead == "," {
      assert ("," + t)[1..] == t;
    } else {
      assert lead + t == t;
    }
  }

  lemma TrimLastComma(s: string)
    requires s == "" || (s[0] != ',' && s[|s| - 1] != ',')
    ensures TrimBoth(s + ",", ',') == s
  {
    var t := s + ",";
    if s == "" {
      assert t[1..] == "";
    } else {
      assert TrimFront(t, ',') == t;
      assert t[..|t| - 1] == s;
      assert TrimBack(t, ',') == TrimBack(s, ',') == s;
    }
  }

  lemma TrimCommas(lead: string, s: string)
    requires IsLead(lead) && (s == "" || (s[0] != ',' && s[|s| - 1] != ','))
    ensures TrimBoth(lead + (s + ","), ',') == s
  {
    TrimLead(lead, s + ",");
    TrimLastComma(s);
  }

  // One call on the field that holds a selection leaves the selection after the page.
  lemma UpdatedIsIdeal(l: seq<string>, objName: string, elements: seq<Element>)
    requires IsSelection(l) && TidyPage(objName, elements) && PageOk(l, objName, elements)
    ensures Updated(Text.Join(l), objName, elements) == Text.Join(IdealPage(l, objName, elements))
    ensures IsSelection(IdealPage(l, objName, elements))
  {
    FieldIsStable(l);
    var lead := if l == [] then "," else "";
    assert Text.Join(l) + "," == lead + Flat(l) by {
      if l != [] {
        JoinEnds(l);
      }
    }
    PageFollowsExactly(lead, l, objName, elements);
    FollowedPage(lead, l, objName, elements);
    FieldOfFlat(lead, IdealPage(l, objName, elements));
  }

  lemma FieldIsStable(l: seq<string>)
    requires IsSelection(l)
    ensures TrimBoth(TrimBoth(TrimBoth(Text.Join(l), ' '), ','), ' ') == Text.Join(l)
  {
    if l != [] {
      JoinEnds(l);
    }
    TrimNothing(Text.Join(l), ' ');
    TrimNothing(Text.Join(l), ',');
  }

  lemma FieldOfFlat(lead: string, l: seq<string>)
    requires IsSelection(l) && IsLead(lead)
    ensures TrimBoth(lead + Flat(l), ',') == Text.Join(l)
  {
    if l == [] {
      assert lead + "" == lead;
      assert ","[1..] == "";
    } else {
      JoinEnds(l);
      TrimCommas(lead, Text.Join(l));
    }
  }

  // The field after a run of calls, one per page visit, from the empty field.
  function RunField(objName: string, pages: seq<seq<Element>>): string {
    if pages == [] then ""
    else Updated(RunField(objName, pages[..|pages| - 1]), objName, pages[|pages| - 1])
  }

  function RunList(objName: string, pages: seq<seq<Element>>): seq<string> {
    if pages == [] then []
    else IdealPage(RunList(objName, pages[..|pages| - 1]), objName, pages[|pages| - 1])
  }

  // The state in which a value was last seen on a page, if it was seen.
  datatype Seen = Never | Last(checked: bool)

  function SeenOnPage(objName: string, elements: seq<Element>, v: string): Seen {
    if elements == [] then Never
    else
      var e := elements[|elements| - 1];
      if Matches(objName, e) && e.value == v then Last(e.checked)
      else SeenOnPage(objName, elements[..|elements| - 1], v)
  }

  function SeenInRun(objName: string, pages: seq<seq<Element>>, v: string): Seen {
    if pages == [] then Never
    else
      var p := SeenOnPage(objName, pages[|pages| - 1], v);
      if p.Last? then p else SeenInRun(objName, pages[..|pages| - 1], v)
  }

  lemma {:induction false} IdealPageSnoc(l: seq<string>, objName: string, elements: seq<Element>,
                                         e: Element)
    ensures var r := IdealPage(l, objName, elements);
            IdealPage(l, objName, elements + [e])
            == After(r, objName, e)
    decreases |elements|
  {
    if elements == [] {
      assert elements + [e] == [e];
      assert [e][1..] == [];
    } else {
      assert (elements + [e])[1..] == elements[1..] + [e];
      IdealPageSnoc(After(l, objName, elements[0]), objName, elements[1..], e);
    }
  }

  lemma {:induction false} PageMembers(l: seq<string>, objName: string, elements: seq<Element>,
                                       v: string)
    ensures v in IdealPage(l, objName, elements) <==>
            match SeenOnPage(objName, elements, v)
            case Never => v in l
            case Last(checked) => checked
    decreases |elements|
  {
    if elements == [] {
    } else {
      var k := |elements| - 1;
      assert elements == elements[..k] + [elements[k]];
      PageMembers(l, objName, elements[..k], v);
      IdealPageSnoc(l, objName, elements[..k], elements[k]);
      IdealMembers(IdealPage(l, objName, elements[..k]), elements[k].value, elements[k].checked);
    }
  }

  // Every page offers tidy values, and every checkbox of the run meets its condition.
  predicate RunOk(objName: string, pages: seq<seq<Element>>) {
    if pages == [] then true
    else
      var k := |pages| - 1;
      && RunOk(objName, pages[..k])
      && TidyPage(objName, pages[k])
      && PageOk(RunList(objName, pages[..k]), objName, pages[k])
  }

  // Over any such run of pages the field lists, without repeats, exactly the values last seen
  // checked.
  lemma {:induction false} RunHoldsChecked(objName: string, pages: seq<seq<Element>>)
    requires RunOk(objName, pages)
    ensures RunField(objName, pages) == Text.Join(RunList(objName, pages))
    ensures IsSelection(RunList(objName, pages))
    ensures forall v :: v in RunList(objName, pages) <==> SeenInRun(objName, pages, v) == Last(true)
  {
    if pages == [] {
    } else {
      var k := |pages| - 1;
      RunHoldsChecked(objName, pages[..k]);
      var l := RunList(objName, pages[..k]);
      UpdatedIsIdeal(l, objName, pages[k]);
      forall v
        ensures v in RunList(objName, pages) <==> SeenInRun(objName, pages, v) == Last(true)
      {
        PageMembers(l, objName, pages[k], v);
      }
    }
  }

  // Values a form can offer without looking at the run: tidy, and none a proper ending of another.
  ghost predicate Offerable(values: set<string>) {
    && (forall v :: v in values ==> Tidy(v))
    && (forall v, w :: v in values && w in values && IsSuffix(v, w) ==> v == w)
  }

  ghost predicate PageOf(values: set<string>, objName: string, elements: seq<Element>) {
    forall i :: 0 <= i < |elements| && Matches(objName, elements[i]) ==> elements[i].value in values
  }

  ghost predicate ListOf(values: set<string>, l: seq<string>) {
    forall i :: 0 <= i < |l| ==> l[i] in values
  }

  lemma AfterIsOffered(values: set<string>, l: seq<string>, objName: string, e: Element)
    requires ListOf(values, l) && (Matches(objName, e) ==> e.value in values)
    ensures ListOf(values, After(l, objName, e))
  {
    IdealMembers(l, e.value, e.checked);
    var r := After(l, objName, e);
    forall i | 0 <= i < |r|
      ensures r[i] in values
    {
      assert r[i] in r;
    }
  }

  lemma {:induction false} OfferablePage(values: set<string>, l: seq<string>, objName: string,
                                         elements: seq<Element>)
    requires Offerable(values) && ListOf(values, l) && PageOf(values, objName, elements)
    ensures PageOk(l, objName, elements) && ListOf(values, IdealPage(l, objName, elements))
    decreases |elements|
  {
    if elements == [] {
    } else {
      AfterIsOffered(values, l, objName, elements[0]);
      OfferablePage(values, After(l, objName, elements[0]), objName, elements[1..]);
    }
  }

  // Whatever the user does, offerable values meet the conditions.
  lemma {:induction false} OfferableRun(values: set<string>, objName: string,
                                        pages: seq<seq<Element>>)
    requires Offerable(values)
    requires forall i :: 0 <= i < |pages| ==> PageOf(values, objName, pages[i])
    ensures RunOk(objName, pages) && ListOf(values, RunList(objName, pages))
  {
    if pages == [] {
    } else {
      var k := |pages| - 1;
      OfferableRun(values, objName, pages[..k]);
      OfferablePage(values, RunList(objName, pages[..k]), objName, pages[k]);
    }
  }

  ghost predicate PagesOf(values: set<string>, objName: string, pages: seq<seq<Element>>) {
    forall i :: 0 <= i < |pages| ==> PageOf(values, objName, pages[i])
  }

  // Whatever the user does, the field holds the list.
  ghost predicate SafeInEveryRun(values: set<string>, objName: string) {
    forall pages :: PagesOf(values, objName, pages) ==>
                      RunField(objName, pages) == Text.Join(RunList(objName, pages))
  }

  // A page with one checkbox, checked.
  function Check(objName: string, v: string): seq<Element> {
    [Element(true, objName, v, true)]
  }

  lemma CheckedPage(l: seq<string>, objName: string, v: string)
    ensures IdealPage(l, objName, Check(objName, v)) == Ideal(l, v, true)
    ensures forall s :: UpdateAll(s, objName, Check(objName, v)) == UpdateOne(s, v, true)
    ensures PageOk(l, objName, Check(objName, v)) <==> StepOk(l, v, true)
  {
    assert Check(objName, v)[1..] == [];
  }

  // Checking an ending of the one selected value is lost.
  lemma EndingIsLost(objName: string, v: string, w: string)
    requires Tidy(v) && Tidy(w) && IsSuffix(v, w)
    ensures Updated(w, objName, Check(objName, v)) == w
  {
    var l := [w];
    assert l[1..] == [] && "" + Flat(l) == w + ",";
    IndexWithLead("", l, v);
    CheckedPage(l, objName, v);
    FieldIsStable(l);
    TrimCommas("", w);
    assert "" + (w + ",") == w + ",";
  }

  lemma FirstCheck(objName: string, w: string)
    requires Tidy(w)
    ensures Updated("", objName, Check(objName, w)) == w
    ensures IdealPage([], objName, Check(objName, w)) == [w]
  {
    CheckedPage([], objName, w);
    UpdatedIsIdeal([], objName, Check(objName, w));
    assert [] + [w] == [w];
  }

  lemma RunSnoc(objName: string, pages: seq<seq<Element>>, q: seq<Element>)
    ensures RunField(objName, pages + [q]) == Updated(RunField(objName, pages), objName, q)
    ensures RunList(objName, pages + [q]) == IdealPage(RunList(objName, pages), objName, q)
  {
    assert (pages + [q])[..|pages|] == pages;
  }

  // The run that goes wrong: check w, then its proper ending v.
  lemma EndingFails(objName: string, v: string, w: string)
    requires Tidy(v) && Tidy(w) && IsSuffix(v, w) && v != w
    ensures var pages := [Check(objName, w), Check(objName, v)];
            RunField(objName, pages) == w && RunList(objName, pages) == [w, v]
  {
    RunOfFirstCheck(objName, w);
    RunOfSecondCheck(objName, [Check(objName, w)], v, w);
    assert [Check(objName, w)] + [Check(objName, v)] == [Check(objName, w), Check(objName, v)];
  }

  lemma RunOfFirstCheck(objName: string, w: string)
    requires Tidy(w)
    ensures RunField(objName, [Check(objName, w)]) == w
    ensures RunList(objName, [Check(objName, w)]) == [w]
  {
    RunSnoc(objName, [], Check(objName, w));
    assert [] + [Check(objName, w)] == [Check(objName, w)];
    FirstCheck(objName, w);
  }

  lemma RunOfSecondCheck(objName: string, pages: seq<seq<Element>>, v: string, w: string)
    requires Tidy(v) && Tidy(w) && IsSuffix(v, w) && v != w
    requires RunField(objName, pages) == w && RunList(objName, pages) == [w]
    ensures RunField(objName, pages + [Check(objName, v)]) == w
    ensures RunList(objName, pages + [Check(objName, v)]) == [w, v]
  {
    RunSnoc(objName, pages, Check(objName, v));
    EndingIsLost(objName, v, w);
    CheckedPage([w], objName, v);
  }

  lemma OneRunDecides(values: set<string>, objName: string, pages: seq<seq<Element>>)
    requires PagesOf(values, objName, pages)
    requires RunField(objName, pages) != Text.Join(RunList(objName, pages))
    ensures !SafeInEveryRun(values, objName)
  {
  }

  lemma TwoChecks(values: set<string>, objName: string, v: string, w: string)
    requires v in values && w in values
    ensures PagesOf(values, objName, [Check(objName, w), Check(objName, v)])
  {
  }

  lemma EndingIsUnsafe(values: set<string>, objName: string, v: string, w: string)
    requires v in values && w in values && Tidy(v) && Tidy(w) && IsSuffix(v, w) && v != w
    ensures !SafeInEveryRun(values, objName)
  {
    EndingFails(objName, v, w);
    JoinOfTwo(w, v);
    TwoChecks(values, objName, v, w);
    OneRunDecides(values, objName, [Check(objName, w), Check(objName, v)]);
  }

  lemma JoinOfTwo(w: string, v: string)
    ensures |Text.Join([w, v])| > |w|
  {
    assert [w, v][1..] == [v];
  }

  lemma OfferableIsSafe(values: set<string>, objName: string)
    requires Offerable(values)
    ensures SafeInEveryRun(values, objName)
  {
    forall pages | PagesOf(values, objName, pages)
      ensures RunField(objName, pages) == Text.Join(RunList(objName, pages))
    {
      OfferableRun(values, objName, pages);
      RunHoldsChecked(objName, pages);
    }
  }

  // Tidy values are safe in every run if and only if none is a proper ending of another.
  lemma OfferableExactly(values: set<string>, objName: string)
    requires forall v :: v in values ==> Tidy(v)
    ensures SafeInEveryRun(values, objName) <==> Offerable(values)
  {
    if Offerable(values) {
      OfferableIsSafe(values, objName);
    } else {
      var v, w :| v in values && w in values && IsSuffix(v, w) && v != w;
      EndingIsUnsafe(values, objName, v, w);
    }
  }

  // The items of l that the page does not offer, in order.
  function OffPage(l: seq<string>, objName: string, elements: seq<Element>): seq<string> {
    if l == [] then []
    else (if SeenOnPage(objName, elements, l[0]).Never? then [l[0]] else [])
         + OffPage(l[1..], objName, elements)
  }

  lemma {:induction false} OffPageAppend(a: seq<string>, b: seq<string>, objName: string,
                                         elements: seq<Element>)
    ensures OffPage(a + b, objName, elements)
            == OffPage(a, objName, elements) + OffPage(b, objName, elements)
  {
    if a == [] {
      assert a + b == b;
      assert [] + OffPage(b, objName, elements) == OffPage(b, objName, elements);
    } else {
      assert (a + b)[1..] == a[1..] + b && (a + b)[0] == a[0];
      OffPageAppend(a[1..], b, objName, elements);
      var first := if SeenOnPage(objName, elements, a[0]).Never? then [a[0]] else [];
      Text.ConcatAssociates(first, OffPage(a[1..], objName, elements), OffPage(b, objName, elements));
    }
  }

  lemma {:induction false} OffPageWithout(l: seq<string>, v: string, objName: string,
                                          elements: seq<Element>)
    requires SeenOnPage(objName, elements, v).Last?
    ensures OffPage(Without(l, v), objName, elements) == OffPage(l, objName, elements)
  {
    if l == [] {
    } else {
      OffPageWithout(l[1..], v, objName, elements);
      if l[0] != v {
        assert Without(l, v)[1..] == Without(l[1..], v);
      } else {
        assert Without(l, v) == Without(l[1..], v);
      }
    }
  }

  lemma {:induction false} SeenIfThere(objName: string, elements: seq<Element>, i: nat)
    requires i < |elements| && Matches(objName, elements[i])
    ensures SeenOnPage(objName, elements, elements[i].value).Last?
  {
    if i == |elements| - 1 {
    } else {
      SeenIfThere(objName, elements[..|elements| - 1], i);
    }
  }

  lemma {:induction false} OffPageKept(l: seq<string>, objName: string, elements: seq<Element>,
                                       done: nat)
    requires done <= |elements|
    ensures OffPage(IdealPage(l, objName, elements[..done]), objName, elements)
            == OffPage(l, objName, elements)
  {
    if done == 0 {
    } else {
      OffPageKept(l, objName, elements, done - 1);
      var e := elements[done - 1];
      assert elements[..done] == elements[..done - 1] + [e];
      IdealPageSnoc(l, objName, elements[..done - 1], e);
      OffPageAfter(IdealPage(l, objName, elements[..done - 1]), objName, elements, done - 1);
    }
  }

  lemma OffPageAfter(r: seq<string>, objName: string, elements: seq<Element>, k: nat)
    requires k < |elements|
    ensures OffPage(After(r, objName, elements[k]), objName, elements)
            == OffPage(r, objName, elements)
  {
    var e := elements[k];
    if Matches(objName, e) {
      SeenIfThere(objName, elements, k);
      OffPageWithout(r, e.value, objName, elements);
      OffPageAppend(r, [e.value], objName, elements);
      OffPageOfSeen(e.value, objName, elements);
    }
  }

  lemma OffPageOfSeen(v: string, objName: string, elements: seq<Element>)
    requires SeenOnPage(objName, elements, v).Last?
    ensures OffPage([v], objName, elements) == []
  {
    assert [v][1..] == [];
  }

  // Values that are not on the page keep their order.
  lemma PageKeepsOrder(l: seq<string>, objName: string, elements: seq<Element>)
    ensures OffPage(IdealPage(l, objName, elements), objName, elements)
            == OffPage(l, objName, elements)
  {
    assert elements[..|elements|] == elements;
    OffPageKept(l, objName, elements, |elements|);
  }

  // Why endings matter: with "ab" selected, checking "b" is lost, and unchecking "b" turns "ab"
  // into "a".
  lemma EndingsConfuse()
    ensures Updated("ab", "u", [Element(true, "u", "b", true)]) == "ab"
    ensures Updated("ab", "u", [Element(true, "u", "b", false)]) == "a"
  {
    var l, v := ["ab"], "b";
    assert l[1..] == [] && Flat(l) == "ab" + "," + Flat([]);
    assert "" + Flat(l) == "ab" + ",";
    assert "ab"[1..] == "b" && IsSuffix(v, l[0]);
    assert Plain("ab") && Plain(v);
    CheckedExactly("", l, v);
    IndexWithLead("", l, v);
    RemoveEnding("", l, v, 0);
    assert "ab"[..1] == "a" && l[..0] == [];
    assert UpdateOne("ab" + ",", v, true) == "ab" + ",";
    assert UpdateOne("ab" + ",", v, false) == "a";
    PageOfOne("ab" + ",", v, true);
    PageOfOne("ab" + ",", v, false);
    TrimNothing("ab", ' ');
    TrimNothing("ab", ',');
    TrimNothing("a", ',');
    TrimCommas("", "ab");
    assert "" + ("ab" + ",") == "ab" + ",";
  }

  lemma PageOfOne(s: string, v: string, checked: bool)
    ensures UpdateAll(s, "u", [Element(true, "u", v, checked)]) == UpdateOne(s, v, checked)
  {
    var e := Element(true, "u", v, checked);
    assert [e][1..] == [];
  }
}
