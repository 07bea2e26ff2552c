/** Properties of ontology classes, looked up along the subclass graph in three ways. */
module Ontology {
  import Text
  import opened Wrappers

  datatype Property = Property(name: string, range: string)

  // A class with its properties loaded; subClassOf names the superclasses, if it is an array.
  datatype Class = Class(name: string, properties: seq<Property>, subClassOf: Option<seq<string>>)

  // The loaded ontologies: prefix to classes.
  type Graph = map<string, seq<Class>>

  function IndexOfColon(s: string): (i: int)
    ensures -1 <= i < |s|
  {
    if s == "" then -1
    else if s[0] == ':' then 0
    else
      var i := IndexOfColon(s[1..]);
      if i == -1 then -1 else i + 1
  }

  // extractPrefix; without a prefix the table is indexed with null, which reads the key "null".
  function PrefixKey(className: string): string {
    var n := IndexOfColon(className);
    if n == -1 then "null" else className[..n]
  }

  lemma {:induction false} ColonIsFirst(s: string)
    ensures var n := IndexOfColon(s);
            && (n == -1 <==> ':' !in s)
            && (n >= 0 ==> s[n] == ':' && ':' !in s[..n])
  {
    if s == "" || s[0] == ':' {
    } else {
      ColonIsFirst(s[1..]);
      var n := IndexOfColon(s);
      assert n >= 0 ==> s[..n] == [s[0]] + s[1..][..n - 1];
      assert forall c :: c in s <==> c == s[0] || c in s[1..];
    }
  }

  // A class is looked up under the text before its first colon.
  lemma PrefixIsBeforeColon(className: string, prefix: string, local: string)
    requires className == prefix + ":" + local && ':' !in prefix
    ensures PrefixKey(className) == prefix
  {
    ColonIsFirst(className);
    var n := IndexOfColon(className);
    assert className[|prefix|] == ':';
    assert forall i :: 0 <= i < |prefix| ==> className[i] == prefix[i] && className[i] != ':';
    assert forall i :: 0 <= i < n ==> className[..n][i] == className[i];
    assert n == |prefix|;
  }

  function FindClass(classes: seq<Class>, className: string): (r: Option<Class>)
    ensures r.Some? ==> r.value in classes && r.value.name == className
    ensures r.None? ==> forall i :: 0 <= i < |classes| ==> classes[i].name != className
  {
    if classes == [] then None
    else if classes[0].name == className then Some(classes[0])
    else FindClass(classes[1..], className)
  }

  // The scan stops at the first class of that name, or finds none.
  lemma {:induction false} FindClassIsFirst(classes: seq<Class>, className: string, i: nat)
    requires i <= |classes| && (i < |classes| ==> classes[i].name == className)
    requires forall j :: 0 <= j < i ==> classes[j].name != className
    ensures FindClass(classes, className) == if i < |classes| then Some(classes[i]) else None
  {
    if i == 0 {
    } else {
      FindClassIsFirst(classes[1..], className, i - 1);
    }
  }

  function GetOntologyClass(g: Graph, className: string): Option<Class> {
    var key := PrefixKey(className);
    if key in g then FindClass(g[key], className) else None
  }

  // The superclasses the searches go on to.
  function Supers(g: Graph, className: string): seq<string> {
    match GetOntologyClass(g, className)
    case None => []
    case Some(c) => if c.subClassOf.Some? then c.subClassOf.value else []
  }

  function Declared(g: Graph, className: string): seq<Property> {
    match GetOntologyClass(g, className)
    case None => []
    case Some(c) => c.properties
  }

  // A name without a colon is looked up under "null", as the source's table is.
  lemma ClassWithoutPrefix(g: Graph, className: string)
    requires ':' !in className
    ensures GetOntologyClass(g, className)
            == if "null" in g then FindClass(g["null"], className) else None
  {
    ColonIsFirst(className);
  }

  // ---------------------------------------------------------------------------------------
  // Acyclic graphs
  // ---------------------------------------------------------------------------------------

  // The names under which a class can be found.
  ghost function Names(g: Graph): set<string> {
    set key, i | key in g && 0 <= i < |g[key]| :: g[key][i].name
  }

  lemma FoundIsNamed(g: Graph, className: string)
    ensures GetOntologyClass(g, className).Some? ==> className in Names(g)
  {
    var key := PrefixKey(className);
    if key in g && FindClass(g[key], className).Some? {
      var c := FindClass(g[key], className).value;
      var i :| 0 <= i < |g[key]| && g[key][i] == c;
    }
  }

  ghost predicate Edge(g: Graph, c: string, d: string) {
    exists i :: 0 <= i < |Supers(g, c)| && Supers(g, c)[i] == d
  }

  // The class found for "prefix:local" is the first of that name under the prefix, and its own
  // fields are what the searches see.
  lemma ClassUnderPrefix(g: Graph, className: string, prefix: string, local: string, i: nat)
    requires className == prefix + ":" + local && ':' !in prefix && prefix in g
    requires i <= |g[prefix]| && (i < |g[prefix]| ==> g[prefix][i].name == className)
    requires forall j :: 0 <= j < i ==> g[prefix][j].name != className
    ensures GetOntologyClass(g, className)
            == if i < |g[prefix]| then Some(g[prefix][i]) else None
    ensures i < |g[prefix]| ==>
              var c := g[prefix][i];
              && Declared(g, className) == c.properties
              && Supers(g, className) == (if c.subClassOf.Some? then c.subClassOf.value else [])
              && forall d :: Edge(g, className, d) <==> c.subClassOf.Some? && d in c.subClassOf.value
  {
    PrefixIsBeforeColon(className, prefix, local);
    FindClassIsFirst(g[prefix], className, i);
  }

  // A walk from class to superclass.
  ghost predicate Walk(g: Graph, w: seq<string>) {
    forall j, k :: 0 <= j < k < |w| && k == j + 1 ==> Edge(g, w[j], w[k])
  }

  // A walk that starts at a class.
  ghost predicate WalkFrom(g: Graph, root: string, w: seq<string>) {
    w != [] && w[0] == root && Walk(g, w)
  }

  predicate Distinct(w: seq<string>) {
    forall i, j :: 0 <= i < j < |w| ==> w[i] != w[j]
  }

  // No cycle can be reached: no walk from the class comes to a class twice.
  ghost predicate AcyclicFrom(g: Graph, root: string) {
    forall w :: WalkFrom(g, root, w) ==> Distinct(w)
  }

  ghost predicate Reachable(g: Graph, root: string, c: string) {
    exists w :: WalkFrom(g, root, w) && w[|w| - 1] == c
  }

  ghost predicate Bottom(g: Graph, t: set<string>, c: string) {
    forall d :: d in t ==> !Edge(g, c, d)
  }

  // More steps than classes: some class comes twice.
  lemma {:induction false} Pigeonhole(w: seq<string>, t: set<string>) returns (i: nat, j: nat)
    requires |w| > |t| && forall k :: 0 <= k < |w| ==> w[k] in t
    ensures i < j < |w| && w[i] == w[j]
    decreases |w|
  {
    if k :| 1 <= k < |w| && w[k] == w[0] {
      i, j := 0, k;
    } else {
      var i', j' := Pigeonhole(w[1..], t - {w[0]});
      i, j := i' + 1, j' + 1;
    }
  }

  // A walk of any length, if every class of t has a superclass in t.
  lemma {:induction false} LongWalk(g: Graph, t: set<string>, n: nat) returns (w: seq<string>)
    requires t != {} && forall c {:trigger Bottom(g, t, c)} :: c in t ==> !Bottom(g, t, c)
    ensures |w| == n + 1 && Walk(g, w) && forall k :: 0 <= k < |w| ==> w[k] in t
  {
    if n == 0 {
      var c :| c in t;
      w := [c];
    } else {
      var u := LongWalk(g, t, n - 1);
      assert !Bottom(g, t, u[n - 1]);
      var d :| d in t && Edge(g, u[n - 1], d);
      w := u + [d];
      WalkSnoc(g, u, d);
    }
  }

  lemma WalkSnoc(g: Graph, u: seq<string>, d: string)
    requires Walk(g, u) && u != [] && Edge(g, u[|u| - 1], d)
    ensures Walk(g, u + [d])
  {
    var w := u + [d];
    forall j, k | 0 <= j < k < |w| && k == j + 1
      ensures Edge(g, w[j], w[k])
    {
      if k < |u| {
        assert w[j] == u[j] && w[k] == u[k];
      }
    }
  }

  lemma WalkPart(g: Graph, w: seq<string>, i: nat, j: nat)
    requires Walk(g, w) && i < j < |w|
    ensures var part := w[i..j + 1];
            |part| >= 2 && Walk(g, part) && part[0] == w[i] && part[|part| - 1] == w[j]
  {
    var part := w[i..j + 1];
    forall a, b | 0 <= a < b < |part| && b == a + 1
      ensures Edge(g, part[a], part[b])
    {
      assert part[a] == w[i + a] && part[b] == w[i + b];
    }
  }

  // Two walks, the second from the end of the first.
  lemma WalkAppend(g: Graph, u: seq<string>, w: seq<string>)
    requires Walk(g, u) && u != [] && w != [] && Walk(g, w) && u[|u| - 1] == w[0]
    ensures Walk(g, u + w[1..])
  {
    var v := u + w[1..];
    forall j, k | 0 <= j < k < |v| && k == j + 1
      ensures Edge(g, v[j], v[k])
    {
      if k < |u| {
        assert v[j] == u[j] && v[k] == u[k];
      } else {
        assert v[k] == w[k - |u| + 1];
        assert v[j] == w[j - |u| + 1];
      }
    }
  }

  // If every class of t has a superclass in t, a cycle can be reached from where t is reached.
  lemma LoopExists(g: Graph, root: string, t: set<string>)
    requires t != {} && forall c {:trigger Bottom(g, t, c)} :: c in t ==> !Bottom(g, t, c)
    requires forall c :: c in t ==> Reachable(g, root, c)
    ensures !AcyclicFrom(g, root)
  {
    var w := LongWalk(g, t, |t|);
    var i, j := Pigeonhole(w, t);
    assert w[0] in t;
    var u :| WalkFrom(g, root, u) && u[|u| - 1] == w[0];
    WalkAppend(g, u, w);
    var v := u + w[1..];
    assert forall k :: 0 <= k < |w| ==> v[|u| - 1 + k] == w[k];
    assert WalkFrom(g, root, v);
    assert v[|u| - 1 + i] == v[|u| - 1 + j];
  }

  // Without a reachable cycle, every finite set of reachable classes has one without superclass in
  // the set.
  lemma BottomExists(g: Graph, root: string, t: set<string>) returns (c: string)
    requires AcyclicFrom(g, root) && t != {} && forall c :: c in t ==> Reachable(g, root, c)
    ensures c in t && Bottom(g, t, c)
  {
    if forall d {:trigger Bottom(g, t, d)} :: d in t ==> !Bottom(g, t, d) {
      LoopExists(g, root, t);
      assert false;
    }
    c :| c in t && Bottom(g, t, c);
  }

  // A numbering in which superclasses have smaller numbers.
  ghost predicate Ranked(g: Graph, rank: map<string, nat>, names: set<string>) {
    && names <= rank.Keys
    && forall c, d :: c in names && d in names && Edge(g, c, d) ==> rank[d] < rank[c]
  }

  lemma {:induction false} RankExists(g: Graph, root: string, names: set<string>)
    returns (rank: map<string, nat>)
    requires AcyclicFrom(g, root) && forall c :: c in names ==> Reachable(g, root, c)
    ensures Ranked(g, rank, names) && rank.Keys == names
    decreases |names|
  {
    if names == {} {
      rank := map[];
    } else {
      var m := BottomExists(g, root, names);
      var r := RankExists(g, root, names - {m});
      rank := map c | c in names :: if c == m then 0 else r[c] + 1;
    }
  }

  predicate Loaded(g: Graph, className: string) {
    GetOntologyClass(g, className).Some?
  }

  // The numbering has the class, if it is loaded, and with every class its loaded superclasses, at
  // smaller numbers.
  ghost predicate Covers(g: Graph, rank: map<string, nat>, className: string) {
    && (Loaded(g, className) ==> className in rank)
    && forall c, d :: c in rank && Edge(g, c, d) && Loaded(g, d) ==> d in rank && rank[d] < rank[c]
  }

  function RankOf(g: Graph, rank: map<string, nat>, className: string): nat {
    if Loaded(g, className) && className in rank then rank[className] + 1 else 0
  }

  lemma SuperRank(g: Graph, rank: map<string, nat>, className: string, i: nat)
    requires Covers(g, rank, className) && i < |Supers(g, className)|
    ensures Covers(g, rank, Supers(g, className)[i])
    ensures RankOf(g, rank, Supers(g, className)[i]) < RankOf(g, rank, className)
  {
    assert Edge(g, className, Supers(g, className)[i]);
  }

  // ---------------------------------------------------------------------------------------
  // When the searches terminate
  // ---------------------------------------------------------------------------------------

  ghost function ReachableNames(g: Graph, root: string): set<string> {
    set c | c in Names(g) && Reachable(g, root, c)
  }

  lemma ReachableStep(g: Graph, root: string, c: string, d: string)
    requires Reachable(g, root, c) && Edge(g, c, d)
    ensures Reachable(g, root, d)
  {
    var w :| WalkFrom(g, root, w) && w[|w| - 1] == c;
    WalkSnoc(g, w, d);
    assert WalkFrom(g, root, w + [d]) && (w + [d])[|w|] == d;
  }

  lemma ReachableCovers(g: Graph, root: string, rank: map<string, nat>)
    requires Ranked(g, rank, ReachableNames(g, root)) && rank.Keys == ReachableNames(g, root)
    ensures Covers(g, rank, root)
  {
    if Loaded(g, root) {
      FoundIsNamed(g, root);
      assert WalkFrom(g, root, [root]) && [root][0] == root;
    }
    forall c, d | c in rank && Edge(g, c, d) && Loaded(g, d)
      ensures d in rank && rank[d] < rank[c]
    {
      FoundIsNamed(g, d);
      ReachableStep(g, root, c, d);
    }
  }

  // Along a walk the numbers go down.
  lemma {:induction false} WalkDescends(g: Graph, rank: map<string, nat>, w: seq<string>, j: nat)
    requires w != [] && Walk(g, w) && Covers(g, rank, w[0]) && 0 < j < |w|
    ensures Covers(g, rank, w[j]) && RankOf(g, rank, w[j]) < RankOf(g, rank, w[0])
  {
    if j == 1 {
      EdgeDescends(g, rank, w[0], w[1]);
    } else {
      WalkDescends(g, rank, w, j - 1);
      EdgeDescends(g, rank, w[j - 1], w[j]);
    }
  }

  lemma EdgeDescends(g: Graph, rank: map<string, nat>, c: string, d: string)
    requires Covers(g, rank, c) && Edge(g, c, d)
    ensures Covers(g, rank, d) && RankOf(g, rank, d) < RankOf(g, rank, c)
  {
    var i :| 0 <= i < |Supers(g, c)| && Supers(g, c)[i] == d;
    SuperRank(g, rank, c, i);
  }

  lemma CoveredIsAcyclic(g: Graph, rank: map<string, nat>, root: string)
    requires Covers(g, rank, root)
    ensures AcyclicFrom(g, root)
  {
    forall w, i, j | WalkFrom(g, root, w) && 0 <= i < j < |w|
      ensures w[i] != w[j]
    {
      if i > 0 {
        WalkDescends(g, rank, w, i);
        WalkPart(g, w, i, j);
        WalkDescends(g, rank, w[i..j + 1], j - i);
      } else {
        WalkDescends(g, rank, w, j);
      }
    }
  }

  // A numbering along which the searches from a class terminate exists exactly when no cycle can
  // be reached from it, whatever the rest of the graph is.
  lemma RankingExactly(g: Graph, root: string)
    ensures (exists rank: map<string, nat> :: Covers(g, rank, root)) <==> AcyclicFrom(g, root)
  {
    if AcyclicFrom(g, root) {
      var rank := RankExists(g, root, ReachableNames(g, root));
      ReachableCovers(g, root, rank);
    }
    if rank: map<string, nat> :| Covers(g, rank, root) {
      CoveredIsAcyclic(g, rank, root);
    }
  }

  // ---------------------------------------------------------------------------------------
  // The three searches
  // ---------------------------------------------------------------------------------------

  function FindProperty(ps: seq<Property>, p: string): Option<Property> {
    if ps == [] then None
    else if ps[0].name == p then Some(ps[0])
    else FindProperty(ps[1..], p)
  }

  // getOntologyClassProperty for a class name; the numbering only shows that it terminates.
  function GetProperty(g: Graph, ghost rank: map<string, nat>, className: string, p: string)
    : Option<Property>
    requires Covers(g, rank, className)
    decreases RankOf(g, rank, className), 1, 0
  {
    match GetOntologyClass(g, className)
    case None => None
    case Some(c) =>
      var own := FindProperty(c.properties, p);
      if own.Some? then own
      else if c.subClassOf.Some? then GetInSupers(g, rank, className, p, 0)
      else None
  }

  // Its loop over the superclasses, from number i on.
  function GetInSupers(g: Graph, ghost rank: map<string, nat>, className: string, p: string, i: nat)
    : Option<Property>
    requires Covers(g, rank, className) && i <= |Supers(g, className)|
    decreases RankOf(g, rank, className), 0, |Supers(g, className)| - i
  {
    if i == |Supers(g, className)| then None
    else
      SuperRank(g, rank, className, i);
      var r := GetProperty(g, rank, Supers(g, className)[i], p);
      if r.Some? then r else GetInSupers(g, rank, className, p, i + 1)
  }

  predicate HasClassProperties(g: Graph, ghost rank: map<string, nat>, className: string)
    requires Covers(g, rank, className)
    decreases RankOf(g, rank, className), 1, 0
  {
    match GetOntologyClass(g, className)
    case None => false
    case Some(c) =>
      |c.properties| > 0 || (c.subClassOf.Some? && SomeSuperHas(g, rank, className, 0))
  }

  predicate SomeSuperHas(g: Graph, ghost rank: map<string, nat>, className: string, i: nat)
    requires Covers(g, rank, className) && i <= |Supers(g, className)|
    decreases RankOf(g, rank, className), 0, |Supers(g, className)| - i
  {
    i < |Supers(g, className)|
    && (SuperRank(g, rank, className, i);
        HasClassProperties(g, rank, Supers(g, className)[i])
        || SomeSuperHas(g, rank, className, i + 1))
  }

  // The properties of a class and of all its ancestors in preorder.
  function Preorder(g: Graph, ghost rank: map<string, nat>, className: string): seq<Property>
    requires Covers(g, rank, className)
    decreases RankOf(g, rank, className), 1, 0
  {
    Declared(g, className) + PreorderSupers(g, rank, className, 0)
  }

  function PreorderSupers(g: Graph, ghost rank: map<string, nat>, className: string, i: nat)
    : seq<Property>
    requires Covers(g, rank, className) && i <= |Supers(g, className)|
    decreases RankOf(g, rank, className), 0, |Supers(g, className)| - i
  {
    if i == |Supers(g, className)| then []
    else
      SuperRank(g, rank, className, i);
      Preorder(g, rank, Supers(g, className)[i]) + PreorderSupers(g, rank, className, i + 1)
  }

  function NamesOf(ps: seq<Property>): (r: seq<string>)
    ensures |r| == |ps| && forall i :: 0 <= i < |ps| ==> r[i] == ps[i].name
  {
    seq(|ps|, i requires 0 <= i < |ps| => ps[i].name)
  }

  // The options of the property drop-down, before sorting.
  class OptionList {
    var names: seq<string>

    constructor ()
      ensures names == []
    {
      names := [];
    }

    method Push(name: string)
      modifies this
      ensures names == old(names) + [name]
    {
      names := names + [name];
    }
  }

  // The first loop of selectOption46.
  method PushNames(options: OptionList, properties: seq<Property>)
    modifies options
    ensures options.names == old(options.names) + NamesOf(properties)
  {
    var i := 0;
    while i < |properties|
      invariant 0 <= i <= |properties|
      invariant options.names == old(options.names) + NamesOf(properties[..i])
    {
      assert NamesOf(properties[..i + 1]) == NamesOf(properties[..i]) + [properties[i].name];
      options.Push(properties[i].name);
      i := i + 1;
    }
    assert properties[..i] == properties;
  }

  // selectOption46: pushes the names of the class and then recurses into its superclasses.
  method SelectOption46(g: Graph, ghost rank: map<string, nat>, options: OptionList,
                        className: string)
    requires Covers(g, rank, className)
    modifies options
    ensures options.names == old(options.names) + NamesOf(Preorder(g, rank, className))
    decreases RankOf(g, rank, className), 1
  {
    NamesOfAppend(Declared(g, className), PreorderSupers(g, rank, className, 0));
    Text.ConcatAssociates(options.names, NamesOf(Declared(g, className)),
                          NamesOf(PreorderSupers(g, rank, className, 0)));
    var ontologyClass := GetOntologyClass(g, className);
    if ontologyClass.Some? {
      PushNames(options, ontologyClass.value.properties);
      if ontologyClass.value.subClassOf.Some? {
        SelectInSupers(g, rank, options, className, ontologyClass.value.subClassOf.value);
      }
    }
  }

  // Its second loop.
  method SelectInSupers(g: Graph, ghost rank: map<string, nat>, options: OptionList,
                        className: string, supers: seq<string>)
    requires Covers(g, rank, className) && supers == Supers(g, className)
    modifies options
    ensures options.names == old(options.names) + NamesOf(PreorderSupers(g, rank, className, 0))
    decreases RankOf(g, rank, className), 0
  {
    var i := 0;
    while i < |supers|
      invariant 0 <= i <= |supers|
      invariant options.names + NamesOf(PreorderSupers(g, rank, className, i))
                == old(options.names) + NamesOf(PreorderSupers(g, rank, className, 0))
    {
      SuperRank(g, rank, className, i);
      NamesOfAppend(Preorder(g, rank, supers[i]), PreorderSupers(g, rank, className, i + 1));
      ghost var before := options.names;
      SelectOption46(g, rank, options, supers[i]);
      Text.ConcatAssociates(before, NamesOf(Preorder(g, rank, supers[i])),
                            NamesOf(PreorderSupers(g, rank, className, i + 1)));
      i := i + 1;
    }
  }

  lemma NamesOfAppend(a: seq<Property>, b: seq<Property>)
    ensures NamesOf(a + b) == NamesOf(a) + NamesOf(b)
  {
  }

  // ---------------------------------------------------------------------------------------
  // They agree
  // ---------------------------------------------------------------------------------------

  lemma {:induction false} FindInAppend(a: seq<Property>, b: seq<Property>, p: string)
    ensures FindProperty(a + b, p)
            == if FindProperty(a, p).Some? then FindProperty(a, p) else FindProperty(b, p)
  {
    if a == [] {
      assert a + b == b;
    } else {
      assert (a + b)[1..] == a[1..] + b;
      FindInAppend(a[1..], b, p);
    }
  }

  // The lookup delivers the first property of that name in preorder.
  lemma {:induction false} GetIsFirst(g: Graph, rank: map<string, nat>, className: string, p: string)
    requires Covers(g, rank, className)
    ensures GetProperty(g, rank, className, p) == FindProperty(Preorder(g, rank, className), p)
    decreases RankOf(g, rank, className), 1, 0
  {
    FindInAppend(Declared(g, className), PreorderSupers(g, rank, className, 0), p);
    GetInSupersIsFirst(g, rank, className, p, 0);
  }

  lemma {:induction false} GetInSupersIsFirst(g: Graph, rank: map<string, nat>, className: string,
                                              p: string, i: nat)
    requires Covers(g, rank, className) && i <= |Supers(g, className)|
    ensures GetInSupers(g, rank, className, p, i)
            == FindProperty(PreorderSupers(g, rank, className, i), p)
    decreases RankOf(g, rank, className), 0, |Supers(g, className)| - i
  {
    if i == |Supers(g, className)| {
    } else {
      SuperRank(g, rank, className, i);
      var d := Supers(g, className)[i];
      GetIsFirst(g, rank, d, p);
      GetInSupersIsFirst(g, rank, className, p, i + 1);
      FindInAppend(Preorder(g, rank, d), PreorderSupers(g, rank, className, i + 1), p);
    }
  }

  lemma {:induction false} HasIsNonEmpty(g: Graph, rank: map<string, nat>, className: string)
    requires Covers(g, rank, className)
    ensures HasClassProperties(g, rank, className) <==> Preorder(g, rank, className) != []
    decreases RankOf(g, rank, className), 1, 0
  {
    SomeSuperIsNonEmpty(g, rank, className, 0);
  }

  lemma {:induction false} SomeSuperIsNonEmpty(g: Graph, rank: map<string, nat>, className: string,
                                               i: nat)
    requires Covers(g, rank, className) && i <= |Supers(g, className)|
    ensures SomeSuperHas(g, rank, className, i) <==> PreorderSupers(g, rank, className, i) != []
    decreases RankOf(g, rank, className), 0, |Supers(g, className)| - i
  {
    if i == |Supers(g, className)| {
    } else {
      SuperRank(g, rank, className, i);
      HasIsNonEmpty(g, rank, Supers(g, className)[i]);
      SomeSuperIsNonEmpty(g, rank, className, i + 1);
    }
  }

  // The class, or an ancestor reached by some walk, declares the property.
  ghost predicate Inherits(g: Graph, className: string, q: Property) {
    exists w :: WalkTo(g, className, w, q)
  }

  ghost predicate WalkTo(g: Graph, className: string, w: seq<string>, q: Property) {
    w != [] && w[0] == className && Walk(g, w) && q in Declared(g, w[|w| - 1])
  }

  lemma WalkCons(g: Graph, c: string, w: seq<string>)
    requires w != [] && Walk(g, w) && Edge(g, c, w[0])
    ensures Walk(g, [c] + w)
  {
    var u := [c] + w;
    forall j, k | 0 <= j < k < |u| && k == j + 1
      ensures Edge(g, u[j], u[k])
    {
      if j > 0 {
        assert u[j] == w[j - 1] && u[k] == w[k - 1];
      }
    }
  }

  lemma WalkTail(g: Graph, w: seq<string>)
    requires |w| >= 2 && Walk(g, w)
    ensures Walk(g, w[1..]) && Edge(g, w[0], w[1])
  {
    var u := w[1..];
    forall j, k | 0 <= j < k < |u| && k == j + 1
      ensures Edge(g, u[j], u[k])
    {
      assert u[j] == w[j + 1] && u[k] == w[k + 1];
    }
  }

  lemma {:induction false} PreorderIsInherited(g: Graph, rank: map<string, nat>, className: string,
                                               q: Property)
    requires Covers(g, rank, className) && q in Preorder(g, rank, className)
    ensures Inherits(g, className, q)
    decreases RankOf(g, rank, className), 1, 0
  {
    if q in Declared(g, className) {
      assert WalkTo(g, className, [className], q);
    } else {
      PreorderSupersInherited(g, rank, className, q, 0);
    }
  }

  lemma {:induction false} PreorderSupersInherited(g: Graph, rank: map<string, nat>,
                                                   className: string, q: Property, i: nat)
    requires Covers(g, rank, className) && i <= |Supers(g, className)|
    requires q in PreorderSupers(g, rank, className, i)
    ensures Inherits(g, className, q)
    decreases RankOf(g, rank, className), 0, |Supers(g, className)| - i
  {
    SuperRank(g, rank, className, i);
    var d := Supers(g, className)[i];
    if q in Preorder(g, rank, d) {
      PreorderIsInherited(g, rank, d, q);
      InheritsThrough(g, className, i, q);
    } else {
      PreorderSupersInherited(g, rank, className, q, i + 1);
    }
  }

  lemma InheritsThrough(g: Graph, className: string, i: nat, q: Property)
    requires i < |Supers(g, className)| && Inherits(g, Supers(g, className)[i], q)
    ensures Inherits(g, className, q)
  {
    var d := Supers(g, className)[i];
    var w :| WalkTo(g, d, w, q);
    assert Edge(g, className, d);
    WalkCons(g, className, w);
    assert WalkTo(g, className, [className] + w, q);
  }

  lemma {:induction false} InheritedIsPreorder(g: Graph, rank: map<string, nat>, className: string,
                                               w: seq<string>, q: Property)
    requires Covers(g, rank, className) && WalkTo(g, className, w, q)
    ensures q in Preorder(g, rank, className)
    decreases |w|
  {
    if |w| == 1 {
    } else {
      WalkTail(g, w);
      var i :| 0 <= i < |Supers(g, className)| && Supers(g, className)[i] == w[1];
      SuperRank(g, rank, className, i);
      InheritedIsPreorder(g, rank, w[1], w[1..], q);
      InSomeSuper(g, rank, className, q, i, 0);
    }
  }

  lemma {:induction false} InSomeSuper(g: Graph, rank: map<string, nat>, className: string,
                                       q: Property, i: nat, from: nat)
    requires Covers(g, rank, className) && from <= i < |Supers(g, className)|
    requires Covers(g, rank, Supers(g, className)[i])
    requires q in Preorder(g, rank, Supers(g, className)[i])
    ensures q in PreorderSupers(g, rank, className, from)
    decreases i - from
  {
    if from == i {
    } else {
      InSomeSuper(g, rank, className, q, i, from + 1);
    }
  }

  lemma NamedByIndex(ps: seq<Property>, p: string)
    ensures p in NamesOf(ps) <==> exists i :: 0 <= i < |ps| && ps[i].name == p
  {
    if p in NamesOf(ps) {
      var i :| 0 <= i < |ps| && NamesOf(ps)[i] == p;
      assert ps[i].name == p;
    }
    forall i | 0 <= i < |ps| && ps[i].name == p
      ensures p in NamesOf(ps)
    {
      assert NamesOf(ps)[i] == p;
    }
  }

  lemma {:induction false} FindIffNamed(ps: seq<Property>, p: string)
    ensures FindProperty(ps, p).Some? <==> p in NamesOf(ps)
    ensures FindProperty(ps, p).Some? <==> exists i :: 0 <= i < |ps| && ps[i].name == p
  {
    NamedByIndex(ps, p);
    if ps == [] {
    } else {
      FindIffNamed(ps[1..], p);
      assert NamesOf(ps) == [ps[0].name] + NamesOf(ps[1..]);
    }
  }

  lemma {:induction false} FindPropertyIsFirst(ps: seq<Property>, p: string, i: nat)
    requires i <= |ps| && (i < |ps| ==> ps[i].name == p)
    requires forall j :: 0 <= j < i ==> ps[j].name != p
    ensures FindProperty(ps, p) == if i < |ps| then Some(ps[i]) else None
  {
    if i == 0 {
    } else {
      FindPropertyIsFirst(ps[1..], p, i - 1);
    }
  }

  // The lookup delivers the property at the first place in preorder that has the name, or nothing.
  lemma LookupIsFirst(g: Graph, rank: map<string, nat>, className: string, p: string, i: nat)
    requires Covers(g, rank, className)
    requires var all := Preorder(g, rank, className);
             && i <= |all| && (i < |all| ==> all[i].name == p)
             && forall j :: 0 <= j < i ==> all[j].name != p
    ensures var all := Preorder(g, rank, className);
            GetProperty(g, rank, className, p) == if i < |all| then Some(all[i]) else None
  {
    GetIsFirst(g, rank, className, p);
    FindPropertyIsFirst(Preorder(g, rank, className), p, i);
  }

  lemma {:induction false} FoundIsMember(ps: seq<Property>, p: string)
    requires FindProperty(ps, p).Some?
    ensures FindProperty(ps, p).value in ps && FindProperty(ps, p).value.name == p
  {
    if ps[0].name == p {
    } else {
      FoundIsMember(ps[1..], p);
    }
  }

  // What is found has the name and is declared by the class or an ancestor.
  lemma FoundIsInherited(g: Graph, rank: map<string, nat>, className: string, p: string)
    requires Covers(g, rank, className) && GetProperty(g, rank, className, p).Some?
    ensures var q := GetProperty(g, rank, className, p).value;
            q.name == p && Inherits(g, className, q)
  {
    GetIsFirst(g, rank, className, p);
    FoundIsMember(Preorder(g, rank, className), p);
    PreorderIsInherited(g, rank, className, GetProperty(g, rank, className, p).value);
  }

  // Lookup finds a name exactly when the class or an ancestor declares it, and exactly when the
  // drop-down offers it.
  lemma LookupFindsInherited(g: Graph, rank: map<string, nat>, className: string, p: string)
    requires Covers(g, rank, className)
    ensures GetProperty(g, rank, className, p).Some?
            <==> exists q: Property :: q.name == p && Inherits(g, className, q)
    ensures GetProperty(g, rank, className, p).Some?
            <==> p in NamesOf(Preorder(g, rank, className))
  {
    var all := Preorder(g, rank, className);
    GetIsFirst(g, rank, className, p);
    FindIffNamed(all, p);
    forall i | 0 <= i < |all| && all[i].name == p
      ensures Inherits(g, className, all[i])
    {
      PreorderIsInherited(g, rank, className, all[i]);
    }
    forall q: Property | q.name == p && Inherits(g, className, q)
      ensures exists i :: 0 <= i < |all| && all[i].name == p
    {
      var w :| WalkTo(g, className, w, q);
      InheritedIsPreorder(g, rank, className, w, q);
    }
  }

  // hasClassProperties holds exactly when some name can be found.
  lemma HasIffLookupFinds(g: Graph, rank: map<string, nat>, className: string)
    requires Covers(g, rank, className)
    ensures HasClassProperties(g, rank, className)
            <==> exists p :: GetProperty(g, rank, className, p).Some?
  {
    HasIsNonEmpty(g, rank, className);
    var all := Preorder(g, rank, className);
    if all != [] {
      GetIsFirst(g, rank, className, all[0].name);
    }
    forall p | GetProperty(g, rank, className, p).Some?
      ensures all != []
    {
      GetIsFirst(g, rank, className, p);
    }
  }

  // From a class that reaches no cycle the three searches terminate and agree.
  lemma SearchesAgree(g: Graph, c: string) returns (rank: map<string, nat>)
    requires AcyclicFrom(g, c)
    ensures Covers(g, rank, c)
    ensures forall p :: GetProperty(g, rank, c, p).Some?
                        <==> p in NamesOf(Preorder(g, rank, c))
    ensures HasClassProperties(g, rank, c) <==> NamesOf(Preorder(g, rank, c)) != []
    ensures forall p :: GetProperty(g, rank, c, p).Some?
                        <==> exists q: Property :: q.name == p && Inherits(g, c, q)
  {
    RankingExactly(g, c);
    rank :| Covers(g, rank, c);
    forall p
      ensures GetProperty(g, rank, c, p).Some? <==> p in NamesOf(Preorder(g, rank, c))
      ensures GetProperty(g, rank, c, p).Some?
              <==> exists q: Property :: q.name == p && Inherits(g, c, q)
    {
      LookupFindsInherited(g, rank, c, p);
    }
    HasIsNonEmpty(g, rank, c);
  }
}
