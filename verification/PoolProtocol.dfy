/** The pool under concurrent callers: every interleaving of the locked sections of get, put,
    clear and the expiry timer, with the steps between the locks as steps of their own. */
module PoolProtocol {
  import opened Wrappers
  import opened PoolModel

  type Thread = nat

  // Where a thread is between two locked sections, and the connection it carries.
  datatype Phase =
    | Free
    | Creating             // GetConnection found nothing and is about to create one
    | Returning(c: Conn)   // GetConnection has one and is about to return it
    | Checked(c: Conn)     // PutConnection has compared the time stamp with lastCleared
    | Ready(c: Conn)       // PutConnection is about to lock and push
    | Closing(c: Conn)     // a connection left over from a locked section

  datatype State = State(
    inUse: bool,            // the array exists
    stack: seq<Conn>,
    lastCleared: int,
    clock: int,
    created: set<Conn>,
    nextId: nat,
    held: set<Conn>,        // with callers
    closed: set<Conn>,
    phase: map<Thread, Phase>)

  function Initial(clock: int): State {
    State(false, [], 0, clock, {}, 0, {}, {}, map[])
  }

  function PhaseOf(s: State, t: Thread): Phase {
    if t in s.phase then s.phase[t] else Free
  }

  datatype Label =
    | GetLocked(t: Thread, offers: seq<Offer>, until: int)
    | GetCreate(t: Thread)
    | GetCreateFails(t: Thread)
    | GetReturn(t: Thread)
    | PutCheck(t: Thread, c: Conn)
    | PutDecide(t: Thread, valid: bool, poolThrows: bool)
    | PutPush(t: Thread)
    | CloseOne(t: Thread)
    | Clear
    | Expire(t: Thread)
    | Tick(d: nat)

  // What a prefill creates: at most minSize connections with consecutive numbers, stamped while it
  // runs. It stops at the first exception, of Pool () or of creating the next connection.
  predicate PrefillOffers(cfg: Config, s: State, offers: seq<Offer>, until: int) {
    && s.clock <= until
    && |offers| <= cfg.minSize
    && (forall i :: 0 <= i < |offers| ==>
          offers[i].conn.id == s.nextId + i && s.clock <= offers[i].conn.stamp <= until)
    && (forall i :: 0 <= i < |offers| - 1 ==> !Throws(cfg, s.lastCleared, offers[i]))
  }

  function ConnsOf(offers: seq<Offer>): set<Conn> {
    set i | 0 <= i < |offers| :: offers[i].conn
  }

  // The locked section of GetConnection after the array exists; `last` is what the prefill left
  // in the result variable.
  function TakeTop(s: State, t: Thread, last: Option<Conn>): State {
    if |s.stack| > 0 then
      s.(stack := s.stack[..|s.stack| - 1],
         phase := s.phase[t := Returning(s.stack[|s.stack| - 1])])
    else if last.Some? then s.(phase := s.phase[t := Returning(last.value)])
    else s.(phase := s.phase[t := Creating])
  }

  function FirstUse(cfg: Config, s: State, offers: seq<Offer>, until: int): State {
    var shelf := Prefill(cfg, s.lastCleared, Shelf(s.stack, s.closed), offers);
    s.(inUse := true, stack := shelf.stack, closed := shelf.closed, clock := until,
       created := s.created + ConnsOf(offers), nextId := s.nextId + |offers|)
  }

  function GetStep(cfg: Config, s: State, t: Thread, offers: seq<Offer>, until: int): State {
    if PhaseOf(s, t) != Free then s
    else if s.inUse then TakeTop(s, t, None)
    else if !PrefillOffers(cfg, s, offers, until) then s
    else
      var s1 := FirstUse(cfg, s, offers, until);
      if PrefillFails(cfg, s.lastCleared, offers) then s1
      else TakeTop(s1, t, if offers == [] then None else Some(offers[|offers| - 1].conn))
  }

  function CreateStep(s: State, t: Thread): State {
    if PhaseOf(s, t) != Creating then s
    else
      var c := Conn(s.nextId, s.clock);
      s.(created := s.created + {c}, nextId := s.nextId + 1, held := s.held + {c},
         phase := s.phase[t := Free])
  }

  // The exception of creating a connection outside the prefill.
  function CreateFailsStep(s: State, t: Thread): State {
    if PhaseOf(s, t) != Creating then s else s.(phase := s.phase[t := Free])
  }

  function ReturnStep(s: State, t: Thread): State {
    match PhaseOf(s, t)
    case Returning(c) => s.(held := s.held + {c}, phase := s.phase[t := Free])
    case _ => s
  }

  // PutConnection up to the comparison with lastCleared, which is read without the lock. A
  // caller gives a connection back only while it holds it.
  function CheckStep(s: State, t: Thread, c: Conn): State {
    if PhaseOf(s, t) != Free || c !in s.held then s
    else if c.stamp < s.lastCleared then
      s.(held := s.held - {c}, closed := s.closed + {c})
    else s.(held := s.held - {c}, phase := s.phase[t := Checked(c)])
  }

  function DecideStep(cfg: Config, s: State, t: Thread, valid: bool, poolThrows: bool): State {
    match PhaseOf(s, t)
    case Checked(c) =>
      if CanPool(cfg, c, valid, s.clock) && !poolThrows then s.(phase := s.phase[t := Ready(c)])
      else s.(closed := s.closed + {c}, phase := s.phase[t := Free])
    case _ => s
  }

  // The locked section of DoPool.
  function PushStep(cfg: Config, s: State, t: Thread): State {
    match PhaseOf(s, t)
    case Ready(c) =>
      if |s.stack| < cfg.maxSize then s.(stack := s.stack + [c], phase := s.phase[t := Free])
      else s.(phase := s.phase[t := Closing(c)])
    case _ => s
  }

  function CloseStep(s: State, t: Thread): State {
    match PhaseOf(s, t)
    case Closing(c) => s.(closed := s.closed + {c}, phase := s.phase[t := Free])
    case _ => s
  }

  function ClearStep(s: State): State {
    s.(stack := [], closed := s.closed + SetOf(s.stack), lastCleared := s.clock)
  }

  function ExpireStep(cfg: Config, s: State, t: Thread): State {
    if PhaseOf(s, t) != Free || !s.inUse || |s.stack| <= cfg.minSize || |s.stack| == 0 then s
    else s.(stack := s.stack[..|s.stack| - 1],
            phase := s.phase[t := Closing(s.stack[|s.stack| - 1])])
  }

  // A step that is not possible leaves the state alone.
  function Next(cfg: Config, s: State, l: Label): State {
    match l
    case GetLocked(t, offers, until) => GetStep(cfg, s, t, offers, until)
    case GetCreate(t) => CreateStep(s, t)
    case GetCreateFails(t) => CreateFailsStep(s, t)
    case GetReturn(t) => ReturnStep(s, t)
    case PutCheck(t, c) => CheckStep(s, t, c)
    case PutDecide(t, valid, poolThrows) => DecideStep(cfg, s, t, valid, poolThrows)
    case PutPush(t) => PushStep(cfg, s, t)
    case CloseOne(t) => CloseStep(s, t)
    case Clear => ClearStep(s)
    case Expire(t) => ExpireStep(cfg, s, t)
    case Tick(d) => s.(clock := s.clock + d)
  }

  function Run(cfg: Config, s: State, labels: seq<Label>): State {
    if labels == [] then s else Next(cfg, Run(cfg, s, labels[..|labels| - 1]), labels[|labels| - 1])
  }

  // ---------------------------------------------------------------------------------------
  // The invariant
  // ---------------------------------------------------------------------------------------

  predicate Carries(p: Phase, c: Conn) {
    match p
    case Free | Creating => false
    case Returning(d) => c == d
    case Checked(d) => c == d
    case Ready(d) => c == d
    case Closing(d) => c == d
  }

  ghost predicate Carried(s: State, c: Conn) {
    exists t :: t in s.phase && Carries(s.phase[t], c)
  }

  predicate Distinct(stack: seq<Conn>) {
    forall i, j :: 0 <= i < j < |stack| ==> stack[i] != stack[j]
  }

  // Every connection ever created is in exactly one place, and no other connection is anywhere.
  ghost predicate OnePlace(s: State) {
    && Distinct(s.stack)
    && (forall c :: c in s.stack ==> c in s.created && c !in s.held && c !in s.closed)
    && (forall c :: c in s.held ==> c in s.created && c !in s.closed)
    && (forall c :: c in s.closed ==> c in s.created)
    && (forall t, c :: t in s.phase && Carries(s.phase[t], c) ==>
          c in s.created && c !in s.stack && c !in s.held && c !in s.closed)
    && (forall t, u, c | t in s.phase && u in s.phase ::
          Carries(s.phase[t], c) && Carries(s.phase[u], c) ==> t == u)
    && (forall c :: c in s.created ==>
          c in s.stack || c in s.held || c in s.closed || Carried(s, c))
  }

  ghost predicate Inv(cfg: Config, s: State) {
    && |s.stack| <= cfg.maxSize
    && s.lastCleared <= s.clock
    && (forall c :: c in s.created ==> c.id < s.nextId && c.stamp <= s.clock)
    && (!s.inUse ==>
          s.created == {} && s.stack == [] && forall t :: t in s.phase ==> s.phase[t] == Free)
    && OnePlace(s)
  }

  // A thread that takes connection c over from a place outside the threads.
  lemma PickUp(s: State, r: State, t: Thread, c: Conn)
    requires OnePlace(s) && (t in s.phase ==> !exists d :: Carries(s.phase[t], d))
    requires c in s.stack || c in s.held
    requires r.created == s.created && r.closed == s.closed
    requires t in r.phase && (forall d :: Carries(r.phase[t], d) <==> d == c)
    requires forall u :: u != t ==> (u in r.phase <==> u in s.phase)
    requires forall u :: u != t && u in s.phase ==> r.phase[u] == s.phase[u]
    requires Distinct(r.stack)
    requires forall d :: d in r.stack <==> d in s.stack && d != c
    requires forall d :: d in r.held <==> d in s.held && d != c
    ensures OnePlace(r)
  {
    forall d | d in r.created
      ensures d in r.stack || d in r.held || d in r.closed || Carried(r, d)
    {
      if d == c {
        assert Carries(r.phase[t], d);
      } else if Carried(s, d) {
        var u :| u in s.phase && Carries(s.phase[u], d);
        assert u in r.phase && Carries(r.phase[u], d);
      }
    }
  }

  // A thread that puts the connection it carries down in exactly one other place.
  lemma PutDown(s: State, r: State, t: Thread, c: Conn)
    requires OnePlace(s) && t in s.phase && (forall d :: Carries(s.phase[t], d) <==> d == c)
    requires r.created == s.created
    requires t in r.phase && !exists d :: Carries(r.phase[t], d)
    requires forall u :: u != t ==> (u in r.phase <==> u in s.phase)
    requires forall u :: u != t && u in s.phase ==> r.phase[u] == s.phase[u]
    requires Distinct(r.stack)
    requires || (&& (forall d :: d in r.stack <==> d in s.stack || d == c)
                 && r.held == s.held && r.closed == s.closed)
             || (r.stack == s.stack && r.held == s.held + {c} && r.closed == s.closed)
             || (r.stack == s.stack && r.held == s.held && r.closed == s.closed + {c})
    ensures OnePlace(r)
  {
    assert Carries(s.phase[t], c);
    forall d | d in r.created
      ensures d in r.stack || d in r.held || d in r.closed || Carried(r, d)
    {
      if d != c && Carried(s, d) {
        var u :| u in s.phase && Carries(s.phase[u], d);
        assert u in r.phase && Carries(r.phase[u], d);
      }
    }
  }

  // A thread changes what it does with the connection it carries, or carries none before and after.
  lemma SameCargo(s: State, r: State, t: Thread)
    requires OnePlace(s)
    requires r.created == s.created && r.stack == s.stack && r.held == s.held && r.closed == s.closed
    requires t in r.phase
    requires forall d :: Carries(r.phase[t], d) <==> t in s.phase && Carries(s.phase[t], d)
    requires forall u :: u != t ==> (u in r.phase <==> u in s.phase)
    requires forall u :: u != t && u in s.phase ==> r.phase[u] == s.phase[u]
    ensures OnePlace(r)
  {
    forall d | d in r.created
      ensures d in r.stack || d in r.held || d in r.closed || Carried(r, d)
    {
      if Carried(s, d) {
        var u :| u in s.phase && Carries(s.phase[u], d);
        assert u in r.phase && Carries(r.phase[u], d);
      }
    }
  }

  lemma DropTop(stack: seq<Conn>)
    requires Distinct(stack) && stack != []
    ensures var k := |stack| - 1;
            && Distinct(stack[..k])
            && forall d :: d in stack[..k] <==> d in stack && d != stack[k]
  {
    var k := |stack| - 1;
    assert stack == stack[..k] + [stack[k]];
  }

  lemma TakeTopKeepsInv(cfg: Config, s: State, t: Thread)
    requires Inv(cfg, s) && s.inUse && PhaseOf(s, t) == Free
    ensures Inv(cfg, TakeTop(s, t, None))
  {
    var r := TakeTop(s, t, None);
    if |s.stack| > 0 {
      DropTop(s.stack);
      PickUp(s, r, t, s.stack[|s.stack| - 1]);
    } else {
      SameCargo(s, r, t);
    }
  }

  lemma CreateKeepsInv(cfg: Config, s: State, t: Thread)
    requires Inv(cfg, s)
    ensures Inv(cfg, CreateStep(s, t))
  {
    if PhaseOf(s, t) == Creating {
      var r := CreateStep(s, t);
      var c := Conn(s.nextId, s.clock);
      assert c !in s.created;
      forall d | d in r.created
        ensures d in r.stack || d in r.held || d in r.closed || Carried(r, d)
      {
        if d != c && Carried(s, d) {
          var u :| u in s.phase && Carries(s.phase[u], d);
          assert u in r.phase && Carries(r.phase[u], d);
        }
      }
    }
  }

  lemma CreateFailsKeepsInv(cfg: Config, s: State, t: Thread)
    requires Inv(cfg, s)
    ensures Inv(cfg, CreateFailsStep(s, t))
  {
    if PhaseOf(s, t) == Creating {
      SameCargo(s, CreateFailsStep(s, t), t);
    }
  }

  lemma GetReturnKeepsInv(cfg: Config, s: State, t: Thread)
    requires Inv(cfg, s)
    ensures Inv(cfg, ReturnStep(s, t))
  {
    if PhaseOf(s, t).Returning? {
      PutDown(s, ReturnStep(s, t), t, PhaseOf(s, t).c);
    }
  }

  lemma CheckKeepsInv(cfg: Config, s: State, t: Thread, c: Conn)
    requires Inv(cfg, s)
    ensures Inv(cfg, CheckStep(s, t, c))
  {
    if PhaseOf(s, t) == Free && c in s.held {
      var r := CheckStep(s, t, c);
      if c.stamp < s.lastCleared {
        assert forall d :: Carried(s, d) ==> Carried(r, d);
      } else {
        PickUp(s, r, t, c);
      }
    }
  }

  lemma DecideKeepsInv(cfg: Config, s: State, t: Thread, valid: bool, poolThrows: bool)
    requires Inv(cfg, s)
    ensures Inv(cfg, DecideStep(cfg, s, t, valid, poolThrows))
  {
    if PhaseOf(s, t).Checked? {
      var r := DecideStep(cfg, s, t, valid, poolThrows);
      if r.phase[t] == Free {
        PutDown(s, r, t, PhaseOf(s, t).c);
      } else {
        SameCargo(s, r, t);
      }
    }
  }

  lemma PushKeepsInv(cfg: Config, s: State, t: Thread)
    requires Inv(cfg, s)
    ensures Inv(cfg, PushStep(cfg, s, t))
  {
    if PhaseOf(s, t).Ready? {
      var r := PushStep(cfg, s, t);
      var c := PhaseOf(s, t).c;
      assert Carries(s.phase[t], c);
      if |s.stack| < cfg.maxSize {
        PutDown(s, r, t, c);
      } else {
        SameCargo(s, r, t);
      }
    }
  }

  lemma CloseKeepsInv(cfg: Config, s: State, t: Thread)
    requires Inv(cfg, s)
    ensures Inv(cfg, CloseStep(s, t))
  {
    if PhaseOf(s, t).Closing? {
      PutDown(s, CloseStep(s, t), t, PhaseOf(s, t).c);
    }
  }

  lemma ClearKeepsInv(cfg: Config, s: State)
    requires Verified(cfg) && Inv(cfg, s)
    ensures Inv(cfg, ClearStep(s))
  {
    assert forall d :: Carried(s, d) ==> Carried(ClearStep(s), d);
  }

  lemma ExpireKeepsInv(cfg: Config, s: State, t: Thread)
    requires Inv(cfg, s)
    ensures Inv(cfg, ExpireStep(cfg, s, t))
  {
    var r := ExpireStep(cfg, s, t);
    if r != s {
      DropTop(s.stack);
      PickUp(s, r, t, s.stack[|s.stack| - 1]);
    }
  }

  lemma FirstUseKeepsInv(cfg: Config, s: State, offers: seq<Offer>, until: int)
    requires Verified(cfg) && Inv(cfg, s) && !s.inUse && PrefillOffers(cfg, s, offers, until)
    ensures var r := FirstUse(cfg, s, offers, until);
            && Inv(cfg, r)
            && r.stack == Accepted(cfg, s.lastCleared, offers)
            && r.closed == Refused(cfg, s.lastCleared, offers)
  {
    EmptyBeforeUse(cfg, s);
    var r := FirstUse(cfg, s, offers, until);
    var kept := Accepted(cfg, s.lastCleared, offers);
    PrefillKeepsAccepted(cfg, s.lastCleared, Shelf([], {}), offers);
    assert [] + kept == kept;
    AcceptedDistinct(cfg, s.lastCleared, offers);
    forall c
      ensures c in kept ==> c in r.created && c !in r.closed
      ensures c in r.closed ==> c in r.created
      ensures c in r.created ==> c in kept || c in r.closed
    {
      AcceptedMembers(cfg, s.lastCleared, offers, c);
    }
    AcceptedLength(cfg, s.lastCleared, offers);
  }

  lemma EmptyBeforeUse(cfg: Config, s: State)
    requires Inv(cfg, s) && !s.inUse
    ensures s.stack == [] && s.closed == {} && s.held == {}
  {
  }

  lemma {:induction false} AcceptedLength(cfg: Config, lastCleared: int, offers: seq<Offer>)
    ensures |Accepted(cfg, lastCleared, offers)| <= |offers|
  {
    if offers == [] {
    } else {
      AcceptedLength(cfg, lastCleared, offers[1..]);
    }
  }

  // A first get whose prefill creates connections without an exception and keeps none of them.
  predicate DeadPrefill(cfg: Config, s: State, l: Label) {
    && l.GetLocked? && PhaseOf(s, l.t) == Free && !s.inUse
    && PrefillOffers(cfg, s, l.offers, l.until)
    && !PrefillFails(cfg, s.lastCleared, l.offers)
    && l.offers != [] && !SomeAccepted(cfg, s.lastCleared, l.offers)
  }

  // The locked section of get keeps the invariant exactly when the prefill is not dead.
  lemma GetKeepsInv(cfg: Config, s: State, t: Thread, offers: seq<Offer>, until: int)
    requires Verified(cfg) && Inv(cfg, s)
    ensures Inv(cfg, GetStep(cfg, s, t, offers, until))
            <==> !DeadPrefill(cfg, s, GetLocked(t, offers, until))
  {
    if PhaseOf(s, t) == Free {
      if s.inUse {
        TakeTopKeepsInv(cfg, s, t);
      } else if PrefillOffers(cfg, s, offers, until) {
        FirstUseKeepsInv(cfg, s, offers, until);
        SomeAcceptedIsKept(cfg, s.lastCleared, offers);
        var s1 := FirstUse(cfg, s, offers, until);
        if !PrefillFails(cfg, s.lastCleared, offers) {
          if s1.stack != [] || offers == [] {
            TakeTopKeepsInv(cfg, s1, t);
          } else {
            var last := offers[|offers| - 1].conn;
            AcceptedMembers(cfg, s.lastCleared, offers, last);
            var r := TakeTop(s1, t, Some(last));
            assert Carries(r.phase[t], last) && last in r.closed;
          }
        }
      }
    }
  }

  lemma NextKeepsInv(cfg: Config, s: State, l: Label)
    requires Verified(cfg) && Inv(cfg, s)
    ensures Inv(cfg, Next(cfg, s, l)) <==> !DeadPrefill(cfg, s, l)
  {
    match l
    case GetLocked(t, offers, until) => GetKeepsInv(cfg, s, t, offers, until);
    case GetCreate(t) => CreateKeepsInv(cfg, s, t);
    case GetCreateFails(t) => CreateFailsKeepsInv(cfg, s, t);
    case GetReturn(t) => GetReturnKeepsInv(cfg, s, t);
    case PutCheck(t, c) => CheckKeepsInv(cfg, s, t, c);
    case PutDecide(t, valid, poolThrows) => DecideKeepsInv(cfg, s, t, valid, poolThrows);
    case PutPush(t) => PushKeepsInv(cfg, s, t);
    case CloseOne(t) => CloseKeepsInv(cfg, s, t);
    case Clear => ClearKeepsInv(cfg, s);
    case Expire(t) => ExpireKeepsInv(cfg, s, t);
    case Tick(d) => TickKeepsInv(cfg, s, d);
  }

  lemma TickKeepsInv(cfg: Config, s: State, d: nat)
    requires Inv(cfg, s)
    ensures Inv(cfg, s.(clock := s.clock + d))
  {
    assert forall c :: Carried(s, c) ==> Carried(s.(clock := s.clock + d), c);
  }

  // No step of the run is a dead prefill.
  predicate LivePrefills(cfg: Config, s: State, labels: seq<Label>) {
    if labels == [] then true
    else
      var k := |labels| - 1;
      LivePrefills(cfg, s, labels[..k]) && !DeadPrefill(cfg, Run(cfg, s, labels[..k]), labels[k])
  }

  // The invariant holds in every state of the run.
  ghost predicate AlwaysInv(cfg: Config, s: State, labels: seq<Label>) {
    && Inv(cfg, Run(cfg, s, labels))
    && (labels != [] ==> AlwaysInv(cfg, s, labels[..|labels| - 1]))
  }

  // In every interleaving the pool never overflows, holds distinct open connections, and every
  // connection ever created is in exactly one place: idle, with a caller, with one thread, or
  // closed. This holds in all states of a run exactly when no step is a dead prefill.
  lemma {:induction false} RunsKeepInv(cfg: Config, clock: nat, labels: seq<Label>)
    requires Verified(cfg)
    ensures AlwaysInv(cfg, Initial(clock), labels) <==> LivePrefills(cfg, Initial(clock), labels)
  {
    var s0 := Initial(clock);
    if labels == [] {
      InitialInv(cfg, clock);
    } else {
      var k := |labels| - 1;
      RunsKeepInv(cfg, clock, labels[..k]);
      if AlwaysInv(cfg, s0, labels[..k]) {
        NextKeepsInv(cfg, Run(cfg, s0, labels[..k]), labels[k]);
      }
    }
  }

  lemma InitialInv(cfg: Config, clock: nat)
    requires Verified(cfg)
    ensures Inv(cfg, Initial(clock))
  {
  }

  // ---------------------------------------------------------------------------------------
  // Clearing
  // ---------------------------------------------------------------------------------------

  // No idle connection is older than the last clear.
  predicate IdleFresh(s: State) {
    forall c :: c in s.stack ==> c.stamp >= s.lastCleared
  }

  // A push into a free slot that a second comparison, under the lock, would have refused.
  predicate StalePush(cfg: Config, s: State, l: Label) {
    && l.PutPush? && PhaseOf(s, l.t).Ready? && |s.stack| < cfg.maxSize
    && PhaseOf(s, l.t).c.stamp < s.lastCleared
  }

  lemma {:induction false} PrefilledAreFresh(cfg: Config, lastCleared: int, s: Shelf,
                                             offers: seq<Offer>)
    requires forall c :: c in s.stack ==> c.stamp >= lastCleared
    ensures forall c :: c in Prefill(cfg, lastCleared, s, offers).stack ==> c.stamp >= lastCleared
    decreases |offers|
  {
    if offers == [] {
    } else {
      PrefilledAreFresh(cfg, lastCleared, Put(cfg, lastCleared, s, offers[0]), offers[1..]);
    }
  }

  // A step keeps the idle connections fresh exactly when it is not such a push.
  lemma NextKeepsIdleFresh(cfg: Config, s: State, l: Label)
    requires IdleFresh(s)
    ensures IdleFresh(Next(cfg, s, l)) <==> !StalePush(cfg, s, l)
  {
    match l
    case GetLocked(t, offers, until) =>
      PrefilledAreFresh(cfg, s.lastCleared, Shelf(s.stack, s.closed), offers);
    case PutPush(t) =>
      var r := PushStep(cfg, s, t);
      if PhaseOf(s, t).Ready? && |s.stack| < cfg.maxSize {
        var c := PhaseOf(s, t).c;
        assert c in r.stack;
        assert forall d :: d in r.stack ==> d in s.stack || d == c;
      }
    case _ =>
  }

  ghost predicate AlwaysIdleFresh(cfg: Config, s: State, labels: seq<Label>) {
    && IdleFresh(Run(cfg, s, labels))
    && (labels != [] ==> AlwaysIdleFresh(cfg, s, labels[..|labels| - 1]))
  }

  predicate NoStalePush(cfg: Config, s: State, labels: seq<Label>) {
    if labels == [] then true
    else
      var k := |labels| - 1;
      NoStalePush(cfg, s, labels[..k]) && !StalePush(cfg, Run(cfg, s, labels[..k]), labels[k])
  }

  // In all states of a run no idle connection is older than the last clear, exactly when no step
  // pushes one that is.
  lemma {:induction false} RunsKeepIdleFresh(cfg: Config, s: State, labels: seq<Label>)
    requires IdleFresh(s)
    ensures AlwaysIdleFresh(cfg, s, labels) <==> NoStalePush(cfg, s, labels)
  {
    if labels == [] {
    } else {
      var k := |labels| - 1;
      RunsKeepIdleFresh(cfg, s, labels[..k]);
      if AlwaysIdleFresh(cfg, s, labels[..k]) {
        NextKeepsIdleFresh(cfg, Run(cfg, s, labels[..k]), labels[k]);
      }
    }
  }

  // Past the comparison with lastCleared and not pushed yet.
  predicate Passing(p: Phase) {
    p.Checked? || p.Ready?
  }

  // Nothing idle, and nothing on its way there, is older than the last clear.
  ghost predicate Fresh(s: State) {
    && IdleFresh(s)
    && (forall t :: t in s.phase && Passing(s.phase[t]) ==> s.phase[t].c.stamp >= s.lastCleared)
  }

  // Every connection between comparison and push is as young as the present moment.
  ghost predicate YoungPassing(s: State) {
    forall t :: t in s.phase && Passing(s.phase[t]) ==> s.phase[t].c.stamp >= s.clock
  }

  // Above all when there is none: no put is cut in two.
  ghost predicate Undisturbed(s: State) {
    forall t :: t in s.phase ==> !Passing(s.phase[t])
  }

  // Every clear of the run finds only such connections on their way.
  ghost predicate YoungClears(cfg: Config, s: State, labels: seq<Label>) {
    if labels == [] then true
    else
      var k := |labels| - 1;
      && YoungClears(cfg, s, labels[..k])
      && (labels[k] == Clear ==> YoungPassing(Run(cfg, s, labels[..k])))
  }

  // The calls are atomic as far as clears go.
  ghost predicate AtomicClears(cfg: Config, s: State, labels: seq<Label>) {
    if labels == [] then true
    else
      var k := |labels| - 1;
      && AtomicClears(cfg, s, labels[..k])
      && (labels[k] == Clear ==> Undisturbed(Run(cfg, s, labels[..k])))
  }

  lemma {:induction false} AtomicIsYoung(cfg: Config, s: State, labels: seq<Label>)
    requires AtomicClears(cfg, s, labels)
    ensures YoungClears(cfg, s, labels)
  {
    if labels == [] {
    } else {
      AtomicIsYoung(cfg, s, labels[..|labels| - 1]);
    }
  }

  lemma GetKeepsFresh(cfg: Config, s: State, t: Thread, offers: seq<Offer>, until: int)
    requires Fresh(s)
    ensures Fresh(GetStep(cfg, s, t, offers, until))
  {
    PrefilledAreFresh(cfg, s.lastCleared, Shelf(s.stack, s.closed), offers);
  }

  // A step keeps the pool fresh exactly when it is not a clear that finds something older than
  // itself on its way to the pool.
  lemma NextKeepsFresh(cfg: Config, s: State, l: Label)
    requires Fresh(s)
    ensures Fresh(Next(cfg, s, l)) <==> (l == Clear ==> YoungPassing(s))
  {
    match l
    case GetLocked(t, offers, until) => GetKeepsFresh(cfg, s, t, offers, until);
    case PutPush(t) =>
      var r := PushStep(cfg, s, t);
      if PhaseOf(s, t).Ready? {
        assert forall c :: c in r.stack ==> c in s.stack || c == PhaseOf(s, t).c;
      }
    case _ =>
  }

  ghost predicate AlwaysFresh(cfg: Config, s: State, labels: seq<Label>) {
    && Fresh(Run(cfg, s, labels))
    && (labels != [] ==> AlwaysFresh(cfg, s, labels[..|labels| - 1]))
  }

  // In all states of a run nothing idle, and nothing on its way there, is older than the last
  // clear, exactly when every clear finds only connections as young as itself on their way.
  lemma {:induction false} RunsKeepFresh(cfg: Config, s: State, labels: seq<Label>)
    requires Fresh(s)
    ensures AlwaysFresh(cfg, s, labels) <==> YoungClears(cfg, s, labels)
  {
    if labels == [] {
    } else {
      var k := |labels| - 1;
      RunsKeepFresh(cfg, s, labels[..k]);
      if AlwaysFresh(cfg, s, labels[..k]) {
        NextKeepsFresh(cfg, Run(cfg, s, labels[..k]), labels[k]);
      }
    }
  }

  // With calls that a clear does not cut in two, no idle connection of any reachable state is
  // older than the last clear.
  lemma AtomicRunsStayFresh(cfg: Config, clock: nat, labels: seq<Label>)
    requires AtomicClears(cfg, Initial(clock), labels)
    ensures AlwaysFresh(cfg, Initial(clock), labels)
    ensures AlwaysIdleFresh(cfg, Initial(clock), labels)
  {
    AtomicIsYoung(cfg, Initial(clock), labels);
    RunsKeepFresh(cfg, Initial(clock), labels);
    FreshIsIdleFresh(cfg, Initial(clock), labels);
  }

  lemma {:induction false} FreshIsIdleFresh(cfg: Config, s: State, labels: seq<Label>)
    requires AlwaysFresh(cfg, s, labels)
    ensures AlwaysIdleFresh(cfg, s, labels)
  {
    if labels == [] {
    } else {
      FreshIsIdleFresh(cfg, s, labels[..|labels| - 1]);
    }
  }

  lemma NextMonotone(cfg: Config, s: State, l: Label)
    requires s.lastCleared <= s.clock
    ensures s.lastCleared <= Next(cfg, s, l).lastCleared <= Next(cfg, s, l).clock
  {
  }

  lemma {:induction false} RunMonotone(cfg: Config, s: State, labels: seq<Label>)
    requires s.lastCleared <= s.clock
    ensures s.lastCleared <= Run(cfg, s, labels).lastCleared <= Run(cfg, s, labels).clock
  {
    if labels == [] {
    } else {
      var k := |labels| - 1;
      RunMonotone(cfg, s, labels[..k]);
      NextMonotone(cfg, Run(cfg, s, labels[..k]), labels[k]);
    }
  }

  // A connection from before a clear never enters the pool again, whatever happens afterwards.
  lemma ClearedIsNeverPooled(cfg: Config, s: State, labels: seq<Label>, c: Conn)
    requires s.lastCleared <= s.clock && Fresh(s) && AtomicClears(cfg, s, labels)
    requires c.stamp < s.lastCleared
    ensures c !in Run(cfg, s, labels).stack
  {
    AtomicIsYoung(cfg, s, labels);
    RunsKeepFresh(cfg, s, labels);
    RunMonotone(cfg, s, labels);
  }

  lemma RunPrefix(cfg: Config, s: State, labels: seq<Label>, k: nat)
    requires k < |labels|
    ensures Run(cfg, s, labels[..k + 1]) == Next(cfg, Run(cfg, s, labels[..k]), labels[k])
  {
    assert labels[..k + 1][..k] == labels[..k];
  }

  // Four and seven steps spelled out.
  lemma RunFour(cfg: Config, s: State, ls: seq<Label>, r: State)
    requires |ls| >= 4
    requires r == Next(cfg, Next(cfg, Next(cfg, Next(cfg, s, ls[0]), ls[1]), ls[2]), ls[3])
    ensures Run(cfg, s, ls[..4]) == r
  {
    RunPrefix(cfg, s, ls, 0);
    RunPrefix(cfg, s, ls, 1);
    RunPrefix(cfg, s, ls, 2);
    RunPrefix(cfg, s, ls, 3);
  }

  lemma RunSeven(cfg: Config, s: State, ls: seq<Label>, m: State, r: State)
    requires |ls| == 7
    requires m == Next(cfg, Next(cfg, Next(cfg, Next(cfg, s, ls[0]), ls[1]), ls[2]), ls[3])
    requires r == Next(cfg, Next(cfg, Next(cfg, m, ls[4]), ls[5]), ls[6])
    ensures Run(cfg, s, ls) == r
  {
    RunFour(cfg, s, ls, m);
    RunPrefix(cfg, s, ls, 4);
    RunPrefix(cfg, s, ls, 5);
    RunPrefix(cfg, s, ls, 6);
    assert ls[..7] == ls;
  }

  // Without that condition it can be pooled: thread 1 compares, the pool is cleared, thread 1 pushes.
  lemma ClearCanBeOvertaken()
    ensures var stale := Conn(0, 1);
            var s := Run(Config(0, 1, 0), Initial(1),
                         [GetLocked(1, [], 1), GetCreate(1), PutCheck(1, stale), Tick(1), Clear,
                          PutDecide(1, true, false), PutPush(1)]);
            s.stack == [stale] && stale.stamp < s.lastCleared
  {
    var cfg, c := Config(0, 1, 0), Conn(0, 1);
    var ls := [GetLocked(1, [], 1), GetCreate(1), PutCheck(1, c), Tick(1), Clear,
               PutDecide(1, true, false), PutPush(1)];
    var m := State(true, [], 0, 2, {c}, 1, {}, {}, map[1 := Checked(c)]);
    var r := State(true, [c], 2, 2, {c}, 1, {}, {}, map[1 := Free]);
    OvertakenFirstHalf(cfg, c, m);
    OvertakenSecondHalf(cfg, c, m, r);
    RunSeven(cfg, Initial(1), ls, m, r);
  }

  lemma OvertakenFirstHalf(cfg: Config, c: Conn, m: State)
    requires cfg == Config(0, 1, 0) && c == Conn(0, 1)
    requires m == State(true, [], 0, 2, {c}, 1, {}, {}, map[1 := Checked(c)])
    ensures Next(cfg, Next(cfg, Next(cfg, Next(cfg, Initial(1), GetLocked(1, [], 1)), GetCreate(1)),
                           PutCheck(1, c)), Tick(1)) == m
  {
    var s1 := Next(cfg, Initial(1), GetLocked(1, [], 1));
    assert s1 == State(true, [], 0, 1, {}, 0, {}, {}, map[1 := Creating]);
    var s2 := Next(cfg, s1, GetCreate(1));
    assert s2 == State(true, [], 0, 1, {c}, 1, {c}, {}, map[1 := Free]);
    var s3 := Next(cfg, s2, PutCheck(1, c));
    assert s3 == State(true, [], 0, 1, {c}, 1, {}, {}, map[1 := Checked(c)]);
  }

  lemma OvertakenSecondHalf(cfg: Config, c: Conn, m: State, r: State)
    requires cfg == Config(0, 1, 0) && c == Conn(0, 1)
    requires m == State(true, [], 0, 2, {c}, 1, {}, {}, map[1 := Checked(c)])
    requires r == State(true, [c], 2, 2, {c}, 1, {}, {}, map[1 := Free])
    ensures Next(cfg, Next(cfg, Next(cfg, m, Clear), PutDecide(1, true, false)), PutPush(1)) == r
  {
    var s5 := Next(cfg, m, Clear);
    assert s5 == State(true, [], 2, 2, {c}, 1, {}, {}, map[1 := Checked(c)]);
    var s6 := Next(cfg, s5, PutDecide(1, true, false));
    assert s6 == State(true, [], 2, 2, {c}, 1, {}, {}, map[1 := Ready(c)]);
    assert [] + [c] == [c];
  }

  // ---------------------------------------------------------------------------------------
  // Undisturbed calls are the calls of the pool object
  // ---------------------------------------------------------------------------------------

  // The steps of a put by one thread, nothing in between.
  function PutLabels(t: Thread, o: Offer): seq<Label> {
    [PutCheck(t, o.conn), PutDecide(t, o.valid, o.poolThrows), PutPush(t), CloseOne(t)]
  }

  lemma AtomicPut(cfg: Config, s: State, t: Thread, o: Offer)
    requires PhaseOf(s, t) == Free && o.conn in s.held && o.now == s.clock
    ensures var r := Run(cfg, s, PutLabels(t, o));
            && Shelf(r.stack, r.closed)
               == Put(cfg, s.lastCleared, Shelf(s.stack, s.closed), o)
            && PhaseOf(r, t) == Free && r.held == s.held - {o.conn}
  {
    var ls := PutLabels(t, o);
    var s1 := CheckStep(s, t, o.conn);
    var s2 := DecideStep(cfg, s1, t, o.valid, o.poolThrows);
    RunFour(cfg, s, ls, CloseStep(PushStep(cfg, s2, t), t));
    assert ls[..4] == ls;
    PutSteps(cfg, s, t, o);
  }

  lemma PutSteps(cfg: Config, s: State, t: Thread, o: Offer)
    requires PhaseOf(s, t) == Free && o.conn in s.held && o.now == s.clock
    ensures var s2 := DecideStep(cfg, CheckStep(s, t, o.conn), t, o.valid, o.poolThrows);
            var r := CloseStep(PushStep(cfg, s2, t), t);
            && Shelf(r.stack, r.closed)
               == Put(cfg, s.lastCleared, Shelf(s.stack, s.closed), o)
            && PhaseOf(r, t) == Free && r.held == s.held - {o.conn}
  {
  }

  // The steps of a get by one thread; the connection it creates, if it does and does not fail.
  function GetLabels(t: Thread, offers: seq<Offer>, until: int, fails: bool): seq<Label> {
    [GetLocked(t, offers, until), if fails then GetCreateFails(t) else GetCreate(t), GetReturn(t)]
  }

  function SpareFor(s: State, offers: seq<Offer>, until: int, fails: bool): Option<Conn> {
    if fails then None
    else if s.inUse then Some(Conn(s.nextId, s.clock))
    else Some(Conn(s.nextId + |offers|, until))
  }

  lemma AtomicGet(cfg: Config, s: State, t: Thread, offers: seq<Offer>, until: int, fails: bool)
    requires PhaseOf(s, t) == Free
    requires !s.inUse ==> PrefillOffers(cfg, s, offers, until)
    ensures var r := Run(cfg, s, GetLabels(t, offers, until, fails));
            var g := Get(cfg, s.inUse, s.lastCleared, Shelf(s.stack, s.closed), offers,
                         SpareFor(s, offers, until, fails));
            && Shelf(r.stack, r.closed) == g.shelf
            && PhaseOf(r, t) == Free
            && r.held == s.held + (if g.result.Some? then {g.result.value} else {})
  {
    var ls := GetLabels(t, offers, until, fails);
    RunPrefix(cfg, s, ls, 0);
    RunPrefix(cfg, s, ls, 1);
    RunPrefix(cfg, s, ls, 2);
    assert ls[..0] == [] && ls[..3] == ls;
    GetThenCreate(cfg, s, t, offers, until, fails);
  }

  lemma GetThenCreate(cfg: Config, s: State, t: Thread, offers: seq<Offer>, until: int, fails: bool)
    requires PhaseOf(s, t) == Free
    requires !s.inUse ==> PrefillOffers(cfg, s, offers, until)
    ensures var s1 := GetStep(cfg, s, t, offers, until);
            var r := ReturnStep(if fails then CreateFailsStep(s1, t) else CreateStep(s1, t), t);
            var g := Get(cfg, s.inUse, s.lastCleared, Shelf(s.stack, s.closed), offers,
                         SpareFor(s, offers, until, fails));
            && Shelf(r.stack, r.closed) == g.shelf
            && PhaseOf(r, t) == Free
            && r.held == s.held + (if g.result.Some? then {g.result.value} else {})
  {
    if s.inUse {
      TakeThenCreate(s, t, None, fails);
    } else {
      var s1 := FirstUse(cfg, s, offers, until);
      TakeThenCreate(s1, t, if offers == [] then None else Some(offers[|offers| - 1].conn), fails);
    }
  }

  // What the locked section leaves a thread with is what it then holds.
  lemma TakeThenCreate(s: State, t: Thread, last: Option<Conn>, fails: bool)
    ensures var s1 := TakeTop(s, t, last);
            var r := ReturnStep(if fails then CreateFailsStep(s1, t) else CreateStep(s1, t), t);
            var k := |s.stack| - 1;
            && PhaseOf(r, t) == Free && r.closed == s.closed
            && r.stack == (if k >= 0 then s.stack[..k] else s.stack)
            && r.held == s.held + (if k >= 0 then {s.stack[k]}
                                   else if last.Some? then {last.value}
                                   else if fails then {} else {Conn(s.nextId, s.clock)})
  {
  }

  // The steps of a tick of the timer.
  lemma AtomicExpire(cfg: Config, s: State, t: Thread)
    requires PhaseOf(s, t) == Free && (!s.inUse ==> s.stack == [])
    ensures var r := Run(cfg, s, [Expire(t), CloseOne(t)]);
            && r.stack == Shrink(cfg, s.stack)
            && r.closed == s.closed + SetOf(s.stack[|r.stack|..])
            && PhaseOf(r, t) == Free && r.held == s.held
  {
    var ls := [Expire(t), CloseOne(t)];
    RunPrefix(cfg, s, ls, 0);
    RunPrefix(cfg, s, ls, 1);
    assert ls[..0] == [] && ls[..2] == ls;
    var k := |s.stack| - 1;
    if |s.stack| > cfg.minSize && |s.stack| > 0 {
      assert s.stack[k..] == [s.stack[k]];
    } else {
      assert s.stack[|s.stack|..] == [];
    }
  }

  // Before its first use the pool has nothing, and the first get prefills it.
  lemma FirstGetPrefills(cfg: Config, clock: nat, t: Thread, offers: seq<Offer>, until: int)
    requires PrefillOffers(cfg, Initial(clock), offers, until)
    ensures var r := Run(cfg, Initial(clock), [GetLocked(t, offers, until)]);
            && r.inUse && r.created == ConnsOf(offers) && r.nextId == |offers|
            && r.closed == Prefill(cfg, 0, Shelf([], {}), offers).closed && r.clock == until
  {
    var ls := [GetLocked(t, offers, until)];
    RunPrefix(cfg, Initial(clock), ls, 0);
    assert ls[..0] == [] && ls[..1] == ls;
  }

  // Any number of connections up to minSize can be created by a prefill, stamped at any times while
  // it runs, and the last one may fail to be pooled.
  lemma PrefillIsPossible(cfg: Config, s: State, stamps: seq<int>, valid: bool, fails: bool,
                          until: int)
    requires |stamps| <= cfg.minSize && s.clock <= until
    requires forall i :: 0 <= i < |stamps| ==> s.clock <= stamps[i] <= until
    ensures var offers := seq(|stamps|, i requires 0 <= i < |stamps| =>
                                Offer(Conn(s.nextId + i, stamps[i]), valid, until,
                                      fails && i == |stamps| - 1));
            PrefillOffers(cfg, s, offers, until)
  {
  }
}
