/** The connection pool as one object: a stack in an array, prefilled, cleared by time stamp and
    shrunk by a timer. */
module PoolModel {
  import opened Wrappers
  import CO = ConnectionOptions

  // A connection and the time it was created; its identity is its number.
  datatype Conn = Conn(id: nat, stamp: int)

  datatype Config = Config(minSize: int, maxSize: int, lifetime: int)

  // What Options.Verify guarantees of the two sizes.
  predicate Verified(cfg: Config) {
    0 <= cfg.minSize <= cfg.maxSize && 0 < cfg.maxSize
  }

  // The sizes and the lifetime the pool takes from the options.
  function ConfigOf(m: CO.Store): Config {
    Config(m[CO.MinPoolSize].number, m[CO.MaxPoolSize].number, m[CO.ConnectionLifetime].number)
  }

  // `valid` is the answer of IsValid ().
  predicate CanPool(cfg: Config, c: Conn, valid: bool, now: int) {
    valid && (cfg.lifetime == 0 || c.stamp + cfg.lifetime >= now)
  }

  // A connection offered back to the pool: what IsValid answers, the clock, and whether its own
  // Pool () throws.
  datatype Offer = Offer(conn: Conn, valid: bool, now: int, poolThrows: bool)

  // Whether PutConnection keeps an offer, when a slot is free.
  predicate Accepts(cfg: Config, lastCleared: int, o: Offer) {
    o.conn.stamp >= lastCleared && CanPool(cfg, o.conn, o.valid, o.now) && !o.poolThrows
  }

  // Whether PutConnection throws: Pool () is reached and fails.
  predicate Throws(cfg: Config, lastCleared: int, o: Offer) {
    o.conn.stamp >= lastCleared && CanPool(cfg, o.conn, o.valid, o.now) && o.poolThrows
  }

  // The stack and the closed connections after an offer.
  datatype Shelf = Shelf(stack: seq<Conn>, closed: set<Conn>)

  function Put(cfg: Config, lastCleared: int, s: Shelf, o: Offer): Shelf {
    if Accepts(cfg, lastCleared, o) && |s.stack| < cfg.maxSize
    then s.(stack := s.stack + [o.conn])
    else s.(closed := s.closed + {o.conn})
  }

  // What PutConnection keeps: a connection no older than the last clear, valid, within its
  // lifetime if there is one, whose Pool () does not fail, when a slot is free.
  lemma PutExactly(cfg: Config, lastCleared: int, s: Shelf, o: Offer)
    requires o.conn !in s.stack && o.conn !in s.closed
    ensures var r := Put(cfg, lastCleared, s, o);
            var kept := && o.conn.stamp >= lastCleared && o.valid
                        && (cfg.lifetime == 0 || o.now - o.conn.stamp <= cfg.lifetime)
                        && !o.poolThrows && |s.stack| < cfg.maxSize;
            && (kept <==> o.conn in r.stack) && (!kept <==> o.conn in r.closed)
            && r.stack == s.stack + (if kept then [o.conn] else [])
            && r.closed == s.closed + (if kept then {} else {o.conn})
  {
    assert s.stack + [] == s.stack;
  }

  // Pool () fails out of PutConnection only for a connection that would be kept otherwise.
  lemma ThrowsExactly(cfg: Config, lastCleared: int, o: Offer)
    ensures Throws(cfg, lastCleared, o) <==>
            && o.conn.stamp >= lastCleared && o.valid
            && (cfg.lifetime == 0 || o.now - o.conn.stamp <= cfg.lifetime)
            && o.poolThrows
  {
  }

  // With a lifetime of 600 a connection is pooled after five seconds and closed after 8000.
  lemma LifetimeEnds()
    ensures var cfg, c, empty := Config(0, 10, 600), Conn(0, 1000), Shelf([], {});
            && Put(cfg, 0, empty, Offer(c, true, 1005, false)) == Shelf([c], {})
            && Put(cfg, 0, empty, Offer(c, true, 9000, false)) == Shelf([], {c})
  {
    PutExactly(Config(0, 10, 600), 0, Shelf([], {}), Offer(Conn(0, 1000), true, 1005, false));
  }

  // Prefilling offers new connections one after the other and stops at an exception.
  function Prefill(cfg: Config, lastCleared: int, s: Shelf, offers: seq<Offer>): Shelf
    decreases |offers|
  {
    if offers == [] then s
    else
      var s' := Put(cfg, lastCleared, s, offers[0]);
      if Throws(cfg, lastCleared, offers[0]) then s'
      else Prefill(cfg, lastCleared, s', offers[1..])
  }

  predicate PrefillThrows(cfg: Config, lastCleared: int, offers: seq<Offer>) {
    exists i :: 0 <= i < |offers| && Throws(cfg, lastCleared, offers[i])
  }

  // The prefill also ends with an exception when a connection cannot be created; `offers` are
  // then the ones created before, fewer than minSize.
  predicate PrefillFails(cfg: Config, lastCleared: int, offers: seq<Offer>) {
    PrefillThrows(cfg, lastCleared, offers) || |offers| < cfg.minSize
  }

  function SetOf(stack: seq<Conn>): set<Conn> {
    set c | c in stack
  }

  // The connections from number i on.
  ghost function SetFrom(stack: seq<Conn>, i: nat): set<Conn>
    decreases |stack| - i
  {
    if i >= |stack| then {} else SetFrom(stack, i + 1) + {stack[i]}
  }

  lemma {:induction false} SetFromIsRest(stack: seq<Conn>, i: nat)
    requires i <= |stack|
    ensures SetFrom(stack, i) == SetOf(stack[i..])
    decreases |stack| - i
  {
    if i == |stack| {
    } else {
      SetFromIsRest(stack, i + 1);
      assert stack[i..] == [stack[i]] + stack[i + 1..];
    }
  }

  // One tick of the timer.
  function Shrink(cfg: Config, stack: seq<Conn>): seq<Conn> {
    if |stack| > cfg.minSize && |stack| > 0 then stack[..|stack| - 1] else stack
  }

  function Ticks(cfg: Config, stack: seq<Conn>, k: nat): seq<Conn> {
    if k == 0 then stack else Ticks(cfg, Shrink(cfg, stack), k - 1)
  }

  function Max(a: int, b: int): int {
    if a >= b then a else b
  }

  // k ticks leave the bottom of the stack alone and never go below the minimum.
  lemma {:induction false} TicksKeepBottom(cfg: Config, stack: seq<Conn>, k: nat)
    requires Verified(cfg)
    ensures |stack| >= cfg.minSize ==>
              Ticks(cfg, stack, k) == stack[..Max(cfg.minSize, |stack| - k)]
    ensures |stack| <= cfg.minSize ==> Ticks(cfg, stack, k) == stack
  {
    if k == 0 {
    } else {
      var t := Shrink(cfg, stack);
      TicksKeepBottom(cfg, t, k - 1);
      if |stack| > cfg.minSize {
        var m := Max(cfg.minSize, |t| - (k - 1));
        assert t[..m] == stack[..m];
      }
    }
  }

  // The accepted offers, in order.
  function Accepted(cfg: Config, lastCleared: int, offers: seq<Offer>): seq<Conn> {
    if offers == [] then []
    else (if Accepts(cfg, lastCleared, offers[0]) then [offers[0].conn] else [])
         + Accepted(cfg, lastCleared, offers[1..])
  }

  function Refused(cfg: Config, lastCleared: int, offers: seq<Offer>): set<Conn> {
    if offers == [] then {}
    else (if Accepts(cfg, lastCleared, offers[0]) then {} else {offers[0].conn})
         + Refused(cfg, lastCleared, offers[1..])
  }

  // A prefill, up to an exception at its end, keeps exactly the accepted connections, in order of
  // creation, and closes the others.
  lemma {:induction false} PrefillKeepsAccepted(cfg: Config, lastCleared: int, s: Shelf,
                                                offers: seq<Offer>)
    requires |s.stack| + |offers| <= cfg.maxSize
    requires forall i :: 0 <= i < |offers| - 1 ==> !Throws(cfg, lastCleared, offers[i])
    ensures var r := Prefill(cfg, lastCleared, s, offers);
            && r.stack == s.stack + Accepted(cfg, lastCleared, offers)
            && r.closed == s.closed + Refused(cfg, lastCleared, offers)
    decreases |offers|
  {
    if offers == [] {
    } else {
      var s' := Put(cfg, lastCleared, s, offers[0]);
      PrefillKeepsAccepted(cfg, lastCleared, s', offers[1..]);
      if |offers| == 1 {
        assert offers[1..] == [];
      }
    }
  }

  // ---------------------------------------------------------------------------------------
  // What GetConnection delivers
  // ---------------------------------------------------------------------------------------

  // `offers` are the connections the prefill creates when the pool is used for the first time,
  // `spare` the one created when the pool has nothing, or None when that fails. The source keeps
  // the last prefilled connection in the same variable as the result.
  datatype Got = Got(shelf: Shelf, result: Option<Conn>)

  function Get(cfg: Config, inUse: bool, lastCleared: int, s: Shelf, offers: seq<Offer>,
               spare: Option<Conn>): Got
  {
    var s1 := if inUse then s else Prefill(cfg, lastCleared, s, offers);
    if !inUse && PrefillFails(cfg, lastCleared, offers) then Got(s1, None)
    else if |s1.stack| > 0 then
      Got(s1.(stack := s1.stack[..|s1.stack| - 1]), Some(s1.stack[|s1.stack| - 1]))
    else if !inUse && offers != [] then Got(s1, Some(offers[|offers| - 1].conn))
    else Got(s1, spare)
  }

  // The newly created connections are new and distinct.
  predicate NewOffers(s: Shelf, offers: seq<Offer>, spare: Option<Conn>) {
    && (spare.Some? ==> spare.value !in s.closed && spare.value !in s.stack)
    && (forall i :: 0 <= i < |offers| ==>
          offers[i].conn !in s.closed && offers[i].conn !in s.stack)
    && NewConns(offers)
  }

  predicate SomeAccepted(cfg: Config, lastCleared: int, offers: seq<Offer>) {
    exists i :: 0 <= i < |offers| && Accepts(cfg, lastCleared, offers[i])
  }

  lemma {:induction false} AcceptedMembers(cfg: Config, lastCleared: int, offers: seq<Offer>, c: Conn)
    ensures c in Accepted(cfg, lastCleared, offers) <==>
            exists i :: 0 <= i < |offers| && offers[i].conn == c && Accepts(cfg, lastCleared, offers[i])
    ensures c in Refused(cfg, lastCleared, offers) <==>
            exists i :: 0 <= i < |offers| && offers[i].conn == c && !Accepts(cfg, lastCleared, offers[i])
  {
    if offers == [] {
    } else {
      var rest := offers[1..];
      AcceptedMembers(cfg, lastCleared, rest, c);
      assert forall i :: 0 <= i < |rest| ==> rest[i] == offers[i + 1];
      assert forall i :: 0 < i < |offers| ==> offers[i] == rest[i - 1];
    }
  }

  predicate NewConns(offers: seq<Offer>) {
    forall i, j :: 0 <= i < j < |offers| ==> offers[i].conn != offers[j].conn
  }

  lemma {:induction false} AcceptedDistinct(cfg: Config, lastCleared: int, offers: seq<Offer>)
    requires NewConns(offers)
    ensures var a := Accepted(cfg, lastCleared, offers);
            forall i, j :: 0 <= i < j < |a| ==> a[i] != a[j]
  {
    if offers == [] {
    } else {
      AcceptedDistinct(cfg, lastCleared, offers[1..]);
      AcceptedMembers(cfg, lastCleared, offers[1..], offers[0].conn);
    }
  }

  // GetConnection hands out an open connection, except on first use when something was
  // prefilled and nothing of it was accepted: then it hands out one it has just closed.
  lemma GetIsLive(cfg: Config, inUse: bool, lastCleared: int, s: Shelf, offers: seq<Offer>,
                  spare: Option<Conn>)
    requires Verified(cfg) && |s.stack| <= cfg.maxSize
    requires !inUse ==> s.stack == [] && |offers| <= cfg.minSize
    requires forall i :: 0 <= i < |s.stack| ==> s.stack[i] !in s.closed
    requires NewOffers(s, offers, spare)
    ensures var g := Get(cfg, inUse, lastCleared, s, offers, spare);
            g.result.Some? ==>
              (g.result.value in g.shelf.closed
               <==> !inUse && cfg.minSize > 0 && !SomeAccepted(cfg, lastCleared, offers))
  {
    if !inUse && !PrefillFails(cfg, lastCleared, offers) {
      PrefillKeepsAccepted(cfg, lastCleared, s, offers);
      var kept := Accepted(cfg, lastCleared, offers);
      assert s.stack + kept == kept;
      SomeAcceptedIsKept(cfg, lastCleared, offers);
      if kept != [] {
        AcceptedMembers(cfg, lastCleared, offers, kept[|kept| - 1]);
      } else if offers != [] {
        AcceptedMembers(cfg, lastCleared, offers, offers[|offers| - 1].conn);
      }
    }
  }

  lemma SomeAcceptedIsKept(cfg: Config, lastCleared: int, offers: seq<Offer>)
    ensures SomeAccepted(cfg, lastCleared, offers) <==> Accepted(cfg, lastCleared, offers) != []
  {
    var kept := Accepted(cfg, lastCleared, offers);
    if kept != [] {
      AcceptedMembers(cfg, lastCleared, offers, kept[0]);
    }
    forall i | 0 <= i < |offers| && Accepts(cfg, lastCleared, offers[i])
      ensures kept != []
    {
      AcceptedMembers(cfg, lastCleared, offers, offers[i].conn);
    }
  }

  // A first use that goes wrong: one prefilled connection, which does not answer IsValid.
  lemma GetCanDeliverClosed()
    ensures var cfg := Config(1, 1, 0);
            var bad := Conn(0, 5);
            Get(cfg, false, 0, Shelf([], {}), [Offer(bad, false, 5, false)],
                Some(Conn(1, 5)))
            == Got(Shelf([], {bad}), Some(bad))
  {
    var cfg := Config(1, 1, 0);
    var o := Offer(Conn(0, 5), false, 5, false);
    assert Prefill(cfg, 0, Shelf([], {}), [o]) == Shelf([], {o.conn}) by {
      assert [o][1..] == [];
    }
  }

  // Last in, first out: what was put into a free slot is what the next get delivers.
  lemma GetUndoesPut(cfg: Config, lastCleared: int, s: Shelf, o: Offer, offers: seq<Offer>,
                     spare: Option<Conn>)
    requires Accepts(cfg, lastCleared, o) && |s.stack| < cfg.maxSize
    ensures Get(cfg, true, lastCleared, Put(cfg, lastCleared, s, o), offers, spare)
            == Got(s, Some(o.conn))
  {
    assert (s.stack + [o.conn])[..|s.stack|] == s.stack;
  }

  // ---------------------------------------------------------------------------------------
  // The pool object
  // ---------------------------------------------------------------------------------------

  /** `pool[..size]` is the stack; `closed` records the connections Close () was called on. */
  class ConnectionPool {
    const cfg: Config
    var pool: array?<Conn>
    var size: int
    var lastCleared: int
    var closed: set<Conn>

    ghost predicate Valid()
      reads this, pool
    {
      && Verified(cfg)
      && 0 <= size <= cfg.maxSize
      && (if pool == null then size == 0 else pool.Length == cfg.maxSize)
    }

    ghost function View(): Shelf
      requires Valid()
      reads this, pool
    {
      Shelf(if pool == null then [] else pool[..size], closed)
    }

    // Takes options that have passed Verify. DateTime.MinValue is 0.
    constructor (p: CO.Platform, options: CO.Store)
      requires CO.Acceptable(p, options)
      ensures Valid() && View() == Shelf([], {}) && pool == null && lastCleared == 0
      ensures cfg == ConfigOf(options)
      ensures cfg.minSize == options[CO.MinPoolSize].number
      ensures cfg.maxSize == options[CO.MaxPoolSize].number
      ensures cfg.lifetime == options[CO.ConnectionLifetime].number
    {
      cfg := ConfigOf(options);
      pool, size, lastCleared, closed := null, 0, 0, {};
    }

    // True when Pool () of the connection threw; the connection is then closed.
    method PutConnection(o: Offer) returns (thrown: bool)
      requires Valid() && pool != null
      modifies this`size, this`closed, pool
      ensures Valid() && View() == Put(cfg, lastCleared, old(View()), o)
      ensures thrown <==> Throws(cfg, lastCleared, o)
      ensures View().stack == old(View()).stack
              || (&& View().stack == old(View()).stack + [o.conn] && closed == old(closed)
                  && old(size) < cfg.maxSize && o.conn.stamp >= lastCleared && o.valid
                  && (cfg.lifetime == 0 || o.now - o.conn.stamp <= cfg.lifetime))
      ensures && o.conn.stamp >= lastCleared && o.valid && !o.poolThrows && old(size) < cfg.maxSize
              && (cfg.lifetime == 0 || o.now - o.conn.stamp <= cfg.lifetime)
              ==> View() == Shelf(old(View()).stack + [o.conn], old(closed))
    {
      thrown := false;
      if o.conn.stamp < lastCleared {
        closed := closed + {o.conn};
        return;
      }
      if CanPool(cfg, o.conn, o.valid, o.now) {
        thrown := DoPool(o);
      } else {
        closed := closed + {o.conn};
      }
    }

    method DoPool(o: Offer) returns (thrown: bool)
      requires Valid() && pool != null
      requires o.conn.stamp >= lastCleared && CanPool(cfg, o.conn, o.valid, o.now)
      modifies this`size, this`closed, pool
      ensures Valid() && View() == Put(cfg, lastCleared, old(View()), o)
      ensures thrown <==> o.poolThrows
    {
      if o.poolThrows {
        closed := closed + {o.conn};
        return true;
      }
      if size < cfg.maxSize {
        pool[size] := o.conn;
        size := size + 1;
        assert pool[..size] == old(pool[..size]) + [o.conn];
        return false;
      }
      closed := closed + {o.conn};
      return false;
    }

    // True when the prefill ends with an exception, of Pool () or of creating a connection.
    method FillPool(offers: seq<Offer>) returns (thrown: bool)
      requires Valid() && pool != null && |offers| <= cfg.minSize
      modifies this`size, this`closed, pool
      ensures Valid() && View() == Prefill(cfg, lastCleared, old(View()), offers)
      ensures thrown <==> PrefillFails(cfg, lastCleared, offers)
    {
      thrown := false;
      var i := 0;
      while i < cfg.minSize
        invariant 0 <= i <= |offers| && Valid()
        invariant forall j :: 0 <= j < i ==> !Throws(cfg, lastCleared, offers[j])
        invariant Prefill(cfg, lastCleared, View(), offers[i..])
                  == Prefill(cfg, lastCleared, old(View()), offers)
      {
        if i == |offers| {
          return true;
        }
        assert offers[i..][1..] == offers[i + 1..];
        thrown := PutConnection(offers[i]);
        if thrown {
          return;
        }
        i := i + 1;
      }
    }

    // None is an exception, of the prefill or of creating a connection.
    method GetConnection(offers: seq<Offer>, spare: Option<Conn>) returns (r: Option<Conn>)
      requires Valid()
      requires pool == null ==> |offers| <= cfg.minSize
      modifies this`size, this`closed, this`pool, pool
      ensures Valid() && pool != null
      ensures old(pool) == null ==> fresh(pool)
      ensures old(pool) != null ==> pool == old(pool)
      ensures Got(View(), r)
              == Get(cfg, old(pool) != null, lastCleared, old(View()), offers, spare)
    {
      var inner: Option<Conn> := None;
      if pool == null {
        pool := new Conn[cfg.maxSize](_ => Conn(0, 0));
        var thrown := FillPool(offers);
        if thrown {
          return None;
        }
        if offers != [] {
          inner := Some(offers[|offers| - 1].conn);
        }
      }
      if size > 0 {
        size := size - 1;
        inner := Some(pool[size]);
        assert forall n :: 0 <= n < size + 1 ==> pool[..size + 1][..n] == pool[..n];
      }
      if inner.None? {
        inner := spare;
      }
      return inner;
    }

    method ClearPool(now: int)
      requires Valid()
      modifies this`size, this`closed, this`lastCleared
      ensures Valid() && lastCleared == now
      ensures View() == Shelf([], old(closed) + SetOf(old(View()).stack))
    {
      size := size - 1;
      CloseDownFrom(size);
      size := 0;
      lastCleared := now;
    }

    // The loop of ClearPool, from the top of the stack down.
    method CloseDownFrom(top: int)
      requires -1 <= top && (top >= 0 ==> pool != null && top < pool.Length)
      modifies this`closed
      ensures top == -1 ==> closed == old(closed)
      ensures top >= 0 ==> closed == old(closed) + SetOf(pool[..top + 1])
    {
      ghost var before := closed;
      ghost var stack := if top == -1 then [] else pool[..top + 1];
      var i := top;
      while i >= 0
        invariant -1 <= i <= top
        invariant closed == before + SetFrom(stack, i + 1)
      {
        closed := closed + {pool[i]};
        i := i - 1;
      }
      SetFromIsRest(stack, 0);
      assert stack[0..] == stack;
    }

    // The timer: closes at most one connection.
    method ExpireConnections()
      requires Valid()
      modifies this`size, this`closed
      ensures Valid()
      ensures View().stack == Shrink(cfg, old(View()).stack)
      ensures closed == old(closed) + SetOf(old(View()).stack[|View().stack|..])
    {
      if pool == null {
        return;
      }
      if size > cfg.minSize {
        size := size - 1;
        closed := closed + {pool[size]};
        assert old(View()).stack[size..] == [pool[size]];
        assert old(View()).stack[..size] == pool[..size];
      }
    }
  }
}
