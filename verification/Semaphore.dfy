/** The hand-off semaphore of the load generator and the flows that use it (bench/http/load.ts:1521-1612). */
module Semaphore {
  import opened Lists

  type Flow = nat

  /** `count` and `waiters` are the semaphore's; the rest is the history: who called `acquire`, who got a slot and who
      freed one, in order. A flow is in `freed` once its `released` flag is set. */
  datatype State = State(max: int, count: int, waiters: seq<Flow>,
                         acquired: seq<Flow>, granted: seq<Flow>, freed: seq<Flow>)

  datatype Event = Acquire(f: Flow) | ReleaseSlot(f: Flow)

  function Initial(max: int): State { State(max, 0, [], [], [], []) }

  function Next(s: State, e: Event): State {
    match e
    case Acquire(f) =>
      var t := s.(acquired := s.acquired + [f]);
      if s.count < s.max then t.(count := s.count + 1, granted := s.granted + [f])
      else t.(waiters := s.waiters + [f])
    case ReleaseSlot(f) =>
      if f in s.freed then s
      else
        var t := s.(freed := s.freed + [f]);
        if s.waiters == [] then t.(count := s.count - 1)
        else t.(waiters := s.waiters[1..], granted := s.granted + [s.waiters[0]])
  }

  /** A flow is launched once, and only a flow that has its slot runs its `finally`. */
  predicate Enabled(s: State, e: Event) {
    match e
    case Acquire(f) => f !in s.acquired
    case ReleaseSlot(f) => f in s.granted
  }

  function Run(max: int, events: seq<Event>): State {
    if events == [] then Initial(max) else Next(Run(max, events[..|events| - 1]), events[|events| - 1])
  }

  predicate Possible(max: int, events: seq<Event>) {
    events == [] || (Possible(max, events[..|events| - 1])
                     && Enabled(Run(max, events[..|events| - 1]), events[|events| - 1]))
  }

  // ---- what every interleaving keeps ----

  /** The flows that hold a slot. */
  function Held(s: State): set<Flow> { Elements(s.granted) - Elements(s.freed) }

  function Slots(max: int): int { if max < 0 then 0 else max }

  /** Slots are granted in the order they were asked for, who is left waits in that order, and each slot is freed at
      most once. */
  ghost predicate Ordered(s: State) {
    && Distinct(s.acquired) && Distinct(s.freed) && Elements(s.freed) <= Elements(s.granted)
    && s.granted <= s.acquired && s.waiters == s.acquired[|s.granted|..]
  }

  /** The count is the number of slots held, within bounds, and nobody waits while a slot is free. */
  ghost predicate Counted(s: State) {
    && s.count == |Held(s)| && s.count <= Slots(s.max)
    && (s.waiters != [] ==> s.count == Slots(s.max))
  }

  ghost predicate Sound(s: State) { Ordered(s) && Counted(s) }

  lemma HeldGrows(s: State, f: Flow)
    requires f !in s.granted && Elements(s.freed) <= Elements(s.granted)
    ensures Held(s.(granted := s.granted + [f])) == Held(s) + {f} && f !in Held(s)
  {
    assert Elements(s.granted + [f]) == Elements(s.granted) + {f};
  }

  lemma HeldShrinks(s: State, f: Flow)
    requires f in s.granted && f !in s.freed
    ensures Held(s.(freed := s.freed + [f])) == Held(s) - {f} && f in Held(s)
  {
    assert Elements(s.freed + [f]) == Elements(s.freed) + {f};
  }

  lemma StepIsSound(s: State, e: Event)
    requires Sound(s) && Enabled(s, e)
    ensures Sound(Next(s, e)) && Next(s, e).max == s.max
  {
    match e
    case Acquire(f) => AcquireIsSound(s, f);
    case ReleaseSlot(f) => if f !in s.freed { ReleaseIsSound(s, f); }
  }

  lemma AcquireIsSound(s: State, f: Flow)
    requires Sound(s) && f !in s.acquired
    ensures Sound(Next(s, Acquire(f)))
  {
    var t := Next(s, Acquire(f));
    PrefixIn(s.granted, s.acquired, f);
    if s.count < s.max {
      assert s.granted == s.acquired;
      HeldGrows(s, f);
      GrantIsOrdered(s, f, t);
      assert Held(t) == Held(s) + {f};
    } else {
      assert t.acquired[|s.granted|..] == s.acquired[|s.granted|..] + [f];
    }
  }

  lemma GrantIsOrdered(s: State, f: Flow, t: State)
    requires Ordered(s) && s.granted == s.acquired && f !in s.acquired
    requires t.acquired == s.acquired + [f] && t.granted == s.granted + [f]
    requires t.freed == s.freed && t.waiters == s.waiters
    ensures Ordered(t)
  {
    assert Elements(t.granted) == Elements(s.granted) + {f};
  }

  lemma PrefixIn(a: seq<Flow>, b: seq<Flow>, f: Flow)
    requires a <= b && f !in b
    ensures f !in a
  {
    assert forall i :: 0 <= i < |a| ==> a[i] == b[i];
  }

  lemma FreeIsOrdered(s: State, f: Flow)
    requires Ordered(s) && f in s.granted && f !in s.freed
    ensures Ordered(s.(freed := s.freed + [f]))
  {
    assert Elements(s.freed + [f]) == Elements(s.freed) + {f};
  }

  /** The slot goes to the oldest waiter. */
  lemma HandOffIsOrdered(s: State)
    requires Ordered(s) && s.waiters != []
    ensures var w := s.waiters[0];
      w !in s.granted && Ordered(s.(waiters := s.waiters[1..], granted := s.granted + [w]))
  {
    var w, n := s.waiters[0], |s.granted|;
    assert w == s.acquired[n];
    assert s.granted == s.acquired[..n];
    assert s.granted + [w] == s.acquired[..n + 1];
    assert Elements(s.granted + [w]) == Elements(s.granted) + {w};
  }

  lemma ReleaseIsSound(s: State, f: Flow)
    requires Sound(s) && f in s.granted && f !in s.freed
    ensures Sound(Next(s, ReleaseSlot(f)))
  {
    hide Ordered, Elements;
    var u := s.(freed := s.freed + [f]);
    HeldShrinks(s, f);
    FreeIsOrdered(s, f);
    if s.waiters == [] {
      FreeKeepsOrder(u);
    } else {
      HandOffIsOrdered(u);
      FreedWereGranted(u);
      HeldGrows(u, s.waiters[0]);
      var t := u.(waiters := s.waiters[1..], granted := s.granted + [s.waiters[0]]);
      assert Held(t) == Held(u.(granted := u.granted + [s.waiters[0]]));
    }
  }

  lemma FreeKeepsOrder(u: State)
    requires Ordered(u)
    ensures Ordered(u.(count := u.count - 1)) && Held(u.(count := u.count - 1)) == Held(u)
  {
  }

  lemma FreedWereGranted(s: State)
    requires Ordered(s)
    ensures Elements(s.freed) <= Elements(s.granted)
  {
  }

  /** In every interleaving of launches and releases: the count is the number of slots held and never exceeds the
      maximum, nobody waits while a slot is free, slots are granted in the order they were asked for, and each flow
      frees its slot at most once. */
  lemma {:induction false} EveryRunIsSound(max: int, events: seq<Event>)
    requires Possible(max, events)
    ensures Sound(Run(max, events)) && Run(max, events).max == max
    decreases |events|
  {
    if events == [] {
      assert Held(Initial(max)) == {};
    } else {
      var n := |events| - 1;
      EveryRunIsSound(max, events[..n]);
      StepIsSound(Run(max, events[..n]), events[n]);
    }
  }

  /** However often a flow calls `releaseSlot`, it frees its slot exactly once; it never does without a call. */
  lemma {:induction false} FreedExactlyOnce(max: int, events: seq<Event>, f: Flow)
    requires Possible(max, events)
    ensures multiset(Run(max, events).freed)[f] == if ReleaseSlot(f) in events then 1 else 0
    decreases |events|
  {
    if events != [] {
      var n := |events| - 1;
      var front := events[..n];
      FreedExactlyOnce(max, front, f);
      var s, t := Run(max, front), Run(max, events);
      assert events == front + [events[n]];
      assert t.freed == s.freed || t.freed == s.freed + [events[n].f];
      assert f in s.freed <==> multiset(s.freed)[f] > 0;
    }
  }

  /** Nobody is forgotten: when every flow that got a slot has called `releaseSlot`, no flow is left waiting and all
      slots are free again, provided there is a slot at all. */
  lemma NobodyIsForgotten(max: int, events: seq<Event>)
    requires Possible(max, events) && max > 0
    requires forall f :: f in Run(max, events).granted ==> ReleaseSlot(f) in events
    ensures var s := Run(max, events); s.count == 0 && s.waiters == [] && s.granted == s.acquired
  {
    EveryRunIsSound(max, events);
    var s := Run(max, events);
    forall f | f in s.granted
      ensures f in s.freed
    {
      FreedExactlyOnce(max, events, f);
      assert f in multiset(s.freed);
    }
    assert Held(s) == {};
  }

  // ---- the closures ----

  class Pool {
    const max: int
    var count: int
    var waiters: seq<Flow>
    /** The `released` flags of the launched flows. */
    var released: set<Flow>
    ghost var history: State

    ghost predicate Valid()
      reads this
    {
      && Sound(history)
      && history.max == max && history.count == count && history.waiters == waiters
      && released == Elements(history.freed)
    }

    constructor (max: int)
      ensures Valid() && history == Initial(max)
    {
      this.max := max;
      count, waiters, released := 0, [], {};
      history := Initial(max);
      assert Held(Initial(max)) == {};
    }

    /** `acquire`: whether the returned promise is resolved already. */
    method Acquire(f: Flow) returns (resolved: bool)
      requires Valid() && f !in history.acquired
      modifies this
      ensures Valid() && history == Next(old(history), Event.Acquire(f))
      ensures resolved <==> f in Held(history)
    {
      hide Sound, Held;
      StepIsSound(history, Event.Acquire(f));
      Acquired(history, f);
      history := Next(history, Event.Acquire(f));
      if count < max {
        count := count + 1;
        return true;
      }
      waiters := waiters + [f];
      return false;
    }

    /** `release`: hands the slot to the oldest waiter, or frees it. */
    method Release()
      modifies `count, `waiters
      ensures old(waiters) == [] ==> count == old(count) - 1 && waiters == []
      ensures old(waiters) != [] ==> count == old(count) && waiters == old(waiters)[1..]
    {
      if waiters != [] {
        waiters := waiters[1..];
      } else {
        count := count - 1;
      }
    }

    /** `releaseSlot`, as often as it may be called. */
    method ReleaseSlot(f: Flow)
      requires Valid() && f in history.granted
      modifies this
      ensures Valid() && history == Next(old(history), Event.ReleaseSlot(f))
      ensures f in history.freed && f !in Held(history)
    {
      hide Sound;
      StepIsSound(history, Event.ReleaseSlot(f));
      if f !in released {
        released := released + {f};
        history := Next(history, Event.ReleaseSlot(f));
        assert Elements(history.freed) == Elements(old(history).freed) + {f};
        Release();
      }
    }
  }

  lemma Acquired(s: State, f: Flow)
    requires Sound(s) && f !in s.acquired
    ensures f in Held(Next(s, Acquire(f))) <==> s.count < s.max
  {
    PrefixIn(s.granted, s.acquired, f);
    if s.count < s.max { HeldGrows(s, f); }
  }
}
