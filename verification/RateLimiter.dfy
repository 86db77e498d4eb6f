/** The fixed-window rate limiter (scripts/select-native.ts:266-285). */
module RateLimiter {

  import opened Bytes

  type Key = string

  datatype Window = Window(start: real, count: int)

  datatype Verdict = Verdict(allowed: bool, remaining: real, resetMs: real)

  datatype Config = Config(limit: real, windowMs: real)

  function Max0(x: real): real { if x < 0.0 then 0.0 else x }

  /** What `check` does to the window of its key. */
  function Step(c: Config, e: Option<Window>, now: real): (Window, Verdict) {
    if e.None? || now - e.value.start >= c.windowMs then
      (Window(now, 1), Verdict(c.limit > 0.0, Max0(c.limit - 1.0), now + c.windowMs))
    else if e.value.count as real < c.limit then
      var count := e.value.count + 1;
      (Window(e.value.start, count), Verdict(true, Max0(c.limit - count as real), now + c.windowMs))
    else
      (e.value, Verdict(false, 0.0, now + c.windowMs))
  }

  // ---- runs ----

  datatype Check = Check(key: Key, now: real)

  /** The window of `k` after a run of checks. */
  function After(c: Config, run: seq<Check>, k: Key): Option<Window> {
    if run == [] then None
    else
      var n := |run| - 1;
      var e := After(c, run[..n], k);
      if run[n].key == k then Some(Step(c, e, run[n].now).0) else e
  }

  /** Verdict of check `i` of a run. */
  function VerdictOf(c: Config, run: seq<Check>, i: nat): Verdict
    requires i < |run|
  {
    Step(c, After(c, run[..i], run[i].key), run[i].now).1
  }

  /** Start of the window that check `i` falls into. */
  function StartOf(c: Config, run: seq<Check>, i: nat): real
    requires i < |run|
  {
    Step(c, After(c, run[..i], run[i].key), run[i].now).0.start
  }

  predicate Monotone(run: seq<Check>) { forall i, j :: 0 <= i < j < |run| ==> run[i].now <= run[j].now }

  class Limiter {
    const config: Config
    var state: map<Key, Window>
    ghost var run: seq<Check>

    ghost predicate Valid()
      reads this
    {
      forall k: Key :: After(config, run, k) == if k in state then Some(state[k]) else None
    }

    constructor (config: Config)
      ensures Valid() && run == [] && this.config == config
    {
      this.config := config;
      state, run := map[], [];
    }

    /** `check`: the verdict depends on the run so far of this key only, and only this key's window changes. */
    method DoCheck(key: Key, now: real) returns (v: Verdict)
      requires Valid()
      modifies this
      ensures Valid() && run == old(run) + [Check(key, now)]
      ensures v == VerdictOf(config, run, |old(run)|)
      ensures forall k :: k != key ==> (k in state <==> k in old(state)) && (k in state ==> state[k] == old(state)[k])
    {
      hide Step;
      ghost var before := run;
      var e := if key in state then Some(state[key]) else None;
      run := run + [Check(key, now)];
      assert run[..|before|] == before;
      var next := Decide(e, now);
      state := state[key := next.0];
      v := next.1;
    }

    method Decide(e: Option<Window>, now: real) returns (r: (Window, Verdict))
      ensures r == Step(config, e, now)
    {
      if e.None? || now - e.value.start >= config.windowMs {
        return (Window(now, 1), Verdict(config.limit > 0.0, Max0(config.limit - 1.0), now + config.windowMs));
      }
      if e.value.count as real < config.limit {
        var count := e.value.count + 1;
        var left := Max0(config.limit - count as real);
        return (Window(e.value.start, count), Verdict(true, left, now + config.windowMs));
      }
      return (e.value, Verdict(false, 0.0, now + config.windowMs));
    }
  }

  // ---- keys do not affect each other ----

  function Only(run: seq<Check>, k: Key): seq<Check> {
    if run == [] then []
    else
      var n := |run| - 1;
      Only(run[..n], k) + (if run[n].key == k then [run[n]] else [])
  }

  /** The window of a key is what its own checks make it. */
  lemma {:induction false} KeysAreIndependent(c: Config, run: seq<Check>, k: Key)
    ensures After(c, run, k) == After(c, Only(run, k), k)
  {
    hide Step;
    if run != [] {
      var n := |run| - 1;
      KeysAreIndependent(c, run[..n], k);
      if run[n].key == k {
        var o := Only(run, k);
        assert o[..|o| - 1] == Only(run[..n], k);
      } else {
        assert Only(run, k) == Only(run[..n], k);
      }
    }
  }

  // ---- windows ----

  /** How many checks a window allows: the limit, rounded up. */
  function Quota(c: Config): (n: nat)
    ensures n == 0 <==> c.limit <= 0.0
    ensures n > 0 ==> (n - 1) as real < c.limit <= n as real
  {
    if c.limit <= 0.0 then 0 else -(-c.limit).Floor
  }

  /** Allowed checks of `k` among the first `n` that fall into the window started at `s`. */
  function Epoch(c: Config, run: seq<Check>, k: Key, n: nat, s: real): set<nat>
    requires n <= |run|
  {
    set i: nat | i < n && run[i].key == k && VerdictOf(c, run, i).allowed && StartOf(c, run, i) == s
  }

  /** Check `r` of `k` started the window `s`. */
  predicate Starts(c: Config, run: seq<Check>, k: Key, r: nat, s: real) {
    && r < |run| && run[r].key == k && run[r].now == s
    && StartOf(c, run, r) == s && (VerdictOf(c, run, r).allowed <==> c.limit > 0.0)
  }

  /** What the first `n` checks say about the windows of `k`. */
  ghost predicate Windows(c: Config, run: seq<Check>, k: Key, n: nat)
    requires n <= |run|
  {
    match After(c, run[..n], k)
    case None => forall i :: 0 <= i < n ==> run[i].key != k
    case Some(e) =>
      && 1 <= e.count && (n > 0 ==> e.start <= run[n - 1].now)
      && (exists r :: 0 <= r < n && Starts(c, run, k, r, e.start))
      && (forall i :: 0 <= i < n && run[i].key == k ==>
            StartOf(c, run, i) == e.start || StartOf(c, run, i) + c.windowMs <= e.start)
      && |Epoch(c, run, k, n, e.start)| == (if c.limit > 0.0 then e.count else 0)
      && (c.limit > 0.0 ==> e.count <= Quota(c))
  }

  lemma PrefixStep(c: Config, run: seq<Check>, k: Key, n: nat)
    requires n < |run|
    ensures After(c, run[..n + 1], k)
            == if run[n].key == k then Some(Step(c, After(c, run[..n], k), run[n].now).0) else After(c, run[..n], k)
  {
    assert run[..n + 1][..n] == run[..n];
  }

  lemma EpochStep(c: Config, run: seq<Check>, k: Key, n: nat, s: real)
    requires n < |run|
    ensures var hit := run[n].key == k && VerdictOf(c, run, n).allowed && StartOf(c, run, n) == s;
      Epoch(c, run, k, n + 1, s) == Epoch(c, run, k, n, s) + (if hit then {n} else {})
    ensures n !in Epoch(c, run, k, n, s)
  {
    hide Step, After;
  }

  lemma WindowsStep(c: Config, run: seq<Check>, k: Key, n: nat)
    requires c.windowMs > 0.0 && Monotone(run) && n < |run| && Windows(c, run, k, n)
    ensures Windows(c, run, k, n + 1)
  {
    hide Windows;
    var e := After(c, run[..n], k);
    if run[n].key != k {
      OtherKey(c, run, k, n);
    } else if e.None? || run[n].now - e.value.start >= c.windowMs {
      NewWindow(c, run, k, n);
    } else {
      SameWindow(c, run, k, n);
    }
  }

  lemma OtherKey(c: Config, run: seq<Check>, k: Key, n: nat)
    requires Monotone(run) && n < |run| && Windows(c, run, k, n) && run[n].key != k
    ensures Windows(c, run, k, n + 1)
  {
    hide Step, StartOf, VerdictOf;
    PrefixStep(c, run, k, n);
    var e := After(c, run[..n], k);
    if e.Some? {
      EpochStep(c, run, k, n, e.value.start);
      var r :| 0 <= r < n && Starts(c, run, k, r, e.value.start);
      assert 0 <= r < n + 1 && Starts(c, run, k, r, e.value.start);
    }
  }

  lemma SameWindow(c: Config, run: seq<Check>, k: Key, n: nat)
    requires Monotone(run) && n < |run| && Windows(c, run, k, n) && run[n].key == k
    requires var e := After(c, run[..n], k); e.Some? && run[n].now - e.value.start < c.windowMs
    ensures Windows(c, run, k, n + 1)
  {
    hide Epoch, Starts, After;
    PrefixStep(c, run, k, n);
    var e := After(c, run[..n], k);
    EpochStep(c, run, k, n, e.value.start);
    var r :| 0 <= r < n && Starts(c, run, k, r, e.value.start);
    assert 0 <= r < n + 1 && Starts(c, run, k, r, e.value.start);
  }

  /** A reset: no earlier check falls into the window it starts. */
  lemma NewWindow(c: Config, run: seq<Check>, k: Key, n: nat)
    requires c.windowMs > 0.0 && Monotone(run) && n < |run| && Windows(c, run, k, n) && run[n].key == k
    requires var e := After(c, run[..n], k); e.None? || run[n].now - e.value.start >= c.windowMs
    ensures Windows(c, run, k, n + 1)
  {
    var s := run[n].now;
    PrefixStep(c, run, k, n);
    EpochStep(c, run, k, n, s);
    assert Epoch(c, run, k, n, s) == {};
    assert Starts(c, run, k, n, s);
  }

  lemma {:induction false} WindowsHold(c: Config, run: seq<Check>, k: Key, n: nat)
    requires c.windowMs > 0.0 && Monotone(run) && n <= |run|
    ensures Windows(c, run, k, n)
  {
    hide Windows;
    if n == 0 {
      NoWindows(c, run, k);
    } else {
      WindowsHold(c, run, k, n - 1);
      WindowsStep(c, run, k, n - 1);
    }
  }

  lemma NoWindows(c: Config, run: seq<Check>, k: Key)
    ensures Windows(c, run, k, 0)
  {
  }

  lemma CurrentIsBounded(c: Config, run: seq<Check>, i: nat)
    requires c.windowMs > 0.0 && Monotone(run) && i < |run|
    ensures |Epoch(c, run, run[i].key, i + 1, StartOf(c, run, i))| <= Quota(c)
  {
    hide Step, After, Epoch, StartOf, Starts, Quota;
    WindowsHold(c, run, run[i].key, i + 1);
    CurrentWindow(c, run, i);
  }

  /** Between two resets a key gets at most `limit` allowed checks, rounded up. */
  lemma {:induction false} AtMostLimitPerWindow(c: Config, run: seq<Check>, k: Key, n: nat, s: real)
    requires c.windowMs > 0.0 && Monotone(run) && n <= |run|
    ensures |Epoch(c, run, k, n, s)| <= Quota(c)
  {
    hide Epoch, StartOf, VerdictOf, Quota;
    if n == 0 {
      EmptyEpoch(c, run, k, s);
    } else if run[n - 1].key == k && StartOf(c, run, n - 1) == s {
      CurrentIsBounded(c, run, n - 1);
    } else {
      AtMostLimitPerWindow(c, run, k, n - 1, s);
      EpochStays(c, run, k, n - 1, s);
    }
  }

  lemma EmptyEpoch(c: Config, run: seq<Check>, k: Key, s: real)
    ensures Epoch(c, run, k, 0, s) == {}
  {
  }

  lemma EpochStays(c: Config, run: seq<Check>, k: Key, n: nat, s: real)
    requires n < |run| && (run[n].key != k || StartOf(c, run, n) != s)
    ensures Epoch(c, run, k, n + 1, s) == Epoch(c, run, k, n, s)
  {
    EpochStep(c, run, k, n, s);
  }

  lemma CurrentWindow(c: Config, run: seq<Check>, i: nat)
    requires i < |run|
    ensures After(c, run[..i + 1], run[i].key).Some?
    ensures After(c, run[..i + 1], run[i].key).value.start == StartOf(c, run, i)
    ensures run[i].now - StartOf(c, run, i) < c.windowMs || c.windowMs <= 0.0
  {
    PrefixStep(c, run, run[i].key, i);
  }

  /** A check is allowed exactly when its window has seen fewer than `limit` allowed checks before it, and then reports
      how many are left. */
  lemma VerdictIsExact(c: Config, run: seq<Check>, i: nat)
    requires c.windowMs > 0.0 && Monotone(run) && i < |run|
    ensures var used := |Epoch(c, run, run[i].key, i, StartOf(c, run, i))|;
      && (VerdictOf(c, run, i).allowed <==> used as real < c.limit)
      && VerdictOf(c, run, i).remaining
         == (if used as real < c.limit - 1.0 then c.limit - used as real - 1.0 else 0.0)
      && VerdictOf(c, run, i).resetMs == run[i].now + c.windowMs
  {
    hide Starts;
    var k, e := run[i].key, After(c, run[..i], run[i].key);
    WindowsHold(c, run, k, i);
    if e.None? || run[i].now - e.value.start >= c.windowMs {
      assert Epoch(c, run, k, i, run[i].now) == {};
    }
  }

  /** Resets of a key are at least a window apart: two of its checks share a window, or the later one's window starts
      a whole window length after the earlier one's. */
  lemma ResetsAreApart(c: Config, run: seq<Check>, i: nat, j: nat)
    requires c.windowMs > 0.0 && Monotone(run) && i < j < |run| && run[i].key == run[j].key
    ensures StartOf(c, run, j) == StartOf(c, run, i) || StartOf(c, run, j) >= StartOf(c, run, i) + c.windowMs
  {
    hide Step, After, Epoch;
    WindowsHold(c, run, run[j].key, j + 1);
    CurrentWindow(c, run, j);
  }

  /** A check's window starts no later than the check, less than a window length before it, with a check of its own. */
  lemma WindowOf(c: Config, run: seq<Check>, i: nat) returns (r: nat)
    requires c.windowMs > 0.0 && Monotone(run) && i < |run|
    ensures StartOf(c, run, i) <= run[i].now < StartOf(c, run, i) + c.windowMs
    ensures r <= i && Starts(c, run, run[i].key, r, StartOf(c, run, i))
  {
    hide Step, After, Epoch;
    WindowsHold(c, run, run[i].key, i + 1);
    CurrentWindow(c, run, i);
    r :| 0 <= r < i + 1 && Starts(c, run, run[i].key, r, StartOf(c, run, i));
  }

  // ---- any interval of one window length ----

  /** Allowed checks of `k` with `a <= now < a + windowMs`. */
  function Within(c: Config, run: seq<Check>, k: Key, a: real): set<nat> {
    set i: nat | i < |run| && run[i].key == k && VerdictOf(c, run, i).allowed && a <= run[i].now < a + c.windowMs
  }

  function MaxAllowed(c: Config): int { if Quota(c) == 0 then 0 else 2 * Quota(c) - 1 }

  /** If two allowed checks of the interval are in different windows, then all are in these two. */
  lemma TwoWindows(c: Config, run: seq<Check>, k: Key, a: real, i: nat, j: nat)
    requires c.windowMs > 0.0 && Monotone(run)
    requires i in Within(c, run, k, a) && j in Within(c, run, k, a) && StartOf(c, run, i) < StartOf(c, run, j)
    ensures forall m :: m in Within(c, run, k, a) ==>
      StartOf(c, run, m) == StartOf(c, run, i) || StartOf(c, run, m) == StartOf(c, run, j)
    ensures StartOf(c, run, i) < a
  {
    hide Step, After, VerdictOf, StartOf;
    var ri := WindowOf(c, run, i);
    var rj := WindowOf(c, run, j);
    Apart(c, run, i, j);
    forall m | m in Within(c, run, k, a)
      ensures StartOf(c, run, m) == StartOf(c, run, i) || StartOf(c, run, m) == StartOf(c, run, j)
    {
      var rm := WindowOf(c, run, m);
      Apart(c, run, m, i);
      Apart(c, run, m, j);
    }
  }

  lemma Apart(c: Config, run: seq<Check>, i: nat, j: nat)
    requires c.windowMs > 0.0 && Monotone(run) && i < |run| && j < |run| && run[i].key == run[j].key
    ensures var s, t := StartOf(c, run, i), StartOf(c, run, j); s == t || s >= t + c.windowMs || t >= s + c.windowMs
  {
    if i < j { ResetsAreApart(c, run, i, j); }
    if j < i { ResetsAreApart(c, run, j, i); }
  }

  /** No half-open interval of one window length holds more than 2 * limit - 1 allowed checks of a key, the limit
      rounded up, and none if it is not positive. */
  lemma AtMostTwiceTheLimit(c: Config, run: seq<Check>, k: Key, a: real)
    requires c.windowMs > 0.0 && Monotone(run)
    ensures |Within(c, run, k, a)| <= MaxAllowed(c)
  {
    hide Step, After, VerdictOf, StartOf;
    var all, n := Within(c, run, k, a), |run|;
    if all == {} { return; }
    var i :| i in all;
    if forall m :: m in all ==> StartOf(c, run, m) == StartOf(c, run, i) {
      assert all <= Epoch(c, run, k, n, StartOf(c, run, i));
      Bounded(all, Epoch(c, run, k, n, StartOf(c, run, i)));
      AtMostLimitPerWindow(c, run, k, n, StartOf(c, run, i));
    } else {
      var j :| j in all && StartOf(c, run, j) != StartOf(c, run, i);
      if StartOf(c, run, i) < StartOf(c, run, j) { SplitInterval(c, run, k, a, i, j); }
      else { SplitInterval(c, run, k, a, j, i); }
    }
  }

  /** The check that opened the earlier window is before the interval, which leaves that window one fewer. */
  lemma SplitInterval(c: Config, run: seq<Check>, k: Key, a: real, i: nat, j: nat)
    requires c.windowMs > 0.0 && Monotone(run)
    requires i in Within(c, run, k, a) && j in Within(c, run, k, a) && StartOf(c, run, i) < StartOf(c, run, j)
    ensures |Within(c, run, k, a)| <= MaxAllowed(c)
  {
    hide Step, After, VerdictOf, StartOf;
    var all, n := Within(c, run, k, a), |run|;
    var s, t := StartOf(c, run, i), StartOf(c, run, j);
    TwoWindows(c, run, k, a, i, j);
    var r := WindowOf(c, run, i);
    var early, late := Epoch(c, run, k, n, s), Epoch(c, run, k, n, t);
    AtMostLimitPerWindow(c, run, k, n, s);
    AtMostLimitPerWindow(c, run, k, n, t);
    assert i in early;
    assert Quota(c) > 0 by { Bounded({i}, early); }
    assert r in early && r !in all;
    assert all <= (early - {r}) + late;
    Bounded(all, (early - {r}) + late);
    assert |(early - {r}) + late| <= |early - {r}| + |late|;
  }

  lemma Bounded(a: set<nat>, b: set<nat>)
    requires a <= b
    ensures |a| <= |b|
  {
    assert b == a + (b - a);
  }

  // ---- the bound is met ----

  /** One check at 0, the rest of the quota half a window later, and a whole quota at the reset. */
  function Burst(c: Config, k: Key): (run: seq<Check>)
    ensures |run| == 2 * Quota(c)
  {
    seq(2 * Quota(c), i => Check(k, BurstTime(c, i)))
  }

  function BurstTime(c: Config, i: int): real {
    if i == 0 then 0.0 else if i < Quota(c) then c.windowMs / 2.0 else c.windowMs
  }

  lemma {:induction false} BurstState(c: Config, k: Key, n: nat)
    requires c.windowMs > 0.0 && 0 < n <= 2 * Quota(c)
    ensures After(c, Burst(c, k)[..n], k)
            == Some(if n <= Quota(c) then Window(0.0, n) else Window(c.windowMs, n - Quota(c)))
    ensures VerdictOf(c, Burst(c, k), n - 1).allowed
  {
    hide After;
    var run := Burst(c, k);
    PrefixStep(c, run, k, n - 1);
    if n == 1 { NothingYet(c, run, k); } else { BurstState(c, k, n - 1); }
  }

  lemma NothingYet(c: Config, run: seq<Check>, k: Key)
    ensures After(c, run[..0], k) == None
  {
  }

  /** 1 to n - 1. */
  function From1(n: nat): (r: set<nat>)
    ensures forall i: nat :: i in r <==> 1 <= i < n
    ensures n > 0 ==> |r| == n - 1
  {
    if n <= 1 then {} else From1(n - 1) + {n - 1}
  }

  /** For every limit and window some run meets the bound. */
  lemma BoundIsMet(c: Config, k: Key)
    requires c.windowMs > 0.0
    ensures Monotone(Burst(c, k)) && |Within(c, Burst(c, k), k, c.windowMs / 2.0)| == MaxAllowed(c)
  {
    hide Step, After, VerdictOf;
    var run, all := Burst(c, k), Within(c, Burst(c, k), k, c.windowMs / 2.0);
    if Quota(c) == 0 {
      assert all == {};
    } else {
      forall i: nat | i < |run|
        ensures VerdictOf(c, run, i).allowed
      {
        BurstState(c, k, i + 1);
      }
      assert all == From1(|run|);
    }
  }
}
