/** The per-thread cache of compiled HMAC keys (rust/ffi/util.rs:65-95) and the reused C-string buffer
    (rust/ffi/util.rs:161-193). */
module KeyCache {
  import opened Bytes
  import opened Lists

  const CAPACITY := 16

  // ---- recency ----

  /** The distinct secrets of a run of calls, the latest used first. */
  function Recent<S(==,!new)>(calls: seq<S>): seq<S> {
    if calls == [] then []
    else
      var last := calls[|calls| - 1];
      [last] + Without(Recent(calls[..|calls| - 1]), last)
  }

  function Without<S(==,!new)>(s: seq<S>, x: S): (r: seq<S>)
    ensures forall y :: y in r <==> y in s && y != x
  {
    if s == [] then [] else if s[0] == x then Without(s[1..], x) else [s[0]] + Without(s[1..], x)
  }

  /** The first `n`, or all. */
  function Take<S(==,!new)>(s: seq<S>, n: nat): seq<S> {
    if s == [] || n == 0 then [] else [s[0]] + Take(s[1..], n - 1)
  }

  lemma {:induction false} TakeIs<S(!new)>(s: seq<S>, n: nat)
    ensures Take(s, n) == if |s| <= n then s else s[..n]
  {
    if s != [] && n > 0 { TakeIs(s[1..], n - 1); }
  }

  lemma {:induction false} WithoutDistinct<S(!new)>(s: seq<S>, x: S)
    requires Distinct(s)
    ensures Distinct(Without(s, x)) && |Without(s, x)| == if x in s then |s| - 1 else |s|
  {
    if s != [] {
      WithoutDistinct(s[1..], x);
      assert s[0] !in s[1..];
    }
  }

  /** `Recent` lists exactly the secrets used, each once. */
  lemma {:induction false} RecentIsDistinct<S(!new)>(calls: seq<S>)
    ensures Distinct(Recent(calls)) && forall x :: x in Recent(calls) <==> x in calls
  {
    if calls != [] {
      var n := |calls| - 1;
      RecentIsDistinct(calls[..n]);
      WithoutDistinct(Recent(calls[..n]), calls[n]);
      assert calls == calls[..n] + [calls[n]];
    }
  }

  /** The earlier in `Recent`, the later the last use. */
  lemma {:induction false} RecentInOrder<S(!new)>(calls: seq<S>, i: nat, j: nat)
    requires i < j < |Recent(calls)|
    ensures exists k :: 0 <= k < |calls| && calls[k] == Recent(calls)[i]
                        && forall m :: k <= m < |calls| ==> calls[m] != Recent(calls)[j]
    decreases |calls|
  {
    var n := |calls| - 1;
    var front, last := calls[..n], calls[n];
    RecentIsDistinct(calls);
    if i == 0 {
      assert calls[n] == Recent(calls)[0] && forall m :: n <= m < |calls| ==> calls[m] != Recent(calls)[j];
    } else {
      RecentIsDistinct(front);
      var i', j' := WithoutPlaces(Recent(front), last, i - 1, j - 1);
      RecentInOrder(front, i', j');
      var k :| 0 <= k < |front| && front[k] == Recent(front)[i']
               && forall m :: k <= m < |front| ==> front[m] != Recent(front)[j'];
      assert Recent(calls)[0] == last && Recent(calls)[j] != last;
      assert calls[k] == Recent(calls)[i];
      assert forall m :: k <= m < |calls| ==> calls[m] == if m < n then front[m] else last;
    }
  }

  /** Dropping an element keeps the order of the others. */
  lemma {:induction false} WithoutPlaces<S(!new)>(s: seq<S>, x: S, i: nat, j: nat) returns (i': nat, j': nat)
    requires i < j < |Without(s, x)|
    ensures i' < j' < |s| && s[i'] == Without(s, x)[i] && s[j'] == Without(s, x)[j]
  {
    if s[0] == x {
      i', j' := WithoutPlaces(s[1..], x, i, j);
      i', j' := i' + 1, j' + 1;
    } else if i > 0 {
      i', j' := WithoutPlaces(s[1..], x, i - 1, j - 1);
      i', j' := i' + 1, j' + 1;
    } else {
      j' := WithoutPlace(s[1..], x, j - 1);
      i', j' := 0, j' + 1;
    }
  }

  lemma {:induction false} WithoutPlace<S(!new)>(s: seq<S>, x: S, j: nat) returns (j': nat)
    requires j < |Without(s, x)|
    ensures j' < |s| && s[j'] == Without(s, x)[j]
  {
    if s[0] == x {
      j' := WithoutPlace(s[1..], x, j);
      j' := j' + 1;
    } else if j > 0 {
      j' := WithoutPlace(s[1..], x, j - 1);
      j' := j' + 1;
    } else {
      j' := 0;
    }
  }

  lemma TakeCons<S(!new)>(x: S, s: seq<S>, n: nat)
    requires n > 0
    ensures Take([x] + s, n) == [x] + Take(s, n - 1)
  {
    assert ([x] + s)[1..] == s;
  }

  lemma WithoutCons<S(!new)>(x: S, s: seq<S>, y: S)
    ensures Without([x] + s, y) == if x == y then Without(s, y) else [x] + Without(s, y)
  {
    assert ([x] + s)[1..] == s;
  }

  /** Dropping `x` and cutting commute, but for the place `x` frees. */
  lemma WithoutTake<S(!new)>(s: seq<S>, x: S, n: nat)
    requires Distinct(s) && n > 0
    ensures Take(Without(s, x), n - 1) == if x in Take(s, n) then Without(Take(s, n), x) else Take(s, n - 1)
  {
    hide Take, Without;
    if x in Take(s, n) { WithoutTaken(s, x, n); } else { WithoutLater(s, x, n); }
  }

  lemma Uncons<S(!new)>(s: seq<S>)
    requires s != [] && Distinct(s)
    ensures s == [s[0]] + s[1..] && s[0] !in s[1..] && Distinct(s[1..])
  {
  }

  lemma {:induction false} WithoutTaken<S(!new)>(s: seq<S>, x: S, n: nat)
    requires Distinct(s) && n > 0 && x in Take(s, n)
    ensures Take(Without(s, x), n - 1) == Without(Take(s, n), x)
    decreases |s|
  {
    TakeSub(s, n);
    hide Take, Without, Distinct;
    var y, t := s[0], s[1..];
    Uncons(s);
    TakeCons(y, t, n);
    WithoutCons(y, t, x);
    WithoutCons(y, Take(t, n - 1), x);
    if y == x {
      TakeSub(t, n - 1);
      WithoutAbsent(t, x);
      WithoutAbsent(Take(t, n - 1), x);
    } else {
      assert x in Take(t, n - 1);
      TakeNone(t);
      WithoutTaken(t, x, n - 1);
      TakeCons(y, Without(t, x), n - 1);
    }
  }

  lemma {:induction false} WithoutLater<S(!new)>(s: seq<S>, x: S, n: nat)
    requires n > 0 && x !in Take(s, n)
    ensures Take(Without(s, x), n - 1) == Take(s, n - 1)
    decreases |s|
  {
    hide Take, Without;
    if n == 1 {
      TakeNone(s);
      TakeNone(Without(s, x));
    } else if s == [] {
      WithoutAbsent(s, x);
    } else {
      var y, t := s[0], s[1..];
      assert s == [y] + t;
      TakeCons(y, t, n);
      TakeCons(y, t, n - 1);
      WithoutCons(y, t, x);
      assert x != y && x !in Take(t, n - 1);
      WithoutLater(t, x, n - 1);
      TakeCons(y, Without(t, x), n - 1);
    }
  }

  lemma {:induction false} TakeSub<S(!new)>(s: seq<S>, n: nat)
    ensures forall x :: x in Take(s, n) ==> x in s
  {
    if s != [] && n > 0 { TakeSub(s[1..], n - 1); }
  }

  lemma TakeNone<S(!new)>(s: seq<S>)
    ensures Take(s, 0) == []
  {
  }

  lemma {:induction false} WithoutAbsent<S(!new)>(s: seq<S>, x: S)
    requires x !in s
    ensures Without(s, x) == s
  {
    if s != [] { WithoutAbsent(s[1..], x); }
  }

  // ---- the cache ----

  function Secrets<S(!new), Key>(entries: seq<(S, Key)>): (r: seq<S>)
    ensures |r| == |entries| && forall i :: 0 <= i < |r| ==> r[i] == entries[i].0
  {
    seq(|entries|, i requires 0 <= i < |entries| => entries[i].0)
  }

  lemma {:induction false} WithoutAt<S(!new)>(s: seq<S>, i: nat)
    requires Distinct(s) && i < |s|
    ensures Without(s, s[i]) == s[..i] + s[i + 1..]
  {
    assert s[0] !in s[1..];
    if i == 0 {
      WithoutAbsent(s[1..], s[0]);
    } else {
      WithoutAt(s[1..], i - 1);
      assert s[..i] == [s[0]] + s[1..][..i - 1];
    }
  }

  lemma Moved<S(!new), Key>(e: seq<(S, Key)>, i: nat)
    requires i < |e|
    ensures Secrets([e[i]] + e[..i] + e[i + 1..]) == [Secrets(e)[i]] + (Secrets(e)[..i] + Secrets(e)[i + 1..])
  {
  }

  lemma Dropped<S(!new), Key>(e: seq<(S, Key)>)
    requires e != []
    ensures Secrets(e[..|e| - 1]) == Secrets(e)[..|e| - 1]
  {
  }

  lemma Pushed<S(!new), Key>(e: seq<(S, Key)>, x: (S, Key))
    ensures Secrets([x] + e) == [x.0] + Secrets(e)
  {
  }

  /** `LruCache` of compiled keys, most recently used first. */
  class Cache<S(==,!new), Key> {
    var entries: seq<(S, Key)>
    /** The secrets of all calls so far. */
    ghost var calls: seq<S>
    /** `hmac::Key::new`. */
    const compile: S -> Key

    /** The entries are the most recently used distinct secrets, each with its own compiled key. */
    ghost predicate Valid()
      reads this
    {
      && Secrets(entries) == Take(Recent(calls), CAPACITY)
      && forall i :: 0 <= i < |entries| ==> entries[i].1 == compile(entries[i].0)
    }

    constructor (compile: S -> Key)
      ensures Valid() && calls == [] && this.compile == compile
    {
      this.compile := compile;
      entries, calls := [], [];
    }

    /** `with_hmac_key_cached`: what `f` returns on a freshly compiled key, whatever the cache held. */
    method WithKey<T>(secret: S, f: Key -> T) returns (r: T)
      requires Valid()
      modifies this
      ensures Valid() && calls == old(calls) + [secret]
      ensures r == f(compile(secret))
      ensures 0 < |entries| && entries[0] == (secret, compile(secret))
    {
      hide Recent, Take, Without, Distinct, Secrets;
      ghost var recent := Recent(calls);
      UseSecret(calls, secret);
      var hit := Lookup(secret);
      calls := calls + [secret];
      if hit.Some? {
        var i := hit.value;
        var key := entries[i].1;
        WithoutAt(Secrets(entries), i);
        Moved(entries, i);
        entries := [entries[i]] + entries[..i] + entries[i + 1..];
        return f(key);
      }
      var key := compile(secret);
      TakeIs(recent, CAPACITY);
      TakeIs(recent, CAPACITY - 1);
      if |entries| >= CAPACITY {
        Dropped(entries);
        entries := entries[..|entries| - 1];
      }
      assert Secrets(entries) == Take(recent, CAPACITY - 1);
      Pushed(entries, (secret, key));
      entries := [(secret, key)] + entries;
      return f(key);
    }

    method Lookup(secret: S) returns (r: Option<nat>)
      ensures r.Some? ==> r.value < |entries| && entries[r.value].0 == secret
      ensures r.None? ==> secret !in Secrets(entries)
    {
      for i := 0 to |entries|
        invariant forall k :: 0 <= k < i ==> entries[k].0 != secret
      {
        if entries[i].0 == secret { return Some(i); }
      }
      return None;
    }
  }

  /** What `Valid` calls the held secrets: the first sixteen of the recency list. */
  lemma HeldAreSixteen<S(!new)>(calls: seq<S>)
    ensures Take(Recent(calls), CAPACITY) == if |Recent(calls)| <= 16 then Recent(calls) else Recent(calls)[..16]
  {
    TakeIs(Recent(calls), 16);
  }

  /** What one more call does to the list of recent secrets, cut to the capacity. */
  lemma UseSecret<S(!new)>(calls: seq<S>, secret: S)
    ensures var held := Take(Recent(calls), CAPACITY);
      && Distinct(held)
      && Take(Recent(calls + [secret]), CAPACITY)
         == if secret in held then [secret] + Without(held, secret) else [secret] + Take(Recent(calls), CAPACITY - 1)
  {
    hide Take, Without;
    var recent := Recent(calls);
    RecentIsDistinct(calls);
    assert (calls + [secret])[..|calls|] == calls;
    WithoutTake(recent, secret, CAPACITY);
    TakeCons(secret, Without(recent, secret), CAPACITY);
    TakeIs(recent, CAPACITY);
  }

  // ---- the C-string buffer ----

  /** What a reader of the returned pointer sees: everything before the first NUL. */
  function CStr(s: bytes): (r: bytes)
    ensures r <= s && 0 !in r && (r == s || s[|r|] == 0)
  {
    if s == [] || s[0] == 0 then [] else [s[0]] + CStr(s[1..])
  }

  lemma {:induction false} CStrEnds(t: bytes, rest: bytes)
    ensures CStr(t + [0] + rest) == CStr(t)
  {
    if t == [] {
      assert (t + [0] + rest)[0] == 0;
    } else {
      assert (t + [0] + rest)[1..] == t[1..] + [0] + rest;
      CStrEnds(t[1..], rest);
    }
  }

  lemma {:induction false} CStrWhole(t: bytes)
    ensures CStr(t) == t <==> 0 !in t
  {
    if t != [] { CStrWhole(t[1..]); }
  }

  class CStringBuffer {
    var buf: bytes

    /** Room for the writer: at least what it needs, and all that earlier calls made. */
    function Room(needed: nat): nat
      reads this
    {
      if |buf| < needed + 1 then needed else |buf| - 1
    }

    /** `cstring_return`, for a writer that leaves `slice` in the room it is given and reports `len` bytes of it as
        written. The string read back is the one written, up to its first NUL; nothing that an earlier, longer call
        left behind shows through. It is all of it exactly when no NUL was written. */
    method Return(needed: nat, slice: bytes, len: Option<nat>) returns (ok: bool)
      requires |slice| == Room(needed) && (len.Some? ==> len.value <= |slice|)
      modifies this
      ensures |buf| == old(Room(needed)) + 1 && ok == len.Some?
      ensures ok ==> CStr(buf) == CStr(slice[..len.value])
      ensures ok ==> (CStr(buf) == slice[..len.value] <==> 0 !in slice[..len.value])
    {
      hide CStr;
      if |buf| < needed + 1 {
        buf := buf + seq(needed + 1 - |buf|, i => 0);
      }
      var cap := |buf| - 1;
      buf := slice + buf[cap..];
      ok := len.Some?;
      if ok {
        var n := len.value;
        buf := buf[n := 0];
        ghost var written := slice[..n];
        assert buf == written + [0] + buf[n + 1..];
        CStrEnds(written, buf[n + 1..]);
        CStrWhole(written);
      }
    }
  }
}
