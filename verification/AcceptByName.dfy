/** What the two negotiators answer (rust/http/accept.rs:130-330), said of the names and qualities in the header. */
module AcceptByName {
  import opened Bytes
  import opened Accept
  import opened AcceptNames
  import opened AcceptSpecificity
  import opened AcceptServer

  datatype Path = Stack | Heap

  function KindOf(path: Path): Kind { if path.Stack? then StackKind else HeapKind }

  /** The entries as the path sees them, in header order. */
  function Entries(path: Path, parseQ: ParseQ, header: bytes): (r: seq<Pref>)
    ensures forall i :: 0 <= i < |r| ==> r[i].order == i
  {
    if path.Stack? then Refs(parseQ, header) else Decoded(Refs(parseQ, header))
  }

  function Answer(path: Path, parseQ: ParseQ, supported: seq<bytes>, header: bytes): Option<bytes> {
    if path.Stack? then StackAnswer(parseQ, supported, header) else HeapAnswer(parseQ, supported, header)
  }

  function ServerAnswer(path: Path, parseQ: ParseQ, supported: seq<bytes>, header: bytes): Option<bytes> {
    if path.Stack? then ServerStackAnswer(parseQ, supported, header) else ServerHeapAnswer(parseQ, supported, header)
  }

  /** The entry names `s`, but for case; the heap path has lowercased it already. */
  predicate Names(path: Path, p: Pref, s: bytes) {
    (if path.Stack? then LowerAll(p.name) else p.name) == s
  }

  ghost predicate Unnamed(path: Path, prefs: seq<Pref>, s: bytes) {
    forall i :: 0 <= i < |prefs| ==> !Names(path, prefs[i], s)
  }

  /** Entry `i` is the first to name `s`. */
  ghost predicate FirstNaming(path: Path, prefs: seq<Pref>, s: bytes, i: nat) {
    i < |prefs| && Names(path, prefs[i], s) && forall j :: 0 <= j < i ==> !Names(path, prefs[j], s)
  }

  /** Entry `i` is the first `*`. */
  ghost predicate FirstStar(prefs: seq<Pref>, i: nat) {
    i < |prefs| && prefs[i].name == [0x2A] && forall j :: 0 <= j < i ==> prefs[j].name != [0x2A]
  }

  /** Entry `i` decides about `s`: it is the first to name it, or the first `*` if none does. */
  ghost predicate Decides(path: Path, prefs: seq<Pref>, s: bytes, i: nat) {
    FirstNaming(path, prefs, s, i) || (Unnamed(path, prefs, s) && FirstStar(prefs, i))
  }

  predicate Ordered(prefs: seq<Pref>) { forall i :: 0 <= i < |prefs| ==> prefs[i].order == i }

  lemma KindIs(path: Path, p: Pref, s: bytes)
    ensures KindOf(path)(p, s) == if Names(path, p, s) then 2 else if p.name == [0x2A] then 1 else 0
  {
  }

  /** That entry is the one that the inner loop ends with. */
  lemma DecidedByName(path: Path, prefs: seq<Pref>, s: bytes)
    requires Ordered(prefs)
    ensures forall i: nat :: Decides(path, prefs, s, i) ==>
      Deciding(prefs, s, KindOf(path)) == Some(Match(prefs[i].q, if Names(path, prefs[i], s) then 2 else 1, i))
    ensures Deciding(prefs, s, KindOf(path)).Some? ==>
      Decides(path, prefs, s, Deciding(prefs, s, KindOf(path)).value.order)
  {
    hide Deciding, Names, KindOf;
    DecidingIs(prefs, s, KindOf(path));
    forall i | 0 <= i < |prefs|
      ensures KindOf(path)(prefs[i], s)
              == if Names(path, prefs[i], s) then 2 else if prefs[i].name == [0x2A] then 1 else 0
    {
      KindIs(path, prefs[i], s);
    }
  }

  /** No candidate is more specific than the one chosen. */
  lemma {:induction false} ChosenIsMostSpecific(supported: seq<bytes>, prefs: seq<Pref>, kind: Kind, j: nat)
    requires j < |supported| && Candidate(prefs, supported[j], kind).Some?
    ensures var r := Chosen(supported, prefs, kind);
      && r.Some?
      && Candidate(prefs, supported[j], kind).value.spec <= Candidate(prefs, supported[r.value], kind).value.spec
    decreases |supported|
  {
    hide Candidate;
    var n := |supported| - 1;
    if j < n { ChosenIsMostSpecific(supported[..n], prefs, kind, j); }
  }

  /** An encoding whose first entry has quality 0 is never answered, whatever a wildcard says. */
  lemma RefusedIsNotAnswered(path: Path, parseQ: ParseQ, supported: seq<bytes>, header: bytes, s: bytes, i: nat)
    requires var prefs := Entries(path, parseQ, header);
      FirstNaming(path, prefs, s, i) && prefs[i].q.Num? && prefs[i].q.v <= 0.0
    ensures Answer(path, parseQ, supported, header) != Some(s)
  {
    hide Refs, Decoded, Deciding, FirstNaming, Chosen;
    var prefs := Entries(path, parseQ, header);
    FirstIsThere(path, prefs, s, i);
    DecidedByName(path, prefs, s);
    assert Decides(path, prefs, s, i);
  }

  lemma FirstIsThere(path: Path, prefs: seq<Pref>, s: bytes, i: nat)
    requires FirstNaming(path, prefs, s, i)
    ensures prefs != [] && i < |prefs|
  {
  }

  /** An encoding that only a wildcard admits is answered only if every supported one that is named is refused. */
  lemma NamedComesFirst(path: Path, parseQ: ParseQ, supported: seq<bytes>, header: bytes, s: bytes, j: nat, i: nat)
    requires Entries(path, parseQ, header) != [] && Answer(path, parseQ, supported, header) == Some(s)
    requires Unnamed(path, Entries(path, parseQ, header), s)
    requires j < |supported| && FirstNaming(path, Entries(path, parseQ, header), supported[j], i)
    ensures var q := Entries(path, parseQ, header)[i].q; q.Num? && q.v <= 0.0
  {
    hide Refs, Decoded, Deciding, Unnamed, FirstNaming, Chosen, KindOf;
    var prefs := Entries(path, parseQ, header);
    FirstIsThere(path, prefs, supported[j], i);
    DecidedByName(path, prefs, supported[j]);
    DecidedByName(path, prefs, s);
    assert Decides(path, prefs, supported[j], i);
    FirstNames(path, prefs, supported[j], i);
    KindOfPath(path);
    var r := Chosen(supported, prefs, KindOf(path)).value;
    assert supported[r] == s;
    var m := Deciding(prefs, s, KindOf(path)).value;
    assert Decides(path, prefs, s, m.order);
    NoneNames(path, prefs, s, m.order);
    if Candidate(prefs, supported[j], KindOf(path)).Some? { ChosenIsMostSpecific(supported, prefs, KindOf(path), j); }
  }

  lemma FirstNames(path: Path, prefs: seq<Pref>, s: bytes, i: nat)
    requires FirstNaming(path, prefs, s, i)
    ensures Names(path, prefs[i], s)
  {
  }

  lemma NoneNames(path: Path, prefs: seq<Pref>, s: bytes, i: nat)
    requires Unnamed(path, prefs, s) && Decides(path, prefs, s, i)
    ensures i < |prefs| && !Names(path, prefs[i], s)
  {
  }

  lemma KindOfPath(path: Path)
    ensures KindOf(path) == if path.Stack? then StackKind else HeapKind
  {
  }

  predicate Positive(q: Weight) { q.Num? && q.v > 0.0 }

  /** Entry `i`, deciding about `s`, comes before entry `j`, deciding about `t`: exact over wildcard, then higher
      quality, then earlier in the header. */
  predicate Outranks(path: Path, prefs: seq<Pref>, s: bytes, i: nat, t: bytes, j: nat)
    requires i < |prefs| && j < |prefs| && prefs[i].q.Num? && prefs[j].q.Num?
  {
    || (Names(path, prefs[i], s) && !Names(path, prefs[j], t))
    || ((Names(path, prefs[i], s) <==> Names(path, prefs[j], t))
        && (prefs[i].q.v > prefs[j].q.v || (prefs[i].q.v == prefs[j].q.v && i <= j)))
  }

  /** With qualities of three decimals, the answer is an encoding whose deciding entry has positive quality and comes
      before those of all others; none if there is no such encoding; and without entries the first supported. */
  lemma BestByName(path: Path, parseQ: ParseQ, supported: seq<bytes>, header: bytes)
    requires forall i :: 0 <= i < |Entries(path, parseQ, header)| ==> ThreeDecimals(Entries(path, parseQ, header)[i].q)
    ensures var prefs, r := Entries(path, parseQ, header), Answer(path, parseQ, supported, header);
      && (prefs == [] ==> r == if supported == [] then None else Some(supported[0]))
      && (prefs != [] && r.None? ==>
            forall t, j: nat :: t in supported && Decides(path, prefs, t, j) ==> !Positive(prefs[j].q))
      && (prefs != [] && r.Some? ==>
            exists i: nat :: && r.value in supported && Decides(path, prefs, r.value, i) && Positive(prefs[i].q)
              && forall t, j: nat :: t in supported && Decides(path, prefs, t, j) && Positive(prefs[j].q) ==>
                   Outranks(path, prefs, r.value, i, t, j))
  {
    hide Refs, Decoded, ThreeDecimals, Decides, Candidate, Chosen, Optimal, Names;
    var prefs := Entries(path, parseQ, header);
    if prefs != [] {
      KindOfPath(path);
      hide KindOf;
      NumbersOnly(prefs);
      ThreeDecimalsSeparate(supported, prefs, KindOf(path));
      OptimalByName(path, supported, prefs, Chosen(supported, prefs, KindOf(path)));
    }
  }

  lemma NumbersOnly(prefs: seq<Pref>)
    requires forall i :: 0 <= i < |prefs| ==> ThreeDecimals(prefs[i].q)
    ensures forall i :: 0 <= i < |prefs| ==> prefs[i].q.Num?
  {
  }

  lemma CandidateByName(path: Path, prefs: seq<Pref>, s: bytes)
    requires Ordered(prefs) && forall i :: 0 <= i < |prefs| ==> prefs[i].q.Num?
    ensures forall i: nat :: Decides(path, prefs, s, i) && Positive(prefs[i].q) ==>
      Candidate(prefs, s, KindOf(path)) == Some(Match(prefs[i].q, if Names(path, prefs[i], s) then 2 else 1, i))
    ensures forall m :: Candidate(prefs, s, KindOf(path)) == Some(m) ==>
      && Decides(path, prefs, s, m.order) && Positive(prefs[m.order].q)
      && m == Match(prefs[m.order].q, if Names(path, prefs[m.order], s) then 2 else 1, m.order)
  {
    hide Deciding, Names, KindOf;
    DecidedByName(path, prefs, s);
  }

  lemma OptimalByName(path: Path, supported: seq<bytes>, prefs: seq<Pref>, r: Option<nat>)
    requires Ordered(prefs) && forall i :: 0 <= i < |prefs| ==> prefs[i].q.Num?
    requires Optimal(supported, prefs, KindOf(path), r)
    ensures r.None? ==> forall t, j: nat :: t in supported && Decides(path, prefs, t, j) ==> !Positive(prefs[j].q)
    ensures r.Some? ==> r.value < |supported| && exists i: nat ::
      && Decides(path, prefs, supported[r.value], i) && Positive(prefs[i].q)
      && forall t, j: nat :: t in supported && Decides(path, prefs, t, j) && Positive(prefs[j].q) ==>
           Outranks(path, prefs, supported[r.value], i, t, j)
  {
    hide Candidate, KindOf, Decides, Names;
    DecidersExist(path, prefs);
    forall t | t in supported
      ensures r.None? ==> forall j: nat :: Decides(path, prefs, t, j) ==> !Positive(prefs[j].q)
    {
      CandidateByName(path, prefs, t);
    }
    if r.Some? {
      var s := supported[r.value];
      CandidateByName(path, prefs, s);
      var i := Candidate(prefs, s, KindOf(path)).value.order;
      forall t, j: nat | t in supported && Decides(path, prefs, t, j) && Positive(prefs[j].q)
        ensures Outranks(path, prefs, s, i, t, j)
      {
        CandidateByName(path, prefs, t);
      }
      assert Decides(path, prefs, s, i);
    }
  }

  lemma DecidersExist(path: Path, prefs: seq<Pref>)
    ensures forall t, j: nat :: Decides(path, prefs, t, j) ==> j < |prefs|
  {
  }

  // ---- by server preference ----

  /** What counts for `s`: the quality of the first entry that names it; else the highest of the `*` entries, unless
      none is a number that is 0 or more, which refuses it. */
  lemma EffectiveByName(path: Path, prefs: seq<Pref>, s: bytes)
    ensures var e := Effective(prefs, s, KindOf(path));
      && (forall i: nat :: FirstNaming(path, prefs, s, i) ==> e == prefs[i].q)
      && (Unnamed(path, prefs, s) && (exists i :: 0 <= i < |prefs| && StarOf(prefs[i])) ==>
            && (exists i :: 0 <= i < |prefs| && StarOf(prefs[i]) && e == prefs[i].q)
            && (forall i :: 0 <= i < |prefs| && StarOf(prefs[i]) ==> prefs[i].q.v <= e.v))
      && (Unnamed(path, prefs, s) && (forall i :: 0 <= i < |prefs| ==> !StarOf(prefs[i])) ==> e == Num(-1.0))
  {
    hide Wildcard, Explicit, Names, KindOf;
    ExplicitIs(prefs, s, KindOf(path));
    forall i | 0 <= i < |prefs|
      ensures KindOf(path)(prefs[i], s) == 2 <==> Names(path, prefs[i], s)
    {
      KindIs(path, prefs[i], s);
    }
  }

  /** With numbers for qualities, the server's answer is the first supported encoding of the highest positive quality,
      and none if no quality is positive. */
  lemma ServerBestByName(path: Path, parseQ: ParseQ, supported: seq<bytes>, header: bytes)
    requires Entries(path, parseQ, header) != []
    requires forall i :: 0 <= i < |Entries(path, parseQ, header)| ==> Entries(path, parseQ, header)[i].q.Num?
    ensures var prefs, r := Entries(path, parseQ, header), ServerAnswer(path, parseQ, supported, header);
      && (forall t :: t in supported ==> Effective(prefs, t, KindOf(path)).Num?)
      && (r.None? ==> forall t :: t in supported ==> Effective(prefs, t, KindOf(path)).v <= 0.0)
      && (r.Some? ==> exists i: nat ::
            && i < |supported| && supported[i] == r.value
            && Effective(prefs, supported[i], KindOf(path)).v > 0.0
            && (forall t :: t in supported ==>
                  Effective(prefs, t, KindOf(path)).v <= Effective(prefs, r.value, KindOf(path)).v)
            && (forall t :: t in supported[..i] ==>
                  Effective(prefs, t, KindOf(path)).v < Effective(prefs, r.value, KindOf(path)).v))
  {
    hide Refs, Decoded, Effective, FirstIsNumber, ServerChosen;
    var prefs := Entries(path, parseQ, header);
    forall t | t in supported
      ensures Effective(prefs, t, KindOf(path)).Num?
    {
      NumbersCount(path, prefs, t);
    }
    KindOfPath(path);
    var r := ServerChosen(supported, prefs, KindOf(path));
    if r.Some? { assert supported[r.value] in supported; }
  }

  lemma NumbersCount(path: Path, prefs: seq<Pref>, s: bytes)
    requires forall i :: 0 <= i < |prefs| ==> prefs[i].q.Num?
    ensures Effective(prefs, s, KindOf(path)).Num?
  {
    hide KindOf, Wildcard;
    ExplicitIs(prefs, s, KindOf(path));
  }

  /** `*` with a quality that is 0 or more. */
  predicate StarOf(p: Pref) { p.name == [0x2A] && p.q.Num? && p.q.v >= 0.0 }

  /** The empty header, and every other without a named element, is answered with the first supported encoding by
      one negotiator and with none by the other. */
  lemma WithoutEntries(path: Path, parseQ: ParseQ, supported: seq<bytes>, header: bytes)
    requires Entries(path, parseQ, header) == []
    ensures Answer(path, parseQ, supported, header) == if supported == [] then None else Some(supported[0])
    ensures ServerAnswer(path, parseQ, supported, header) == None
  {
    hide Refs, Decoded;
  }

  lemma EmptyHeader(parseQ: ParseQ)
    ensures Refs(parseQ, []) == []
  {
    var parts: seq<bytes> := [[]];
    assert Split([], COMMA) == parts && parts[..0] == [];
    assert Prefs(parseQ, parts[..0]) == [];
  }
}
