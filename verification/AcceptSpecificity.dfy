/** The specificity negotiator (rust/http/accept.rs:130-242) on the stack path and the heap path. */
module AcceptSpecificity {
  import opened Bytes
  import Utf8
  import opened Accept
  import opened AcceptNames

  datatype Match = Match(q: Weight, spec: nat, order: nat)

  type Kind = (Pref, bytes) -> nat

  /** The entry that decides about `supported`, as the inner loop keeps it. */
  function Deciding(prefs: seq<Pref>, supported: bytes, kind: Kind): Option<Match> {
    if prefs == [] then None
    else
      var m := Deciding(prefs[..|prefs| - 1], supported, kind);
      var p := prefs[|prefs| - 1];
      var spec := kind(p, supported);
      if spec > 0 && (m.None? || spec > m.value.spec || (spec == m.value.spec && p.order < m.value.order))
      then Some(Match(p.q, spec, p.order)) else m
  }

  function Abs(x: real): real { if x < 0.0 then -x else x }

  /** The comparison of the outer loop. */
  predicate Better(c: Match, b: Match) {
    || c.spec > b.spec
    || (c.spec == b.spec && c.q.Num? && b.q.Num? && Abs(c.q.v - b.q.v) > 0.0001 && c.q.v > b.q.v)
    || (c.spec == b.spec && c.q.Num? && b.q.Num? && Abs(c.q.v - b.q.v) <= 0.0001 && c.order < b.order)
  }

  /** The candidate for a supported encoding: its deciding entry, unless that refuses it. */
  function Candidate(prefs: seq<Pref>, supported: bytes, kind: Kind): Option<Match> {
    match Deciding(prefs, supported, kind)
    case None => None
    case Some(m) => if Refused(m.q) then None else Some(m)
  }

  /** The supported encoding the outer loop ends with. */
  function Chosen(supported: seq<bytes>, prefs: seq<Pref>, kind: Kind): (r: Option<nat>)
    ensures r.Some? ==> r.value < |supported| && Candidate(prefs, supported[r.value], kind).Some?
  {
    if supported == [] then None
    else
      var n := |supported| - 1;
      var best := Chosen(supported[..n], prefs, kind);
      var c := Candidate(prefs, supported[n], kind);
      if c.Some? && (best.None? || Better(c.value, Candidate(prefs, supported[best.value], kind).value))
      then Some(n) else best
  }

  function Pick(supported: seq<bytes>, i: Option<nat>): Option<bytes>
    requires i.Some? ==> i.value < |supported|
  {
    match i case None => None case Some(k) => Some(supported[k])
  }

  function First(supported: seq<bytes>): Option<bytes> {
    if supported == [] then None else Some(supported[0])
  }

  /** One supported encoding against all prefs, in the loop of the stack path. */
  method DecideRefs(prefs: seq<Pref>, supported: bytes) returns (matched: Option<Match>)
    ensures matched == Deciding(prefs, supported, StackKind)
  {
    matched := None;
    for i := 0 to |prefs|
      invariant matched == Deciding(prefs[..i], supported, StackKind)
    {
      assert prefs[..i + 1][..i] == prefs[..i];
      var p := prefs[i];
      var same := NameEqSupported(p.name, supported);
      var spec;
      if same { spec := 2; } else if p.name == STAR { spec := 1; } else { continue; }
      var replace := matched.None? || spec > matched.value.spec
        || (spec == matched.value.spec && p.order < matched.value.order);
      if replace { matched := Some(Match(p.q, spec, p.order)); }
    }
    assert prefs[..|prefs|] == prefs;
  }

  /** `negotiate_refs`. */
  method NegotiateRefs(supported: seq<bytes>, prefs: seq<Pref>) returns (r: Option<bytes>)
    ensures r == Pick(supported, Chosen(supported, prefs, StackKind))
  {
    hide Better, Deciding;
    var best: Option<(nat, Match)> := None;
    for i := 0 to |supported|
      invariant best.Some? ==> best.value.0 < i
      invariant best.Some? ==> Candidate(prefs, supported[best.value.0], StackKind) == Some(best.value.1)
      invariant Chosen(supported[..i], prefs, StackKind) == if best.Some? then Some(best.value.0) else None
    {
      assert supported[..i + 1][..i] == supported[..i];
      var matched := DecideRefs(prefs, supported[i]);
      if matched.None? { continue; }
      if Refused(matched.value.q) { continue; }
      if best.None? || Better(matched.value, best.value.1) {
        best := Some((i, matched.value));
      }
    }
    assert supported[..|supported|] == supported;
    r := if best.Some? then Some(supported[best.value.0]) else None;
  }

  method DecideHeap(prefs: seq<Pref>, supported: bytes) returns (matched: Option<Match>)
    ensures matched == Deciding(prefs, supported, HeapKind)
  {
    matched := None;
    for i := 0 to |prefs|
      invariant matched == Deciding(prefs[..i], supported, HeapKind)
    {
      assert prefs[..i + 1][..i] == prefs[..i];
      var p := prefs[i];
      var spec;
      if p.name == supported { spec := 2; } else if p.name == STAR { spec := 1; } else { continue; }
      var replace := matched.None? || spec > matched.value.spec
        || (spec == matched.value.spec && p.order < matched.value.order);
      if replace { matched := Some(Match(p.q, spec, p.order)); }
    }
    assert prefs[..|prefs|] == prefs;
  }

  function HeapAnswer(parseQ: ParseQ, supported: seq<bytes>, header: bytes): Option<bytes> {
    var prefs := Decoded(Refs(parseQ, header));
    if prefs == [] then First(supported) else Pick(supported, Chosen(supported, prefs, HeapKind))
  }

  /** `negotiate_encoding_heap`. */
  method NegotiateHeap(parseQ: ParseQ, supported: seq<bytes>, header: bytes) returns (r: Option<bytes>)
    ensures r == HeapAnswer(parseQ, supported, header)
  {
    hide Better, Deciding, Refs, Decoded;
    var prefs := ParseHeap(parseQ, header);
    if prefs == [] { return First(supported); }
    var best: Option<(nat, Match)> := None;
    for i := 0 to |supported|
      invariant best.Some? ==> best.value.0 < i
      invariant best.Some? ==> Candidate(prefs, supported[best.value.0], HeapKind) == Some(best.value.1)
      invariant Chosen(supported[..i], prefs, HeapKind) == if best.Some? then Some(best.value.0) else None
    {
      assert supported[..i + 1][..i] == supported[..i];
      var matched := DecideHeap(prefs, supported[i]);
      if matched.None? { continue; }
      if Refused(matched.value.q) { continue; }
      if best.None? || Better(matched.value, best.value.1) {
        best := Some((i, matched.value));
      }
    }
    assert supported[..|supported|] == supported;
    r := if best.Some? then Some(supported[best.value.0]) else None;
  }

  const MAX_STACK_PREFS := 32

  function StackAnswer(parseQ: ParseQ, supported: seq<bytes>, header: bytes): Option<bytes> {
    var prefs := Refs(parseQ, header);
    if prefs == [] then First(supported) else Pick(supported, Chosen(supported, prefs, StackKind))
  }

  /** `negotiate_encoding`: the stack path when the entries fit, else the heap path. Where no supported name is
      ambiguous, the answer is the heap path's for every header. */
  method Negotiate(parseQ: ParseQ, supported: seq<bytes>, header: bytes) returns (r: Option<bytes>)
    ensures r == if |Refs(parseQ, header)| > 32 then HeapAnswer(parseQ, supported, header)
                 else StackAnswer(parseQ, supported, header)
    ensures (forall i :: 0 <= i < |supported| ==> Plain(supported[i])) ==> r == HeapAnswer(parseQ, supported, header)
  {
    hide Refs, Chosen, Plain, Decoded;
    if forall i :: 0 <= i < |supported| ==> Plain(supported[i]) { PathsAgree(parseQ, supported, header); }
    var stack := new Pref[MAX_STACK_PREFS](i => Pref([], Num(0.0), 0));
    var count := ParseRefs(parseQ, header, stack);
    if count.None? {
      r := NegotiateHeap(parseQ, supported, header);
    } else if count.value == 0 {
      r := First(supported);
    } else {
      r := NegotiateRefs(supported, stack[..count.value]);
    }
  }

  lemma {:induction false} DecidingAgrees(prefs: seq<Pref>, supported: bytes)
    requires Plain(supported) && AllSpellable(prefs)
    ensures Deciding(Decoded(prefs), supported, HeapKind) == Deciding(prefs, supported, StackKind)
  {
    hide Plain, HeapName, Spellable;
    if prefs != [] {
      var n := |prefs| - 1;
      assert Decoded(prefs)[..n] == Decoded(prefs[..n]);
      DecidingAgrees(prefs[..n], supported);
      KindsAgree(prefs[n], supported);
    }
  }

  lemma {:induction false} ChosenAgrees(supported: seq<bytes>, prefs: seq<Pref>)
    requires AllSpellable(prefs) && forall i :: 0 <= i < |supported| ==> Plain(supported[i])
    ensures Chosen(supported, Decoded(prefs), HeapKind) == Chosen(supported, prefs, StackKind)
  {
    hide Plain, Deciding, Decoded, Better, AllSpellable;
    if supported != [] {
      var n := |supported| - 1;
      ChosenAgrees(supported[..n], prefs);
      DecidingAgrees(prefs, supported[n]);
      var best := Chosen(supported[..n], prefs, StackKind);
      if best.Some? {
        assert supported[..n][best.value] == supported[best.value];
        DecidingAgrees(prefs, supported[best.value]);
      }
    }
  }

  /** Stack path and heap path give the same answer to every header if no supported name is confusable. */
  lemma PathsAgree(parseQ: ParseQ, supported: seq<bytes>, header: bytes)
    requires forall i :: 0 <= i < |supported| ==> Plain(supported[i])
    ensures StackAnswer(parseQ, supported, header) == HeapAnswer(parseQ, supported, header)
  {
    hide Refs, Plain, Chosen, AllSpellable;
    RefsSpell(parseQ, header);
    ChosenAgrees(supported, Refs(parseQ, header));
  }

  /** A header that only spells a confusable name, with a stray byte for the U+FFFD. */
  lemma ConfusingHeader(parseQ: ParseQ, s: bytes) returns (name: bytes)
    requires Utf8.Valid(s) && Confusable(s)
    ensures Refs(parseQ, name) == [Pref(name, Num(1.0), 0)] && HeapName(name) == s && !Utf8.Valid(name)
    ensures forall t :: Utf8.Valid(t) ==> StackKind(Pref(name, Num(1.0), 0), t) == 0
  {
    hide HeapName, Utf8.Valid, LowerAll, Refs, Ambiguous, Solid;
    name := NamesDisagree(s);
    var e := Element([], name, [], None);
    assert PrintHeader([e]) == name by { assert [] + (name + []) == name; }
    HeaderReads(parseQ, [e]);
    LowerValid(name);
    StarIsPlain();
  }

  lemma {:induction false} CandidateIsChosen(supported: seq<bytes>, prefs: seq<Pref>, kind: Kind, i: nat)
    requires i < |supported| && Candidate(prefs, supported[i], kind).Some?
    ensures Chosen(supported, prefs, kind).Some?
    decreases |supported|
  {
    hide Candidate, Better;
    var n := |supported| - 1;
    if i < n { CandidateIsChosen(supported[..n], prefs, kind, i); }
  }

  lemma PathsDisagree(parseQ: ParseQ, supported: seq<bytes>, i: nat) returns (header: bytes)
    requires i < |supported| && Confusable(supported[i])
    requires forall j :: 0 <= j < |supported| ==> Utf8.Valid(supported[j])
    ensures StackAnswer(parseQ, supported, header) != HeapAnswer(parseQ, supported, header)
  {
    hide Refs, HeapName, Confusable, Utf8.Valid, Better, StackKind;
    header := ConfusingHeader(parseQ, supported[i]);
    var p := Pref(header, Num(1.0), 0);
    OneEntry(p, StackKind);
    var raw := Chosen(supported, [p], StackKind);
    assert raw.None?;
    var q := p.(name := HeapName(header));
    assert Decoded([p]) == [q];
    OneEntry(q, HeapKind);
    CandidateIsChosen(supported, [q], HeapKind, i);
  }

  lemma OneEntry(p: Pref, kind: Kind)
    requires p.q == Num(1.0)
    ensures forall s :: Candidate([p], s, kind).Some? <==> kind(p, s) > 0
  {
    forall s
      ensures Candidate([p], s, kind).Some? <==> kind(p, s) > 0
    {
      assert [p][..0] == [] && Deciding([], s, kind).None?;
      assert Deciding([p], s, kind) == if kind(p, s) > 0 then Some(Match(p.q, kind(p, s), p.order)) else None;
    }
  }

  /** They give the same answer to every header exactly when no supported name is confusable. */
  lemma PathsAgreeIff(parseQ: ParseQ, supported: seq<bytes>)
    requires forall i :: 0 <= i < |supported| ==> Utf8.Valid(supported[i])
    ensures (forall header :: StackAnswer(parseQ, supported, header) == HeapAnswer(parseQ, supported, header))
            <==> forall i :: 0 <= i < |supported| ==> !Confusable(supported[i])
  {
    hide StackAnswer, HeapAnswer, Confusable, Utf8.Valid;
    if i :| 0 <= i < |supported| && Confusable(supported[i]) {
      var header := PathsDisagree(parseQ, supported, i);
    } else {
      forall header
        ensures StackAnswer(parseQ, supported, header) == HeapAnswer(parseQ, supported, header)
      {
        PathsAgree(parseQ, supported, header);
      }
    }
  }

  // ---- what the specificity negotiator answers ----

  /** The deciding entry is the most specific one, and of those the earliest. */
  lemma {:induction false} DecidingIs(prefs: seq<Pref>, supported: bytes, kind: Kind)
    requires forall i :: 0 <= i < |prefs| ==> prefs[i].order == i
    ensures Deciding(prefs, supported, kind).None? <==> forall i :: 0 <= i < |prefs| ==> kind(prefs[i], supported) == 0
    ensures forall m :: Deciding(prefs, supported, kind) == Some(m) ==>
      && m.order < |prefs| && m == Match(prefs[m.order].q, kind(prefs[m.order], supported), m.order) && m.spec > 0
      && (forall i :: 0 <= i < |prefs| ==> kind(prefs[i], supported) <= m.spec)
      && (forall i :: 0 <= i < m.order ==> kind(prefs[i], supported) < m.spec)
  {
    if prefs != [] {
      var n := |prefs| - 1;
      DecidingIs(prefs[..n], supported, kind);
      assert forall i :: 0 <= i < n ==> prefs[..n][i] == prefs[i];
    }
  }

  /** Exact match over wildcard, then higher quality (NaN, which is none, below all), then earlier in the header. */
  predicate Above(a: Match, b: Match) {
    || a.spec > b.spec
    || (a.spec == b.spec && (Greater(a.q, b.q) || (a.q.Num? && b.q.NaN?) || (a.q == b.q && a.order < b.order)))
  }

  /** Two candidates that the outer loop does not compare by quality: the earlier entry's is lower by no more than the
      tolerance, or one is NaN. */
  predicate Crossed(a: Match, b: Match) {
    && a.spec == b.spec && a.order != b.order
    && (a.q.NaN? || b.q.NaN? || (a.order < b.order && a.q.v < b.q.v <= a.q.v + 0.0001))
  }

  ghost predicate NoneCrossed(supported: seq<bytes>, prefs: seq<Pref>, kind: Kind) {
    forall s, t :: s in supported && t in supported
                   && Candidate(prefs, s, kind).Some? && Candidate(prefs, t, kind).Some? ==>
      !Crossed(Candidate(prefs, s, kind).value, Candidate(prefs, t, kind).value)
  }

  lemma CandidateComesFromPrefs(prefs: seq<Pref>, supported: bytes, kind: Kind)
    requires forall i :: 0 <= i < |prefs| ==> prefs[i].order == i
    ensures forall m :: Candidate(prefs, supported, kind) == Some(m) ==>
      !Refused(m.q) && m.order < |prefs| && m.q == prefs[m.order].q
  {
    DecidingIs(prefs, supported, kind);
  }

  lemma BetterIsAbove(prefs: seq<Pref>, s: bytes, t: bytes, kind: Kind)
    requires forall i :: 0 <= i < |prefs| ==> prefs[i].order == i
    requires Candidate(prefs, s, kind).Some? && Candidate(prefs, t, kind).Some?
    requires var a, b := Candidate(prefs, s, kind).value, Candidate(prefs, t, kind).value;
      !Crossed(a, b) && !Crossed(b, a)
    ensures var a, b := Candidate(prefs, s, kind).value, Candidate(prefs, t, kind).value;
      Better(a, b) <==> Above(a, b)
  {
    hide Candidate;
    CandidateComesFromPrefs(prefs, s, kind);
    CandidateComesFromPrefs(prefs, t, kind);
  }

  /** The chosen encoding has a candidate entry, none is above it, and among equals it is the first. When none is
      chosen, no encoding has one. */
  ghost predicate Optimal(supported: seq<bytes>, prefs: seq<Pref>, kind: Kind, r: Option<nat>) {
    match r
    case None => forall j :: 0 <= j < |supported| ==> Candidate(prefs, supported[j], kind).None?
    case Some(i) =>
      && i < |supported| && Candidate(prefs, supported[i], kind).Some?
      && forall j :: 0 <= j < |supported| && Candidate(prefs, supported[j], kind).Some? ==>
           var a, b := Candidate(prefs, supported[i], kind).value, Candidate(prefs, supported[j], kind).value;
           !Above(b, a) && (j < i ==> Above(a, b))
  }

  /** Unless two candidates are crossed, the specificity negotiator's answer is the best by specificity, quality and
      client order, for the raw and the decoded path alike. */
  lemma {:induction false} ChosenIsOptimal(supported: seq<bytes>, prefs: seq<Pref>, kind: Kind)
    requires NoneCrossed(supported, prefs, kind) && forall i :: 0 <= i < |prefs| ==> prefs[i].order == i
    ensures Optimal(supported, prefs, kind, Chosen(supported, prefs, kind))
    decreases |supported|
  {
    hide Candidate, Better, Crossed;
    if supported != [] {
      var n := |supported| - 1;
      var front := supported[..n];
      ChosenIsOptimal(front, prefs, kind);
      var best := Chosen(front, prefs, kind);
      assert forall j :: 0 <= j < n ==> front[j] == supported[j];
      if best.Some? && Candidate(prefs, supported[n], kind).Some? {
        BetterIsAbove(prefs, supported[n], supported[best.value], kind);
      }
    }
  }

  /** Of two crossed candidates the better one loses when its encoding is listed last. */
  lemma CrossedIsNotOptimal(s: bytes, t: bytes, prefs: seq<Pref>, kind: Kind)
    requires Candidate(prefs, s, kind).Some? && Candidate(prefs, t, kind).Some?
    requires var a, b := Candidate(prefs, s, kind).value, Candidate(prefs, t, kind).value;
      (Crossed(a, b) || Crossed(b, a)) && Above(b, a)
    ensures !Optimal([s, t], prefs, kind, Chosen([s, t], prefs, kind))
  {
    hide Candidate;
    assert [s, t][..1] == [s] && [s][..0] == [];
    assert Chosen([], prefs, kind).None?;
    assert Chosen([s], prefs, kind) == Some(0);
    assert Chosen([s, t], prefs, kind) == Some(0);
    assert [s, t][1] == t;
  }

  /** The negotiator is right for the supported names, however listed, exactly if no two of them are crossed. */
  lemma OptimalIff(supported: seq<bytes>, prefs: seq<Pref>, kind: Kind)
    requires forall i :: 0 <= i < |prefs| ==> prefs[i].order == i
    ensures (forall l: seq<bytes> :: (forall x :: x in l ==> x in supported) ==>
              Optimal(l, prefs, kind, Chosen(l, prefs, kind)))
            <==> NoneCrossed(supported, prefs, kind)
  {
    hide Candidate, Chosen, Optimal, Above, Crossed;
    if NoneCrossed(supported, prefs, kind) {
      forall l: seq<bytes> | forall x :: x in l ==> x in supported
        ensures Optimal(l, prefs, kind, Chosen(l, prefs, kind))
      {
        ChosenIsOptimal(l, prefs, kind);
      }
    } else {
      var s, t :| s in supported && t in supported
        && Candidate(prefs, s, kind).Some? && Candidate(prefs, t, kind).Some?
        && Crossed(Candidate(prefs, s, kind).value, Candidate(prefs, t, kind).value);
      CrossedIsOrdered(Candidate(prefs, s, kind).value, Candidate(prefs, t, kind).value);
      if Above(Candidate(prefs, t, kind).value, Candidate(prefs, s, kind).value) {
        CrossedIsNotOptimal(s, t, prefs, kind);
      } else {
        CrossedIsNotOptimal(t, s, prefs, kind);
      }
    }
  }

  lemma CrossedIsOrdered(a: Match, b: Match)
    requires Crossed(a, b)
    ensures Above(a, b) || Above(b, a)
  {
  }

  /** A number of at most three decimals. */
  predicate ThreeDecimals(q: Weight) { q.Num? && (q.v * 1000.0).Floor as real == q.v * 1000.0 }

  /** Then none are crossed, so the answer is optimal. */
  lemma ThreeDecimalsSeparate(supported: seq<bytes>, prefs: seq<Pref>, kind: Kind)
    requires forall i :: 0 <= i < |prefs| ==> prefs[i].order == i && ThreeDecimals(prefs[i].q)
    ensures NoneCrossed(supported, prefs, kind) && Optimal(supported, prefs, kind, Chosen(supported, prefs, kind))
  {
    hide Candidate, Optimal, Chosen, ThreeDecimals;
    forall s, t | s in supported && t in supported
                  && Candidate(prefs, s, kind).Some? && Candidate(prefs, t, kind).Some?
      ensures !Crossed(Candidate(prefs, s, kind).value, Candidate(prefs, t, kind).value)
    {
      CandidateComesFromPrefs(prefs, s, kind);
      CandidateComesFromPrefs(prefs, t, kind);
      Thousandths(Candidate(prefs, s, kind).value.q, Candidate(prefs, t, kind).value.q);
    }
    ChosenIsOptimal(supported, prefs, kind);
  }

  lemma Thousandths(a: Weight, b: Weight)
    requires ThreeDecimals(a) && ThreeDecimals(b)
    ensures a.Num? && b.Num? && (a.v < b.v ==> b.v > a.v + 0.0001)
  {
    var i, j := (a.v * 1000.0).Floor, (b.v * 1000.0).Floor;
    assert i < j ==> i <= j - 1;
  }

  // ---- headers it is wrong for ----

  const GZIP: bytes := Ascii("gzip")
  const BR: bytes := Ascii("br")

  function Weighted(before: bytes, name: bytes, weight: bytes): Element {
    Element(before, name, [], Some(Param([], Ascii("q"), weight, [])))
  }

  function TwoWeights(a: bytes, b: bytes): bytes { Ascii("gzip;q=") + a + Ascii(", br;q=") + b }

  lemma WeightedIs(before: bytes, name: bytes, weight: bytes)
    ensures PrintElement(Weighted(before, name, weight)) == before + name + [SEMI, 0x71, EQUALS] + weight
  {
    assert Ascii("q") == [0x71];
  }

  lemma TwoWeightsIs(a: bytes, b: bytes)
    ensures TwoWeights(a, b) == PrintHeader([Weighted([], GZIP, a), Weighted([SPACE], BR, b)])
  {
    hide PrintElement, Weighted;
    var x, y := Weighted([], GZIP, a), Weighted([SPACE], BR, b);
    WeightedIs([], GZIP, a);
    WeightedIs([SPACE], BR, b);
    assert [x, y][1..] == [y] && PrintHeader([y]) == PrintElement(y);
    assert Ascii("gzip;q=") == [] + GZIP + [SEMI, 0x71, EQUALS];
    assert Ascii(", br;q=") == [COMMA] + ([SPACE] + BR + [SEMI, 0x71, EQUALS]);
    Assoc(PrintElement(x), [COMMA] + ([SPACE] + BR + [SEMI, 0x71, EQUALS]), b);
    Assoc([COMMA], [SPACE] + BR + [SEMI, 0x71, EQUALS], b);
    Assoc(PrintElement(x), [COMMA], PrintElement(y));
  }

  lemma TwoWeightsRead(parseQ: ParseQ, a: bytes, b: bytes, p: Weight, q: Weight)
    requires Solid(a) && Solid(b) && COMMA !in a && COMMA !in b
    requires parseQ(a) == Some(p) && parseQ(b) == Some(q)
    ensures Refs(parseQ, TwoWeights(a, b)) == [Pref(GZIP, p, 0), Pref(BR, q, 1)]
  {
    hide Refs, PrintHeader;
    var es := [Weighted([], GZIP, a), Weighted([SPACE], BR, b)];
    assert WellFormed(es[0]) && WellFormed(es[1]);
    TwoWeightsIs(a, b);
    HeaderReads(parseQ, es);
  }

  lemma TwoCandidates(p: Weight, q: Weight)
    requires !Refused(p) && !Refused(q)
    ensures var prefs := [Pref(GZIP, p, 0), Pref(BR, q, 1)];
      && Candidate(prefs, GZIP, StackKind) == Some(Match(p, 2, 0))
      && Candidate(prefs, BR, StackKind) == Some(Match(q, 2, 1))
  {
    var prefs := [Pref(GZIP, p, 0), Pref(BR, q, 1)];
    assert prefs[..1] == [prefs[0]] && prefs[..1][..0] == [];
    assert LowerAll(GZIP) == GZIP && LowerAll(BR) == BR;
    assert GZIP != BR && GZIP != STAR && BR != STAR;
    assert Deciding(prefs[..1], GZIP, StackKind) == Some(Match(p, 2, 0));
    assert Deciding(prefs[..1], BR, StackKind) == None;
  }

  lemma TwoSupported(s: bytes, t: bytes, prefs: seq<Pref>)
    requires Candidate(prefs, s, StackKind).Some? && Candidate(prefs, t, StackKind).Some?
    ensures Pick([s, t], Chosen([s, t], prefs, StackKind))
            == Some(if Better(Candidate(prefs, t, StackKind).value, Candidate(prefs, s, StackKind).value) then t else s)
  {
    hide Candidate, Better;
    assert [s, t][..1] == [s] && [s][..0] == [];
    assert Chosen([], prefs, StackKind).None?;
    assert Chosen([s], prefs, StackKind) == Some(0);
  }

  /** Qualities within the tolerance count as equal, so the earlier entry wins over the higher quality: the header
      `gzip;q=0.5, br;q=0.50005` is answered with gzip, however the two are listed. */
  lemma ToleranceHidesQuality(parseQ: ParseQ)
    requires parseQ(Ascii("0.5")) == Some(Num(0.5)) && parseQ(Ascii("0.50005")) == Some(Num(0.50005))
    ensures var header := TwoWeights(Ascii("0.5"), Ascii("0.50005"));
      && StackAnswer(parseQ, [GZIP, BR], header) == Some(GZIP) && StackAnswer(parseQ, [BR, GZIP], header) == Some(GZIP)
      && !NoneCrossed([GZIP, BR], Refs(parseQ, header), StackKind)
  {
    hide Refs, Candidate, Chosen, TwoWeights;
    TwoWeightsRead(parseQ, Ascii("0.5"), Ascii("0.50005"), Num(0.5), Num(0.50005));
    var prefs := [Pref(GZIP, Num(0.5), 0), Pref(BR, Num(0.50005), 1)];
    TwoCandidates(Num(0.5), Num(0.50005));
    TwoSupported(GZIP, BR, prefs);
    TwoSupported(BR, GZIP, prefs);
    assert GZIP in [GZIP, BR] && BR in [GZIP, BR];
  }

  /** A quality that parses as NaN is not refused, and then the list decides: `gzip;q=nan, br;q=1` is answered with
      whichever is listed first. */
  lemma NanHidesQuality(parseQ: ParseQ)
    requires parseQ(Ascii("nan")) == Some(NaN) && parseQ(Ascii("1")) == Some(Num(1.0))
    ensures var header := TwoWeights(Ascii("nan"), Ascii("1"));
      StackAnswer(parseQ, [GZIP, BR], header) == Some(GZIP) && StackAnswer(parseQ, [BR, GZIP], header) == Some(BR)
  {
    hide Refs, Candidate, Chosen, TwoWeights;
    TwoWeightsRead(parseQ, Ascii("nan"), Ascii("1"), NaN, Num(1.0));
    var prefs := [Pref(GZIP, NaN, 0), Pref(BR, Num(1.0), 1)];
    TwoCandidates(NaN, Num(1.0));
    TwoSupported(GZIP, BR, prefs);
    TwoSupported(BR, GZIP, prefs);
  }
}
