/** The server-preference negotiator (rust/http/accept.rs:244-330) on the stack path and the heap path. */
module AcceptServer {
  import opened Bytes
  import Utf8
  import opened Accept
  import opened AcceptNames
  import opened AcceptSpecificity

  /** Highest wildcard quality, or -1; `f32::max` passes over NaN. */
  function Wildcard(prefs: seq<Pref>): (q: real)
    ensures q >= -1.0
    ensures forall i :: 0 <= i < |prefs| && prefs[i].name == STAR && prefs[i].q.Num? ==> prefs[i].q.v <= q
    ensures q == -1.0 || exists i :: 0 <= i < |prefs| && prefs[i].name == STAR && prefs[i].q == Num(q)
  {
    if prefs == [] then -1.0
    else
      var n := |prefs| - 1;
      var w := Wildcard(prefs[..n]);
      assert forall i :: 0 <= i < n ==> prefs[..n][i] == prefs[i];
      if prefs[n].name == STAR && Greater(prefs[n].q, Num(w)) then prefs[n].q.v else w
  }

  /** Quality of the first entry that names `supported`. */
  function Explicit(prefs: seq<Pref>, supported: bytes, kind: Kind): Option<Weight> {
    if prefs == [] then None
    else if kind(prefs[0], supported) == 2 then Some(prefs[0].q)
    else Explicit(prefs[1..], supported, kind)
  }

  /** The quality that counts for `supported`; not positive when it is refused. */
  function Effective(prefs: seq<Pref>, supported: bytes, kind: Kind): Weight {
    match Explicit(prefs, supported, kind)
    case Some(q) => q
    case None => if Wildcard(prefs) >= 0.0 then Num(Wildcard(prefs)) else Num(-1.0)
  }

  /** That is the quality of the first entry naming it, or else the wildcard's if there is one. */
  lemma {:induction false} ExplicitIs(prefs: seq<Pref>, supported: bytes, kind: Kind)
    ensures Explicit(prefs, supported, kind).None? <==>
            forall i :: 0 <= i < |prefs| ==> kind(prefs[i], supported) != 2
    ensures forall q :: Explicit(prefs, supported, kind) == Some(q) ==>
      exists i :: && 0 <= i < |prefs| && kind(prefs[i], supported) == 2 && prefs[i].q == q
                  && forall j :: 0 <= j < i ==> kind(prefs[j], supported) != 2
  {
    if prefs != [] && kind(prefs[0], supported) != 2 {
      var rest := prefs[1..];
      ExplicitIs(rest, supported, kind);
      assert forall i :: 0 < i < |prefs| ==> prefs[i] == rest[i - 1];
      if Explicit(prefs, supported, kind).Some? {
        var i :| && 0 <= i < |rest| && kind(rest[i], supported) == 2
                 && rest[i].q == Explicit(prefs, supported, kind).value
                 && forall j :: 0 <= j < i ==> kind(rest[j], supported) != 2;
        assert kind(prefs[i + 1], supported) == 2 && prefs[i + 1].q == rest[i].q;
      }
    }
  }

  /** First supported encoding of the highest positive effective quality; NaN is passed over, except that it keeps
      its place when nothing acceptable is listed before it. */
  function ServerChosen(supported: seq<bytes>, prefs: seq<Pref>, kind: Kind): (r: Option<nat>)
    ensures r.None? ==> forall j :: 0 <= j < |supported| ==> Refused(Effective(prefs, supported[j], kind))
    ensures r.Some? ==> r.value < |supported| && !Refused(Effective(prefs, supported[r.value], kind))
    ensures r.Some? && Effective(prefs, supported[r.value], kind).NaN? ==>
      forall j :: 0 <= j < r.value ==> Refused(Effective(prefs, supported[j], kind))
    ensures r.Some? && Effective(prefs, supported[r.value], kind).Num? ==>
      && FirstIsNumber(supported, prefs, kind, r.value)
      && (forall j :: 0 <= j < |supported| && Effective(prefs, supported[j], kind).Num? ==>
            Effective(prefs, supported[j], kind).v <= Effective(prefs, supported[r.value], kind).v)
      && (forall j :: 0 <= j < r.value && Effective(prefs, supported[j], kind).Num? ==>
            Effective(prefs, supported[j], kind).v < Effective(prefs, supported[r.value], kind).v)
  {
    hide Effective;
    if supported == [] then None
    else
      var n := |supported| - 1;
      var best := ServerChosen(supported[..n], prefs, kind);
      assert forall j :: 0 <= j < n ==> supported[..n][j] == supported[j];
      var q := Effective(prefs, supported[n], kind);
      FirstOf(supported, prefs, kind, best);
      if !Refused(q) && (best.None? || Greater(q, Effective(prefs, supported[best.value], kind))) then Some(n) else best
  }

  /** The first acceptable encoding, at `i` or before, is so by a number. */
  ghost predicate FirstIsNumber(supported: seq<bytes>, prefs: seq<Pref>, kind: Kind, i: nat) {
    exists f: nat :: f <= i < |supported| && IsFirst(supported, prefs, kind, f)
  }

  lemma FirstOf(supported: seq<bytes>, prefs: seq<Pref>, kind: Kind, best: Option<nat>)
    requires supported != [] && (best.Some? ==> best.value < |supported| - 1)
    ensures var n := |supported| - 1;
      && (best.Some? && FirstIsNumber(supported[..n], prefs, kind, best.value) ==>
            FirstIsNumber(supported, prefs, kind, best.value) && FirstIsNumber(supported, prefs, kind, n))
      && (IsFirst(supported, prefs, kind, n) ==> FirstIsNumber(supported, prefs, kind, n))
  {
    hide Effective;
    var n := |supported| - 1;
    if best.Some? && FirstIsNumber(supported[..n], prefs, kind, best.value) {
      var f: nat :| f <= best.value < n && IsFirst(supported[..n], prefs, kind, f);
      assert forall j :: 0 <= j < n ==> supported[..n][j] == supported[j];
      assert IsFirst(supported, prefs, kind, f);
    }
  }

  ghost predicate IsFirst(supported: seq<bytes>, prefs: seq<Pref>, kind: Kind, f: nat) {
    && f < |supported| && Effective(prefs, supported[f], kind).Num? && !Refused(Effective(prefs, supported[f], kind))
    && forall j :: 0 <= j < f ==> Refused(Effective(prefs, supported[j], kind))
  }

  method WildcardOf(prefs: seq<Pref>) returns (w: real)
    ensures w == Wildcard(prefs)
  {
    w := -1.0;
    for i := 0 to |prefs|
      invariant w == Wildcard(prefs[..i])
    {
      assert prefs[..i + 1][..i] == prefs[..i];
      if prefs[i].name == STAR { w := if Greater(prefs[i].q, Num(w)) then prefs[i].q.v else w; }
    }
    assert prefs[..|prefs|] == prefs;
  }

  /** The inner loop of the stack path: the first entry that names `supported`, or the wildcard. */
  method EffectiveRefs(prefs: seq<Pref>, supported: bytes, wildcard: real) returns (q: Weight)
    requires wildcard == Wildcard(prefs)
    ensures q == Effective(prefs, supported, StackKind)
  {
    hide Wildcard;
    q := if wildcard >= 0.0 then Num(wildcard) else Num(-1.0);
    for k := 0 to |prefs|
      invariant Explicit(prefs, supported, StackKind) == Explicit(prefs[k..], supported, StackKind)
      invariant q == if wildcard >= 0.0 then Num(wildcard) else Num(-1.0)
    {
      var same := NameEqSupported(prefs[k].name, supported);
      if same { return prefs[k].q; }
      assert prefs[k..][1..] == prefs[k + 1..];
    }
  }

  /** The inner loop of the heap path. */
  method EffectiveHeap(prefs: seq<Pref>, supported: bytes, wildcard: real) returns (q: Weight)
    requires wildcard == Wildcard(prefs)
    ensures q == Effective(prefs, supported, HeapKind)
  {
    hide Wildcard;
    q := if wildcard >= 0.0 then Num(wildcard) else Num(-1.0);
    for k := 0 to |prefs|
      invariant Explicit(prefs, supported, HeapKind) == Explicit(prefs[k..], supported, HeapKind)
      invariant q == if wildcard >= 0.0 then Num(wildcard) else Num(-1.0)
    {
      if prefs[k].name == supported { return prefs[k].q; }
      assert prefs[k..][1..] == prefs[k + 1..];
    }
  }

  /** `negotiate_server_preference_refs`. */
  method ServerRefs(supported: seq<bytes>, prefs: seq<Pref>) returns (r: Option<bytes>)
    ensures r == Pick(supported, ServerChosen(supported, prefs, StackKind))
  {
    hide Effective;
    var wildcard := WildcardOf(prefs);
    var best: Option<(nat, Weight)> := None;
    for i := 0 to |supported|
      invariant best.Some? ==> best.value.0 < i && best.value.1 == Effective(prefs, supported[best.value.0], StackKind)
      invariant ServerChosen(supported[..i], prefs, StackKind) == if best.Some? then Some(best.value.0) else None
    {
      assert supported[..i + 1][..i] == supported[..i];
      var q := EffectiveRefs(prefs, supported[i], wildcard);
      if Refused(q) { continue; }
      if best.None? || Greater(q, best.value.1) { best := Some((i, q)); }
    }
    assert supported[..|supported|] == supported;
    r := if best.Some? then Some(supported[best.value.0]) else None;
  }

  function ServerHeapAnswer(parseQ: ParseQ, supported: seq<bytes>, header: bytes): Option<bytes> {
    var prefs := Decoded(Refs(parseQ, header));
    if prefs == [] then None else Pick(supported, ServerChosen(supported, prefs, HeapKind))
  }

  /** `negotiate_server_preference_heap`. */
  method ServerHeap(parseQ: ParseQ, supported: seq<bytes>, header: bytes) returns (r: Option<bytes>)
    ensures r == ServerHeapAnswer(parseQ, supported, header)
  {
    hide Effective, Refs, Decoded;
    var prefs := ParseHeap(parseQ, header);
    if prefs == [] { return None; }
    var wildcard := WildcardOf(prefs);
    var best: Option<(nat, Weight)> := None;
    for i := 0 to |supported|
      invariant best.Some? ==> best.value.0 < i && best.value.1 == Effective(prefs, supported[best.value.0], HeapKind)
      invariant ServerChosen(supported[..i], prefs, HeapKind) == if best.Some? then Some(best.value.0) else None
    {
      assert supported[..i + 1][..i] == supported[..i];
      var q := EffectiveHeap(prefs, supported[i], wildcard);
      if Refused(q) { continue; }
      if best.None? || Greater(q, best.value.1) { best := Some((i, q)); }
    }
    assert supported[..|supported|] == supported;
    r := if best.Some? then Some(supported[best.value.0]) else None;
  }

  function ServerStackAnswer(parseQ: ParseQ, supported: seq<bytes>, header: bytes): Option<bytes> {
    var prefs := Refs(parseQ, header);
    if prefs == [] then None else Pick(supported, ServerChosen(supported, prefs, StackKind))
  }

  /** `negotiate_encoding_server_preference`: again the heap path's answer for every header. */
  method NegotiateServer(parseQ: ParseQ, supported: seq<bytes>, header: bytes) returns (r: Option<bytes>)
    ensures r == if |Refs(parseQ, header)| > 32 then ServerHeapAnswer(parseQ, supported, header)
                 else ServerStackAnswer(parseQ, supported, header)
    ensures (forall i :: 0 <= i < |supported| ==> Plain(supported[i])) ==>
      r == ServerHeapAnswer(parseQ, supported, header)
  {
    hide Refs, ServerChosen, Plain, Decoded;
    if forall i :: 0 <= i < |supported| ==> Plain(supported[i]) { ServerPathsAgree(parseQ, supported, header); }
    var stack := new Pref[MAX_STACK_PREFS](i => Pref([], Num(0.0), 0));
    var count := ParseRefs(parseQ, header, stack);
    if count.None? {
      r := ServerHeap(parseQ, supported, header);
    } else if count.value == 0 {
      r := None;
    } else {
      r := ServerRefs(supported, stack[..count.value]);
    }
  }

  lemma {:induction false} WildcardAgrees(prefs: seq<Pref>)
    requires AllSpellable(prefs)
    ensures Wildcard(Decoded(prefs)) == Wildcard(prefs)
  {
    hide HeapName, Spellable;
    if prefs != [] {
      var n := |prefs| - 1;
      assert Decoded(prefs)[..n] == Decoded(prefs[..n]);
      WildcardAgrees(prefs[..n]);
      StarIsPlain();
      KindsAgree(prefs[n], STAR);
    }
  }

  lemma {:induction false} ExplicitAgrees(prefs: seq<Pref>, supported: bytes)
    requires Plain(supported) && AllSpellable(prefs)
    ensures Explicit(Decoded(prefs), supported, HeapKind) == Explicit(prefs, supported, StackKind)
  {
    hide HeapName, Plain, Spellable;
    if prefs != [] {
      assert Decoded(prefs)[1..] == Decoded(prefs[1..]);
      KindsAgree(prefs[0], supported);
      ExplicitAgrees(prefs[1..], supported);
    }
  }

  lemma {:induction false} ServerChosenAgrees(supported: seq<bytes>, prefs: seq<Pref>)
    requires AllSpellable(prefs) && forall i :: 0 <= i < |supported| ==> Plain(supported[i])
    ensures ServerChosen(supported, Decoded(prefs), HeapKind) == ServerChosen(supported, prefs, StackKind)
  {
    hide Plain, Decoded, Wildcard, Explicit, AllSpellable, FirstIsNumber;
    if supported != [] {
      var n := |supported| - 1;
      ServerChosenAgrees(supported[..n], prefs);
      WildcardAgrees(prefs);
      ExplicitAgrees(prefs, supported[n]);
      var best := ServerChosen(supported[..n], prefs, StackKind);
      if best.Some? { ExplicitAgrees(prefs, supported[best.value]); }
    }
  }

  lemma ServerPathsAgree(parseQ: ParseQ, supported: seq<bytes>, header: bytes)
    requires forall i :: 0 <= i < |supported| ==> Plain(supported[i])
    ensures ServerStackAnswer(parseQ, supported, header) == ServerHeapAnswer(parseQ, supported, header)
  {
    hide Refs, Plain, ServerChosen, AllSpellable;
    RefsSpell(parseQ, header);
    ServerChosenAgrees(supported, Refs(parseQ, header));
  }

  lemma ServerPathsDisagree(parseQ: ParseQ, supported: seq<bytes>, i: nat) returns (header: bytes)
    requires i < |supported| && Confusable(supported[i])
    requires forall j :: 0 <= j < |supported| ==> Utf8.Valid(supported[j])
    ensures ServerStackAnswer(parseQ, supported, header) != ServerHeapAnswer(parseQ, supported, header)
  {
    hide Refs, HeapName, Confusable, Utf8.Valid, StackKind, ServerChosen, Effective, FirstIsNumber;
    header := ConfusingHeader(parseQ, supported[i]);
    var p := Pref(header, Num(1.0), 0);
    assert header != STAR by { StarIsPlain(); }
    forall j | 0 <= j < |supported|
      ensures Refused(Effective([p], supported[j], StackKind))
    {
      OneEffective(p, supported[j], StackKind);
    }
    var q := p.(name := HeapName(header));
    assert Decoded([p]) == [q];
    OneEffective(q, supported[i], HeapKind);
  }

  lemma OneEffective(p: Pref, s: bytes, kind: Kind)
    ensures kind(p, s) == 2 ==> Effective([p], s, kind) == p.q
    ensures kind(p, s) != 2 && p.name != STAR ==> Effective([p], s, kind) == Num(-1.0)
  {
    assert [p][1..] == [] && [p][..0] == [];
    assert Wildcard([]) == -1.0;
    assert Wildcard([p][..0]) == -1.0 && Explicit([p][1..], s, kind).None?;
    assert p.name != STAR ==> Wildcard([p]) == -1.0;
  }

  /** Here too the two paths give the same answer to every header exactly when no supported name is confusable. */
  lemma ServerPathsAgreeIff(parseQ: ParseQ, supported: seq<bytes>)
    requires forall i :: 0 <= i < |supported| ==> Utf8.Valid(supported[i])
    ensures (forall header ::
               ServerStackAnswer(parseQ, supported, header) == ServerHeapAnswer(parseQ, supported, header))
            <==> forall i :: 0 <= i < |supported| ==> !Confusable(supported[i])
  {
    hide ServerStackAnswer, ServerHeapAnswer, Confusable, Utf8.Valid;
    if i :| 0 <= i < |supported| && Confusable(supported[i]) {
      var header := ServerPathsDisagree(parseQ, supported, i);
    } else {
      forall header
        ensures ServerStackAnswer(parseQ, supported, header) == ServerHeapAnswer(parseQ, supported, header)
      {
        ServerPathsAgree(parseQ, supported, header);
      }
    }
  }

  /** For ASCII names, which all registered encodings are, both negotiators answer every header alike on both paths. */
  lemma AsciiPathsAgree(parseQ: ParseQ, supported: seq<bytes>, header: bytes)
    requires forall i, k :: 0 <= i < |supported| && 0 <= k < |supported[i]| ==> supported[i][k] < 0x80
    ensures StackAnswer(parseQ, supported, header) == HeapAnswer(parseQ, supported, header)
    ensures ServerStackAnswer(parseQ, supported, header) == ServerHeapAnswer(parseQ, supported, header)
  {
    hide StackAnswer, HeapAnswer, ServerStackAnswer, ServerHeapAnswer, Plain;
    forall i | 0 <= i < |supported|
      ensures Plain(supported[i])
    {
      AsciiIsPlain(supported[i]);
    }
    PathsAgree(parseQ, supported, header);
    ServerPathsAgree(parseQ, supported, header);
  }
}
