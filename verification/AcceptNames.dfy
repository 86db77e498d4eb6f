/** How names are matched on the two paths (rust/http/accept.rs:54-128), and for which supported names that differs. */
module AcceptNames {
  import opened Bytes
  import opened Utf8
  import opened Accept

  /** `name_eq_supported`. */
  method NameEqSupported(name: bytes, supported: bytes) returns (r: bool)
    ensures r <==> LowerAll(name) == supported
  {
    if |name| != |supported| { return false; }
    for i := 0 to |name|
      invariant forall k :: 0 <= k < i ==> Lower(name[k]) == supported[k]
    {
      if Lower(name[i]) != supported[i] {
        assert LowerAll(name)[i] != supported[i];
        return false;
      }
    }
    return true;
  }

  /** 2 for the encoding itself, 1 for the wildcard, 0 for neither. */
  function StackKind(p: Pref, supported: bytes): nat {
    if LowerAll(p.name) == supported then 2 else if p.name == STAR then 1 else 0
  }

  function HeapKind(p: Pref, supported: bytes): nat {
    if p.name == supported then 2 else if p.name == STAR then 1 else 0
  }

  /** A supported name the two paths do not read alike: it holds U+FFFD, which ill-formed bytes decode to. (With an
      upper-case letter no name matches it on either path.) */
  ghost predicate Ambiguous(s: bytes) { HasReplacement(s) && LowerAll(s) == s }

  /** What a header can name. */
  predicate Spellable(name: bytes) { Solid(name) && COMMA !in name && SEMI !in name }

  /** A supported name that some header gets two answers for. */
  ghost predicate Confusable(s: bytes) { Ambiguous(s) && Spellable(s) }

  /** UTF-8, as every `String` is, and not confusable. */
  ghost predicate Plain(s: bytes) { Valid(s) && !Confusable(s) }

  lemma {:induction false} LowerValid(s: bytes)
    ensures Valid(LowerAll(s)) <==> Valid(s)
  {
    if s != [] {
      var t := LowerAll(s);
      LowerLead(s);
      if Lead(s) > 0 {
        assert t[Lead(s)..] == LowerAll(s[Lead(s)..]);
        LowerValid(s[Lead(s)..]);
      }
    }
  }

  lemma LowerLead(s: bytes)
    ensures Lead(LowerAll(s)) == Lead(s)
  {
  }

  lemma LowerReplacement(s: bytes)
    requires HasReplacement(s)
    ensures HasReplacement(LowerAll(s))
  {
    var mark := Encode(REPLACEMENT);
    var i: nat :| At(s, i, mark);
    var t := LowerAll(s);
    assert forall k :: 0 <= k < |mark| ==> s[i..i + |mark|][k] == mark[k] && mark[k] >= 0x80;
    assert t[i..i + |mark|] == mark;
    assert At(t, i, mark);
  }

  lemma LowerTwice(s: bytes)
    ensures LowerAll(LowerAll(s)) == LowerAll(s)
  {
  }

  /** Decoding a name lossily and lowercasing it matches an unambiguous supported name exactly when lowercasing its raw
      bytes does, also when those are not UTF-8. */
  lemma NamesAgree(name: bytes, supported: bytes)
    requires Valid(supported) && !Ambiguous(supported)
    ensures HeapName(name) == supported <==> LowerAll(name) == supported
  {
    hide Valid, Lossy, HasReplacement, LowerAll;
    LowerValid(name);
    LowerTwice(name);
    LowerTwice(Lossy(name));
    if Valid(name) {
      LossyOfValid(name);
    } else {
      LossyOfInvalid(name);
      LowerReplacement(Lossy(name));
    }
  }

  /** For an ambiguous one there is a name that only the decoded path matches: put a stray byte for the U+FFFD. */
  lemma NamesDisagree(supported: bytes) returns (name: bytes)
    requires Valid(supported) && Ambiguous(supported)
    ensures HeapName(name) == supported && LowerAll(name) != supported
    ensures !Valid(name) && (Spellable(supported) ==> Spellable(name))
  {
    hide Valid, Lossy, LowerAll, Spellable;
    var mark := Encode(REPLACEMENT);
    var i: nat :| At(supported, i, mark);
    var p, t := supported[..i], supported[i + 3..];
    ValidAroundReplacement(supported, i);
    name := p + ([0xFF] + t);
    LossyOfStray(p, t);
    assert supported == p + mark + t;
    if Valid(name) { LossyOfValid(name); }
    if Spellable(supported) { StraySpells(p, mark, t); }
  }

  lemma StraySpells(p: bytes, mark: bytes, t: bytes)
    requires Spellable(p + mark + t) && mark != []
    ensures Spellable(p + ([0xFF] + t))
  {
    hide Blank;
    var s, name := p + mark + t, p + ([0xFF] + t);
    assert !Blank(0xFF) by { HighIsNoBlank(0xFF); }
    assert name[0] == 0xFF || name[0] == s[0];
    assert name[|name| - 1] == 0xFF || name[|name| - 1] == s[|s| - 1];
  }

  lemma HighIsNoBlank(b: byte)
    requires b >= 0x80
    ensures !Blank(b)
  {
  }

  /** The two paths match a supported name against the same names exactly when it is not ambiguous. */
  lemma NamesAgreeIff(supported: bytes)
    requires Valid(supported)
    ensures (forall name :: HeapName(name) == supported <==> LowerAll(name) == supported) <==> !Ambiguous(supported)
  {
    hide HeapName, Ambiguous, Valid;
    if Ambiguous(supported) {
      var name := NamesDisagree(supported);
    } else {
      forall name
        ensures HeapName(name) == supported <==> LowerAll(name) == supported
      {
        NamesAgree(name, supported);
      }
    }
  }

  lemma StarIsPlain()
    ensures Plain(STAR)
  {
    hide Encode;
    assert Valid(STAR);
    assert Encode(REPLACEMENT)[0] != STAR[0] by { MarkIsHigh(); }
  }

  lemma MarkIsHigh()
    ensures Encode(REPLACEMENT)[0] == 0xEF
  {
  }

  lemma AsciiIsPlain(s: bytes)
    requires forall i :: 0 <= i < |s| ==> s[i] < 0x80
    ensures Plain(s)
  {
    hide Encode, Valid;
    AsciiValid(s);
    MarkIsHigh();
    var n := |Encode(REPLACEMENT)|;
    assert forall i: nat :: i + n <= |s| ==> s[i..i + n][0] == s[i];
  }

  // ---- the names of a header ----

  lemma {:induction false} TrimLeftIs(s: bytes)
    ensures var t := TrimLeft(s); (forall c :: c in t ==> c in s) && (t != [] ==> !Blank(t[0]))
  {
    hide Blank;
    if s != [] && Blank(s[0]) { TrimLeftIs(s[1..]); }
  }

  lemma {:induction false} TrimRightIs(s: bytes)
    ensures var t := TrimRight(s); t <= s && (t != [] ==> !Blank(t[|t| - 1]))
  {
    hide Blank;
    if s != [] && Blank(s[|s| - 1]) { TrimRightIs(s[..|s| - 1]); }
  }

  lemma TrimIs(s: bytes)
    ensures var t := TrimRight(TrimLeft(s)); (forall c :: c in t ==> c in s) && (t != [] ==> Solid(t))
  {
    hide Blank, TrimLeft, TrimRight;
    TrimLeftIs(s);
    TrimRightIs(TrimLeft(s));
  }

  lemma {:induction false} NoneBefore(s: bytes, c: byte)
    ensures c !in s[..Position(s, c)]
  {
    if s != [] && s[0] != c {
      NoneBefore(s[1..], c);
      assert s[..Position(s, c)] == [s[0]] + s[1..][..Position(s[1..], c)];
    }
  }

  lemma {:induction false} SplitIs(s: bytes, c: byte)
    ensures forall i :: 0 <= i < |Split(s, c)| ==> c !in Split(s, c)[i]
    decreases |s|
  {
    hide Position;
    var n := Position(s, c);
    NoneBefore(s, c);
    if n == |s| { assert s[..n] == s; } else { SplitIs(s[n + 1..], c); }
  }

  lemma EntrySpells(parseQ: ParseQ, part: bytes)
    requires COMMA !in part
    ensures Entry(parseQ, part).Some? ==> Spellable(Entry(parseQ, part).value.0)
  {
    hide TrimLeft, TrimRight, Position, Quality, Solid;
    var p := TrimRight(TrimLeft(part));
    var i := Position(p, SEMI);
    TrimIs(part);
    TrimIs(p[..i]);
    NoneBefore(p, SEMI);
    if i == |p| { assert p[..i] == p; }
  }

  ghost predicate AllSpellable(prefs: seq<Pref>) { forall i :: 0 <= i < |prefs| ==> Spellable(prefs[i].name) }

  lemma {:induction false} PrefsSpell(parseQ: ParseQ, parts: seq<bytes>)
    requires forall i :: 0 <= i < |parts| ==> COMMA !in parts[i]
    ensures AllSpellable(Prefs(parseQ, parts))
  {
    hide Entry, Spellable;
    if parts != [] {
      PrefsSpell(parseQ, parts[..|parts| - 1]);
      EntrySpells(parseQ, parts[|parts| - 1]);
    }
  }

  lemma RefsSpell(parseQ: ParseQ, header: bytes)
    ensures AllSpellable(Refs(parseQ, header))
  {
    hide Split, Prefs, AllSpellable;
    SplitIs(header, COMMA);
    PrefsSpell(parseQ, Split(header, COMMA));
  }

  lemma LowerSpells(s: bytes)
    requires Spellable(s)
    ensures Spellable(LowerAll(s))
  {
  }

  lemma LossySpells(s: bytes)
    requires Spellable(s)
    ensures Spellable(Lossy(s))
  {
    hide Lossy;
    LossyKeepsAscii(s);
  }

  /** A name that a header can spell is matched alike, unless the supported name is confusable. */
  lemma SpelledNamesAgree(name: bytes, supported: bytes)
    requires Spellable(name) && Plain(supported)
    ensures HeapName(name) == supported <==> LowerAll(name) == supported
  {
    hide Spellable, Ambiguous, Lossy, LowerAll, Valid;
    if Ambiguous(supported) {
      LossySpells(name);
      LowerSpells(Lossy(name));
      LowerSpells(name);
    } else {
      NamesAgree(name, supported);
    }
  }

  lemma KindsAgree(p: Pref, supported: bytes)
    requires Plain(supported) && Spellable(p.name)
    ensures HeapKind(p.(name := HeapName(p.name)), supported) == StackKind(p, supported)
    ensures HeapName(p.name) == STAR <==> p.name == STAR
  {
    hide HeapName, Plain, Spellable;
    SpelledNamesAgree(p.name, supported);
    StarIsPlain();
    SpelledNamesAgree(p.name, STAR);
    assert LowerAll(p.name) == STAR <==> p.name == STAR by {
      if LowerAll(p.name) == STAR { assert Lower(p.name[0]) == 0x2A; }
    }
  }
}
