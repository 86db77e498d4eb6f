/** The packed JSON token stream (rust/ffi/json.rs): an emitter that turns a JSON tree into a marker stream over an
    interned string table, and the decoder of rust/ffi/tests.rs:370-427 that turns it back. */
module PackedJson {
  import opened Bytes
  import opened Lists

  type Double = b: bytes | |b| == 8 witness seq(8, i => 0)

  datatype Json =
    | Null
    | Bool(b: bool)
    | Number(bits: Double)
    | Text(s: bytes)
    | Array(items: Items)
    | Object(members: Members)

  datatype Items = NoItems | Item(head: Json, tail: Items)

  datatype Members = NoMembers | Member(key: bytes, value: Json, rest: Members)

  /** What the decoder builds: arrays as vectors, objects as maps. */
  datatype Doc =
    | Nil
    | Flag(b: bool)
    | Real(bits: Double)
    | Str(s: bytes)
    | List(items: seq<Doc>)
    | Dict(entries: map<bytes, Doc>)

  const NULL: byte := 0
  const FALSE: byte := 1
  const TRUE: byte := 2
  const NUMBER: byte := 3
  const STRING: byte := 4
  const ARRAY_START: byte := 5
  const OBJECT_START: byte := 6
  const ARRAY_END: byte := 7
  const OBJECT_END: byte := 8
  const KEY: byte := 9

  // ---- interning ----

  function Intern(names: seq<bytes>, s: bytes): seq<bytes> {
    if s in names then names else names + [s]
  }

  /** First position of `s`. */
  function IndexOf(names: seq<bytes>, s: bytes): (i: nat)
    requires s in names
    ensures i < |names| && names[i] == s
  {
    if names[0] == s then 0 else IndexOf(names[1..], s) + 1
  }

  /** The table: each string behind its length. */
  function Records(names: seq<bytes>): bytes {
    if names == [] then [] else Le32(|names[0]|) + names[0] + Records(names[1..])
  }

  lemma {:induction false} RecordsConcat(a: seq<bytes>, b: seq<bytes>)
    ensures Records(a + b) == Records(a) + Records(b)
  {
    hide Le32;
    if a == [] {
      assert a + b == b;
    } else {
      RecordsConcat(a[1..], b);
      assert (a + b)[1..] == a[1..] + b;
      Assoc(Le32(|a[0]|) + a[0], Records(a[1..]), Records(b));
    }
  }

  lemma RecordsAppend(names: seq<bytes>, s: bytes)
    ensures Records(names + [s]) == Records(names) + Le32(|s|) + s
  {
    hide Le32;
    RecordsConcat(names, [s]);
    assert Records([s]) == Le32(|s|) + s + Records([]);
    Assoc(Records(names), Le32(|s|), s);
  }

  lemma {:induction false} IndexStable(names: seq<bytes>, later: seq<bytes>, s: bytes)
    requires s in names && names <= later
    ensures IndexOf(later, s) == IndexOf(names, s)
  {
    if names[0] != s { IndexStable(names[1..], later[1..], s); }
  }

  function InternAll(names: seq<bytes>, run: seq<bytes>): seq<bytes>
    decreases |run|
  {
    if run == [] then names else InternAll(Intern(names, run[0]), run[1..])
  }

  /** Over any run of interns the names stay distinct and only grow at the end, the table grows by a suffix, every
      string of the run has a place, and a place handed out before still names the same string. */
  lemma {:induction false} InternRun(names: seq<bytes>, run: seq<bytes>)
    ensures var later := InternAll(names, run);
      && (Distinct(names) ==> Distinct(later)) && names <= later
      && Records(later) == Records(names) + Records(later[|names|..])
      && (forall s :: s in run ==> s in later)
      && (forall s :: s in names ==> IndexOf(later, s) == IndexOf(names, s))
    decreases |run|
  {
    hide Records, IndexOf;
    var later := InternAll(names, run);
    if run != [] {
      InternRun(Intern(names, run[0]), run[1..]);
      assert run[0] in Intern(names, run[0]);
    }
    assert names <= later;
    assert later == names + later[|names|..];
    RecordsConcat(names, later[|names|..]);
    forall s | s in names
      ensures IndexOf(later, s) == IndexOf(names, s)
    {
      IndexStable(names, later, s);
    }
  }

  // ---- what the emitter computes ----

  /** The strings of a tree in the order the emitter meets them. */
  function Strings(v: Json): seq<bytes> {
    match v
    case Text(s) => [s]
    case Array(items) => ItemStrings(items)
    case Object(members) => MemberStrings(members)
    case _ => []
  }

  function ItemStrings(s: Items): seq<bytes> {
    match s case NoItems => [] case Item(head, tail) => Strings(head) + ItemStrings(tail)
  }

  function MemberStrings(s: Members): seq<bytes> {
    match s case NoMembers => [] case Member(key, value, rest) => [key] + Strings(value) + MemberStrings(rest)
  }

  /** All of `strings` has a place in `names`. */
  predicate Covers(names: seq<bytes>, strings: seq<bytes>) { forall s :: s in strings ==> s in names }

  function Tokens(v: Json, names: seq<bytes>): bytes
    requires Covers(names, Strings(v))
  {
    match v
    case Null => [NULL]
    case Bool(b) => [if b then TRUE else FALSE]
    case Number(bits) => [NUMBER] + bits
    case Text(s) => assert s in Strings(v); [STRING] + Le32(IndexOf(names, s))
    case Array(items) => [ARRAY_START] + ItemTokens(items, names) + [ARRAY_END]
    case Object(members) => [OBJECT_START] + MemberTokens(members, names) + [OBJECT_END]
  }

  function ItemTokens(s: Items, names: seq<bytes>): bytes
    requires Covers(names, ItemStrings(s))
  {
    match s case NoItems => [] case Item(head, tail) => Tokens(head, names) + ItemTokens(tail, names)
  }

  function MemberTokens(s: Members, names: seq<bytes>): bytes
    requires Covers(names, MemberStrings(s))
  {
    match s
    case NoMembers => []
    case Member(key, value, rest) =>
      assert key in MemberStrings(s);
      [KEY] + Le32(IndexOf(names, key)) + Tokens(value, names) + MemberTokens(rest, names)
  }

  /** Tokens emitted against a table mean the same against every later one. */
  lemma {:induction false} TokensStable(v: Json, names: seq<bytes>, later: seq<bytes>)
    requires Covers(names, Strings(v)) && names <= later
    ensures Covers(later, Strings(v)) && Tokens(v, later) == Tokens(v, names)
    decreases v
  {
    hide IndexOf, Le32;
    match v
    case Text(s) =>
      assert s in Strings(v);
      IndexStable(names, later, s);
    case Array(items) => ItemTokensStable(items, names, later);
    case Object(members) => MemberTokensStable(members, names, later);
    case _ =>
  }

  lemma {:induction false} ItemTokensStable(s: Items, names: seq<bytes>, later: seq<bytes>)
    requires Covers(names, ItemStrings(s)) && names <= later
    ensures Covers(later, ItemStrings(s)) && ItemTokens(s, later) == ItemTokens(s, names)
    decreases s
  {
    hide IndexOf, Le32;
    if s.Item? {
      TokensStable(s.head, names, later);
      ItemTokensStable(s.tail, names, later);
    }
  }

  lemma {:induction false} MemberTokensStable(s: Members, names: seq<bytes>, later: seq<bytes>)
    requires Covers(names, MemberStrings(s)) && names <= later
    ensures Covers(later, MemberStrings(s)) && MemberTokens(s, later) == MemberTokens(s, names)
    decreases s
  {
    hide IndexOf, Le32;
    if s.Member? {
      assert s.key in MemberStrings(s);
      IndexStable(names, later, s.key);
      TokensStable(s.value, names, later);
      MemberTokensStable(s.rest, names, later);
    }
  }

  lemma {:induction false} InternAllConcat(names: seq<bytes>, a: seq<bytes>, b: seq<bytes>)
    ensures InternAll(names, a + b) == InternAll(InternAll(names, a), b)
    decreases |a|
  {
    if a == [] {
      assert a + b == b;
    } else {
      assert (a + b)[1..] == a[1..] + b;
      InternAllConcat(Intern(names, a[0]), a[1..], b);
    }
  }

  lemma UniqueIndex(names: seq<bytes>, i: nat)
    requires Distinct(names) && i < |names|
    ensures IndexOf(names, names[i]) == i
  {
  }

  /** A head and what follows it, interned one after the other: the head's tokens are final already. */
  lemma HeadIsFinal(names: seq<bytes>, head: Json, tail: seq<bytes>)
    ensures var mid := InternAll(names, Strings(head));
      var final := InternAll(names, Strings(head) + tail);
      && InternAll(mid, tail) == final
      && Covers(mid, Strings(head)) && Covers(final, Strings(head)) && Covers(final, tail)
      && Tokens(head, mid) == Tokens(head, final)
  {
    hide Tokens, Records, IndexOf;
    var mid := InternAll(names, Strings(head));
    InternAllConcat(names, Strings(head), tail);
    InternRun(names, Strings(head));
    InternRun(mid, tail);
    TokensStable(head, mid, InternAll(mid, tail));
  }

  // ---- the emitter ----

  class Emitter {
    var strings: map<bytes, nat>
    var table: bytes
    var tree: bytes
    /** The interned strings in the order of their indices. */
    ghost var names: seq<bytes>

    /** Map and table are in step: the i-th record is the string mapped to i (as a u32), and no string has two. */
    ghost predicate Valid()
      reads `strings, `table, `names
    {
      && Distinct(names)
      && (forall s :: s in strings <==> s in names)
      && (forall i :: 0 <= i < |names| ==> strings[names[i]] == i % TWO32)
      && |strings| == |names|
      && table == Records(names)
    }

    constructor ()
      ensures Valid() && names == [] && tree == []
    {
      strings, table, tree, names := map[], [], [], [];
    }

    /** `intern`. */
    method InternString(s: bytes) returns (idx: nat)
      requires Valid()
      modifies `strings, `table, `names
      ensures Valid() && names == Intern(old(names), s)
      ensures s in names && idx == IndexOf(names, s) % TWO32
    {
      hide Records, Le32;
      if s in strings {
        UniqueIndex(names, IndexOf(names, s));
        return strings[s];
      }
      idx := |strings| % TWO32;
      strings := strings[s := idx];
      table := table + Le32(|s|);
      table := table + s;
      RecordsAppend(names, s);
      names := names + [s];
      UniqueIndex(names, |names| - 1);
    }

    method EmitString(s: bytes)
      requires Valid()
      modifies this
      ensures Valid() && names == Intern(old(names), s) && s in names
      ensures tree == old(tree) + ([STRING] + Le32(IndexOf(names, s)))
    {
      hide Records, Le32, Intern, IndexOf, Distinct;
      tree := tree + [STRING];
      var idx := InternString(s);
      Le32Mod(IndexOf(names, s));
      Assoc(old(tree), [STRING], Le32(idx));
      tree := tree + Le32(idx);
    }

    method EmitKey(s: bytes)
      requires Valid()
      modifies this
      ensures Valid() && names == Intern(old(names), s) && s in names
      ensures tree == old(tree) + ([KEY] + Le32(IndexOf(names, s)))
    {
      hide Records, Le32, Intern, IndexOf, Distinct;
      tree := tree + [KEY];
      var idx := InternString(s);
      Le32Mod(IndexOf(names, s));
      Assoc(old(tree), [KEY], Le32(idx));
      tree := tree + Le32(idx);
    }

    /** `visit_*`: the tree grows by the tokens of `v`, the table by the strings of `v` it did not hold. */
    method Visit(v: Json)
      requires Valid()
      modifies this
      ensures Valid() && names == InternAll(old(names), Strings(v))
      ensures Covers(names, Strings(v)) && tree == old(tree) + Tokens(v, names)
      decreases v, 1
    {
      hide Records, Le32, IndexOf, Valid, ItemTokens, MemberTokens, ItemStrings, MemberStrings;
      match v
      case Null => tree := tree + [NULL];
      case Bool(b) => tree := tree + [if b then TRUE else FALSE];
      case Number(bits) => tree := tree + [NUMBER]; tree := tree + bits;
      case Text(s) =>
        EmitString(s);
        assert [s][1..] == [];
        assert InternAll(old(names), [s]) == InternAll(Intern(old(names), s), []);
      case Array(items) =>
        tree := tree + [ARRAY_START];
        VisitItems(items);
        tree := tree + [ARRAY_END];
        Framed(old(tree), ARRAY_START, ItemTokens(items, names), ARRAY_END);
      case Object(members) =>
        tree := tree + [OBJECT_START];
        VisitMembers(members);
        tree := tree + [OBJECT_END];
        Framed(old(tree), OBJECT_START, MemberTokens(members, names), OBJECT_END);
    }

    /** The loop of `visit_seq`. */
    method VisitItems(items: Items)
      requires Valid()
      modifies this
      ensures Valid() && names == InternAll(old(names), ItemStrings(items))
      ensures Covers(names, ItemStrings(items)) && tree == old(tree) + ItemTokens(items, names)
      decreases items, 0
    {
      hide Records, Le32, IndexOf, Tokens, Strings, Valid, Intern;
      InternRun(names, ItemStrings(items));
      ghost var final, done := InternAll(names, ItemStrings(items)), [];
      var rest := items;
      while rest.Item?
        invariant rest == items || rest < items
        invariant Valid()
        invariant InternAll(names, ItemStrings(rest)) == final && Covers(final, ItemStrings(rest))
        invariant ItemTokens(items, final) == done + ItemTokens(rest, final)
        invariant tree == old(tree) + done
        decreases rest
      {
        HeadIsFinal(names, rest.head, ItemStrings(rest.tail));
        Visit(rest.head);
        ghost var piece := Tokens(rest.head, final);
        Assoc(old(tree), done, piece);
        Assoc(done, piece, ItemTokens(rest.tail, final));
        done := done + piece;
        rest := rest.tail;
      }
    }

    /** The loop of `visit_map`. */
    method VisitMembers(members: Members)
      requires Valid()
      modifies this
      ensures Valid() && names == InternAll(old(names), MemberStrings(members))
      ensures Covers(names, MemberStrings(members)) && tree == old(tree) + MemberTokens(members, names)
      decreases members, 0
    {
      hide Records, Le32, IndexOf, Tokens, Strings, Valid, Intern;
      InternRun(names, MemberStrings(members));
      ghost var final, done := InternAll(names, MemberStrings(members)), [];
      var rest := members;
      while rest.Member?
        invariant rest == members || rest < members
        invariant Valid()
        invariant InternAll(names, MemberStrings(rest)) == final && Covers(final, MemberStrings(rest))
        invariant MemberTokens(members, final) == done + MemberTokens(rest, final)
        invariant tree == old(tree) + done
        decreases rest
      {
        MemberIsFinal(names, rest);
        EmitKey(rest.key);
        ghost var key := [KEY] + Le32(IndexOf(final, rest.key));
        Visit(rest.value);
        ghost var piece := Tokens(rest.value, final);
        Assoc(old(tree), done, key);
        Assoc(old(tree), done + key, piece);
        Assoc(done, key, piece);
        Assoc(done, key + piece, MemberTokens(rest.rest, final));
        done := done + key + piece;
        rest := rest.rest;
      }
    }
  }

  /** A member's key, then its value, then the rest. */
  lemma MemberIsFinal(names: seq<bytes>, s: Members)
    requires s.Member?
    ensures var mid := Intern(names, s.key);
      var mid' := InternAll(mid, Strings(s.value));
      var final := InternAll(names, MemberStrings(s));
      && InternAll(mid', MemberStrings(s.rest)) == final
      && s.key in mid && s.key in final && IndexOf(mid, s.key) == IndexOf(final, s.key)
      && Covers(mid', Strings(s.value)) && Covers(final, Strings(s.value))
      && Tokens(s.value, mid') == Tokens(s.value, final)
  {
    hide Tokens, Records, IndexOf;
    var mid := Intern(names, s.key);
    var tail := Strings(s.value) + MemberStrings(s.rest);
    assert MemberStrings(s) == [s.key] + tail;
    assert ([s.key] + tail)[1..] == tail;
    HeadIsFinal(mid, s.value, MemberStrings(s.rest));
    InternRun(mid, tail);
  }

  lemma Framed(before: bytes, open: byte, inner: bytes, close: byte)
    ensures before + [open] + inner + [close] == before + ([open] + inner + [close])
  {
  }

  // ---- the layout ----

  /** The table of a document: its strings, first occurrences only. */
  function Table(v: Json): (names: seq<bytes>)
    ensures Distinct(names) && Covers(names, Strings(v)) && Covers(Strings(v), names)
  {
    hide Records, IndexOf;
    InternRun([], Strings(v));
    InternsOnly([], Strings(v));
    InternAll([], Strings(v))
  }

  lemma {:induction false} InternsOnly(names: seq<bytes>, run: seq<bytes>)
    ensures forall s :: s in InternAll(names, run) ==> s in names || s in run
    decreases |run|
  {
    if run != [] {
      InternsOnly(Intern(names, run[0]), run[1..]);
    }
  }

  function Packed(v: Json): bytes {
    var names := Table(v);
    var tree := Tokens(v, names);
    Le32(|names|) + Records(names) + Le32(|tree|) + tree
  }

  /** `castrum_json_parse_packed` on a document that parsed to `v`: the size needed, and the stream if it fits. */
  method ParsePacked(v: Json, out: array<byte>) returns (n: nat)
    modifies out
    ensures n == |Packed(v)|
    ensures n > out.Length ==> out[..] == old(out[..])
    ensures n <= out.Length ==> out[..] == Splice(old(out[..]), 0, Packed(v))
  {
    hide Le32, Records, Tokens, Strings, Splice;
    var e := new Emitter();
    e.Visit(v);
    assert [] + Tokens(v, e.names) == Tokens(v, e.names);
    var needed := 4 + |e.table| + 4 + |e.tree|;
    if needed > out.Length { return needed; }
    ghost var orig := out[..];
    var head, middle := Le32(|e.strings|), Le32(|e.tree|);
    Put(out, 0, head);
    Extend(out, orig, 0, head, 4, e.table);
    Extend(out, orig, 0, head + e.table, 4 + |e.table|, middle);
    Extend(out, orig, 0, head + e.table + middle, 4 + |e.table| + 4, e.tree);
    return needed;
  }

  // ---- the decoder ----

  function DecodeStrings(b: bytes, p: nat, count: nat): (r: Option<(seq<bytes>, nat)>)
    requires p <= |b|
    ensures r.Some? ==> |r.value.0| == count && p <= r.value.1 <= |b|
    ensures r.Some? ==> forall s :: s in r.value.0 ==> |s| < TWO32
    decreases count
  {
    if count == 0 then Some(([], p))
    else if p + 4 > |b| then None
    else
      var n := FromLe32(b, p);
      if p + 4 + n > |b| then None
      else match DecodeStrings(b, p + 4 + n, count - 1)
        case None => None
        case Some(r) => Some(([b[p + 4..p + 4 + n]] + r.0, r.1))
  }

  function StringAt(b: bytes, p: nat, strings: seq<bytes>): (r: Option<bytes>)
    ensures r.Some? ==> p + 4 <= |b| && r.value in strings
  {
    if p + 4 > |b| || FromLe32(b, p) >= |strings| then None else Some(strings[FromLe32(b, p)])
  }

  /** `value`: recursion on the bytes that are left. */
  function DecodeValue(b: bytes, p: nat, strings: seq<bytes>): (r: Option<(Doc, nat)>)
    ensures r.Some? ==> p < r.value.1 <= |b|
    decreases |b| - p, 0
  {
    if p >= |b| then None
    else if b[p] == NULL then Some((Nil, p + 1))
    else if b[p] == FALSE then Some((Flag(false), p + 1))
    else if b[p] == TRUE then Some((Flag(true), p + 1))
    else if b[p] == NUMBER then
      if p + 9 > |b| then None else Some((Real(b[p + 1..p + 9]), p + 9))
    else if b[p] == STRING then
      match StringAt(b, p + 1, strings) case None => None case Some(s) => Some((Str(s), p + 5))
    else if b[p] == ARRAY_START then
      match DecodeItems(b, p + 1, strings) case None => None case Some(r) => Some((List(r.0), r.1))
    else if b[p] == OBJECT_START then
      match DecodeMembers(b, p + 1, strings, map[]) case None => None case Some(r) => Some((Dict(r.0), r.1))
    else None
  }

  function DecodeItems(b: bytes, p: nat, strings: seq<bytes>): (r: Option<(seq<Doc>, nat)>)
    ensures r.Some? ==> p < r.value.1 <= |b|
    decreases |b| - p, 1
  {
    if p >= |b| then None
    else if b[p] == ARRAY_END then Some(([], p + 1))
    else match DecodeValue(b, p, strings)
      case None => None
      case Some(v) =>
        match DecodeItems(b, v.1, strings)
        case None => None
        case Some(r) => Some(([v.0] + r.0, r.1))
  }

  /** Members are inserted into `obj`, so a later one replaces an earlier one of the same key. */
  function DecodeMembers(b: bytes, p: nat, strings: seq<bytes>, obj: map<bytes, Doc>)
    : (r: Option<(map<bytes, Doc>, nat)>)
    ensures r.Some? ==> p < r.value.1 <= |b|
    decreases |b| - p, 1
  {
    if p >= |b| then None
    else if b[p] == OBJECT_END then Some((obj, p + 1))
    else if b[p] != KEY then None
    else match StringAt(b, p + 1, strings)
      case None => None
      case Some(key) =>
        match DecodeValue(b, p + 5, strings)
        case None => None
        case Some(v) => DecodeMembers(b, v.1, strings, obj[key := v.0])
  }

  /** `decode_packed`: the declared tree length must be what the tree takes, and the stream must end there. */
  function Decode(b: bytes): Option<Doc> {
    if |b| < 4 then None
    else match DecodeStrings(b, 4, FromLe32(b, 0))
      case None => None
      case Some(table) => DecodeTree(b, table.1, table.0)
  }

  function DecodeTree(b: bytes, p: nat, strings: seq<bytes>): Option<Doc> {
    if p + 4 > |b| then None
    else match DecodeValue(b, p + 4, strings)
      case None => None
      case Some(v) =>
        var end := p + 4 + FromLe32(b, p);
        if v.1 == end == |b| then Some(v.0) else None
  }

  // ---- decoding undoes emitting ----

  /** A tree as a decoder sees it: of the members with one key the last one counts. */
  function Seen(v: Json): Doc {
    match v
    case Null => Nil
    case Bool(b) => Flag(b)
    case Number(bits) => Real(bits)
    case Text(s) => Str(s)
    case Array(items) => List(SeenItems(items))
    case Object(members) => Dict(SeenMembers(members, map[]))
  }

  function SeenItems(s: Items): seq<Doc> {
    match s case NoItems => [] case Item(head, tail) => [Seen(head)] + SeenItems(tail)
  }

  function SeenMembers(s: Members, obj: map<bytes, Doc>): map<bytes, Doc> {
    match s case NoMembers => obj case Member(key, value, rest) => SeenMembers(rest, obj[key := Seen(value)])
  }

  lemma StringAtIndex(b: bytes, p: nat, names: seq<bytes>, s: bytes)
    requires s in names && |names| <= TWO32 && At(b, p, Le32(IndexOf(names, s)))
    ensures StringAt(b, p, names) == Some(s)
  {
    hide Le32, FromLe32;
    FromLe32OfLe32(b, p, IndexOf(names, s));
  }

  lemma {:induction false} DecodeTokens(v: Json, names: seq<bytes>, b: bytes, p: nat)
    requires Covers(names, Strings(v)) && |names| <= TWO32 && At(b, p, Tokens(v, names))
    ensures DecodeValue(b, p, names) == Some((Seen(v), p + |Tokens(v, names)|))
    decreases v
  {
    hide Le32, IndexOf, FromLe32, StringAt, At, ItemTokens, MemberTokens, SeenItems, SeenMembers, DecodeItems,
      DecodeMembers;
    AtHead(b, p, Tokens(v, names));
    match v
    case Null =>
    case Bool(_) =>
    case Number(bits) =>
      AtSplit(b, p, [NUMBER], bits);
      NumberAt(b, p + 1, bits);
    case Text(s) =>
      assert s in Strings(v);
      AtSplit(b, p, [STRING], Le32(IndexOf(names, s)));
      StringAtIndex(b, p + 1, names, s);
    case Array(items) =>
      Framed([], ARRAY_START, ItemTokens(items, names), ARRAY_END);
      Assoc([ARRAY_START], ItemTokens(items, names), [ARRAY_END]);
      AtSplit(b, p, [ARRAY_START], ItemTokens(items, names) + [ARRAY_END]);
      DecodeItemTokens(items, names, b, p + 1);
    case Object(members) =>
      Assoc([OBJECT_START], MemberTokens(members, names), [OBJECT_END]);
      AtSplit(b, p, [OBJECT_START], MemberTokens(members, names) + [OBJECT_END]);
      DecodeMemberTokens(members, names, b, p + 1, map[]);
  }

  lemma NumberAt(b: bytes, p: nat, bits: Double)
    requires At(b, p, bits)
    ensures p + 8 <= |b| && b[p..p + 8] == bits
  {
  }

  lemma TagIsNoEnd(v: Json, names: seq<bytes>)
    requires Covers(names, Strings(v))
    ensures Tokens(v, names) != [] && Tokens(v, names)[0] != ARRAY_END
  {
  }

  lemma {:induction false} DecodeItemTokens(s: Items, names: seq<bytes>, b: bytes, p: nat)
    requires Covers(names, ItemStrings(s)) && |names| <= TWO32 && At(b, p, ItemTokens(s, names) + [ARRAY_END])
    ensures DecodeItems(b, p, names) == Some((SeenItems(s), p + |ItemTokens(s, names)| + 1))
    decreases s
  {
    hide DecodeValue, Tokens, At;
    match s
    case NoItems =>
      assert [] + [ARRAY_END] == [ARRAY_END];
      AtHead(b, p, [ARRAY_END]);
    case Item(head, tail) =>
      var t, u := Tokens(head, names), ItemTokens(tail, names);
      Assoc(t, u, [ARRAY_END]);
      AtSplit(b, p, t, u + [ARRAY_END]);
      TagIsNoEnd(head, names);
      AtHead(b, p, t);
      DecodeTokens(head, names, b, p);
      DecodeItemTokens(tail, names, b, p + |t|);
  }

  lemma {:induction false} DecodeMemberTokens(s: Members, names: seq<bytes>, b: bytes, p: nat, obj: map<bytes, Doc>)
    requires Covers(names, MemberStrings(s)) && |names| <= TWO32 && At(b, p, MemberTokens(s, names) + [OBJECT_END])
    ensures DecodeMembers(b, p, names, obj) == Some((SeenMembers(s, obj), p + |MemberTokens(s, names)| + 1))
    decreases s
  {
    hide DecodeValue, Tokens, At, Le32, IndexOf, StringAt;
    match s
    case NoMembers =>
      assert [] + [OBJECT_END] == [OBJECT_END];
      AtHead(b, p, [OBJECT_END]);
    case Member(key, value, rest) =>
      assert key in MemberStrings(s);
      var i, t, u := Le32(IndexOf(names, key)), Tokens(value, names), MemberTokens(rest, names);
      Assoc([KEY] + i + t, u, [OBJECT_END]);
      AtSplit(b, p, [KEY] + i + t, u + [OBJECT_END]);
      AtSplit(b, p, [KEY] + i, t);
      AtSplit(b, p, [KEY], i);
      AtHead(b, p, [KEY]);
      StringAtIndex(b, p + 1, names, key);
      DecodeTokens(value, names, b, p + 5);
      DecodeMemberTokens(rest, names, b, p + 5 + |t|, obj[key := Seen(value)]);
  }

  lemma {:induction false} DecodeRecords(names: seq<bytes>, b: bytes, p: nat)
    requires (forall s :: s in names ==> |s| < TWO32) && At(b, p, Records(names))
    ensures DecodeStrings(b, p, |names|) == Some((names, p + |Records(names)|))
    decreases |names|
  {
    hide Le32, FromLe32, At, Records;
    AtBound(b, p, Records(names));
    RecordsStep(names);
    if names != [] {
      var s, rest := names[0], Records(names[1..]);
      AtSplit(b, p, Le32(|s|) + s, rest);
      RecordAt(b, p, s);
      DecodeRecords(names[1..], b, p + 4 + |s|);
      assert names == [s] + names[1..];
    }
  }

  lemma RecordsStep(names: seq<bytes>)
    ensures Records(names) == if names == [] then [] else Le32(|names[0]|) + names[0] + Records(names[1..])
  {
  }

  lemma RecordAt(b: bytes, p: nat, s: bytes)
    requires |s| < TWO32 && At(b, p, Le32(|s|) + s)
    ensures p + 4 + |s| <= |b| && FromLe32(b, p) == |s| && b[p + 4..p + 4 + |s|] == s
  {
    hide Le32, FromLe32;
    AtSplit(b, p, Le32(|s|), s);
    FromLe32OfLe32(b, p, |s|);
  }

  lemma AtBound(b: bytes, p: nat, t: bytes)
    requires At(b, p, t)
    ensures p + |t| <= |b| && b[p..p + |t|] == t
  {
  }

  /** Every count and length of the stream fits the u32 it is written to. */
  predicate Fits(v: Json) {
    && |Table(v)| < TWO32
    && (forall s :: s in Strings(v) ==> |s| < TWO32)
    && |Tokens(v, Table(v))| < TWO32
  }

  lemma PackedParts(v: Json)
    ensures var names, b := Table(v), Packed(v);
      var tree := Tokens(v, names);
      && |b| == 8 + |Records(names)| + |tree|
      && At(b, 0, Le32(|names|)) && At(b, 4, Records(names))
      && At(b, 4 + |Records(names)|, Le32(|tree|)) && At(b, 8 + |Records(names)|, tree)
  {
    hide Le32, Records, Tokens, Table;
    var names, b := Table(v), Packed(v);
    var r, tree := Records(names), Tokens(v, names);
    assert At(b, 0, b);
    AtSplit(b, 0, Le32(|names|) + r + Le32(|tree|), tree);
    AtSplit(b, 0, Le32(|names|) + r, Le32(|tree|));
    AtSplit(b, 0, Le32(|names|), r);
  }

  lemma TreeDecodes(v: Json)
    requires |Table(v)| < TWO32
    ensures DecodeTree(Packed(v), 4 + |Records(Table(v))|, Table(v))
            == if |Tokens(v, Table(v))| < TWO32 then Some(Seen(v)) else None
  {
    hide Le32, Records, Tokens, Table, FromLe32, DecodeValue, At;
    PackedParts(v);
    var names, b := Table(v), Packed(v);
    var p, tree := 4 + |Records(names)|, Tokens(v, names);
    DecodeTokens(v, names, b, p + 4);
    FromLe32OfLe32(b, p, |tree|);
  }

  lemma TableDecodes(v: Json)
    requires |Table(v)| < TWO32 && forall s :: s in Strings(v) ==> |s| < TWO32
    ensures Decode(Packed(v)) == DecodeTree(Packed(v), 4 + |Records(Table(v))|, Table(v))
  {
    hide Le32, Records, Tokens, Table, FromLe32, DecodeTree, DecodeStrings;
    PackedParts(v);
    FromLe32OfLe32(Packed(v), 0, |Table(v)|);
    DecodeRecords(Table(v), Packed(v), 4);
  }

  // ---- when the tree comes back ----

  /** Everything in `v` is in `d`, with nothing else: objects have as many entries as members, one for each. */
  ghost predicate Keeps(v: Json, d: Doc) {
    match v
    case Null => d == Nil
    case Bool(b) => d == Flag(b)
    case Number(bits) => d == Real(bits)
    case Text(s) => d == Str(s)
    case Array(items) => d.List? && KeepsItems(items, d.items)
    case Object(members) => d.Dict? && |d.entries| == Count(members) && KeepsMembers(members, d.entries)
  }

  ghost predicate KeepsItems(s: Items, ds: seq<Doc>) {
    match s
    case NoItems => ds == []
    case Item(head, tail) => ds != [] && Keeps(head, ds[0]) && KeepsItems(tail, ds[1..])
  }

  ghost predicate KeepsMembers(s: Members, m: map<bytes, Doc>) {
    match s
    case NoMembers => true
    case Member(key, value, rest) => key in m && Keeps(value, m[key]) && KeepsMembers(rest, m)
  }

  function Count(s: Members): nat {
    match s case NoMembers => 0 case Member(_, _, rest) => 1 + Count(rest)
  }

  function KeySet(s: Members): set<bytes> {
    match s case NoMembers => {} case Member(key, _, rest) => {key} + KeySet(rest)
  }

  predicate DistinctKeys(s: Members) {
    match s case NoMembers => true case Member(key, _, rest) => key !in KeySet(rest) && DistinctKeys(rest)
  }

  /** No object in the tree repeats a key. */
  predicate NoRepeats(v: Json) {
    match v
    case Array(items) => NoItemRepeats(items)
    case Object(members) => DistinctKeys(members) && NoMemberRepeats(members)
    case _ => true
  }

  predicate NoItemRepeats(s: Items) {
    match s case NoItems => true case Item(head, tail) => NoRepeats(head) && NoItemRepeats(tail)
  }

  predicate NoMemberRepeats(s: Members) {
    match s case NoMembers => true case Member(_, value, rest) => NoRepeats(value) && NoMemberRepeats(rest)
  }

  lemma {:induction false} KeyCount(s: Members)
    ensures |KeySet(s)| <= Count(s) && (|KeySet(s)| == Count(s) <==> DistinctKeys(s))
  {
    if s.Member? {
      KeyCount(s.rest);
      if s.key in KeySet(s.rest) { assert KeySet(s) == KeySet(s.rest); }
    }
  }

  lemma {:induction false} SeenKeys(s: Members, obj: map<bytes, Doc>)
    ensures SeenMembers(s, obj).Keys == obj.Keys + KeySet(s)
    ensures forall k :: k in obj && k !in KeySet(s) ==> SeenMembers(s, obj)[k] == obj[k]
    decreases s
  {
    hide Seen;
    if s.Member? { SeenKeys(s.rest, obj[s.key := Seen(s.value)]); }
  }

  /** The decoder's view keeps the tree exactly when no object repeats a key. */
  lemma {:induction false} SeenKeeps(v: Json)
    ensures Keeps(v, Seen(v)) <==> NoRepeats(v)
    decreases v
  {
    match v
    case Array(items) => SeenKeepsItems(items);
    case Object(members) =>
      var m := SeenMembers(members, map[]);
      SeenKeys(members, map[]);
      KeyCount(members);
      assert m.Keys == KeySet(members) && |m| == |m.Keys|;
      if DistinctKeys(members) { SeenKeepsMembers(members, map[]); }
    case _ =>
  }

  lemma {:induction false} SeenKeepsItems(s: Items)
    ensures KeepsItems(s, SeenItems(s)) <==> NoItemRepeats(s)
    decreases s
  {
    hide Keeps, Seen;
    if s.Item? {
      SeenKeeps(s.head);
      SeenKeepsItems(s.tail);
    }
  }

  lemma {:induction false} SeenKeepsMembers(s: Members, obj: map<bytes, Doc>)
    requires DistinctKeys(s)
    ensures KeepsMembers(s, SeenMembers(s, obj)) <==> NoMemberRepeats(s)
    decreases s
  {
    hide Keeps, Seen;
    if s.Member? {
      var obj' := obj[s.key := Seen(s.value)];
      SeenKeeps(s.value);
      SeenKeys(s.rest, obj');
      SeenKeepsMembers(s.rest, obj');
    }
  }

  /** Trees that `d` keeps are made of `strings`. */
  ghost predicate MadeOf(d: Doc, strings: seq<bytes>) { forall v :: Keeps(v, d) ==> Covers(strings, Strings(v)) }

  ghost predicate AllMadeOf(m: map<bytes, Doc>, strings: seq<bytes>) {
    forall k :: k in m ==> k in strings && MadeOf(m[k], strings)
  }

  lemma {:induction false} KeptItems(s: Items, ds: seq<Doc>, strings: seq<bytes>)
    requires KeepsItems(s, ds) && forall i :: 0 <= i < |ds| ==> MadeOf(ds[i], strings)
    ensures Covers(strings, ItemStrings(s))
    decreases s
  {
    hide Keeps, Strings;
    if s.Item? {
      assert MadeOf(ds[0], strings);
      KeptItems(s.tail, ds[1..], strings);
    }
  }

  lemma {:induction false} KeptMembers(s: Members, m: map<bytes, Doc>, strings: seq<bytes>)
    requires KeepsMembers(s, m) && AllMadeOf(m, strings)
    ensures Covers(strings, MemberStrings(s))
    decreases s
  {
    hide Keeps, Strings;
    if s.Member? {
      assert MadeOf(m[s.key], strings);
      KeptMembers(s.rest, m, strings);
    }
  }

  lemma ListMadeOf(ds: seq<Doc>, strings: seq<bytes>)
    requires forall i :: 0 <= i < |ds| ==> MadeOf(ds[i], strings)
    ensures MadeOf(List(ds), strings)
  {
    hide MadeOf, KeepsItems, ItemStrings;
    forall v | Keeps(v, List(ds))
      ensures Covers(strings, Strings(v))
    {
      KeptItems(v.items, ds, strings);
    }
    MadeOfIs(List(ds), strings);
  }

  lemma DictMadeOf(m: map<bytes, Doc>, strings: seq<bytes>)
    requires AllMadeOf(m, strings)
    ensures MadeOf(Dict(m), strings)
  {
    hide MadeOf, AllMadeOf, KeepsMembers, MemberStrings;
    forall v | Keeps(v, Dict(m))
      ensures Covers(strings, Strings(v))
    {
      KeptMembers(v.members, m, strings);
    }
    MadeOfIs(Dict(m), strings);
  }

  lemma MadeOfIs(d: Doc, strings: seq<bytes>)
    requires forall v :: Keeps(v, d) ==> Covers(strings, Strings(v))
    ensures MadeOf(d, strings)
  {
  }

  /** What a decoder returns is made of the strings it was given. */
  lemma {:induction false} DecodedStrings(b: bytes, p: nat, strings: seq<bytes>)
    ensures var r := DecodeValue(b, p, strings); r.Some? ==> MadeOf(r.value.0, strings)
    decreases |b| - p, 0
  {
    var r := DecodeValue(b, p, strings);
    if r.Some? {
      if b[p] == ARRAY_START {
        DecodedItemStrings(b, p + 1, strings);
        ListMadeOf(r.value.0.items, strings);
      } else if b[p] == OBJECT_START {
        DecodedMemberStrings(b, p + 1, strings, map[]);
        DictMadeOf(r.value.0.entries, strings);
      }
    }
  }

  lemma {:induction false} DecodedItemStrings(b: bytes, p: nat, strings: seq<bytes>)
    ensures var r := DecodeItems(b, p, strings);
      r.Some? ==> forall i :: 0 <= i < |r.value.0| ==> MadeOf(r.value.0[i], strings)
    decreases |b| - p, 1
  {
    hide DecodeValue, MadeOf;
    if p < |b| && b[p] != ARRAY_END {
      DecodedStrings(b, p, strings);
      var v := DecodeValue(b, p, strings);
      if v.Some? { DecodedItemStrings(b, v.value.1, strings); }
    }
  }

  lemma {:induction false} DecodedMemberStrings(b: bytes, p: nat, strings: seq<bytes>, obj: map<bytes, Doc>)
    requires AllMadeOf(obj, strings)
    ensures var r := DecodeMembers(b, p, strings, obj); r.Some? ==> AllMadeOf(r.value.0, strings)
    decreases |b| - p, 1
  {
    hide DecodeValue, MadeOf;
    if p + 5 <= |b| && b[p] == KEY && StringAt(b, p + 1, strings).Some? {
      DecodedStrings(b, p + 5, strings);
      var v := DecodeValue(b, p + 5, strings);
      if v.Some? {
        DecodedMemberStrings(b, v.value.1, strings, obj[StringAt(b, p + 1, strings).value := v.value.0]);
      }
    }
  }

  lemma {:induction false} DistinctCount(names: seq<bytes>, others: seq<bytes>)
    requires Distinct(names) && Covers(others, names)
    ensures |names| <= |others|
    decreases |names|
  {
    if names != [] {
      var i := IndexOf(others, names[0]);
      var less := others[..i] + others[i + 1..];
      forall s | s in names[1..]
        ensures s in less
      {
        var j := IndexOf(others, s);
        assert j != i;
        assert less[if j < i then j else j - 1] == s;
      }
      DistinctCount(names[1..], less);
    }
  }

  ghost predicate ComesBack(v: Json) { Decode(Packed(v)).Some? && Keeps(v, Decode(Packed(v)).value) }

  /** Decoding the packed stream gives back the tree exactly when every count and length fits 32 bits, past which the
      written lengths wrap around, and no object repeats a key. If they fit, it gives at least the tree with the last
      member of each key. */
  lemma PackedRoundTrip(v: Json)
    ensures ComesBack(v) <==> Fits(v) && NoRepeats(v)
    ensures Fits(v) ==> Decode(Packed(v)) == Some(Seen(v))
  {
    hide Decode, Packed, Tokens, Table, DecodeTree, Keeps, Seen, NoRepeats;
    if ComesBack(v) { DecodedFits(v); }
    if |Table(v)| < TWO32 && forall s :: s in Strings(v) ==> |s| < TWO32 {
      TableDecodes(v);
      TreeDecodes(v);
      SeenKeeps(v);
    }
  }

  lemma DecodedFits(v: Json)
    requires ComesBack(v)
    ensures |Table(v)| < TWO32 && forall s :: s in Strings(v) ==> |s| < TWO32
  {
    hide Packed, Tokens, Table, DecodeValue, DecodeStrings, FromLe32, Le32, Records, Keeps;
    var b := Packed(v);
    var table := DecodeStrings(b, 4, FromLe32(b, 0)).value;
    DecodedStrings(b, table.1 + 4, table.0);
    DistinctCount(Table(v), table.0);
  }

  /** A string of 2^32 bytes is lost. */
  lemma LongTextIsLost()
    ensures !ComesBack(Text(seq(TWO32, i => 0)))
  {
    hide ComesBack;
    var s: bytes := seq(TWO32, i => 0);
    PackedRoundTrip(Text(s));
    assert s in Strings(Text(s));
  }

  /** `{"a":null,"a":true}` comes back as `{"a":true}`. */
  lemma RepeatedKeyIsLost()
    ensures var v := Object(Member(Ascii("a"), Null, Member(Ascii("a"), Bool(true), NoMembers)));
      !ComesBack(v) && Decode(Packed(v)) == Some(Dict(map[Ascii("a") := Flag(true)]))
  {
    hide ComesBack, Decode, Packed;
    var v := Object(Member(Ascii("a"), Null, Member(Ascii("a"), Bool(true), NoMembers)));
    PackedRoundTrip(v);
    var a := Ascii("a");
    var inner := Member(a, Bool(true), NoMembers);
    assert MemberStrings(inner) == [a] && Strings(v) == [a, a];
    DistinctCount(Table(v), Strings(v));
    assert |MemberTokens(inner, Table(v))| == 6;
    assert SeenMembers(inner, map[a := Nil]) == map[a := Flag(true)];
  }

  // ---- the stream in bytes ----

  /** The tokens in numbers: 0 null, 1 false, 2 true, 3 number, 4 string, 5 to 7 array, 6 to 8 object, 9 key. */
  lemma TokenBytes(v: Json, names: seq<bytes>)
    requires Covers(names, Strings(v))
    ensures v.Null? ==> Tokens(v, names) == [0]
    ensures v.Bool? ==> Tokens(v, names) == if v.b then [2] else [1]
    ensures v.Number? ==> Tokens(v, names) == [3] + v.bits
    ensures v.Text? ==> v.s in names && Tokens(v, names) == [4] + Le32(IndexOf(names, v.s))
    ensures v.Array? ==> Tokens(v, names) == [5] + ItemTokens(v.items, names) + [7]
    ensures v.Object? ==> Tokens(v, names) == [6] + MemberTokens(v.members, names) + [8]
  {
    if v.Text? { assert v.s in Strings(v); }
  }

  lemma MemberBytes(key: bytes, value: Json, rest: Members, names: seq<bytes>)
    requires Covers(names, MemberStrings(Member(key, value, rest)))
    ensures key in names && Covers(names, Strings(value)) && Covers(names, MemberStrings(rest))
    ensures MemberTokens(Member(key, value, rest), names)
            == [9] + Le32(IndexOf(names, key)) + Tokens(value, names) + MemberTokens(rest, names)
  {
    assert key in MemberStrings(Member(key, value, rest));
  }

  /** `true` on the wire. */
  lemma TrueOnTheWire()
    ensures Packed(Bool(true)) == [0, 0, 0, 0, 1, 0, 0, 0, 2]
  {
    assert Table(Bool(true)) == [];
  }

  /** `{"a":["b","a"]}`. */
  function Document(): Json {
    Object(Member([0x61], Array(Item(Text([0x62]), Item(Text([0x61]), NoItems))), NoMembers))
  }

  /** That document on the wire: a table of two strings, then the tree. */
  lemma DocumentOnTheWire()
    ensures Packed(Document()) == [2, 0, 0, 0, 1, 0, 0, 0, 0x61, 1, 0, 0, 0, 0x62, 19, 0, 0, 0]
                                  + [6, 9, 0, 0, 0, 0, 5, 4, 1, 0, 0, 0, 4, 0, 0, 0, 0, 7, 8]
  {
    hide Table, Records, Tokens, Document;
    DocumentTable();
    DocumentTokens();
    TwoRecords();
  }

  lemma DocumentTokens()
    ensures Covers([[0x61], [0x62]], Strings(Document()))
    ensures Tokens(Document(), [[0x61], [0x62]]) == [6, 9, 0, 0, 0, 0, 5, 4, 1, 0, 0, 0, 4, 0, 0, 0, 0, 7, 8]
  {
    var a: bytes, b: bytes := [0x61], [0x62];
    var list := Array(Item(Text(b), Item(Text(a), NoItems)));
    var names := [a, b];
    DocumentIndices();
    DocumentList();
    DocumentStrings();
    hide Tokens, Strings, Le32, IndexOf;
    MemberBytes(a, list, NoMembers, names);
    TokenBytes(Document(), names);
    assert MemberTokens(NoMembers, names) == [];
  }

  lemma DocumentStrings()
    ensures Strings(Document()) == [[0x61], [0x62], [0x61]]
    ensures MemberStrings(Document().members) == [[0x61], [0x62], [0x61]]
  {
    var a: bytes, b: bytes := [0x61], [0x62];
    var items := Item(Text(b), Item(Text(a), NoItems));
    assert ItemStrings(items) == [b, a] && Strings(Array(items)) == [b, a];
  }

  lemma DocumentIndices()
    ensures var names: seq<bytes> := [[0x61], [0x62]];
      && [0x61] in names && Le32(IndexOf(names, [0x61])) == [0, 0, 0, 0]
      && [0x62] in names && Le32(IndexOf(names, [0x62])) == [1, 0, 0, 0]
  {
    var a: bytes, b: bytes := [0x61], [0x62];
    var names := [a, b];
    assert a != b && names[1..][0] == b;
  }

  lemma DocumentList()
    ensures var list := Array(Item(Text([0x62]), Item(Text([0x61]), NoItems)));
      && Covers([[0x61], [0x62]], Strings(list))
      && Tokens(list, [[0x61], [0x62]]) == [5, 4, 1, 0, 0, 0, 4, 0, 0, 0, 0, 7]
  {
    var a: bytes, b: bytes := [0x61], [0x62];
    var names := [a, b];
    DocumentIndices();
    hide Le32, IndexOf;
    var rest := Item(Text(a), NoItems);
    assert Strings(Array(Item(Text(b), rest))) == [b, a] && ItemStrings(rest) == [a];
    assert Tokens(Text(b), names) == [4, 1, 0, 0, 0] && Tokens(Text(a), names) == [4, 0, 0, 0, 0];
    assert ItemTokens(rest, names) == [4, 0, 0, 0, 0];
    assert ItemTokens(Item(Text(b), rest), names) == [4, 1, 0, 0, 0, 4, 0, 0, 0, 0];
  }

  lemma TwoRecords()
    ensures Records([[0x61], [0x62]]) == [1, 0, 0, 0, 0x61, 1, 0, 0, 0, 0x62]
  {
    var a: bytes, b: bytes := [0x61], [0x62];
    assert [a, b][1..] == [b] && [b][1..] == [];
    assert Records([b]) == [1, 0, 0, 0, 0x62];
  }

  lemma DocumentTable()
    ensures Table(Document()) == [[0x61], [0x62]]
  {
    var a: bytes, b: bytes := [0x61], [0x62];
    var items := Item(Text(b), Item(Text(a), NoItems));
    assert ItemStrings(items) == [b, a] && Strings(Array(items)) == [b, a];
    assert Strings(Document()) == [a, b, a];
    assert [a, b, a][1..] == [b, a] && [b, a][1..] == [a] && [a][1..] == [];
    assert a != b && b !in [a] && a in [a, b];
    assert InternAll([], [a, b, a]) == InternAll([a], [b, a]) == InternAll([a, b], [a]) == InternAll([a, b], []);
  }
}
