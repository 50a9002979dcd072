/** The canonical encoding of states (crates/checker/src/canon.rs). */
module Canon {
  import opened Bytes
  import opened Sorting
  import opened Values
  import opened Wrappers

  const TAG_NULL: byte := 0
  const TAG_BOOL_FALSE: byte := 1
  const TAG_BOOL_TRUE: byte := 2
  const TAG_INT: byte := 3
  const TAG_STRING: byte := 4
  const TAG_UNMOUNTED: byte := 5
  const TAG_RECORD: byte := 6
  const TAG_TAGGED: byte := 7
  const TAG_LIST: byte := 8

  const U32: nat := 0x1_0000_0000
  const U64: nat := 0x1_0000_0000_0000_0000
  const I63: int := 0x8000_0000_0000_0000

  // ---------------------------------------------------------------------------
  // Numbers and text
  // ---------------------------------------------------------------------------

  /** The low `width` bytes, least significant first. */
  function LittleEndian(n: nat, width: nat): (b: seq<byte>)
    ensures |b| == width
  {
    if width == 0 then [] else [(n % 256) as byte] + LittleEndian(n / 256, width - 1)
  }

  function Pow256(width: nat): nat {
    if width == 0 then 1 else 256 * Pow256(width - 1)
  }

  lemma {:induction false} LittleEndianInjective(m: nat, n: nat, width: nat)
    requires m < Pow256(width) && n < Pow256(width) && LittleEndian(m, width) == LittleEndian(n, width)
    ensures m == n
    decreases width
  {
    if width > 0 {
      var a, b := LittleEndian(m, width), LittleEndian(n, width);
      assert a[0] == b[0] && a[1..] == b[1..];
      LittleEndianInjective(m / 256, n / 256, width - 1);
    }
  }

  lemma {:induction false} Powers()
    ensures Pow256(4) == U32 && Pow256(8) == U64
  {
    assert Pow256(1) == 256 && Pow256(2) == 0x1_0000 && Pow256(3) == 0x100_0000;
    assert Pow256(5) == 0x100_0000_0000 && Pow256(6) == 0x1_0000_0000_0000 && Pow256(7) == 0x100_0000_0000_0000;
  }

  function EncodeText(t: Text): seq<byte> {
    [TAG_STRING] + LittleEndian(|t|, 4) + t
  }

  /** 64-bit two's complement. */
  function EncodeInt(n: int): seq<byte> {
    [TAG_INT] + LittleEndian(n % U64, 8)
  }

  function ReadDigits(s: Text): int {
    if s == [] then 0 else 10 * ReadDigits(s[..|s| - 1]) + (s[|s| - 1] as int - 48)
  }

  lemma {:induction false} DigitsRead(n: nat)
    ensures ReadDigits(Digits(n)) == n
  {
    if n >= 10 {
      DigitsRead(n / 10);
      assert Digits(n)[..|Digits(n)| - 1] == Digits(n / 10);
    } else {
      assert Digits(n)[..0] == [];
    }
  }

  lemma {:induction false} TokenNameInjective(m: nat, n: nat)
    requires TokenName(m) == TokenName(n)
    ensures m == n
  {
    assert TokenName(m)[|TOKEN_PREFIX|..] == Digits(m) && TokenName(n)[|TOKEN_PREFIX|..] == Digits(n);
    DigitsRead(m);
    DigitsRead(n);
  }

  lemma {:induction false} TextUnambiguous(s: Text, t: Text, p: seq<byte>, q: seq<byte>)
    requires |s| < U32 && |t| < U32 && EncodeText(s) + p == EncodeText(t) + q
    ensures s == t && p == q
  {
    var x, y := EncodeText(s) + p, EncodeText(t) + q;
    assert x[1..5] == LittleEndian(|s|, 4) && y[1..5] == LittleEndian(|t|, 4);
    Powers();
    LittleEndianInjective(|s|, |t|, 4);
    assert x[5..5 + |s|] == s && y[5..5 + |t|] == t;
    assert x[5 + |s|..] == p && y[5 + |t|..] == q;
  }

  lemma {:induction false} IntUnambiguous(m: int, n: int, p: seq<byte>, q: seq<byte>)
    requires -I63 <= m < I63 && -I63 <= n < I63 && EncodeInt(m) + p == EncodeInt(n) + q
    ensures m == n && p == q
  {
    var x, y := EncodeInt(m) + p, EncodeInt(n) + q;
    assert x[1..9] == LittleEndian(m % U64, 8) && y[1..9] == LittleEndian(n % U64, 8);
    Powers();
    LittleEndianInjective(m % U64, n % U64, 8);
    SameWord(m, n);
    assert x[9..] == p && y[9..] == q;
  }

  lemma {:induction false} SameWord(m: int, n: int)
    requires -I63 <= m < I63 && -I63 <= n < I63 && m % U64 == n % U64
    ensures m == n
  {
  }

  // ---------------------------------------------------------------------------
  // First-occurrence numbering of tokens
  // ---------------------------------------------------------------------------

  /** The number of a token: its place among the tokens seen, or the next free number. */
  function IdOf(seen: seq<Text>, t: Text): nat {
    var at := Find(seen, t);
    if at.Some? then at.value + 1 else |seen| + 1
  }

  function See(seen: seq<Text>, t: Text): seq<Text> {
    if t in seen then seen else seen + [t]
  }

  // ---------------------------------------------------------------------------
  // Encoding
  // ---------------------------------------------------------------------------

  datatype Coded = Coded(bytes: seq<byte>, seen: seq<Text>)

  /** What a composite value is made of: a value of a domain, a value outside its
      declared fields, or plain text. */
  datatype Part = Typed(domain: Domain, value: Value) | Loose(value: Value) | Raw(value: Value)

  predicate Composite(d: Domain) {
    d.RecordD? || d.TaggedD? || d.ListD?
  }

  function Entries(v: Value): seq<Entry> {
    if v.Obj? then v.entries else []
  }

  function Items(v: Value): seq<Value> {
    if v.Arr? then v.items else []
  }

  function GetOr(entries: seq<Entry>, name: Text): Value {
    var x := Get(entries, name);
    if x.Some? then x.value else Null
  }

  /** The fields of the variant that the object's tag names. */
  function TaggedFields(tag: Text, variants: seq<Field>, entries: seq<Entry>): (r: Option<seq<Field>>)
    ensures r.Some? ==> exists k :: 0 <= k < |variants| && variants[k].domain == RecordD(r.value)
  {
    var k := Find(FieldNames(variants), TextOf(GetOr(entries, tag)));
    if k.Some? && variants[k.value].domain.RecordD? then Some(variants[k.value].domain.fields) else None
  }

  function TaggedPart(tag: Text, fields: Option<seq<Field>>, e: Entry): Part {
    if e.name == tag || fields.None? then Raw(e.value) else
    var k := Find(FieldNames(fields.value), e.name);
    if k.Some? then Typed(fields.value[k.value].domain, e.value) else Loose(e.value)
  }

  function Parts(d: Domain, v: Value): seq<Part>
    requires Composite(d)
  {
    match d
    case RecordD(fields) => seq(|fields|, i requires 0 <= i < |fields| => Typed(fields[i].domain, GetOr(Entries(v), fields[i].name)))
    case TaggedD(tag, variants) =>
      var entries := Entries(v);
      var fields := TaggedFields(tag, variants, entries);
      seq(|entries|, i requires 0 <= i < |entries| => TaggedPart(tag, fields, entries[i]))
    case ListD(inner, _) => seq(|Items(v)|, i requires 0 <= i < |Items(v)| => Typed(inner, Items(v)[i]))
  }

  function Header(d: Domain, v: Value): seq<byte>
    requires Composite(d)
  {
    match d
    case RecordD(fields) => [TAG_RECORD] + LittleEndian(|fields|, 4)
    case TaggedD(tag, _) =>
      [TAG_TAGGED] + EncodeText(TextOf(GetOr(Entries(v), tag))) + LittleEndian(|Entries(v)|, 4)
    case ListD(_, _) => [TAG_LIST] + LittleEndian(|Items(v)|, 4)
  }

  lemma {:induction false} PartsAreSmaller(d: Domain, v: Value)
    requires Composite(d)
    ensures forall p | p in Parts(d, v) && p.Typed? :: p.domain < d
  {
    forall p | p in Parts(d, v) && p.Typed?
      ensures p.domain < d
    {
      var i :| 0 <= i < |Parts(d, v)| && Parts(d, v)[i] == p;
      if d.TaggedD? {
        var fields := TaggedFields(d.tag, d.variants, Entries(v));
        var k :| 0 <= k < |d.variants| && d.variants[k].domain == RecordD(fields.value);
        var j :| 0 <= j < |fields.value| && fields.value[j].domain == p.domain;
        assert d.variants[k].domain < d;
      }
    }
  }

  /** The bytes of a value, and the tokens seen after it. */
  function Encode(d: Domain, v: Value, seen: seq<Text>): Coded
    decreases d, 1, 0
  {
    if v == UNMOUNTED then Coded([TAG_UNMOUNTED], seen) else
    match d
    case BoolD => Coded([if v.Bool? then (if v.b then TAG_BOOL_TRUE else TAG_BOOL_FALSE) else TAG_NULL], seen)
    case EnumD(_) => Coded(EncodeText(TextOf(v)), seen)
    case LengthCatD => Coded(EncodeText(TextOf(v)), seen)
    case IntD(_, _, _) => Coded(EncodeInt(if v.Int? then v.n else 0), seen)
    case IntSetD(_, _) => Coded(EncodeInt(if v.Int? then v.n else 0), seen)
    case TokensD(_, _) =>
      if v.Str? then Coded(EncodeText(TokenName(IdOf(seen, v.s))), See(seen, v.s)) else Coded([TAG_NULL], seen)
    case OptionD(inner) => if v.Null? then Coded([TAG_NULL], seen) else Encode(inner, v, seen)
    case _ =>
      PartsAreSmaller(d, v);
      var body := EncodeParts(d, Parts(d, v), seen);
      Coded(Header(d, v) + body.bytes, body.seen)
  }

  function EncodePart(ghost d: Domain, p: Part, seen: seq<Text>): Coded
    requires p.Typed? ==> p.domain < d
    decreases d, 0, 0
  {
    match p
    case Typed(domain, value) => Encode(domain, value, seen)
    case Loose(value) => Coded(if value == UNMOUNTED then [TAG_UNMOUNTED] else EncodeText(TextOf(value)), seen)
    case Raw(value) => Coded(EncodeText(TextOf(value)), seen)
  }

  function EncodeParts(ghost d: Domain, parts: seq<Part>, seen: seq<Text>): Coded
    requires forall p | p in parts && p.Typed? :: p.domain < d
    decreases d, 0, |parts| + 1
  {
    if parts == [] then Coded([], seen) else
    var head := EncodePart(d, parts[0], seen);
    var rest := EncodeParts(d, parts[1..], head.seen);
    Coded(head.bytes + rest.bytes, rest.seen)
  }

  // ---------------------------------------------------------------------------
  // Renaming tokens
  // ---------------------------------------------------------------------------

  /** The value with `f` applied at every token position. */
  function Rename(d: Domain, f: map<Text, Text>, v: Value): Value
    decreases d
  {
    if v == UNMOUNTED then v else
    match d
    case TokensD(_, _) => if v.Str? && v.s in f then Str(f[v.s]) else v
    case OptionD(inner) => if v.Null? then v else Rename(inner, f, v)
    case RecordD(fields) =>
      if !v.Obj? then v else
      Obj(seq(|v.entries|, i requires 0 <= i < |v.entries| =>
        var k := Find(FieldNames(fields), v.entries[i].name);
        Entry(v.entries[i].name, if k.Some? then Rename(fields[k.value].domain, f, v.entries[i].value) else v.entries[i].value)))
    case TaggedD(tag, variants) =>
      var t := Find(FieldNames(variants), TextOf(GetOr(Entries(v), tag)));
      if !v.Obj? || t.None? || !variants[t.value].domain.RecordD? then v else
      var fields := variants[t.value].domain.fields;
      Obj(seq(|v.entries|, i requires 0 <= i < |v.entries| =>
        var k := Find(FieldNames(fields), v.entries[i].name);
        Entry(v.entries[i].name, if k.Some? && v.entries[i].name != tag then Rename(fields[k.value].domain, f, v.entries[i].value) else v.entries[i].value)))
    case ListD(inner, _) =>
      if !v.Arr? then v else Arr(seq(|v.items|, i requires 0 <= i < |v.items| => Rename(inner, f, v.items[i])))
    case _ => v
  }

  /** Lengths and integers fit the widths the encoding gives them. */
  ghost predicate Sized(v: Value) {
    match v
    case Int(n) => -I63 <= n < I63
    case Str(s) => |s| < U32
    case Arr(items) => |items| < U32 && forall i | 0 <= i < |items| :: Sized(items[i])
    case Obj(entries) => |entries| < U32 && forall i | 0 <= i < |entries| :: Sized(entries[i].value)
    case _ => true
  }

  /** A well-typed, exactly shaped value of a well-formed domain. */
  ghost predicate Good(d: Domain, v: Value) {
    Proper(d) && Validate(d, v) && Exact(d, v) && Sized(v)
  }

  ghost predicate GoodPart(p: Part) {
    match p
    case Typed(domain, value) => Good(domain, value)
    case Loose(_) => false
    case Raw(value) => value.Str? && Sized(value)
  }

  // ---------------------------------------------------------------------------
  // Composite values by their parts
  // ---------------------------------------------------------------------------

  /** The values directly inside a composite value. */
  function Children(v: Value): seq<Value> {
    match v
    case Obj(entries) => seq(|entries|, i requires 0 <= i < |entries| => entries[i].value)
    case Arr(items) => items
    case _ => []
  }

  /** Same kind of composite: same entry names or both lists of one length. */
  ghost predicate SameFrame(v: Value, w: Value) {
    || (v.Arr? && w.Arr? && |v.items| == |w.items|)
    || (v.Obj? && w.Obj? && NamesOf(v.entries) == NamesOf(w.entries))
  }

  lemma {:induction false} FrameAndChildren(v: Value, w: Value)
    requires SameFrame(v, w) && Children(v) == Children(w)
    ensures v == w
  {
    if v.Obj? {
      forall i | 0 <= i < |v.entries|
        ensures v.entries[i] == w.entries[i]
      {
        assert NamesOf(v.entries)[i] == NamesOf(w.entries)[i];
        assert Children(v)[i] == Children(w)[i];
      }
      assert |NamesOf(v.entries)| == |NamesOf(w.entries)|;
      assert v.entries == w.entries;
    }
  }

  function RenamePart(f: map<Text, Text>, p: Part): Value {
    if p.Typed? then Rename(p.domain, f, p.value) else p.value
  }

  /** Part `i` of a good composite value is child `i`, is good, and renaming acts on it alone. */
  ghost predicate Aligned(d: Domain, f: map<Text, Text>, v: Value, i: nat)
    requires Composite(d)
  {
    && i < |Parts(d, v)| == |Children(v)| == |Children(Rename(d, f, v))|
    && Parts(d, v)[i].value == Children(v)[i] && GoodPart(Parts(d, v)[i])
    && Children(Rename(d, f, v))[i] == RenamePart(f, Parts(d, v)[i])
  }

  lemma {:induction false} RecordAligned(d: Domain, f: map<Text, Text>, v: Value, i: nat)
    requires d.RecordD? && Good(d, v) && v != UNMOUNTED && i < |d.fields|
    ensures SameFrame(v, Rename(d, f, v)) && Aligned(d, f, v, i)
  {
    assert NamesOf(v.entries)[i] == FieldNames(d.fields)[i];
    assert |NamesOf(v.entries)| == |FieldNames(d.fields)|;
    GetAt(v.entries, i);
    FindAt(FieldNames(d.fields), i);
    assert Get(v.entries, d.fields[i].name).Some?;
    assert NamesOf(v.entries) == NamesOf(Rename(d, f, v).entries);
  }

  /** What a good tagged object looks like. */
  ghost predicate IsVariant(d: Domain, v: Value, k: nat)
    requires d.TaggedD?
  {
    && v.Obj? && k < |d.variants| && d.variants[k].domain.RecordD?
    && Proper(d.variants[k].domain) && Validate(d.variants[k].domain, v)
    && d.tag !in FieldNames(d.variants[k].domain.fields)
    && ExactVariant(d, d.tag, d.variants[k].domain.fields, v.entries)
    && Get(v.entries, d.tag).Some? && Get(v.entries, d.tag).value == Str(d.variants[k].name)
    && Find(FieldNames(d.variants), TextOf(GetOr(v.entries, d.tag))) == Some(k)
  }

  lemma {:induction false} GoodIsVariant(d: Domain, v: Value) returns (k: nat)
    requires d.TaggedD? && Good(d, v) && v != UNMOUNTED
    ensures IsVariant(d, v, k)
  {
    k := VariantOf(d.tag, d.variants, v.entries).value;
  }

  lemma {:induction false} TaggedPartsGood(d: Domain, v: Value, k: nat, i: nat)
    requires d.TaggedD? && Good(d, v) && v != UNMOUNTED && IsVariant(d, v, k) && i < |v.entries|
    ensures Parts(d, v)[i] == TaggedPart(d.tag, Some(d.variants[k].domain.fields), v.entries[i])
    ensures GoodPart(Parts(d, v)[i])
  {
    var fields := d.variants[k].domain.fields;
    var name := v.entries[i].name;
    GetAt(v.entries, i);
    if name != d.tag {
      assert NamesOf(v.entries)[i] == name;
      var j := Find(FieldNames(fields), name).value;
      assert Validate(fields[j].domain, v.entries[i].value);
      assert Exact(fields[j].domain, v.entries[i].value);
    }
  }

  lemma {:induction false} TaggedAligned(d: Domain, f: map<Text, Text>, v: Value, k: nat, i: nat)
    requires d.TaggedD? && Good(d, v) && v != UNMOUNTED && IsVariant(d, v, k) && i < |v.entries|
    ensures SameFrame(v, Rename(d, f, v)) && Aligned(d, f, v, i)
  {
    assert NamesOf(v.entries) == NamesOf(Rename(d, f, v).entries);
    TaggedPartsGood(d, v, k, i);
  }

  lemma {:induction false} ListAligned(d: Domain, f: map<Text, Text>, v: Value, i: nat)
    requires d.ListD? && Good(d, v) && v != UNMOUNTED && i < |v.items|
    ensures SameFrame(v, Rename(d, f, v)) && Aligned(d, f, v, i)
  {
  }

  lemma {:induction false} CompositeAligned(d: Domain, f: map<Text, Text>, v: Value)
    requires Composite(d) && Good(d, v) && v != UNMOUNTED
    ensures SameFrame(v, Rename(d, f, v)) && |Parts(d, v)| == |Children(v)|
    ensures forall i {:trigger Parts(d, v)[i]} | 0 <= i < |Parts(d, v)| :: Aligned(d, f, v, i)
  {
    if d.TaggedD? {
      var k := GoodIsVariant(d, v);
      assert NamesOf(v.entries) == NamesOf(Rename(d, f, v).entries);
      forall i | 0 <= i < |v.entries|
        ensures Aligned(d, f, v, i)
      {
        TaggedAligned(d, f, v, k, i);
      }
    } else if d.RecordD? {
      assert |NamesOf(v.entries)| == |FieldNames(d.fields)|;
      assert NamesOf(v.entries) == NamesOf(Rename(d, f, v).entries);
      forall i | 0 <= i < |d.fields|
        ensures Aligned(d, f, v, i)
      {
        RecordAligned(d, f, v, i);
      }
    } else {
      forall i | 0 <= i < |v.items|
        ensures Aligned(d, f, v, i)
      {
        ListAligned(d, f, v, i);
      }
    }
  }

  // ---------------------------------------------------------------------------
  // Tokens seen
  // ---------------------------------------------------------------------------

  /** The strings at token positions. */
  ghost function TokensOf(d: Domain, v: Value): set<Text>
    decreases d, 1, 0
  {
    if v == UNMOUNTED then {} else
    match d
    case TokensD(_, _) => if v.Str? then {v.s} else {}
    case OptionD(inner) => if v.Null? then {} else TokensOf(inner, v)
    case RecordD(_) => PartsAreSmaller(d, v); TokensOfParts(d, Parts(d, v))
    case TaggedD(_, _) => PartsAreSmaller(d, v); TokensOfParts(d, Parts(d, v))
    case ListD(_, _) => PartsAreSmaller(d, v); TokensOfParts(d, Parts(d, v))
    case _ => {}
  }

  ghost function TokensOfPart(d: Domain, p: Part): set<Text>
    requires p.Typed? ==> p.domain < d
    decreases d, 0, 0
  {
    if p.Typed? then TokensOf(p.domain, p.value) else {}
  }

  ghost function TokensOfParts(d: Domain, parts: seq<Part>): set<Text>
    requires forall p | p in parts && p.Typed? :: p.domain < d
    decreases d, 0, |parts| + 1
  {
    if parts == [] then {} else TokensOfPart(d, parts[0]) + TokensOfParts(d, parts[1..])
  }

  /** The list of seen tokens grows at its end by the value's new tokens, without repetition. */
  ghost predicate Grows(before: seq<Text>, tokens: set<Text>, after: seq<Text>) {
    && before <= after
    && (Distinct(before) ==> Distinct(after))
    && forall t :: t in after <==> t in before || t in tokens
  }

  lemma {:induction false} EncodeSees(d: Domain, v: Value, seen: seq<Text>)
    ensures Grows(seen, TokensOf(d, v), Encode(d, v, seen).seen)
    decreases d, 1, 0
  {
    if v != UNMOUNTED {
      if d.OptionD? && !v.Null? {
        EncodeSees(d.inner, v, seen);
      } else if Composite(d) {
        PartsAreSmaller(d, v);
        PartsSee(d, Parts(d, v), seen);
      }
    }
  }

  lemma {:induction false} PartsSee(d: Domain, parts: seq<Part>, seen: seq<Text>)
    requires forall p | p in parts && p.Typed? :: p.domain < d
    ensures Grows(seen, TokensOfParts(d, parts), EncodeParts(d, parts, seen).seen)
    decreases d, 0, |parts| + 1
  {
    if parts != [] {
      var head := EncodePart(d, parts[0], seen);
      if parts[0].Typed? {
        EncodeSees(parts[0].domain, parts[0].value, seen);
      }
      PartsSee(d, parts[1..], head.seen);
    }
  }

  /** Renamings that agree on a value's tokens agree on the value. */
  lemma {:induction false} RenameAgree(d: Domain, f: map<Text, Text>, g: map<Text, Text>, v: Value)
    requires Good(d, v)
    requires forall t | t in TokensOf(d, v) :: t in f && t in g && f[t] == g[t]
    ensures Rename(d, f, v) == Rename(d, g, v)
    decreases d, 1
  {
    if v != UNMOUNTED {
      if d.OptionD? && !v.Null? {
        RenameAgree(d.inner, f, g, v);
      } else if Composite(d) {
        CompositeAgree(d, f, g, v);
      }
    }
  }

  lemma {:induction false} CompositeAgree(d: Domain, f: map<Text, Text>, g: map<Text, Text>, v: Value)
    requires Composite(d) && Good(d, v) && v != UNMOUNTED
    requires forall t | t in TokensOf(d, v) :: t in f && t in g && f[t] == g[t]
    ensures Rename(d, f, v) == Rename(d, g, v)
    decreases d, 0
  {
    CompositeAligned(d, f, v);
    CompositeAligned(d, g, v);
    PartsAreSmaller(d, v);
    var parts := Parts(d, v);
    forall i | 0 <= i < |parts|
      ensures Children(Rename(d, f, v))[i] == Children(Rename(d, g, v))[i]
    {
      assert Aligned(d, f, v, i) && Aligned(d, g, v, i);
      if parts[i].Typed? {
        PartTokens(d, parts, i);
        RenameAgree(parts[i].domain, f, g, parts[i].value);
      }
    }
    SameChildren(Rename(d, f, v), Rename(d, g, v), v);
  }

  lemma {:induction false} SameChildren(x: Value, y: Value, v: Value)
    requires SameFrame(v, x) && SameFrame(v, y) && |Children(x)| == |Children(y)|
    requires forall i | 0 <= i < |Children(x)| :: Children(x)[i] == Children(y)[i]
    ensures x == y
  {
    assert Children(x) == Children(y);
    FrameAndChildren(x, y);
  }

  lemma {:induction false} PartTokens(d: Domain, parts: seq<Part>, i: nat)
    requires forall p | p in parts && p.Typed? :: p.domain < d
    requires i < |parts| && parts[i].Typed?
    ensures TokensOf(parts[i].domain, parts[i].value) <= TokensOfParts(d, parts)
    decreases |parts|
  {
    if i > 0 {
      PartTokens(d, parts[1..], i - 1);
    }
  }

  // ---------------------------------------------------------------------------
  // Pairing two lists of seen tokens
  // ---------------------------------------------------------------------------

  function Pairing(a: seq<Text>, b: seq<Text>): map<Text, Text>
    requires |a| == |b|
  {
    if a == [] then map[] else
    var n := |a| - 1;
    Pairing(a[..n], b[..n])[a[n] := b[n]]
  }

  lemma {:induction false} PairingKeys(a: seq<Text>, b: seq<Text>)
    requires |a| == |b|
    ensures forall t :: t in Pairing(a, b) <==> t in a
  {
    if a != [] {
      var n := |a| - 1;
      PairingKeys(a[..n], b[..n]);
      assert a == a[..n] + [a[n]];
    }
  }

  lemma {:induction false} PairingAt(a: seq<Text>, b: seq<Text>, i: nat)
    requires |a| == |b| && Distinct(a) && i < |a|
    ensures a[i] in Pairing(a, b) && Pairing(a, b)[a[i]] == b[i]
    decreases |a|
  {
    var n := |a| - 1;
    if i < n {
      PairingAt(a[..n], b[..n], i);
    }
  }

  /** Longer lists pair the earlier tokens the same way. */
  lemma {:induction false} PairingExtends(a: seq<Text>, b: seq<Text>, a': seq<Text>, b': seq<Text>, t: Text)
    requires |a| == |b| && |a'| == |b'| && a <= a' && b <= b' && Distinct(a') && t in a
    ensures t in Pairing(a, b) && t in Pairing(a', b') && Pairing(a, b)[t] == Pairing(a', b')[t]
  {
    var i :| 0 <= i < |a| && a[i] == t;
    PairingAt(a, b, i);
    PairingAt(a', b', i);
  }

  lemma {:induction false} FindDistinct(seen: seq<Text>, i: nat)
    requires Distinct(seen) && i < |seen|
    ensures Find(seen, seen[i]) == Some(i)
  {
    if i < |seen| - 1 {
      FindDistinct(seen[..|seen| - 1], i);
    }
  }

  // ---------------------------------------------------------------------------
  // Equal bytes mean equal values up to renaming
  // ---------------------------------------------------------------------------

  /** The first byte tells unmounted, null and everything else apart. */
  lemma {:induction false} FirstByte(d: Domain, v: Value, seen: seq<Text>)
    requires Good(d, v)
    ensures var bytes := Encode(d, v, seen).bytes;
            && bytes != []
            && (bytes[0] == TAG_UNMOUNTED <==> v == UNMOUNTED)
            && (bytes[0] == TAG_NULL <==> v == Null)
    decreases d
  {
    if v != UNMOUNTED && d.OptionD? && !v.Null? {
      FirstByte(d.inner, v, seen);
    }
  }

  /** What the comparison of two encodings yields. */
  ghost predicate Matches(d: Domain, v: Value, w: Value, x: Coded, y: Coded, p: seq<byte>, q: seq<byte>) {
    && x.bytes == y.bytes && p == q && |x.seen| == |y.seen|
    && w == Rename(d, Pairing(x.seen, y.seen), v)
  }

  lemma {:induction false} TokenMatches(d: Domain, v: Value, w: Value, a: seq<Text>, b: seq<Text>, p: seq<byte>, q: seq<byte>)
    requires d.TokensD? && v.Str? && w.Str? && v != UNMOUNTED && w != UNMOUNTED
    requires Distinct(a) && Distinct(b) && |a| == |b| && |TokenName(IdOf(a, v.s))| < U32 && |TokenName(IdOf(b, w.s))| < U32
    requires Encode(d, v, a).bytes + p == Encode(d, w, b).bytes + q
    ensures Matches(d, v, w, Encode(d, v, a), Encode(d, w, b), p, q)
  {
    TextUnambiguous(TokenName(IdOf(a, v.s)), TokenName(IdOf(b, w.s)), p, q);
    TokenNameInjective(IdOf(a, v.s), IdOf(b, w.s));
    SameNumber(a, b, v.s, w.s);
  }

  /** Tokens with the same number are paired. */
  lemma {:induction false} SameNumber(a: seq<Text>, b: seq<Text>, s: Text, t: Text)
    requires Distinct(a) && Distinct(b) && |a| == |b| && IdOf(a, s) == IdOf(b, t)
    ensures |See(a, s)| == |See(b, t)| && s in Pairing(See(a, s), See(b, t)) && Pairing(See(a, s), See(b, t))[s] == t
  {
    var a', b', i := See(a, s), See(b, t), IdOf(a, s) - 1;
    assert a'[i] == s && b'[i] == t;
    PairingAt(a', b', i);
  }

  /** Leaves that hold no token are equal when their bytes are. */
  lemma {:induction false} LeafMatches(d: Domain, v: Value, w: Value, a: seq<Text>, b: seq<Text>, p: seq<byte>, q: seq<byte>)
    requires Good(d, v) && Good(d, w) && v != UNMOUNTED && w != UNMOUNTED && |a| == |b|
    requires d.BoolD? || d.EnumD? || d.LengthCatD? || d.IntD? || d.IntSetD?
    requires Encode(d, v, a).bytes + p == Encode(d, w, b).bytes + q
    ensures Matches(d, v, w, Encode(d, v, a), Encode(d, w, b), p, q)
  {
    match d
    case BoolD =>
      assert (Encode(d, v, a).bytes + p)[1..] == p && (Encode(d, w, b).bytes + q)[1..] == q;
      assert (Encode(d, v, a).bytes + p)[0] == (Encode(d, w, b).bytes + q)[0];
    case EnumD(_) => TextUnambiguous(v.s, w.s, p, q);
    case LengthCatD => TextUnambiguous(v.s, w.s, p, q);
    case IntD(_, _, _) => IntUnambiguous(v.n, w.n, p, q);
    case IntSetD(_, _) => IntUnambiguous(v.n, w.n, p, q);
  }

  ghost predicate SameKind(a: Part, b: Part) {
    GoodPart(a) && GoodPart(b) && ((a.Typed? && b.Typed? && a.domain == b.domain) || (a.Raw? && b.Raw?))
  }

  ghost predicate SameKinds(a: seq<Part>, b: seq<Part>) {
    |a| == |b| && forall i {:trigger SameKind(a[i], b[i])} | 0 <= i < |a| :: SameKind(a[i], b[i])
  }

  /** Equal headers mean the same frame, made of parts of the same kinds. */
  ghost predicate SameShape(d: Domain, v: Value, w: Value)
    requires Composite(d)
  {
    SameFrame(v, w) && SameKinds(Parts(d, v), Parts(d, w))
  }

  lemma {:induction false} RecordShape(d: Domain, v: Value, w: Value, x: seq<byte>, y: seq<byte>)
    requires d.RecordD? && Good(d, v) && Good(d, w) && v != UNMOUNTED && w != UNMOUNTED
    requires Header(d, v) + x == Header(d, w) + y
    ensures SameShape(d, v, w) && x == y && Header(d, v) == Header(d, w)
  {
    assert (Header(d, v) + x)[5..] == x && (Header(d, w) + y)[5..] == y;
    forall i | 0 <= i < |d.fields|
      ensures SameKind(Parts(d, v)[i], Parts(d, w)[i])
    {
      RecordAligned(d, map[], v, i);
      RecordAligned(d, map[], w, i);
    }
  }

  lemma {:induction false} ListShape(d: Domain, v: Value, w: Value, x: seq<byte>, y: seq<byte>)
    requires d.ListD? && Good(d, v) && Good(d, w) && v != UNMOUNTED && w != UNMOUNTED
    requires Header(d, v) + x == Header(d, w) + y
    ensures SameShape(d, v, w) && x == y && Header(d, v) == Header(d, w)
  {
    var l, r := Header(d, v) + x, Header(d, w) + y;
    assert l[5..] == x && r[5..] == y;
    assert l[1..5] == LittleEndian(|v.items|, 4) && r[1..5] == LittleEndian(|w.items|, 4);
    Powers();
    LittleEndianInjective(|v.items|, |w.items|, 4);
    forall i | 0 <= i < |v.items|
      ensures SameKind(Parts(d, v)[i], Parts(d, w)[i])
    {
      ListAligned(d, map[], v, i);
      ListAligned(d, map[], w, i);
    }
  }

  lemma {:induction false} TaggedHeader(d: Domain, v: Value, w: Value, x: seq<byte>, y: seq<byte>)
    requires d.TaggedD? && v.Obj? && w.Obj? && Sized(v) && Sized(w)
    requires |TextOf(GetOr(v.entries, d.tag))| < U32 && |TextOf(GetOr(w.entries, d.tag))| < U32
    requires Header(d, v) + x == Header(d, w) + y
    ensures TextOf(GetOr(v.entries, d.tag)) == TextOf(GetOr(w.entries, d.tag))
    ensures |v.entries| == |w.entries| && x == y && Header(d, v) == Header(d, w)
  {
    var s, t := TextOf(GetOr(v.entries, d.tag)), TextOf(GetOr(w.entries, d.tag));
    var m, n := LittleEndian(|v.entries|, 4), LittleEndian(|w.entries|, 4);
    Regroup(TAG_TAGGED, EncodeText(s), m, x);
    Regroup(TAG_TAGGED, EncodeText(t), n, y);
    TextUnambiguous(s, t, m + x, n + y);
    CountUnambiguous(|v.entries|, |w.entries|, x, y);
  }

  lemma {:induction false} Regroup(head: byte, t: seq<byte>, m: seq<byte>, x: seq<byte>)
    ensures (([head] + t + m) + x)[1..] == t + (m + x)
  {
  }

  lemma {:induction false} CountUnambiguous(m: nat, n: nat, p: seq<byte>, q: seq<byte>)
    requires m < U32 && n < U32 && LittleEndian(m, 4) + p == LittleEndian(n, 4) + q
    ensures m == n && p == q
  {
    var x, y := LittleEndian(m, 4) + p, LittleEndian(n, 4) + q;
    assert x[..4] == LittleEndian(m, 4) && y[..4] == LittleEndian(n, 4) && x[4..] == p && y[4..] == q;
    Powers();
    LittleEndianInjective(m, n, 4);
  }

  lemma {:induction false} TagIsSized(d: Domain, v: Value, k: nat)
    requires d.TaggedD? && IsVariant(d, v, k) && Sized(v)
    ensures |TextOf(GetOr(v.entries, d.tag))| < U32
  {
    var at := Find(NamesOf(v.entries), d.tag).value;
    assert Sized(v.entries[at].value);
  }

  lemma {:induction false} TaggedShape(d: Domain, v: Value, w: Value, x: seq<byte>, y: seq<byte>)
    requires d.TaggedD? && Good(d, v) && Good(d, w) && v != UNMOUNTED && w != UNMOUNTED
    requires Header(d, v) + x == Header(d, w) + y
    ensures SameShape(d, v, w) && x == y && Header(d, v) == Header(d, w)
  {
    var k := GoodIsVariant(d, v);
    var l := GoodIsVariant(d, w);
    TagIsSized(d, v, k);
    TagIsSized(d, w, l);
    TaggedHeader(d, v, w, x, y);
    assert k == l;
    RisingUnique(NamesOf(v.entries), NamesOf(w.entries));
    forall i | 0 <= i < |v.entries|
      ensures SameKind(Parts(d, v)[i], Parts(d, w)[i])
    {
      assert NamesOf(v.entries)[i] == NamesOf(w.entries)[i];
      TaggedPartsGood(d, v, k, i);
      TaggedPartsGood(d, w, k, i);
    }
  }

  /** Encoding is unambiguous: if the bytes of two good values are the starts of one byte string,
      they are equal and the second value is the first with its tokens renamed in order of appearance. */
  lemma {:induction false} Unambiguous(d: Domain, v: Value, w: Value, a: seq<Text>, b: seq<Text>, p: seq<byte>, q: seq<byte>)
    requires Good(d, v) && Good(d, w) && Distinct(a) && Distinct(b) && |a| == |b|
    requires NamesFit(Encode(d, v, a).seen) && NamesFit(Encode(d, w, b).seen)
    requires Encode(d, v, a).bytes + p == Encode(d, w, b).bytes + q
    ensures Matches(d, v, w, Encode(d, v, a), Encode(d, w, b), p, q)
    decreases d, 1, 0
  {
    FirstByte(d, v, a);
    FirstByte(d, w, b);
    assert (Encode(d, v, a).bytes + p)[0] == (Encode(d, w, b).bytes + q)[0];
    if v == UNMOUNTED || v == Null {
      NothingMatches(d, v, w, a, b, p, q);
    } else {
      match d
      case TokensD(_, _) =>
        IdFits(a, v.s);
        IdFits(b, w.s);
        TokenMatches(d, v, w, a, b, p, q);
      case OptionD(inner) => Unambiguous(inner, v, w, a, b, p, q);
      case RecordD(_) => CompositeMatches(d, v, w, a, b, p, q);
      case TaggedD(_, _) => CompositeMatches(d, v, w, a, b, p, q);
      case ListD(_, _) => CompositeMatches(d, v, w, a, b, p, q);
      case _ => LeafMatches(d, v, w, a, b, p, q);
    }
  }

  /** Numbers of seen tokens are small enough for a 32-bit length. */
  ghost predicate NamesFit(seen: seq<Text>) {
    forall id: nat {:trigger TokenName(id)} | 1 <= id <= |seen| :: |TokenName(id)| < U32
  }

  lemma {:induction false} IdFits(seen: seq<Text>, t: Text)
    requires NamesFit(See(seen, t))
    ensures |TokenName(IdOf(seen, t))| < U32
  {
  }

  lemma {:induction false} NothingMatches(d: Domain, v: Value, w: Value, a: seq<Text>, b: seq<Text>, p: seq<byte>, q: seq<byte>)
    requires v == w && (v == UNMOUNTED || (v == Null && d.OptionD?)) && |a| == |b|
    requires Encode(d, v, a).bytes + p == Encode(d, w, b).bytes + q
    ensures Matches(d, v, w, Encode(d, v, a), Encode(d, w, b), p, q)
  {
    assert (Encode(d, v, a).bytes + p)[1..] == p && (Encode(d, w, b).bytes + q)[1..] == q;
  }

  lemma {:induction false} CompositeMatches(d: Domain, v: Value, w: Value, a: seq<Text>, b: seq<Text>, p: seq<byte>, q: seq<byte>)
    requires Composite(d) && Good(d, v) && Good(d, w) && v != UNMOUNTED && w != UNMOUNTED
    requires Distinct(a) && Distinct(b) && |a| == |b|
    requires NamesFit(Encode(d, v, a).seen) && NamesFit(Encode(d, w, b).seen)
    requires Encode(d, v, a).bytes + p == Encode(d, w, b).bytes + q
    ensures Matches(d, v, w, Encode(d, v, a), Encode(d, w, b), p, q)
    decreases d, 0, |Parts(d, v)| + 2
  {
    EncodeComposite(d, v, a);
    EncodeComposite(d, w, b);
    var x, y := EncodeParts(d, Parts(d, v), a), EncodeParts(d, Parts(d, w), b);
    Associate(Header(d, v), x.bytes, p);
    Associate(Header(d, w), y.bytes, q);
    HeaderShape(d, v, w, x.bytes + p, y.bytes + q);
    PartsUnambiguous(d, Parts(d, v), Parts(d, w), a, b, p, q);
    RebuildRenamed(d, v, w, Pairing(x.seen, y.seen));
  }

  lemma {:induction false} Associate(x: seq<byte>, y: seq<byte>, z: seq<byte>)
    ensures (x + y) + z == x + (y + z)
  {
  }

  lemma {:induction false} EncodeComposite(d: Domain, v: Value, seen: seq<Text>)
    requires Composite(d) && v != UNMOUNTED
    ensures forall x | x in Parts(d, v) && x.Typed? :: x.domain < d
    ensures Encode(d, v, seen).bytes == Header(d, v) + EncodeParts(d, Parts(d, v), seen).bytes
    ensures Encode(d, v, seen).seen == EncodeParts(d, Parts(d, v), seen).seen
  {
    PartsAreSmaller(d, v);
  }

  lemma {:induction false} HeaderShape(d: Domain, v: Value, w: Value, x: seq<byte>, y: seq<byte>)
    requires Composite(d) && Good(d, v) && Good(d, w) && v != UNMOUNTED && w != UNMOUNTED
    requires Header(d, v) + x == Header(d, w) + y
    ensures SameShape(d, v, w) && x == y && Header(d, v) == Header(d, w)
  {
    if d.RecordD? {
      RecordShape(d, v, w, x, y);
    } else if d.TaggedD? {
      TaggedShape(d, v, w, x, y);
    } else {
      ListShape(d, v, w, x, y);
    }
  }

  lemma {:induction false} RebuildRenamed(d: Domain, v: Value, w: Value, f: map<Text, Text>)
    requires Composite(d) && Good(d, v) && Good(d, w) && v != UNMOUNTED && w != UNMOUNTED && SameShape(d, v, w)
    requires forall i | 0 <= i < |Parts(d, v)| :: Parts(d, w)[i].value == RenamePart(f, Parts(d, v)[i])
    ensures w == Rename(d, f, v)
  {
    CompositeAligned(d, f, v);
    CompositeAligned(d, f, w);
    forall i | 0 <= i < |Parts(d, v)|
      ensures Children(w)[i] == Children(Rename(d, f, v))[i]
    {
      assert Aligned(d, f, v, i) && Aligned(d, f, w, i);
    }
    SameChildren(w, Rename(d, f, v), v);
  }

  lemma {:induction false} PartsUnambiguous(d: Domain, v: seq<Part>, w: seq<Part>, a: seq<Text>, b: seq<Text>, p: seq<byte>, q: seq<byte>)
    requires (forall x | x in v && x.Typed? :: x.domain < d) && (forall x | x in w && x.Typed? :: x.domain < d)
    requires SameKinds(v, w) && Distinct(a) && Distinct(b) && |a| == |b|
    requires NamesFit(EncodeParts(d, v, a).seen) && NamesFit(EncodeParts(d, w, b).seen)
    requires EncodeParts(d, v, a).bytes + p == EncodeParts(d, w, b).bytes + q
    ensures PartsMatch(v, w, EncodeParts(d, v, a), EncodeParts(d, w, b), p, q)
    decreases d, 0, |v| + 1
  {
    if v == [] {
      assert [] + p == p && [] + q == q;
    } else {
      assert SameKind(v[0], w[0]);
      var x, y := EncodePart(d, v[0], a), EncodePart(d, w[0], b);
      var xs, ys := EncodeParts(d, v[1..], x.seen), EncodeParts(d, w[1..], y.seen);
      PartsSee(d, v[1..], x.seen);
      PartsSee(d, w[1..], y.seen);
      Associate(x.bytes, xs.bytes, p);
      Associate(y.bytes, ys.bytes, q);
      PartUnambiguous(d, v[0], w[0], a, b, xs.bytes + p, ys.bytes + q);
      TailKinds(v, w);
      PartsUnambiguous(d, v[1..], w[1..], x.seen, y.seen, p, q);
      if v[0].Typed? {
        LaterPairing(v[0], a, x.seen, y.seen, xs.seen, ys.seen);
      }
      HeadAndTail(v, w, Pairing(xs.seen, ys.seen));
    }
  }

  lemma {:induction false} PartUnambiguous(d: Domain, v: Part, w: Part, a: seq<Text>, b: seq<Text>, p: seq<byte>, q: seq<byte>)
    requires (v.Typed? ==> v.domain < d) && (w.Typed? ==> w.domain < d)
    requires SameKind(v, w) && Distinct(a) && Distinct(b) && |a| == |b|
    requires NamesFit(EncodePart(d, v, a).seen) && NamesFit(EncodePart(d, w, b).seen)
    requires EncodePart(d, v, a).bytes + p == EncodePart(d, w, b).bytes + q
    ensures var x, y := EncodePart(d, v, a), EncodePart(d, w, b);
            && x.bytes == y.bytes && p == q && |x.seen| == |y.seen| && Distinct(x.seen) && Distinct(y.seen)
            && w.value == RenamePart(Pairing(x.seen, y.seen), v)
            && (v.Typed? ==> Grows(a, TokensOf(v.domain, v.value), x.seen))
    decreases d, 0, 0
  {
    if v.Typed? {
      Unambiguous(v.domain, v.value, w.value, a, b, p, q);
      EncodeSees(v.domain, v.value, a);
      EncodeSees(w.domain, w.value, b);
    } else {
      TextUnambiguous(v.value.s, w.value.s, p, q);
    }
  }

  ghost predicate PartsMatch(v: seq<Part>, w: seq<Part>, x: Coded, y: Coded, p: seq<byte>, q: seq<byte>) {
    && x.bytes == y.bytes && p == q && |x.seen| == |y.seen| && |v| == |w|
    && forall i | 0 <= i < |v| :: w[i].value == RenamePart(Pairing(x.seen, y.seen), v[i])
  }

  lemma {:induction false} TailKinds(v: seq<Part>, w: seq<Part>)
    requires SameKinds(v, w) && v != []
    ensures SameKinds(v[1..], w[1..])
  {
    forall i | 0 <= i < |v| - 1
      ensures SameKind(v[1..][i], w[1..][i])
    {
      assert SameKind(v[i + 1], w[i + 1]);
    }
  }

  /** What is renamed by the tokens seen so far is renamed alike by all tokens seen later. */
  lemma {:induction false} LaterPairing(part: Part, before: seq<Text>, a: seq<Text>, b: seq<Text>, a': seq<Text>, b': seq<Text>)
    requires part.Typed? && GoodPart(part) && |a| == |b| && |a'| == |b'| && a <= a' && b <= b' && Distinct(a')
    requires Grows(before, TokensOf(part.domain, part.value), a)
    ensures RenamePart(Pairing(a, b), part) == RenamePart(Pairing(a', b'), part)
  {
    forall t | t in TokensOf(part.domain, part.value)
      ensures t in Pairing(a, b) && t in Pairing(a', b') && Pairing(a, b)[t] == Pairing(a', b')[t]
    {
      PairingExtends(a, b, a', b', t);
    }
    RenameAgree(part.domain, Pairing(a, b), Pairing(a', b'), part.value);
  }

  lemma {:induction false} HeadAndTail(v: seq<Part>, w: seq<Part>, f: map<Text, Text>)
    requires |v| == |w| && v != [] && w[0].value == RenamePart(f, v[0])
    requires forall i | 0 <= i < |v| - 1 :: w[1..][i].value == RenamePart(f, v[1..][i])
    ensures forall i | 0 <= i < |v| :: w[i].value == RenamePart(f, v[i])
  {
    forall i | 0 < i < |v|
      ensures w[i].value == RenamePart(f, v[i])
    {
      assert w[i] == w[1..][i - 1] && v[i] == v[1..][i - 1];
    }
  }

  // ---------------------------------------------------------------------------
  // Renaming leaves the bytes alone
  // ---------------------------------------------------------------------------

  /** A bijection from these token strings to token strings. */
  ghost predicate IsRenaming(f: map<Text, Text>, tokens: set<Text>) {
    && f.Keys == tokens
    && (forall s, t | s in f && t in f && f[s] == f[t] :: s == t)
    && forall t | t in f :: f[t] != UNMOUNTED_TEXT
  }

  ghost predicate Covers(f: map<Text, Text>, seen: seq<Text>) {
    forall t | t in seen :: t in f
  }

  function MapAll(f: map<Text, Text>, seen: seq<Text>): (r: seq<Text>)
    requires forall i | 0 <= i < |seen| :: seen[i] in f
    ensures |r| == |seen| && forall i | 0 <= i < |seen| :: r[i] == f[seen[i]]
  {
    seq(|seen|, i requires 0 <= i < |seen| => f[seen[i]])
  }

  lemma {:induction false} FindMapped(f: map<Text, Text>, seen: seq<Text>, t: Text)
    requires IsRenaming(f, f.Keys) && Covers(f, seen) && t in f
    ensures Find(MapAll(f, seen), f[t]) == Find(seen, t)
  {
    if seen != [] {
      var n := |seen| - 1;
      assert MapAll(f, seen)[..n] == MapAll(f, seen[..n]);
      assert seen[n] in seen;
      FindMapped(f, seen[..n], t);
    }
  }

  /** The part is the other one with its tokens renamed. */
  ghost predicate RenamedPart(f: map<Text, Text>, p: Part, q: Part) {
    && q.value == RenamePart(f, p)
    && ((p.Typed? && q.Typed? && p.domain == q.domain) || (p.Raw? && q.Raw?))
  }

  ghost predicate RenamedParts(f: map<Text, Text>, ps: seq<Part>, qs: seq<Part>) {
    |ps| == |qs| && forall i {:trigger RenamedPart(f, ps[i], qs[i])} | 0 <= i < |ps| :: RenamedPart(f, ps[i], qs[i])
  }

  lemma {:induction false} RecordRenamed(d: Domain, f: map<Text, Text>, v: Value)
    requires d.RecordD? && Good(d, v) && v != UNMOUNTED
    ensures RenamedParts(f, Parts(d, v), Parts(d, Rename(d, f, v)))
  {
    var w := Rename(d, f, v);
    CompositeAligned(d, f, v);
    forall i | 0 <= i < |d.fields|
      ensures RenamedPart(f, Parts(d, v)[i], Parts(d, w)[i])
    {
      assert Aligned(d, f, v, i);
      assert NamesOf(w.entries)[i] == FieldNames(d.fields)[i];
      GetAt(w.entries, i);
      assert Children(w)[i] == w.entries[i].value;
    }
  }

  lemma {:induction false} TagUntouched(d: Domain, f: map<Text, Text>, v: Value, k: nat)
    requires d.TaggedD? && Good(d, v) && v != UNMOUNTED && IsVariant(d, v, k)
    ensures Rename(d, f, v).Obj? && NamesOf(Rename(d, f, v).entries) == NamesOf(v.entries)
    ensures GetOr(Rename(d, f, v).entries, d.tag) == GetOr(v.entries, d.tag)
  {
    var w := Rename(d, f, v);
    assert NamesOf(w.entries) == NamesOf(v.entries);
    var at := Find(NamesOf(v.entries), d.tag).value;
    assert NamesOf(v.entries)[at] == d.tag;
  }

  lemma {:induction false} TaggedRenamed(d: Domain, f: map<Text, Text>, v: Value)
    requires d.TaggedD? && Good(d, v) && v != UNMOUNTED
    ensures Header(d, v) == Header(d, Rename(d, f, v))
    ensures RenamedParts(f, Parts(d, v), Parts(d, Rename(d, f, v)))
  {
    var w := Rename(d, f, v);
    var k := GoodIsVariant(d, v);
    TagUntouched(d, f, v, k);
    assert |NamesOf(w.entries)| == |NamesOf(v.entries)|;
    CompositeAligned(d, f, v);
    forall i | 0 <= i < |v.entries|
      ensures RenamedPart(f, Parts(d, v)[i], Parts(d, w)[i])
    {
      assert Aligned(d, f, v, i);
      assert NamesOf(w.entries)[i] == NamesOf(v.entries)[i];
      assert Children(w)[i] == w.entries[i].value;
    }
  }

  lemma {:induction false} ListRenamed(d: Domain, f: map<Text, Text>, v: Value)
    requires d.ListD? && Good(d, v) && v != UNMOUNTED
    ensures Header(d, v) == Header(d, Rename(d, f, v))
    ensures RenamedParts(f, Parts(d, v), Parts(d, Rename(d, f, v)))
  {
    forall i | 0 <= i < |v.items|
      ensures RenamedPart(f, Parts(d, v)[i], Parts(d, Rename(d, f, v))[i])
    {
    }
  }

  lemma {:induction false} CompositeRenamed(d: Domain, f: map<Text, Text>, v: Value)
    requires Composite(d) && Good(d, v) && v != UNMOUNTED
    ensures Rename(d, f, v) != UNMOUNTED && Header(d, v) == Header(d, Rename(d, f, v))
    ensures RenamedParts(f, Parts(d, v), Parts(d, Rename(d, f, v)))
    ensures forall i {:trigger Parts(d, v)[i]} | 0 <= i < |Parts(d, v)| :: GoodPart(Parts(d, v)[i])
  {
    CompositeAligned(d, f, v);
    forall i | 0 <= i < |Parts(d, v)|
      ensures GoodPart(Parts(d, v)[i])
    {
      assert Aligned(d, f, v, i);
    }
    if d.RecordD? {
      RecordRenamed(d, f, v);
    } else if d.TaggedD? {
      TaggedRenamed(d, f, v);
    } else {
      ListRenamed(d, f, v);
    }
  }

  /** The second encoding is the first under the renaming. */
  ghost predicate Renamed(f: map<Text, Text>, x: Coded, y: Coded) {
    x.bytes == y.bytes && Covers(f, x.seen) && y.seen == MapAll(f, x.seen)
  }

  /** Renaming every token, in the value and among those seen, gives the same bytes. */
  lemma {:induction false} RenameKeepsBytes(d: Domain, f: map<Text, Text>, v: Value, seen: seq<Text>)
    requires Good(d, v) && IsRenaming(f, f.Keys) && Covers(f, seen) && TokensOf(d, v) <= f.Keys
    ensures Renamed(f, Encode(d, v, seen), Encode(d, Rename(d, f, v), MapAll(f, seen)))
    decreases d, 1, 0
  {
    if v == UNMOUNTED || v == Null {
      // no token inside
    } else if d.TokensD? {
      TokenKeepsBytes(d, f, v, seen);
    } else if d.OptionD? {
      RenameKeepsBytes(d.inner, f, v, seen);
      RenameNotNull(d.inner, f, v);
    } else if Composite(d) {
      CompositeKeepsBytes(d, f, v, seen);
    }
  }

  lemma {:induction false} TokenKeepsBytes(d: Domain, f: map<Text, Text>, v: Value, seen: seq<Text>)
    requires d.TokensD? && v.Str? && v != UNMOUNTED && IsRenaming(f, f.Keys) && Covers(f, seen) && v.s in f
    ensures Renamed(f, Encode(d, v, seen), Encode(d, Rename(d, f, v), MapAll(f, seen)))
  {
    FindMapped(f, seen, v.s);
    FindMapped(f, See(seen, v.s), v.s);
  }

  lemma {:induction false} CompositeKeepsBytes(d: Domain, f: map<Text, Text>, v: Value, seen: seq<Text>)
    requires Composite(d) && Good(d, v) && v != UNMOUNTED
    requires IsRenaming(f, f.Keys) && Covers(f, seen) && TokensOf(d, v) <= f.Keys
    ensures Renamed(f, Encode(d, v, seen), Encode(d, Rename(d, f, v), MapAll(f, seen)))
    decreases d, 0, |Parts(d, v)| + 2
  {
    CompositeRenamed(d, f, v);
    EncodeComposite(d, v, seen);
    EncodeComposite(d, Rename(d, f, v), MapAll(f, seen));
    PartsKeepBytes(d, f, Parts(d, v), Parts(d, Rename(d, f, v)), seen);
  }

  lemma {:induction false} RenameNotNull(d: Domain, f: map<Text, Text>, v: Value)
    requires v != Null
    ensures Rename(d, f, v) != Null
    decreases d
  {
    if v != UNMOUNTED && d.OptionD? {
      RenameNotNull(d.inner, f, v);
    }
  }

  lemma {:induction false} PartsKeepBytes(d: Domain, f: map<Text, Text>, ps: seq<Part>, qs: seq<Part>, seen: seq<Text>)
    requires (forall p | p in ps && p.Typed? :: p.domain < d) && (forall q | q in qs && q.Typed? :: q.domain < d)
    requires RenamedParts(f, ps, qs) && forall i | 0 <= i < |ps| :: GoodPart(ps[i])
    requires IsRenaming(f, f.Keys) && Covers(f, seen) && TokensOfParts(d, ps) <= f.Keys
    ensures Renamed(f, EncodeParts(d, ps, seen), EncodeParts(d, qs, MapAll(f, seen)))
    decreases d, 0, |ps| + 1
  {
    if ps != [] {
      assert RenamedPart(f, ps[0], qs[0]);
      PartKeepsBytes(d, f, ps[0], qs[0], seen);
      var x := EncodePart(d, ps[0], seen);
      forall i | 0 <= i < |ps| - 1
        ensures RenamedPart(f, ps[1..][i], qs[1..][i])
      {
        assert RenamedPart(f, ps[i + 1], qs[i + 1]);
      }
      PartsKeepBytes(d, f, ps[1..], qs[1..], x.seen);
    }
  }

  lemma {:induction false} PartKeepsBytes(d: Domain, f: map<Text, Text>, p: Part, q: Part, seen: seq<Text>)
    requires (p.Typed? ==> p.domain < d) && (q.Typed? ==> q.domain < d)
    requires RenamedPart(f, p, q) && GoodPart(p)
    requires IsRenaming(f, f.Keys) && Covers(f, seen) && TokensOfPart(d, p) <= f.Keys
    ensures Renamed(f, EncodePart(d, p, seen), EncodePart(d, q, MapAll(f, seen)))
    decreases d, 0, 0
  {
    if p.Typed? {
      RenameKeepsBytes(p.domain, f, p.value, seen);
    }
  }

  // ---------------------------------------------------------------------------
  // States
  // ---------------------------------------------------------------------------

  /** A state lists one value for each variable's domain. */
  ghost predicate GoodState(domains: seq<Domain>, state: seq<Value>) {
    |state| == |domains| && forall i | 0 <= i < |domains| :: Good(domains[i], state[i])
  }

  /** A domain above all of the variables' domains. */
  function Above(domains: seq<Domain>): (d: Domain)
    ensures forall i | 0 <= i < |domains| :: domains[i] < d
  {
    var fields := seq(|domains|, i requires 0 <= i < |domains| => Field([], domains[i]));
    assert forall i | 0 <= i < |domains| :: fields[i].domain == domains[i];
    RecordD(fields)
  }

  function StateParts(domains: seq<Domain>, state: seq<Value>): (parts: seq<Part>)
    requires |state| == |domains|
    ensures |parts| == |state| && forall i | 0 <= i < |parts| :: parts[i] == Typed(domains[i], state[i])
    ensures forall p | p in parts && p.Typed? :: p.domain < Above(domains)
  {
    seq(|state|, i requires 0 <= i < |state| => Typed(domains[i], state[i]))
  }

  /** The encoding of a state: its variables in order, sharing one numbering of tokens. */
  function EncodeState(domains: seq<Domain>, state: seq<Value>): Coded
    requires |state| == |domains|
  {
    EncodeParts(Above(domains), StateParts(domains, state), [])
  }

  function CanonicalKey(domains: seq<Domain>, state: seq<Value>): Key
    requires |state| == |domains|
  {
    EncodeState(domains, state).bytes
  }

  ghost function StateTokens(domains: seq<Domain>, state: seq<Value>): set<Text>
    requires |state| == |domains|
  {
    TokensOfParts(Above(domains), StateParts(domains, state))
  }

  function RenameState(domains: seq<Domain>, f: map<Text, Text>, state: seq<Value>): (r: seq<Value>)
    requires |state| == |domains|
    ensures |r| == |state| && forall i | 0 <= i < |r| :: r[i] == Rename(domains[i], f, state[i])
  {
    seq(|state|, i requires 0 <= i < |state| => Rename(domains[i], f, state[i]))
  }

  function Pow10(k: nat): nat {
    if k == 0 then 1 else 10 * Pow10(k - 1)
  }

  lemma {:induction false} DigitsAreFew(n: nat, k: nat)
    requires 0 < k && n < Pow10(k)
    ensures |Digits(n)| <= k
    decreases k
  {
    if n >= 10 {
      DigitsAreFew(n / 10, k - 1);
    }
  }

  lemma {:induction false} FewTokensFit(seen: seq<Text>)
    requires |seen| < U32
    ensures NamesFit(seen)
  {
    forall id: nat | 1 <= id <= |seen|
      ensures |TokenName(id)| < U32
    {
      assert Pow10(3) == 1000 && Pow10(6) == 1000_000 && Pow10(9) == 1000_000_000 && Pow10(10) == 10_000_000_000;
      DigitsAreFew(id, 10);
    }
  }

  lemma {:induction false} TokensAreMounted(d: Domain, v: Value)
    ensures UNMOUNTED_TEXT !in TokensOf(d, v)
    decreases d, 1, 0
  {
    if v != UNMOUNTED {
      if d.OptionD? && !v.Null? {
        TokensAreMounted(d.inner, v);
      } else if Composite(d) {
        PartsAreSmaller(d, v);
        PartTokensAreMounted(d, Parts(d, v));
      }
    }
  }

  lemma {:induction false} PartTokensAreMounted(d: Domain, parts: seq<Part>)
    requires forall p | p in parts && p.Typed? :: p.domain < d
    ensures UNMOUNTED_TEXT !in TokensOfParts(d, parts)
    decreases d, 0, |parts| + 1
  {
    if parts != [] {
      if parts[0].Typed? {
        TokensAreMounted(parts[0].domain, parts[0].value);
      }
      PartTokensAreMounted(d, parts[1..]);
    }
  }

  lemma {:induction false} PairingIsRenaming(a: seq<Text>, b: seq<Text>, tokens: set<Text>, tokens': set<Text>)
    requires |a| == |b| && Distinct(a) && Distinct(b)
    requires (forall t :: t in a <==> t in tokens) && (forall t :: t in b <==> t in tokens') && UNMOUNTED_TEXT !in tokens'
    ensures IsRenaming(Pairing(a, b), tokens)
  {
    var f := Pairing(a, b);
    PairingKeys(a, b);
    forall s, t | s in f && t in f
      ensures f[s] != UNMOUNTED_TEXT && (f[s] == f[t] ==> s == t)
    {
      var i :| 0 <= i < |a| && a[i] == s;
      var j :| 0 <= j < |a| && a[j] == t;
      PairingAt(a, b, i);
      PairingAt(a, b, j);
      assert b[i] in tokens';
    }
  }

  /** States with equal keys are one another's renaming. */
  lemma {:induction false} EqualKeysRename(domains: seq<Domain>, s: seq<Value>, t: seq<Value>) returns (f: map<Text, Text>)
    requires GoodState(domains, s) && GoodState(domains, t)
    requires |EncodeState(domains, s).seen| < U32 && |EncodeState(domains, t).seen| < U32
    requires CanonicalKey(domains, s) == CanonicalKey(domains, t)
    ensures IsRenaming(f, StateTokens(domains, s)) && t == RenameState(domains, f, s)
  {
    var d, ps, qs := Above(domains), StateParts(domains, s), StateParts(domains, t);
    var x, y := EncodeState(domains, s), EncodeState(domains, t);
    FewTokensFit(x.seen);
    FewTokensFit(y.seen);
    forall i | 0 <= i < |ps|
      ensures SameKind(ps[i], qs[i])
    {
    }
    PartsUnambiguous(d, ps, qs, [], [], [], []);
    PartsSee(d, ps, []);
    PartsSee(d, qs, []);
    PartTokensAreMounted(d, qs);
    f := Pairing(x.seen, y.seen);
    PairingIsRenaming(x.seen, y.seen, TokensOfParts(d, ps), TokensOfParts(d, qs));
    forall i | 0 <= i < |s|
      ensures t[i] == Rename(domains[i], f, s[i])
    {
      assert qs[i].value == RenamePart(f, ps[i]);
    }
  }

  /** Renaming the tokens of a state keeps its key. */
  lemma {:induction false} RenamedKeysEqual(domains: seq<Domain>, s: seq<Value>, f: map<Text, Text>)
    requires GoodState(domains, s) && IsRenaming(f, StateTokens(domains, s))
    ensures CanonicalKey(domains, RenameState(domains, f, s)) == CanonicalKey(domains, s)
  {
    var t := RenameState(domains, f, s);
    var ps, qs := StateParts(domains, s), StateParts(domains, t);
    forall i | 0 <= i < |ps|
      ensures RenamedPart(f, ps[i], qs[i])
    {
    }
    assert MapAll(f, []) == [];
    PartsKeepBytes(Above(domains), f, ps, qs, []);
  }

  /** The canonical key is a complete invariant of token renaming: two well-typed, exactly shaped states
      have the same key exactly when a bijection of token strings maps one to the other. */
  lemma {:induction false} KeyIsRenamingClass(domains: seq<Domain>, s: seq<Value>, t: seq<Value>)
    requires GoodState(domains, s) && GoodState(domains, t)
    requires |EncodeState(domains, s).seen| < U32 && |EncodeState(domains, t).seen| < U32
    ensures CanonicalKey(domains, s) == CanonicalKey(domains, t) <==>
            exists f :: IsRenaming(f, StateTokens(domains, s)) && t == RenameState(domains, f, s)
  {
    if CanonicalKey(domains, s) == CanonicalKey(domains, t) {
      var f := EqualKeysRename(domains, s, t);
    }
    if f :| IsRenaming(f, StateTokens(domains, s)) && t == RenameState(domains, f, s) {
      RenamedKeysEqual(domains, s, f);
    }
  }

  // ---------------------------------------------------------------------------
  // Models without tokens
  // ---------------------------------------------------------------------------

  ghost predicate TokenFree(d: Domain)
    decreases d
  {
    match d
    case TokensD(_, _) => false
    case OptionD(inner) => TokenFree(inner)
    case ListD(inner, _) => TokenFree(inner)
    case RecordD(fields) => forall i | 0 <= i < |fields| :: TokenFree(fields[i].domain)
    case TaggedD(_, variants) => forall i | 0 <= i < |variants| :: TokenFree(variants[i].domain)
    case _ => true
  }

  lemma {:induction false} TokenFreeParts(d: Domain, v: Value)
    requires Composite(d) && TokenFree(d)
    ensures forall i | 0 <= i < |Parts(d, v)| && Parts(d, v)[i].Typed? ::
              Parts(d, v)[i].domain < d && TokenFree(Parts(d, v)[i].domain)
  {
    PartsAreSmaller(d, v);
    var parts := Parts(d, v);
    forall i | 0 <= i < |parts| && parts[i].Typed?
      ensures parts[i].domain < d && TokenFree(parts[i].domain)
    {
      assert parts[i] in parts;
      if d.TaggedD? {
        var fields := TaggedFields(d.tag, d.variants, Entries(v)).value;
        var k :| 0 <= k < |d.variants| && d.variants[k].domain == RecordD(fields);
        assert TokenFree(d.variants[k].domain);
      }
    }
  }

  lemma {:induction false} TokenFreeFixed(d: Domain, f: map<Text, Text>, v: Value)
    requires TokenFree(d) && Good(d, v)
    ensures Rename(d, f, v) == v
    decreases d
  {
    if v != UNMOUNTED {
      if d.OptionD? && !v.Null? {
        TokenFreeFixed(d.inner, f, v);
      } else if Composite(d) {
        CompositeAligned(d, f, v);
        TokenFreeParts(d, v);
        var parts := Parts(d, v);
        forall i | 0 <= i < |parts|
          ensures Children(Rename(d, f, v))[i] == Children(v)[i]
        {
          assert Aligned(d, f, v, i);
          if parts[i].Typed? {
            TokenFreeFixed(parts[i].domain, f, parts[i].value);
          }
        }
        SameChildren(Rename(d, f, v), v, v);
      }
    }
  }

  lemma {:induction false} NoTokens(d: Domain, v: Value)
    requires TokenFree(d)
    ensures TokensOf(d, v) == {}
    decreases d, 1, 0
  {
    if v != UNMOUNTED {
      if d.OptionD? && !v.Null? {
        NoTokens(d.inner, v);
      } else if Composite(d) {
        TokenFreeParts(d, v);
        PartsAreSmaller(d, v);
        NoPartTokens(d, Parts(d, v));
      }
    }
  }

  lemma {:induction false} NoPartTokens(d: Domain, parts: seq<Part>)
    requires forall p | p in parts && p.Typed? :: p.domain < d
    requires forall i | 0 <= i < |parts| && parts[i].Typed? :: TokenFree(parts[i].domain)
    ensures TokensOfParts(d, parts) == {}
    decreases d, 0, |parts| + 1
  {
    if parts != [] {
      if parts[0].Typed? {
        NoTokens(parts[0].domain, parts[0].value);
      }
      NoPartTokens(d, parts[1..]);
    }
  }

  /** Without token domains no token is ever numbered. */
  lemma {:induction false} TokenFreeSeesNothing(domains: seq<Domain>, s: seq<Value>)
    requires |s| == |domains| && forall i | 0 <= i < |domains| :: TokenFree(domains[i])
    ensures EncodeState(domains, s).seen == []
  {
    var d, parts := Above(domains), StateParts(domains, s);
    PartsSee(d, parts, []);
    NoPartTokens(d, parts);
    FirstIsMember(EncodeState(domains, s).seen);
  }

  /** Without token domains the key is injective. */
  lemma {:induction false} TokenFreeKeyIsInjective(domains: seq<Domain>, s: seq<Value>, t: seq<Value>)
    requires GoodState(domains, s) && GoodState(domains, t)
    requires forall i | 0 <= i < |domains| :: TokenFree(domains[i])
    ensures CanonicalKey(domains, s) == CanonicalKey(domains, t) ==> s == t
  {
    if CanonicalKey(domains, s) == CanonicalKey(domains, t) {
      TokenFreeSeesNothing(domains, s);
      TokenFreeSeesNothing(domains, t);
      var f := EqualKeysRename(domains, s, t);
      forall i | 0 <= i < |s|
        ensures t[i] == s[i]
      {
        TokenFreeFixed(domains[i], f, s[i]);
      }
    }
  }
}
