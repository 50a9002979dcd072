/** State values, abstract domains and validation
    (crates/checker/src/model.rs, crates/checker/src/domain.rs). */
module Values {
  import opened Bytes
  import opened Sorting
  import opened Wrappers

  /** Text is UTF-8: a byte string under byte order. */
  type Text = Key

  function Ascii(s: string): Text
    requires forall i | 0 <= i < |s| :: s[i] < 128 as char
  {
    seq(|s|, i requires 0 <= i < |s| => (s[i] as int) as byte)
  }

  const UNMOUNTED_TEXT: Text := Ascii("__modality_unmounted__")
  const TOKEN_PREFIX: Text := Ascii("tok")
  const LENGTHS: seq<Text> := [Ascii("0"), Ascii("1"), Ascii("many")]

  /** JSON values; an object lists its entries by ascending name, as the ordered map it is. */
  datatype Value = Null | Bool(b: bool) | Int(n: int) | Str(s: Text) | Arr(items: seq<Value>) | Obj(entries: seq<Entry>)

  datatype Entry = Entry(name: Text, value: Value)

  const UNMOUNTED: Value := Str(UNMOUNTED_TEXT)

  /** A state lists the values of the variables in declaration order. */
  type State = seq<Value>

  /** The state with one variable changed. */
  function WithVar(s: State, i: nat, value: Value): State {
    if i < |s| then s[i := value] else s
  }

  datatype Overflow = Forbid | Wrap | Saturate

  /** Fields and variants are listed by ascending name. */
  datatype Domain =
    | BoolD
    | EnumD(values: seq<Text>)
    | IntD(min: int, max: int, overflow: Overflow)
    | IntSetD(ints: seq<int>, overflow: Overflow)
    | OptionD(inner: Domain)
    | RecordD(fields: seq<Field>)
    | TaggedD(tag: Text, variants: seq<Field>)
    | TokensD(count: nat, names: Option<seq<Text>>)
    | LengthCatD
    | ListD(inner: Domain, maxLen: nat)

  datatype Field = Field(name: Text, domain: Domain)

  // ---------------------------------------------------------------------------
  // Names
  // ---------------------------------------------------------------------------

  predicate Before(a: Text, b: Text) {
    Leq(a, b) && a != b
  }

  ghost predicate Rising(names: seq<Text>) {
    forall i, j | 0 <= i < j < |names| :: Before(names[i], names[j])
  }

  function NamesOf(entries: seq<Entry>): (names: seq<Text>)
    ensures |names| == |entries| && forall i | 0 <= i < |entries| :: names[i] == entries[i].name
  {
    seq(|entries|, i requires 0 <= i < |entries| => entries[i].name)
  }

  function FieldNames(fields: seq<Field>): (names: seq<Text>)
    ensures |names| == |fields| && forall i | 0 <= i < |fields| :: names[i] == fields[i].name
  {
    seq(|fields|, i requires 0 <= i < |fields| => fields[i].name)
  }

  /** The position of a name. */
  function Find(names: seq<Text>, name: Text): (r: Option<nat>)
    ensures r.Some? ==> 0 <= r.value < |names| && names[r.value] == name
    ensures r.None? <==> name !in names
  {
    if names == [] then None
    else if names[|names| - 1] == name then Some(|names| - 1)
    else Find(names[..|names| - 1], name)
  }

  function Get(entries: seq<Entry>, name: Text): Option<Value> {
    var at := Find(NamesOf(entries), name);
    if at.Some? then Some(entries[at.value].value) else None
  }

  /** An ordered map after setting one name. */
  function Put(entries: seq<Entry>, name: Text, value: Value): seq<Entry> {
    if entries == [] || Before(name, entries[0].name) then [Entry(name, value)] + entries
    else if entries[0].name == name then [Entry(name, value)] + entries[1..]
    else [entries[0]] + Put(entries[1..], name, value)
  }

  /** Two ascending lists of the same names are equal. */
  lemma {:induction false} RisingUnique(a: seq<Text>, b: seq<Text>)
    requires Rising(a) && Rising(b) && forall t :: t in a <==> t in b
    ensures a == b
    decreases |a|
  {
    if a == [] {
      FirstIsMember(b);
    } else {
      assert a[0] in b;
      var m, n := |a| - 1, |b| - 1;
      assert a[m] in b && b[n] in a;
      LastIsLargest(a, b[n]);
      LastIsLargest(b, a[m]);
      LeqAntisym(a[m], b[n]);
      forall t
        ensures t in a[..m] <==> t in b[..n]
      {
        AllButLast(a, t);
        AllButLast(b, t);
      }
      RisingUnique(a[..m], b[..n]);
    }
  }

  lemma {:induction false} AllButLast(a: seq<Text>, t: Text)
    requires Rising(a) && a != []
    ensures t in a[..|a| - 1] <==> t in a && t != a[|a| - 1]
  {
    assert a == a[..|a| - 1] + [a[|a| - 1]];
  }

  lemma {:induction false} LastIsLargest(a: seq<Text>, t: Text)
    requires Rising(a) && t in a
    ensures Leq(t, a[|a| - 1])
  {
    LeqTotal(t, t);
    var i :| 0 <= i < |a| && a[i] == t;
  }

  lemma {:induction false} FindAt(names: seq<Text>, i: nat)
    requires Rising(names) && i < |names|
    ensures Find(names, names[i]) == Some(i)
  {
  }

  lemma {:induction false} GetAt(entries: seq<Entry>, i: nat)
    requires Rising(NamesOf(entries)) && i < |entries|
    ensures Get(entries, entries[i].name) == Some(entries[i].value)
  {
    FindAt(NamesOf(entries), i);
  }

  // ---------------------------------------------------------------------------
  // Validation
  // ---------------------------------------------------------------------------

  function TextOf(v: Value): Text {
    if v.Str? then v.s else []
  }

  function Digits(n: nat): Text {
    if n < 10 then [(48 + n) as byte] else Digits(n / 10) + [(48 + n % 10) as byte]
  }

  function TokenName(id: nat): Text {
    TOKEN_PREFIX + Digits(id)
  }

  function TokenNames(count: nat, names: Option<seq<Text>>): seq<Text> {
    if names.Some? then names.value else seq(count, i requires 0 <= i < count => TokenName(i + 1))
  }

  /** The record fields of the variant an object's tag names. */
  function VariantOf(tag: Text, variants: seq<Field>, entries: seq<Entry>): (r: Option<nat>)
    ensures r.Some? ==> r.value < |variants|
  {
    var t := Get(entries, tag);
    if t.Some? && t.value.Str? then Find(FieldNames(variants), t.value.s) else None
  }

  /** The value is unmounted or belongs to the domain. */
  predicate Validate(d: Domain, v: Value)
    decreases d
  {
    v == UNMOUNTED ||
    match d
    case BoolD => v.Bool?
    case EnumD(values) => v.Str? && v.s in values
    case IntD(min, max, _) => v.Int? && min <= v.n <= max
    case IntSetD(ints, _) => v.Int? && v.n in ints
    case OptionD(inner) => v.Null? || Validate(inner, v)
    case RecordD(fields) =>
      v.Obj? && forall i | 0 <= i < |fields| ::
        var x := Get(v.entries, fields[i].name); x.Some? && Validate(fields[i].domain, x.value)
    case TaggedD(tag, variants) =>
      v.Obj? && var k := VariantOf(tag, variants, v.entries); k.Some? && Validate(variants[k.value].domain, v)
    case TokensD(count, names) => v.Str? && v.s in TokenNames(count, names)
    case LengthCatD => v.Str? && v.s in LENGTHS
    case ListD(inner, maxLen) =>
      v.Arr? && |v.items| <= maxLen && forall i | 0 <= i < |v.items| :: Validate(inner, v.items[i])
  }

  /** Objects have exactly the declared entries, at every level. */
  ghost predicate Exact(d: Domain, v: Value)
    decreases d
  {
    v == UNMOUNTED ||
    match d
    case OptionD(inner) => v.Null? || Exact(inner, v)
    case RecordD(fields) =>
      v.Obj? ==> (
        && NamesOf(v.entries) == FieldNames(fields)
        && forall i | 0 <= i < |fields| && i < |v.entries| :: Exact(fields[i].domain, v.entries[i].value))
    case TaggedD(tag, variants) =>
      v.Obj? ==>
        var k := VariantOf(tag, variants, v.entries);
        k.Some? && variants[k.value].domain.RecordD? && ExactVariant(d, tag, variants[k.value].domain.fields, v.entries)
    case ListD(inner, _) => v.Arr? ==> forall i | 0 <= i < |v.items| :: Exact(inner, v.items[i])
    case _ => true
  }

  /** The entries of an object of a variant: the tag and the variant's fields, in name order. */
  ghost predicate ExactVariant(d: Domain, tag: Text, fields: seq<Field>, entries: seq<Entry>)
    requires forall i | 0 <= i < |fields| :: fields[i].domain < d
    decreases d, 0
  {
    && Rising(NamesOf(entries))
    && (forall name :: name in NamesOf(entries) <==> name == tag || name in FieldNames(fields))
    && forall i | 0 <= i < |entries| && entries[i].name != tag ::
         var k := Find(FieldNames(fields), entries[i].name);
         k.Some? ==> Exact(fields[k.value].domain, entries[i].value)
  }

  /** Fields and variants are listed by ascending name, and no variant redeclares the tag. */
  ghost predicate Proper(d: Domain)
    decreases d
  {
    match d
    case OptionD(inner) => Proper(inner)
    case ListD(inner, _) => Proper(inner)
    case RecordD(fields) => Rising(FieldNames(fields)) && forall i | 0 <= i < |fields| :: Proper(fields[i].domain)
    case TaggedD(tag, variants) =>
      && Rising(FieldNames(variants))
      && forall i | 0 <= i < |variants| ::
           Proper(variants[i].domain) && (variants[i].domain.RecordD? ==> tag !in FieldNames(variants[i].domain.fields))
    case _ => true
  }
}
