/** Enumerating the values of a domain, and storing numbers in one
    (crates/checker/src/domain.rs). */
module Enumerate {
  import opened Bytes
  import opened Values
  import opened Wrappers

  // ---------------------------------------------------------------------------
  // Products
  // ---------------------------------------------------------------------------

  /** Every prefix followed by every item. */
  function Extend(prefixes: seq<seq<Value>>, items: seq<Value>): seq<seq<Value>> {
    if prefixes == [] then [] else
    var n := |prefixes| - 1;
    Extend(prefixes[..n], items) + seq(|items|, i requires 0 <= i < |items| => prefixes[n] + [items[i]])
  }

  function Cartesian(sets: seq<seq<Value>>): seq<seq<Value>> {
    if sets == [] then [[]] else Extend(Cartesian(sets[..|sets| - 1]), sets[|sets| - 1])
  }

  lemma {:induction false} ExtendHas(prefixes: seq<seq<Value>>, items: seq<Value>, c: seq<Value>)
    ensures c in Extend(prefixes, items) <==> c != [] && c[..|c| - 1] in prefixes && c[|c| - 1] in items
  {
    if prefixes != [] {
      var n := |prefixes| - 1;
      ExtendHas(prefixes[..n], items, c);
      assert prefixes == prefixes[..n] + [prefixes[n]];
      var last := seq(|items|, i requires 0 <= i < |items| => prefixes[n] + [items[i]]);
      if c != [] && c[..|c| - 1] == prefixes[n] && c[|c| - 1] in items {
        var i :| 0 <= i < |items| && items[i] == c[|c| - 1];
        assert last[i] == c;
      }
    }
  }

  /** The product holds exactly the tuples that pick one item from each set. */
  lemma {:induction false} CartesianHas(sets: seq<seq<Value>>, c: seq<Value>)
    ensures c in Cartesian(sets) <==> |c| == |sets| && forall i | 0 <= i < |sets| :: c[i] in sets[i]
  {
    if sets != [] {
      var n := |sets| - 1;
      ExtendHas(Cartesian(sets[..n]), sets[n], c);
      if c != [] {
        CartesianHas(sets[..n], c[..|c| - 1]);
      }
    }
  }

  // ---------------------------------------------------------------------------
  // Enumeration
  // ---------------------------------------------------------------------------

  function Texts(names: seq<Text>): seq<Value> {
    seq(|names|, i requires 0 <= i < |names| => Str(names[i]))
  }

  function Ints(ints: seq<int>): seq<Value> {
    seq(|ints|, i requires 0 <= i < |ints| => Int(ints[i]))
  }

  function Zip(fields: seq<Field>, values: seq<Value>): (entries: seq<Entry>)
    ensures |values| == |fields| ==> |entries| == |fields|
    ensures forall i | 0 <= i < |entries| :: i < |fields| && i < |values| && entries[i] == Entry(fields[i].name, values[i])
  {
    var n := if |fields| < |values| then |fields| else |values|;
    seq(n, i requires 0 <= i < n => Entry(fields[i].name, values[i]))
  }

  function Objects(fields: seq<Field>, combos: seq<seq<Value>>): seq<Value> {
    seq(|combos|, i requires 0 <= i < |combos| => Obj(Zip(fields, combos[i])))
  }

  function WithTag(tag: Text, name: Text, records: seq<Value>): seq<Value> {
    if records == [] then [] else
    var n := |records| - 1;
    WithTag(tag, name, records[..n]) + if records[n].Obj? then [Obj(Put(records[n].entries, tag, Str(name)))] else []
  }

  /** The lists of each length from 1 to `n` over the items. */
  function ListsUpTo(items: seq<Value>, n: nat): seq<seq<Value>> {
    if n == 0 then [[]] else ListsUpTo(items, n - 1) + Cartesian(seq(n, i => items))
  }

  function Arrays(lists: seq<seq<Value>>): seq<Value> {
    seq(|lists|, i requires 0 <= i < |lists| => Arr(lists[i]))
  }

  function EnumerateDomain(d: Domain): seq<Value>
    decreases d
  {
    match d
    case BoolD => [Bool(false), Bool(true)]
    case EnumD(values) => Texts(values)
    case IntD(min, max, _) => if min <= max then seq(max - min + 1, i => Int(min + i)) else []
    case IntSetD(ints, _) => Ints(ints)
    case OptionD(inner) => [Null] + EnumerateDomain(inner)
    case RecordD(fields) =>
      Objects(fields, Cartesian(seq(|fields|, i requires 0 <= i < |fields| => EnumerateDomain(fields[i].domain))))
    case TaggedD(tag, variants) => EnumerateVariants(d, tag, variants)
    case TokensD(count, names) => Texts(TokenNames(count, names))
    case LengthCatD => Texts(LENGTHS)
    case ListD(inner, maxLen) => Arrays(ListsUpTo(EnumerateDomain(inner), maxLen))
  }

  function EnumerateVariants(ghost d: Domain, tag: Text, variants: seq<Field>): seq<Value>
    requires forall i | 0 <= i < |variants| :: variants[i].domain < d
    decreases d, |variants|
  {
    if variants == [] then [] else
    var n := |variants| - 1;
    EnumerateVariants(d, tag, variants[..n]) +
      if variants[n].domain.RecordD? then WithTag(tag, variants[n].name, EnumerateDomain(variants[n].domain)) else []
  }

  // ---------------------------------------------------------------------------
  // Membership
  // ---------------------------------------------------------------------------

  lemma {:induction false} TextsHas(names: seq<Text>, v: Value)
    ensures v in Texts(names) <==> v.Str? && v.s in names
  {
    if v.Str? && v.s in names {
      var i :| 0 <= i < |names| && names[i] == v.s;
      assert Texts(names)[i] == v;
    }
  }

  lemma {:induction false} IntsHas(ints: seq<int>, v: Value)
    ensures v in Ints(ints) <==> v.Int? && v.n in ints
  {
    if v.Int? && v.n in ints {
      var i :| 0 <= i < |ints| && ints[i] == v.n;
      assert Ints(ints)[i] == v;
    }
  }

  lemma {:induction false} RangeHas(min: int, max: int, overflow: Overflow, v: Value)
    ensures v in EnumerateDomain(IntD(min, max, overflow)) <==> v.Int? && min <= v.n <= max
  {
    if v.Int? && min <= v.n <= max {
      assert EnumerateDomain(IntD(min, max, overflow))[v.n - min] == v;
    }
  }

  lemma {:induction false} ListsHas(items: seq<Value>, n: nat, c: seq<Value>)
    ensures c in ListsUpTo(items, n) <==> |c| <= n && forall i | 0 <= i < |c| :: c[i] in items
  {
    if n > 0 {
      ListsHas(items, n - 1, c);
      CartesianHas(seq(n, i => items), c);
    }
  }

  lemma {:induction false} ArraysHas(lists: seq<seq<Value>>, v: Value)
    ensures v in Arrays(lists) <==> v.Arr? && v.items in lists
  {
    if v.Arr? && v.items in lists {
      var i :| 0 <= i < |lists| && lists[i] == v.items;
      assert Arrays(lists)[i] == v;
    }
  }

  lemma {:induction false} WithTagHas(tag: Text, name: Text, records: seq<Value>, v: Value)
    ensures v in WithTag(tag, name, records) <==>
            exists r :: r in records && r.Obj? && v == Obj(Put(r.entries, tag, Str(name)))
  {
    if records != [] {
      var n := |records| - 1;
      WithTagHas(tag, name, records[..n], v);
      assert records == records[..n] + [records[n]];
    }
  }

  /** An enumerated record of this variant, with its tag set. */
  ghost predicate FromVariant(tag: Text, variant: Field, v: Value) {
    variant.domain.RecordD? && v in WithTag(tag, variant.name, EnumerateDomain(variant.domain))
  }

  lemma {:induction false} VariantsHas(d: Domain, tag: Text, variants: seq<Field>, v: Value)
    requires forall i | 0 <= i < |variants| :: variants[i].domain < d
    ensures v in EnumerateVariants(d, tag, variants) <==> exists x :: x in variants && FromVariant(tag, x, v)
    decreases |variants|
  {
    if variants != [] {
      var n := |variants| - 1;
      VariantsHas(d, tag, variants[..n], v);
      assert variants == variants[..n] + [variants[n]];
      assert v in EnumerateVariants(d, tag, variants) <==>
             v in EnumerateVariants(d, tag, variants[..n]) || FromVariant(tag, variants[n], v);
    }
  }

  lemma {:induction false} ObjectsHas(fields: seq<Field>, combos: seq<seq<Value>>, v: Value)
    ensures v in Objects(fields, combos) <==> exists c :: c in combos && v == Obj(Zip(fields, c))
  {
    if c :| c in combos && v == Obj(Zip(fields, c)) {
      var i :| 0 <= i < |combos| && combos[i] == c;
      assert Objects(fields, combos)[i] == v;
    }
  }

  /** Every field holds an enumerated value, and there are no other entries. */
  ghost predicate RecordOf(fields: seq<Field>, v: Value) {
    && v.Obj? && NamesOf(v.entries) == FieldNames(fields)
    && forall i | 0 <= i < |fields| && i < |v.entries| :: v.entries[i].value in EnumerateDomain(fields[i].domain)
  }

  lemma {:induction false} RecordHas(fields: seq<Field>, v: Value)
    ensures v in EnumerateDomain(RecordD(fields)) <==> RecordOf(fields, v)
  {
    var sets := seq(|fields|, i requires 0 <= i < |fields| => EnumerateDomain(fields[i].domain));
    assert EnumerateDomain(RecordD(fields)) == Objects(fields, Cartesian(sets));
    ObjectsHas(fields, Cartesian(sets), v);
    if c :| c in Cartesian(sets) && v == Obj(Zip(fields, c)) {
      CartesianHas(sets, c);
      assert NamesOf(v.entries) == FieldNames(fields);
    }
    if RecordOf(fields, v) {
      assert |NamesOf(v.entries)| == |FieldNames(fields)|;
      var c := seq(|fields|, i requires 0 <= i < |fields| => v.entries[i].value);
      CartesianHas(sets, c);
      assert forall i | 0 <= i < |fields| :: NamesOf(v.entries)[i] == FieldNames(fields)[i];
      assert Zip(fields, c) == v.entries;
    }
  }

  // ---------------------------------------------------------------------------
  // Setting and removing an entry
  // ---------------------------------------------------------------------------

  lemma {:induction false} BeforeAsym(a: Text, b: Text)
    ensures !(Before(a, b) && Before(b, a))
    ensures a == b || Before(a, b) || Before(b, a)
  {
    LeqTotal(a, b);
    if Leq(a, b) && Leq(b, a) {
      LeqAntisym(a, b);
    }
  }

  lemma {:induction false} BeforeTrans(a: Text, b: Text, c: Text)
    requires Before(a, b) && Before(b, c)
    ensures Before(a, c)
  {
    LeqTrans(a, b, c);
    BeforeAsym(a, b);
  }

  lemma {:induction false} RisingTail(entries: seq<Entry>)
    requires entries != [] && Rising(NamesOf(entries))
    ensures Rising(NamesOf(entries[1..]))
    ensures forall e | e in entries[1..] :: Before(entries[0].name, e.name)
  {
    assert NamesOf(entries[1..]) == NamesOf(entries)[1..];
    forall e | e in entries[1..]
      ensures Before(entries[0].name, e.name)
    {
      var i :| 0 <= i < |entries| - 1 && entries[1..][i] == e;
      assert NamesOf(entries)[i + 1] == e.name && NamesOf(entries)[0] == entries[0].name;
    }
  }

  lemma {:induction false} RisingCons(e: Entry, rest: seq<Entry>)
    requires Rising(NamesOf(rest)) && forall x | x in rest :: Before(e.name, x.name)
    ensures Rising(NamesOf([e] + rest))
  {
    var all := [e] + rest;
    forall i, j | 0 <= i < j < |all|
      ensures Before(NamesOf(all)[i], NamesOf(all)[j])
    {
      if i == 0 {
        assert all[j] in rest;
      } else {
        assert NamesOf(rest)[i - 1] == all[i].name && NamesOf(rest)[j - 1] == all[j].name;
      }
    }
  }

  /** Setting a name keeps order and every other entry. */
  lemma {:induction false} PutSets(entries: seq<Entry>, name: Text, value: Value)
    requires Rising(NamesOf(entries))
    ensures Rising(NamesOf(Put(entries, name, value)))
    ensures forall e :: e in Put(entries, name, value) <==> e == Entry(name, value) || (e in entries && e.name != name)
  {
    if entries != [] {
      RisingTail(entries);
      if Before(name, entries[0].name) {
        forall x | x in entries
          ensures Before(name, x.name)
        {
          if x != entries[0] {
            BeforeTrans(name, entries[0].name, x.name);
          }
        }
        RisingCons(Entry(name, value), entries);
      } else if entries[0].name == name {
        RisingCons(Entry(name, value), entries[1..]);
      } else {
        BeforeAsym(name, entries[0].name);
        PutSets(entries[1..], name, value);
        RisingCons(entries[0], Put(entries[1..], name, value));
      }
    }
  }

  /** Setting the removed entry again restores the object. */
  lemma {:induction false} PutBack(entries: seq<Entry>, j: nat)
    requires Rising(NamesOf(entries)) && j < |entries|
    ensures Put(entries[..j] + entries[j + 1..], entries[j].name, entries[j].value) == entries
    decreases j
  {
    var rest := entries[..j] + entries[j + 1..];
    RisingTail(entries);
    if j == 0 {
      assert rest == entries[1..];
      assert rest != [] ==> rest[0] in entries[1..];
    } else {
      assert rest[0] == entries[0] && rest[1..] == entries[1..][..j - 1] + entries[1..][j..];
      assert entries[j] == entries[1..][j - 1];
      assert entries[j] in entries[1..];
      BeforeAsym(entries[0].name, entries[j].name);
      PutBack(entries[1..], j - 1);
    }
  }

  /** A name bound to a value is found. */
  lemma {:induction false} GetMember(entries: seq<Entry>, name: Text, value: Value)
    requires Rising(NamesOf(entries)) && Entry(name, value) in entries
    ensures Get(entries, name) == Some(value)
  {
    var i :| 0 <= i < |entries| && entries[i] == Entry(name, value);
    GetAt(entries, i);
  }

  // ---------------------------------------------------------------------------
  // Soundness
  // ---------------------------------------------------------------------------

  /** A record whose fields validate is valid and exact. */
  lemma {:induction false} RecordIsValid(fields: seq<Field>, v: Value)
    requires Rising(FieldNames(fields)) && RecordOf(fields, v)
    requires forall i | 0 <= i < |fields| && i < |v.entries| ::
               Validate(fields[i].domain, v.entries[i].value) && Exact(fields[i].domain, v.entries[i].value)
    ensures Validate(RecordD(fields), v) && Exact(RecordD(fields), v)
  {
    assert |NamesOf(v.entries)| == |FieldNames(fields)|;
    forall i | 0 <= i < |fields|
      ensures Get(v.entries, fields[i].name) == Some(v.entries[i].value)
    {
      assert NamesOf(v.entries)[i] == FieldNames(fields)[i];
      GetAt(v.entries, i);
    }
  }

  /** A valid, exact record with its tag set. */
  ghost predicate TaggedRecord(tag: Text, variant: Field, r: Value, v: Value) {
    && variant.domain.RecordD? && r.Obj? && v == Obj(Put(r.entries, tag, Str(variant.name)))
    && NamesOf(r.entries) == FieldNames(variant.domain.fields)
    && tag !in FieldNames(variant.domain.fields) && Rising(FieldNames(variant.domain.fields))
  }

  lemma {:induction false} TaggedEntries(tag: Text, variant: Field, r: Value, v: Value)
    requires TaggedRecord(tag, variant, r, v)
    ensures v.Obj? && Rising(NamesOf(v.entries)) && Get(v.entries, tag) == Some(Str(variant.name))
    ensures forall i | 0 <= i < |r.entries| :: Get(v.entries, r.entries[i].name) == Some(r.entries[i].value)
    ensures forall name :: name in NamesOf(v.entries) <==> name == tag || name in FieldNames(variant.domain.fields)
    ensures forall e | e in v.entries :: e == Entry(tag, Str(variant.name)) || e in r.entries
  {
    PutSets(r.entries, tag, Str(variant.name));
    forall e | e in r.entries
      ensures e.name != tag
    {
      NamedEntry(r.entries, e.name);
    }
    GetMember(v.entries, tag, Str(variant.name));
    forall i | 0 <= i < |r.entries|
      ensures Get(v.entries, r.entries[i].name) == Some(r.entries[i].value)
    {
      assert r.entries[i] in r.entries;
      GetMember(v.entries, r.entries[i].name, r.entries[i].value);
    }
    forall name
      ensures name in NamesOf(v.entries) <==> name == tag || name in FieldNames(variant.domain.fields)
    {
      NamedEntry(v.entries, name);
      NamedEntry(r.entries, name);
    }
  }

  lemma {:induction false} NamedEntry(entries: seq<Entry>, name: Text)
    ensures name in NamesOf(entries) <==> exists e :: e in entries && e.name == name
  {
    if name in NamesOf(entries) {
      var i :| 0 <= i < |entries| && NamesOf(entries)[i] == name;
      assert entries[i] in entries;
    }
    if e :| e in entries && e.name == name {
      var i :| 0 <= i < |entries| && entries[i] == e;
      assert NamesOf(entries)[i] == name;
    }
  }

  lemma {:induction false} TaggedIsValid(d: Domain, k: nat, r: Value, v: Value)
    requires d.TaggedD? && Proper(d) && k < |d.variants| && TaggedRecord(d.tag, d.variants[k], r, v)
    requires Validate(d.variants[k].domain, r) && Exact(d.variants[k].domain, r)
    ensures Validate(d, v) && Exact(d, v)
  {
    var variant := d.variants[k];
    TaggedEntries(d.tag, variant, r, v);
    FindAt(FieldNames(d.variants), k);
    assert VariantOf(d.tag, d.variants, v.entries) == Some(k);
    TaggedFieldsValid(d.tag, variant, r, v);
    TaggedEntriesExact(d, variant, r, v);
  }

  lemma {:induction false} TaggedFieldsValid(tag: Text, variant: Field, r: Value, v: Value)
    requires TaggedRecord(tag, variant, r, v) && r != UNMOUNTED && Validate(variant.domain, r)
    ensures Validate(variant.domain, v)
  {
    var fields := variant.domain.fields;
    TaggedEntries(tag, variant, r, v);
    assert |NamesOf(r.entries)| == |FieldNames(fields)|;
    forall i | 0 <= i < |fields|
      ensures var x := Get(v.entries, fields[i].name); x.Some? && Validate(fields[i].domain, x.value)
    {
      assert NamesOf(r.entries)[i] == FieldNames(fields)[i];
      GetAt(r.entries, i);
    }
  }

  lemma {:induction false} TaggedEntriesExact(d: Domain, variant: Field, r: Value, v: Value)
    requires d.TaggedD? && variant in d.variants && TaggedRecord(d.tag, variant, r, v)
    requires variant.domain < d && r != UNMOUNTED && Exact(variant.domain, r)
    ensures ExactVariant(d, d.tag, variant.domain.fields, v.entries)
  {
    var fields := variant.domain.fields;
    TaggedEntries(d.tag, variant, r, v);
    assert |NamesOf(r.entries)| == |FieldNames(fields)|;
    forall i | 0 <= i < |v.entries| && v.entries[i].name != d.tag
      ensures var j := Find(FieldNames(fields), v.entries[i].name);
              j.Some? ==> Exact(fields[j.value].domain, v.entries[i].value)
    {
      assert v.entries[i] in v.entries;
      var j :| 0 <= j < |r.entries| && r.entries[j] == v.entries[i];
      assert NamesOf(r.entries)[j] == FieldNames(fields)[j];
      FindAt(FieldNames(fields), j);
    }
  }

  /** Every enumerated value validates and is exactly shaped. */
  lemma {:induction false} EnumeratedIsValid(d: Domain, v: Value)
    requires Proper(d) && v in EnumerateDomain(d)
    ensures Validate(d, v) && Exact(d, v)
    decreases d
  {
    match d
    case BoolD =>
    case EnumD(values) => TextsHas(values, v);
    case IntD(min, max, overflow) => RangeHas(min, max, overflow, v);
    case IntSetD(ints, _) => IntsHas(ints, v);
    case OptionD(inner) =>
      if v != Null {
        EnumeratedIsValid(inner, v);
      }
    case RecordD(fields) =>
      RecordHas(fields, v);
      forall i | 0 <= i < |fields| && i < |v.entries|
        ensures Validate(fields[i].domain, v.entries[i].value) && Exact(fields[i].domain, v.entries[i].value)
      {
        EnumeratedIsValid(fields[i].domain, v.entries[i].value);
      }
      RecordIsValid(fields, v);
    case TaggedD(tag, variants) =>
      VariantsHas(d, tag, variants, v);
      var x :| x in variants && FromVariant(tag, x, v);
      var k :| 0 <= k < |variants| && variants[k] == x;
      WithTagHas(tag, x.name, EnumerateDomain(x.domain), v);
      var r :| r in EnumerateDomain(x.domain) && r.Obj? && v == Obj(Put(r.entries, tag, Str(x.name)));
      EnumeratedIsValid(variants[k].domain, r);
      RecordHas(x.domain.fields, r);
      TaggedIsValid(d, k, r, v);
    case TokensD(count, names) => TextsHas(TokenNames(count, names), v);
    case LengthCatD => TextsHas(LENGTHS, v);
    case ListD(inner, maxLen) =>
      ArraysHas(ListsUpTo(EnumerateDomain(inner), maxLen), v);
      ListsHas(EnumerateDomain(inner), maxLen, v.items);
      forall i | 0 <= i < |v.items|
        ensures Validate(inner, v.items[i]) && Exact(inner, v.items[i])
      {
        EnumeratedIsValid(inner, v.items[i]);
      }
  }

  // ---------------------------------------------------------------------------
  // Completeness
  // ---------------------------------------------------------------------------

  /** No part of the value is unmounted. */
  ghost predicate Mounted(v: Value) {
    match v
    case Str(s) => s != UNMOUNTED_TEXT
    case Arr(items) => forall i | 0 <= i < |items| :: Mounted(items[i])
    case Obj(entries) => forall i | 0 <= i < |entries| :: Mounted(entries[i].value)
    case _ => true
  }

  /** A valid exact tagged object is a record with its tag set. */
  lemma {:induction false} UntagVariant(d: Domain, v: Value, k: nat) returns (r: Value)
    requires d.TaggedD? && Proper(d) && v.Obj? && v != UNMOUNTED && k < |d.variants| && d.variants[k].domain.RecordD?
    requires ExactVariant(d, d.tag, d.variants[k].domain.fields, v.entries)
    requires Get(v.entries, d.tag) == Some(Str(d.variants[k].name))
    ensures TaggedRecord(d.tag, d.variants[k], r, v) && forall e | e in r.entries :: e in v.entries && e.name != d.tag
  {
    var fields := d.variants[k].domain.fields;
    var j := Find(NamesOf(v.entries), d.tag).value;
    var rest := v.entries[..j] + v.entries[j + 1..];
    r := Obj(rest);
    PutBack(v.entries, j);
    assert v.entries[j] == Entry(d.tag, Str(d.variants[k].name));
    RestRises(v.entries, j);
    forall name
      ensures name in NamesOf(rest) <==> name in FieldNames(fields)
    {
      assert name in NamesOf(v.entries) <==> name == d.tag || name in FieldNames(fields);
    }
    assert Proper(d.variants[k].domain);
    RisingUnique(NamesOf(rest), FieldNames(fields));
    forall e | e in rest
      ensures e in v.entries && e.name != d.tag
    {
      NamedEntry(rest, e.name);
      assert e in v.entries;
    }
  }

  lemma {:induction false} RestRises(entries: seq<Entry>, j: nat)
    requires Rising(NamesOf(entries)) && j < |entries|
    ensures var rest := entries[..j] + entries[j + 1..];
            Rising(NamesOf(rest)) && forall name :: name in NamesOf(rest) <==> name in NamesOf(entries) && name != entries[j].name
  {
    var rest := entries[..j] + entries[j + 1..];
    var names := NamesOf(entries);
    assert NamesOf(rest) == names[..j] + names[j + 1..];
    assert forall i | 0 <= i < |rest| :: NamesOf(rest)[i] == names[if i < j then i else i + 1];
    forall name
      ensures name in NamesOf(rest) <==> name in names && name != entries[j].name
    {
      assert names == names[..j] + [names[j]] + names[j + 1..];
    }
  }

  lemma {:induction false} RecordParts(d: Domain, fields: seq<Field>, r: Value, v: Value, i: nat)
    requires d.TaggedD? && (forall i | 0 <= i < |fields| :: fields[i].domain < d) && Rising(FieldNames(fields))
    requires Validate(RecordD(fields), v) && v.Obj? && ExactVariant(d, d.tag, fields, v.entries) && Mounted(v)
    requires r.Obj? && NamesOf(r.entries) == FieldNames(fields) && i < |fields| && |r.entries| == |fields|
    requires forall e | e in r.entries :: e in v.entries && e.name != d.tag
    ensures Validate(fields[i].domain, r.entries[i].value) && Exact(fields[i].domain, r.entries[i].value)
    ensures Mounted(r.entries[i].value)
  {
    var e := r.entries[i];
    assert e in r.entries;
    var j :| 0 <= j < |v.entries| && v.entries[j] == e;
    assert NamesOf(r.entries)[i] == FieldNames(fields)[i];
    FindAt(FieldNames(fields), i);
    GetAt(v.entries, j);
    assert Get(v.entries, fields[i].name).Some?;
  }

  lemma {:induction false} RecordField(fields: seq<Field>, v: Value, i: nat)
    requires Rising(FieldNames(fields)) && i < |fields|
    requires v.Obj? && Validate(RecordD(fields), v) && Exact(RecordD(fields), v) && Mounted(v)
    ensures |v.entries| == |fields|
    ensures Validate(fields[i].domain, v.entries[i].value) && Exact(fields[i].domain, v.entries[i].value)
    ensures Mounted(v.entries[i].value)
  {
    assert |NamesOf(v.entries)| == |FieldNames(fields)|;
    assert NamesOf(v.entries)[i] == FieldNames(fields)[i];
    GetAt(v.entries, i);
    assert Get(v.entries, fields[i].name).Some?;
  }

  lemma {:induction false} UntaggedIsValid(d: Domain, k: nat, r: Value, v: Value)
    requires d.TaggedD? && Proper(d) && k < |d.variants| && TaggedRecord(d.tag, d.variants[k], r, v)
    requires Validate(d.variants[k].domain, v) && ExactVariant(d, d.tag, d.variants[k].domain.fields, v.entries)
    requires Mounted(v) && forall e | e in r.entries :: e in v.entries && e.name != d.tag
    ensures Proper(d.variants[k].domain)
    ensures Validate(d.variants[k].domain, r) && Exact(d.variants[k].domain, r) && Mounted(r)
  {
    var fields := d.variants[k].domain.fields;
    assert |NamesOf(r.entries)| == |FieldNames(fields)|;
    forall i | 0 <= i < |fields|
      ensures Get(r.entries, fields[i].name) == Some(r.entries[i].value)
      ensures Validate(fields[i].domain, r.entries[i].value) && Exact(fields[i].domain, r.entries[i].value)
      ensures Mounted(r.entries[i].value)
    {
      RecordParts(d, fields, r, v, i);
      assert NamesOf(r.entries)[i] == FieldNames(fields)[i];
      GetAt(r.entries, i);
    }
  }

  lemma {:induction false} RetaggedIsEnumerated(d: Domain, k: nat, r: Value, v: Value)
    requires d.TaggedD? && k < |d.variants| && TaggedRecord(d.tag, d.variants[k], r, v)
    requires r in EnumerateDomain(d.variants[k].domain)
    ensures v in EnumerateDomain(d)
  {
    WithTagHas(d.tag, d.variants[k].name, EnumerateDomain(d.variants[k].domain), v);
    assert FromVariant(d.tag, d.variants[k], v);
    VariantsHas(d, d.tag, d.variants, v);
  }

  /** Every mounted, exactly shaped value that validates is enumerated. */
  lemma {:induction false} ValidIsEnumerated(d: Domain, v: Value)
    requires Proper(d) && Validate(d, v) && Exact(d, v) && Mounted(v)
    ensures v in EnumerateDomain(d)
    decreases d
  {
    match d
    case BoolD =>
    case EnumD(values) => TextsHas(values, v);
    case IntD(min, max, overflow) => RangeHas(min, max, overflow, v);
    case IntSetD(ints, _) => IntsHas(ints, v);
    case OptionD(inner) =>
      if v != Null {
        ValidIsEnumerated(inner, v);
      }
    case RecordD(fields) =>
      assert |NamesOf(v.entries)| == |FieldNames(fields)|;
      forall i | 0 <= i < |fields|
        ensures v.entries[i].value in EnumerateDomain(fields[i].domain)
      {
        RecordField(fields, v, i);
        ValidIsEnumerated(fields[i].domain, v.entries[i].value);
      }
      RecordHas(fields, v);
    case TaggedD(tag, variants) =>
      var k := VariantOf(tag, variants, v.entries).value;
      var r := UntagVariant(d, v, k);
      UntaggedIsValid(d, k, r, v);
      ValidIsEnumerated(variants[k].domain, r);
      RetaggedIsEnumerated(d, k, r, v);
    case TokensD(count, names) => TextsHas(TokenNames(count, names), v);
    case LengthCatD => TextsHas(LENGTHS, v);
    case ListD(inner, maxLen) =>
      forall i | 0 <= i < |v.items|
        ensures v.items[i] in EnumerateDomain(inner)
      {
        ValidIsEnumerated(inner, v.items[i]);
      }
      ListsHas(EnumerateDomain(inner), maxLen, v.items);
      ArraysHas(ListsUpTo(EnumerateDomain(inner), maxLen), v);
  }

  // ---------------------------------------------------------------------------
  // Storing numbers
  // ---------------------------------------------------------------------------

  function StoreNumber(policy: Overflow, raw: int, min: int, max: int, ints: Option<seq<int>>): Option<int>
    requires ints.Some? ==> ints.value != []
  {
    if ints.Some? then
      if raw in ints.value then Some(raw) else
      match policy
      case Forbid => None
      case Wrap => Some(ints.value[raw % |ints.value|])
      case Saturate => Some(if raw <= min then min else max)
    else if min <= raw <= max then Some(raw) else
    match policy
    case Forbid => None
    case Wrap => if max - min + 1 <= 0 then None else Some(min + raw % (max - min + 1))
    case Saturate => Some(if raw < min then min else max)
  }

  /** The number stored in a domain for a computed one, or none when that is an overflow error. */
  function ApplyNumericAssign(d: Domain, raw: int): Option<int> {
    match d
    case IntD(min, max, overflow) => StoreNumber(overflow, raw, min, max, None)
    case IntSetD(ints, overflow) =>
      if ints == [] then None else StoreNumber(overflow, raw, ints[0], ints[|ints| - 1], Some(ints))
    case _ => Some(raw)
  }

  /** Overflow is an error here, or there is nothing to wrap into or saturate to. */
  predicate Refuses(d: Domain)
    requires d.IntD? || d.IntSetD?
  {
    || d.overflow == Forbid
    || (d.IntSetD? && d.ints == [])
    || (d.IntD? && d.max < d.min && d.overflow == Wrap)
  }

  /** A stored number belongs to the domain, except that an empty range saturates to its lower or upper end;
      a number of the domain is stored unchanged; and only an overflow or an empty domain is refused. */
  lemma {:induction false} NumericAssignStays(d: Domain, raw: int)
    requires d.IntD? || d.IntSetD?
    ensures var r := ApplyNumericAssign(d, raw);
            && (r.Some? ==> (Validate(d, Int(r.value)) <==> !(d.IntD? && d.max < d.min)))
            && (Validate(d, Int(raw)) ==> r == Some(raw))
            && (r.None? <==> !Validate(d, Int(raw)) && Refuses(d))
  {
    if d.IntD? && d.min <= d.max {
      assert 0 <= raw % (d.max - d.min + 1) <= d.max - d.min;
    }
  }

  function Gap(a: int, b: int): nat {
    if a < b then b - a else a - b
  }

  /** Saturation stores the nearest number of a range; out of a set, its lower end below and its upper end otherwise. */
  lemma {:induction false} SaturationIsNearest(d: Domain, raw: int, n: int)
    requires d.IntD? || d.IntSetD?
    requires d.overflow == Saturate && ApplyNumericAssign(d, raw).Some?
    ensures var r := ApplyNumericAssign(d, raw).value;
            && (d.IntD? && d.min <= n <= d.max ==> d.min <= r <= d.max && Gap(raw, r) <= Gap(raw, n))
            && (d.IntD? && d.max < d.min ==> r == if raw < d.min then d.min else d.max)
            && (d.IntSetD? && raw !in d.ints ==> d.ints != [] && r == if raw <= d.ints[0] then d.ints[0] else d.ints[|d.ints| - 1])
  {
  }

  /** Wrapping takes a number outside the domain, by its remainder, to a number as far above the lower end of a range,
      or to the number at that position of a set. */
  lemma {:induction false} WrappingIsByRemainder(d: Domain, raw: int) returns (position: nat, turns: int)
    requires d.IntD? || d.IntSetD?
    requires d.overflow == Wrap && !Validate(d, Int(raw)) && ApplyNumericAssign(d, raw).Some?
    ensures var size := if d.IntD? then d.max - d.min + 1 else |d.ints|;
            && position < size && raw == turns * size + position
            && ApplyNumericAssign(d, raw).value == if d.IntD? then d.min + position else d.ints[position]
  {
    var size := if d.IntD? then d.max - d.min + 1 else |d.ints|;
    position, turns := raw % size, raw / size;
  }
}
