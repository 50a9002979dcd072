/** The laws of the expression operators (crates/checker/src/expr.rs). */
module Operators {
  import opened Bytes
  import opened Values
  import opened Expr
  import opened Wrappers

  const YES: Value := Bool(true)
  const NO: Value := Bool(false)

  function Ap(op: Op, a: Value, b: Value): Value {
    ApplyOp(op, [a, b])
  }

  // ---------------------------------------------------------------------------
  // Arithmetic
  // ---------------------------------------------------------------------------

  /** Addition is a commutative group on integers with subtraction as its inverse. */
  lemma {:induction false} AdditionIsAGroup(a: int, b: int, c: int)
    ensures Ap(Add, Int(a), Int(b)).Int? && Ap(Sub, Int(a), Int(b)).Int?
    ensures Ap(Add, Int(a), Int(b)) == Ap(Add, Int(b), Int(a))
    ensures Ap(Add, Ap(Add, Int(a), Int(b)), Int(c)) == Ap(Add, Int(a), Ap(Add, Int(b), Int(c)))
    ensures Ap(Add, Int(a), Int(0)) == Int(a)
    ensures Ap(Add, Ap(Sub, Int(a), Int(b)), Int(b)) == Int(a)
  {
  }

  /** Adding respects the order, and adding one is the next integer. */
  lemma {:induction false} AdditionIsMonotone(a: int, b: int, c: int)
    ensures Ap(Lt, Int(a), Int(b)) == Ap(Lt, Ap(Add, Int(a), Int(c)), Ap(Add, Int(b), Int(c)))
    ensures Ap(Lt, Int(a), Ap(Add, Int(a), Int(1))) == YES
    ensures Ap(Lt, Int(a), Int(b)) == YES ==> Ap(Lte, Ap(Add, Int(a), Int(1)), Int(b)) == YES
  {
  }

  /** The remainder lies between zero and the divisor's magnitude, and takes the dividend to a multiple of the divisor. */
  lemma {:induction false} RemainderIsEuclidean(a: int, b: int) returns (r: int, q: int)
    requires b != 0
    ensures Ap(Mod, Int(a), Int(b)) == Int(r)
    ensures 0 <= r < (if b < 0 then -b else b) && a - r == q * b
  {
    r, q := a % b, a / b;
  }

  /** Arithmetic on anything but integers, and division by zero, has no value. */
  lemma {:induction false} ArithmeticNeedsIntegers(op: Op, a: Value, b: Value)
    requires op == Add || op == Sub || op == Mod
    ensures Ap(op, a, b) == Null <==> !a.Int? || !b.Int? || (op == Mod && b == Int(0))
  {
  }

  // ---------------------------------------------------------------------------
  // Comparison
  // ---------------------------------------------------------------------------

  lemma {:induction false} OfTwo(x: Value, y: Value)
    ensures ApplyOp(Or, [x, y]) == Bool(IsTrue(x) || IsTrue(y)) && ApplyOp(And, [x, y]) == Bool(IsTrue(x) && IsTrue(y))
  {
    var vs := [x, y];
    assert vs[0] == x && vs[1] == y;
  }

  /** On integers exactly one of "less", "equal" and "greater" holds, and the weak comparisons add equality. */
  lemma {:induction false} OrderIsTotal(a: int, b: int)
    ensures var lt, eq, gt := Ap(Lt, Int(a), Int(b)), Ap(Eq, Int(a), Int(b)), Ap(Gt, Int(a), Int(b));
            (lt, eq, gt) in {(YES, NO, NO), (NO, YES, NO), (NO, NO, YES)}
    ensures Ap(Lte, Int(a), Int(b)) == ApplyOp(Or, [Ap(Lt, Int(a), Int(b)), Ap(Eq, Int(a), Int(b))])
    ensures Ap(Gte, Int(a), Int(b)) == ApplyOp(Or, [Ap(Gt, Int(a), Int(b)), Ap(Eq, Int(a), Int(b))])
    ensures Ap(Gt, Int(a), Int(b)) == Ap(Lt, Int(b), Int(a))
  {
    OfTwo(Ap(Lt, Int(a), Int(b)), Ap(Eq, Int(a), Int(b)));
    OfTwo(Ap(Gt, Int(a), Int(b)), Ap(Eq, Int(a), Int(b)));
  }

  lemma {:induction false} OrderIsStrict(a: Value, b: Value, c: Value)
    ensures Ap(Lt, a, a) == NO
    ensures Ap(Lt, a, b) == YES && Ap(Lt, b, c) == YES ==> Ap(Lt, a, c) == YES
    ensures !a.Int? || !b.Int? ==> forall op | op in {Lt, Lte, Gt, Gte} :: Ap(op, a, b) == NO
  {
  }

  /** Zero is below one, and comparing integers agrees with their difference's sign. */
  lemma {:induction false} OrderIsBySign(a: int, b: int)
    ensures Ap(Lt, Int(a), Int(b)) == Ap(Lt, Int(0), Ap(Sub, Int(b), Int(a)))
    ensures Ap(Lt, Int(0), Int(1)) == YES
  {
  }

  /** Equality is identity of values, and "not equal" its negation. */
  lemma {:induction false} EqualityIsIdentity(a: Value, b: Value)
    ensures Ap(Eq, a, a) == YES && (Ap(Eq, a, b) == YES ==> a == b)
    ensures Ap(Neq, a, b) == ApplyOp(Not, [Ap(Eq, a, b)])
  {
  }

  // ---------------------------------------------------------------------------
  // Logic
  // ---------------------------------------------------------------------------

  function Negated(vs: seq<Value>): (r: seq<Value>)
    ensures |r| == |vs| && forall i | 0 <= i < |r| :: r[i] == ApplyOp(Not, [vs[i]])
  {
    seq(|vs|, i requires 0 <= i < |vs| => ApplyOp(Not, [vs[i]]))
  }

  /** Only the value true counts as true: negating twice says whether a value is true. */
  lemma {:induction false} NegationIsTruth(v: Value)
    ensures ApplyOp(Not, [v]) == NO <==> v == YES
    ensures ApplyOp(Not, [v]) in {YES, NO}
    ensures ApplyOp(Not, [ApplyOp(Not, [v])]) == ApplyOp(And, [v]) == ApplyOp(Or, [v])
  {
  }

  lemma {:induction false} DeMorgan(vs: seq<Value>)
    ensures ApplyOp(Not, [ApplyOp(And, vs)]) == ApplyOp(Or, Negated(vs))
    ensures ApplyOp(Not, [ApplyOp(Or, vs)]) == ApplyOp(And, Negated(vs))
  {
    var ns := Negated(vs);
    if i :| 0 <= i < |vs| && !IsTrue(vs[i]) {
      assert IsTrue(ns[i]);
    }
    if i :| 0 <= i < |vs| && IsTrue(vs[i]) {
      assert !IsTrue(ns[i]);
    }
  }

  /** A conjunction of more values is the conjunction of the parts; the empty one is true. Likewise for disjunctions. */
  lemma {:induction false} LogicJoins(vs: seq<Value>, ws: seq<Value>)
    ensures ApplyOp(And, []) == YES && ApplyOp(Or, []) == NO
    ensures ApplyOp(And, vs + ws) == ApplyOp(And, [ApplyOp(And, vs), ApplyOp(And, ws)])
    ensures ApplyOp(Or, vs + ws) == ApplyOp(Or, [ApplyOp(Or, vs), ApplyOp(Or, ws)])
  {
    var all := vs + ws;
    assert forall i | 0 <= i < |vs| :: all[i] == vs[i];
    assert forall i | 0 <= i < |ws| :: all[|vs| + i] == ws[i];
    OfTwo(ApplyOp(And, vs), ApplyOp(And, ws));
    OfTwo(ApplyOp(Or, vs), ApplyOp(Or, ws));
  }

  /** A conditional is its second argument where the first is true, and its third everywhere else. */
  lemma {:induction false} ConditionalSelects(c: Value, a: Value, b: Value)
    ensures ApplyOp(Cond, [c, a, b]) == if ApplyOp(Not, [c]) == NO then a else b
  {
  }

  // ---------------------------------------------------------------------------
  // Lengths and variants
  // ---------------------------------------------------------------------------

  /** The length category tells lengths zero, one and more apart; what is not a list counts as empty. */
  lemma {:induction false} LengthsSeparate(v: Value, w: Value)
    ensures LengthOf(v) in {Str(Ascii("0")), Str(Ascii("1")), Str(Ascii("many"))}
    ensures LengthOf(v) == LengthOf(w) <==> Category(v) == Category(w)
    ensures LengthOf(Arr([])) == Str(Ascii("0")) && LengthOf(Arr([v])) == Str(Ascii("1")) && LengthOf(Arr([v, w])) == Str(Ascii("many"))
  {
    assert |Ascii("0")| == 1 && |Ascii("many")| == 4;
    assert Ascii("0")[0] == 48 && Ascii("1")[0] == 49;
  }

  ghost function Category(v: Value): nat {
    if v.Arr? then (if |v.items| < 2 then |v.items| else 2) else 0
  }

  /** On a valid object of the expression's tagged domain, the tag test holds for exactly its own variant. */
  lemma {:induction false} TagIsVariant(m: Model, arg: Expr, d: Domain, v: Value, k: nat, tag: Text)
    requires TaggedDomainOf(m, arg) == Some(d) && Validate(d, v) && v.Obj?
    requires VariantOf(d.tag, d.variants, v.entries) == Some(k)
    ensures k < |d.variants| && (HasTag(m, arg, v, tag) == YES <==> tag == d.variants[k].name)
    ensures HasTag(m, arg, v, tag) in {YES, NO}
  {
  }

  /** Without a tagged domain, and on anything but an object, no tag is found. */
  lemma {:induction false} NoTagElsewhere(m: Model, arg: Expr, v: Value, tag: Text)
    requires TaggedDomainOf(m, arg).None? || !v.Obj?
    ensures HasTag(m, arg, v, tag) == NO
  {
  }

  // ---------------------------------------------------------------------------
  // Fresh tokens and paths
  // ---------------------------------------------------------------------------

  ghost predicate InUse(s: State, name: Text) {
    exists i :: 0 <= i < |s| && Mentions(s[i], name)
  }

  /** The fresh token is the first name that the state does not mention; there is none when all are in use. */
  lemma {:induction false} FreshIsFirst(names: seq<Text>, s: State)
    ensures match FirstUnused(names, s)
            case None => forall k | 0 <= k < |names| :: InUse(s, names[k])
            case Some(t) => exists k :: 0 <= k < |names| && names[k] == t && !InUse(s, t) && forall j | 0 <= j < k :: InUse(s, names[j])
  {
    if names != [] && exists i :: 0 <= i < |s| && Mentions(s[i], names[0]) {
      var rest := names[1..];
      FreshIsFirst(rest, s);
      match FirstUnused(rest, s)
      case None =>
        assert forall k | 0 < k < |names| :: names[k] == rest[k - 1];
      case Some(t) =>
        var k :| 0 <= k < |rest| && rest[k] == t && !InUse(s, t) && forall j | 0 <= j < k :: InUse(s, rest[j]);
        assert names[k + 1] == t && forall j | 0 < j < k + 1 :: names[j] == rest[j - 1];
    }
  }

  /** The decimal digits of an index denote it. */
  lemma {:induction false} DigitsAreIndex(n: nat)
    ensures AllDigits(Digits(n)) && Number(Digits(n)) == n && Digits(n) != [] && IndexOf(Digits(n)) == n
  {
    if n >= 10 {
      DigitsAreIndex(n / 10);
      assert Digits(n)[..|Digits(n)| - 1] == Digits(n / 10);
    } else {
      assert Digits(n)[..0] == [];
    }
  }

  /** Reading along a path in two parts. */
  lemma {:induction false} PathsCompose(v: Option<Value>, p: seq<Text>, q: seq<Text>)
    ensures ReadPath(v, p + q) == ReadPath(Some(ReadPath(v, p)), q)
    decreases |p|
  {
    if p == [] {
      assert p + q == q;
      if v.None? {
        NullLeadsNowhere(q);
      }
    } else {
      assert (p + q)[0] == p[0] && (p + q)[1..] == p[1..] + q;
      if v.None? {
        NullLeadsNowhere(q);
      } else {
        match v.value
        case Arr(items) =>
          PathsCompose(if IndexOf(p[0]) < |items| then Some(items[IndexOf(p[0])]) else None, p[1..], q);
        case Obj(entries) => PathsCompose(Get(entries, p[0]), p[1..], q);
        case _ => NullLeadsNowhere(q);
      }
    }
  }

  lemma {:induction false} NullLeadsNowhere(q: seq<Text>)
    ensures ReadPath(None, q) == Null && ReadPath(Some(Null), q) == Null
  {
  }

  /** One segment reads an entry of an object by its name, and an item of a list by its decimal index. */
  lemma {:induction false} SegmentsRead(entries: seq<Entry>, items: seq<Value>, i: nat)
    ensures Rising(NamesOf(entries)) && i < |entries| ==>
              ReadPath(Some(Obj(entries)), [entries[i].name]) == entries[i].value
    ensures i < |items| ==> ReadPath(Some(Arr(items)), [Digits(i)]) == items[i]
  {
    DigitsAreIndex(i);
    if Rising(NamesOf(entries)) && i < |entries| {
      GetAt(entries, i);
    }
  }

  // ---------------------------------------------------------------------------
  // Updates and domains along paths
  // ---------------------------------------------------------------------------

  /** An updated value reads back the new part at the updated path. */
  lemma {:induction false} UpdateThenRead(m: Model, s: State, target: Expr, path: seq<Text>, field: Expr, ctx: Context)
    requires PlainGuards(m) && Ordered(Eval(m, s, target, ctx, true))
    ensures ReadPath(Some(Eval(m, s, UpdateField(target, path, field), ctx, true)), path) == Eval(m, s, field, ctx, true)
  {
    WriteThenRead(Eval(m, s, target, ctx, true), path, Eval(m, s, field, ctx, true));
  }

  /** What is read along a path of a valid value belongs to the domain found along that path, or is not there. */
  lemma {:induction false} PathDomainIsSound(d: Domain, v: Value, path: seq<Text>)
    requires Validate(d, v) && DomainAtPath(d, path).Some?
    ensures var x := ReadPath(Some(v), path); x == Null || Validate(DomainAtPath(d, path).value, x)
    decreases |path|, d
  {
    if path != [] && v != UNMOUNTED && v != Null {
      match d
      case OptionD(inner) => PathDomainIsSound(inner, v, path);
      case RecordD(fields) =>
        var k := Find(FieldNames(fields), path[0]).value;
        assert Get(v.entries, fields[k].name).Some?;
        PathDomainIsSound(fields[k].domain, Get(v.entries, path[0]).value, path[1..]);
      case ListD(inner, _) =>
        var i := IndexOf(path[0]);
        if i < |v.items| {
          PathDomainIsSound(inner, v.items[i], path[1..]);
        } else {
          NullLeadsNowhere(path[1..]);
        }
      case TaggedD(tag, variants) => TagDomainIsSound(tag, variants, v, path);
      case _ =>
    }
  }

  lemma {:induction false} TagDomainIsSound(tag: Text, variants: seq<Field>, v: Value, path: seq<Text>)
    requires v.Obj? && VariantOf(tag, variants, v.entries).Some? && path != [] && path[0] == tag
    requires DomainAtPath(EnumD(FieldNames(variants)), path[1..]).Some?
    ensures var x := ReadPath(Some(v), path); x.Str? && x.s in FieldNames(variants)
    ensures DomainAtPath(EnumD(FieldNames(variants)), path[1..]) == Some(EnumD(FieldNames(variants)))
  {
    assert path[1..] == [];
    assert ReadPath(Get(v.entries, tag), path[1..]) == Get(v.entries, tag).value;
  }
}
