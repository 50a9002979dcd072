/** The encoder as it runs: an output buffer and a shared token table
    (crates/checker/src/canon.rs). */
module Encoder {
  import opened Bytes
  import opened Sorting
  import opened Values
  import opened Canon

  class StateEncoder {
    var out: seq<byte>
    var tokenMap: map<Text, nat>
    var nextToken: nat
    ghost var seen: seq<Text>

    /** The table numbers the tokens seen, from one, in order of appearance. */
    ghost predicate Valid()
      reads this
    {
      && Distinct(seen) && nextToken == |seen| + 1
      && (forall t :: t in tokenMap <==> t in seen)
      && forall i | 0 <= i < |seen| :: tokenMap[seen[i]] == i + 1
    }

    constructor ()
      ensures Valid() && out == [] && seen == []
    {
      out, tokenMap, nextToken, seen := [], map[], 1, [];
    }

    method Push(bytes: seq<byte>)
      requires Valid()
      modifies this`out
      ensures Valid() && out == old(out) + bytes
    {
      out := out + bytes;
    }

    /** The number of a token, given out on first sight. */
    method Number(t: Text) returns (id: nat)
      requires Valid()
      modifies this`tokenMap, this`nextToken, this`seen
      ensures Valid() && id == IdOf(old(seen), t) && seen == See(old(seen), t)
    {
      if t in tokenMap {
        ghost var i :| 0 <= i < |seen| && seen[i] == t;
        FindDistinct(seen, i);
        return tokenMap[t];
      }
      id := nextToken;
      tokenMap := tokenMap[t := id];
      nextToken := nextToken + 1;
      seen := seen + [t];
    }

    method EncodeToken(d: Domain, v: Value)
      requires Valid() && d.TokensD? && v != UNMOUNTED
      modifies this
      ensures Valid() && out == old(out) + Encode(d, v, old(seen)).bytes && seen == Encode(d, v, old(seen)).seen
    {
      if v.Str? {
        var id := Number(v.s);
        Push(EncodeText(TokenName(id)));
      } else {
        Push([TAG_NULL]);
      }
    }

    /** Values without structure and without tokens. */
    method EncodeLeaf(d: Domain, v: Value)
      requires Valid() && !Composite(d) && !d.TokensD? && !d.OptionD? && v != UNMOUNTED
      modifies this`out
      ensures Valid() && out == old(out) + Encode(d, v, seen).bytes && seen == Encode(d, v, seen).seen
    {
      match d {
        case BoolD => Push([if v.Bool? then (if v.b then TAG_BOOL_TRUE else TAG_BOOL_FALSE) else TAG_NULL]);
        case EnumD(_) => Push(EncodeText(TextOf(v)));
        case LengthCatD => Push(EncodeText(TextOf(v)));
        case IntD(_, _, _) => Push(EncodeInt(if v.Int? then v.n else 0));
        case IntSetD(_, _) => Push(EncodeInt(if v.Int? then v.n else 0));
      }
    }

    method EncodeValue(d: Domain, v: Value)
      requires Valid()
      modifies this
      ensures Valid() && out == old(out) + Encode(d, v, old(seen)).bytes && seen == Encode(d, v, old(seen)).seen
      decreases d, 1, 0
    {
      if v == UNMOUNTED {
        Push([TAG_UNMOUNTED]);
      } else if d.TokensD? {
        EncodeToken(d, v);
      } else if d.OptionD? {
        if v.Null? {
          Push([TAG_NULL]);
        } else {
          EncodeValue(d.inner, v);
        }
      } else if Composite(d) {
        EncodeStructure(d, v);
      } else {
        EncodeLeaf(d, v);
      }
    }

    method EncodeStructure(d: Domain, v: Value)
      requires Valid() && Composite(d) && v != UNMOUNTED
      modifies this
      ensures Valid() && out == old(out) + Encode(d, v, old(seen)).bytes && seen == Encode(d, v, old(seen)).seen
      decreases d, 0, |Parts(d, v)| + 2
    {
      EncodeComposite(d, v, seen);
      Associate(out, Header(d, v), EncodeParts(d, Parts(d, v), seen).bytes);
      Push(Header(d, v));
      EncodeAll(d, Parts(d, v));
    }

    /** The parts of a composite value, one after the other. */
    method EncodeAll(ghost d: Domain, parts: seq<Part>)
      requires Valid() && forall p | p in parts && p.Typed? :: p.domain < d
      modifies this
      ensures Valid() && out == old(out) + EncodeParts(d, parts, old(seen)).bytes
      ensures seen == EncodeParts(d, parts, old(seen)).seen
      decreases d, 0, |parts| + 1
    {
      ghost var all := EncodeParts(d, parts, seen);
      ghost var before := out;
      for i := 0 to |parts|
        invariant Valid() && before + all.bytes == out + EncodeParts(d, parts[i..], seen).bytes
        invariant all.seen == EncodeParts(d, parts[i..], seen).seen
      {
        ghost var rest, known, done := parts[i..], seen, out;
        assert rest[0] == parts[i] && rest[1..] == parts[i + 1..];
        match parts[i] {
          case Typed(domain, value) => EncodeValue(domain, value);
          case Loose(value) =>
            if value == UNMOUNTED {
              Push([TAG_UNMOUNTED]);
            } else {
              Push(EncodeText(TextOf(value)));
            }
          case Raw(value) => Push(EncodeText(TextOf(value)));
        }
        ghost var head := EncodePart(d, rest[0], known);
        Associate(done, head.bytes, EncodeParts(d, rest[1..], head.seen).bytes);
      }
    }
  }

  /** The canonical key of a state, computed with one buffer and one token table. */
  method CanonicalIdentity(domains: seq<Domain>, state: seq<Value>) returns (key: Key)
    requires |state| == |domains|
    ensures key == CanonicalKey(domains, state)
  {
    var encoder := new StateEncoder();
    encoder.EncodeAll(Above(domains), StateParts(domains, state));
    key := encoder.out;
  }
}
