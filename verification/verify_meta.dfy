/** The verifier metadata codec (`verifier/src/verify_meta_codec.rs`): a cursor
    that decodes field after field, against an encoder that is its inverse. */
module VerifyMetaCodec {
  import opened Bytes
  import opened WireFields
  import opened Wrappers

  /** The metadata, field by field; `nat` stands for `usize`. */
  datatype VerifyMeta = VerifyMeta(
    nPowBits: u32, nPreprocessedColumns: nat, nTraceColumns: nat, nInteractionColumns: nat,
    traceColumnsPerComponent: seq<nat>, interactionColumnsPerComponent: seq<nat>, cumulativeSumColumns: seq<bool>,
    nComponents: nat, friLogTraceSize: nat, friLogBlowup: u32, friLogLastLayer: u32, friNQueries: nat,
    friFoldStep: u32, interactionPowBits: u32, circuitPowBits: u32, circuitFriLogBlowup: u32,
    circuitFriLogLastLayer: u32, circuitFriNQueries: nat, circuitFriFoldStep: u32, circuitLifting: Option<u32>,
    outputAddresses: seq<nat>, nBlakeGates: nat, preprocessedColumnIds: seq<Bytes>,
    preprocessedRoot: seq<u32>, publicOutputValues: seq<u32>)

  const MAGIC: Bytes := [0x54, 0x56, 0x4D, 0x31]

  // ----- Elements

  datatype Elem = Num(n: nat) | Flag(b: bool) | Str(text: Bytes)
  datatype ElemKind = NumKind | FlagKind | StrKind

  function KindOfElem(e: Elem): ElemKind
  {
    match e
    case Num(_) => NumKind
    case Flag(_) => FlagKind
    case Str(_) => StrKind
  }

  function EncodeElem(utf8: Bytes -> bool, e: Elem): Option<Bytes>
  {
    match e
    case Num(n) => if n < U32_LIMIT then Some(BeBytes(n, 4)) else None
    case Flag(b) => Some([if b then 1 else 0])
    case Str(text) => if utf8(text) then EncodeLimited(U32_LIMIT, text) else None
  }

  function ParseElem(utf8: Bytes -> bool, kind: ElemKind, bs: Bytes): Option<(Elem, Bytes)>
  {
    match kind
    case NumKind => if |bs| < 4 then None else Some((Num(FromBe(bs[..4])), bs[4..]))
    case FlagKind =>
      if bs == [] || bs[0] > 1 then None else Some((Flag(bs[0] == 1), bs[1..]))
    case StrKind =>
      match ParseLimited(U32_LIMIT, bs)
      case None => None
      case Some(p) => if utf8(p.0) then Some((Str(p.0), p.1)) else None
  }

  lemma NumIsExact(n: nat, bs: Bytes, rest: Bytes)
    ensures |bs| >= 4 && FromBe(bs[..4]) == n && bs[4..] == rest <==> n < U32_LIMIT && bs == BeBytes(n, 4) + rest
  {
    Pow256Values();
    if |bs| >= 4 {
      BeCanonical(bs[..4]);
      assert bs == bs[..4] + bs[4..];
    }
    if n < U32_LIMIT && bs == BeBytes(n, 4) + rest {
      BeRoundTrip(n, 4);
      assert bs[..4] == BeBytes(n, 4) && bs[4..] == rest;
    }
  }

  lemma ElemIsExact(utf8: Bytes -> bool, kind: ElemKind, e: Elem, bs: Bytes, rest: Bytes)
    ensures ParseElem(utf8, kind, bs) == Some((e, rest)) <==>
            KindOfElem(e) == kind && EncodeElem(utf8, e).Some? && bs == EncodeElem(utf8, e).value + rest
  {
    hide BeBytes, FromBe, EncodeLimited, ParseLimited;
    match e {
      case Num(n) => NumIsExact(n, bs, rest);
      case Flag(b) =>
        if bs != [] {
          assert bs == [bs[0]] + bs[1..];
        }
        if bs == [if b then 1 else 0] + rest {
          assert bs[1..] == rest;
        }
      case Str(text) => LimitedIsExact(U32_LIMIT, text, bs, rest);
    }
  }

  // ----- Counted runs of elements

  function EncodeElems(utf8: Bytes -> bool, es: seq<Elem>): Option<Bytes>
  {
    if es == [] then Some([])
    else
      match (EncodeElem(utf8, es[0]), EncodeElems(utf8, es[1..]))
      case (Some(first), Some(others)) => Some(first + others)
      case _ => None
  }

  function ParseElems(utf8: Bytes -> bool, kind: ElemKind, count: nat, bs: Bytes): (r: Option<(seq<Elem>, Bytes)>)
    ensures r.Some? ==> |r.value.0| == count
  {
    if count == 0 then Some(([], bs))
    else
      match ParseElem(utf8, kind, bs)
      case None => None
      case Some(first) =>
        match ParseElems(utf8, kind, count - 1, first.1)
        case None => None
        case Some(others) => Some(([first.0] + others.0, others.1))
  }

  predicate AllOfKind(kind: ElemKind, es: seq<Elem>)
  {
    forall i :: 0 <= i < |es| ==> KindOfElem(es[i]) == kind
  }

  lemma {:induction false} EncodedElemsParse(utf8: Bytes -> bool, kind: ElemKind, es: seq<Elem>, rest: Bytes)
    requires AllOfKind(kind, es) && EncodeElems(utf8, es).Some?
    ensures ParseElems(utf8, kind, |es|, EncodeElems(utf8, es).value + rest) == Some((es, rest))
    decreases |es|
  {
    hide EncodeElem, ParseElem;
    if es == [] {
      assert [] + rest == rest;
    } else {
      var first, others := EncodeElem(utf8, es[0]).value, EncodeElems(utf8, es[1..]).value;
      EncodedElemsParse(utf8, kind, es[1..], rest);
      assert first + others + rest == first + (others + rest);
      ElemIsExact(utf8, kind, es[0], first + (others + rest), others + rest);
      assert [es[0]] + es[1..] == es;
    }
  }

  lemma {:induction false} ParsedElemsEncode(utf8: Bytes -> bool, kind: ElemKind, count: nat, bs: Bytes)
    requires ParseElems(utf8, kind, count, bs).Some?
    ensures var p := ParseElems(utf8, kind, count, bs).value;
            AllOfKind(kind, p.0) && EncodeElems(utf8, p.0).Some? && bs == EncodeElems(utf8, p.0).value + p.1
  {
    hide EncodeElem, ParseElem;
    if count == 0 {
      assert [] + bs == bs;
    } else {
      var first := ParseElem(utf8, kind, bs).value;
      ElemIsExact(utf8, kind, first.0, bs, first.1);
      ParsedElemsEncode(utf8, kind, count - 1, first.1);
      var others := ParseElems(utf8, kind, count - 1, first.1).value;
      assert ([first.0] + others.0)[1..] == others.0;
      var e, d := EncodeElem(utf8, first.0).value, EncodeElems(utf8, others.0).value;
      assert e + (d + others.1) == e + d + others.1;
    }
  }

  // ----- Items: one element, a counted run, or an optional number

  datatype Item = One(e: Elem) | Many(es: seq<Elem>) | Maybe(o: Option<Elem>)
  datatype ItemKind = OneOf(kind: ElemKind) | ManyOf(kind: ElemKind) | MaybeNum

  predicate HasKind(kind: ItemKind, item: Item)
  {
    match kind
    case OneOf(k) => item.One? && KindOfElem(item.e) == k
    case ManyOf(k) => item.Many? && AllOfKind(k, item.es)
    case MaybeNum => item.Maybe? && (item.o.Some? ==> item.o.value.Num?)
  }

  function EncodeItem(utf8: Bytes -> bool, item: Item): Option<Bytes>
  {
    match item
    case One(e) => EncodeElem(utf8, e)
    case Many(es) =>
      (match (EncodeElem(utf8, Num(|es|)), EncodeElems(utf8, es))
       case (Some(count), Some(body)) => Some(count + body)
       case _ => None)
    case Maybe(None) => Some([0])
    case Maybe(Some(e)) =>
      match EncodeElem(utf8, e)
      case None => None
      case Some(b) => Some([1] + b)
  }

  function ParseItem(utf8: Bytes -> bool, kind: ItemKind, bs: Bytes): Option<(Item, Bytes)>
  {
    match kind
    case OneOf(k) =>
      (match ParseElem(utf8, k, bs)
       case None => None
       case Some(p) => Some((One(p.0), p.1)))
    case ManyOf(k) =>
      (match ParseElem(utf8, NumKind, bs)
       case None => None
       case Some(count) =>
         match ParseElems(utf8, k, CountOf(count.0), count.1)
         case None => None
         case Some(p) => Some((Many(p.0), p.1)))
    case MaybeNum =>
      if bs == [] then None
      else if bs[0] == 0 then Some((Maybe(None), bs[1..]))
      else if bs[0] != 1 then None
      else
        match ParseElem(utf8, NumKind, bs[1..])
        case None => None
        case Some(p) => Some((Maybe(Some(p.0)), p.1))
  }

  function CountOf(e: Elem): nat
  {
    if e.Num? then e.n else 0
  }

  lemma ManyIsExact(utf8: Bytes -> bool, k: ElemKind, item: Item, bs: Bytes, rest: Bytes)
    ensures ParseItem(utf8, ManyOf(k), bs) == Some((item, rest)) <==>
            HasKind(ManyOf(k), item) && EncodeItem(utf8, item).Some? && bs == EncodeItem(utf8, item).value + rest
  {
    hide EncodeElem, ParseElem, EncodeElems, ParseElems;
    if ParseItem(utf8, ManyOf(k), bs) == Some((item, rest)) {
      var count := ParseElem(utf8, NumKind, bs).value;
      ElemIsExact(utf8, NumKind, count.0, bs, count.1);
      ParsedElemsEncode(utf8, k, CountOf(count.0), count.1);
      var e, d := EncodeElem(utf8, count.0).value, EncodeElems(utf8, item.es).value;
      assert e + (d + rest) == e + d + rest;
    }
    if HasKind(ManyOf(k), item) && EncodeItem(utf8, item).Some? && bs == EncodeItem(utf8, item).value + rest {
      var count, body := EncodeElem(utf8, Num(|item.es|)).value, EncodeElems(utf8, item.es).value;
      assert bs == count + (body + rest);
      ElemIsExact(utf8, NumKind, Num(|item.es|), bs, body + rest);
      EncodedElemsParse(utf8, k, item.es, rest);
    }
  }

  lemma MaybeIsExact(utf8: Bytes -> bool, item: Item, bs: Bytes, rest: Bytes)
    ensures ParseItem(utf8, MaybeNum, bs) == Some((item, rest)) <==>
            HasKind(MaybeNum, item) && EncodeItem(utf8, item).Some? && bs == EncodeItem(utf8, item).value + rest
  {
    hide EncodeElem, ParseElem;
    if bs != [] {
      assert bs == [bs[0]] + bs[1..];
    }
    if item.Maybe? {
      match item.o {
        case None =>
          if bs == [0] + rest {
            assert bs[1..] == rest;
          }
        case Some(e) =>
          if bs != [] {
            ElemIsExact(utf8, NumKind, e, bs[1..], rest);
          }
          if EncodeElem(utf8, e).Some? {
            assert [1] + EncodeElem(utf8, e).value + rest == [1] + (EncodeElem(utf8, e).value + rest);
          }
      }
    }
  }

  lemma ItemIsExact(utf8: Bytes -> bool, kind: ItemKind, item: Item, bs: Bytes, rest: Bytes)
    ensures ParseItem(utf8, kind, bs) == Some((item, rest)) <==>
            HasKind(kind, item) && EncodeItem(utf8, item).Some? && bs == EncodeItem(utf8, item).value + rest
  {
    hide EncodeElem, ParseElem;
    match kind {
      case OneOf(k) =>
        if item.One? {
          ElemIsExact(utf8, k, item.e, bs, rest);
        }
      case ManyOf(k) => ManyIsExact(utf8, k, item, bs, rest);
      case MaybeNum => MaybeIsExact(utf8, item, bs, rest);
    }
  }

  // ----- Rows of items

  function EncodeRow(utf8: Bytes -> bool, items: seq<Item>): Option<Bytes>
  {
    if items == [] then Some([])
    else
      match (EncodeItem(utf8, items[0]), EncodeRow(utf8, items[1..]))
      case (Some(first), Some(others)) => Some(first + others)
      case _ => None
  }

  function ParseRow(utf8: Bytes -> bool, kinds: seq<ItemKind>, bs: Bytes): (r: Option<(seq<Item>, Bytes)>)
    ensures r.Some? ==> |r.value.0| == |kinds|
  {
    if kinds == [] then Some(([], bs))
    else
      match ParseItem(utf8, kinds[0], bs)
      case None => None
      case Some(first) =>
        match ParseRow(utf8, kinds[1..], first.1)
        case None => None
        case Some(others) => Some(([first.0] + others.0, others.1))
  }

  predicate RowHasKinds(kinds: seq<ItemKind>, items: seq<Item>)
  {
    |kinds| == |items| && forall i :: 0 <= i < |items| ==> HasKind(kinds[i], items[i])
  }

  lemma {:induction false} EncodedRowParses(utf8: Bytes -> bool, kinds: seq<ItemKind>, items: seq<Item>, rest: Bytes)
    requires RowHasKinds(kinds, items) && EncodeRow(utf8, items).Some?
    ensures ParseRow(utf8, kinds, EncodeRow(utf8, items).value + rest) == Some((items, rest))
    decreases |items|
  {
    hide EncodeItem, ParseItem, HasKind;
    if items == [] {
      assert [] + rest == rest;
    } else {
      var first, others := EncodeItem(utf8, items[0]).value, EncodeRow(utf8, items[1..]).value;
      EncodedRowParses(utf8, kinds[1..], items[1..], rest);
      assert first + others + rest == first + (others + rest);
      ItemIsExact(utf8, kinds[0], items[0], first + (others + rest), others + rest);
      assert [items[0]] + items[1..] == items;
    }
  }

  lemma {:induction false} ParsedRowEncodes(utf8: Bytes -> bool, kinds: seq<ItemKind>, bs: Bytes)
    requires ParseRow(utf8, kinds, bs).Some?
    ensures var p := ParseRow(utf8, kinds, bs).value;
            RowHasKinds(kinds, p.0) && EncodeRow(utf8, p.0).Some? && bs == EncodeRow(utf8, p.0).value + p.1
    decreases |kinds|
  {
    hide EncodeItem, ParseItem, HasKind;
    if kinds == [] {
      assert [] + bs == bs;
    } else {
      var first := ParseItem(utf8, kinds[0], bs).value;
      ItemIsExact(utf8, kinds[0], first.0, bs, first.1);
      ParsedRowEncodes(utf8, kinds[1..], first.1);
      var others := ParseRow(utf8, kinds[1..], first.1).value;
      assert ([first.0] + others.0)[1..] == others.0;
      var e, d := EncodeItem(utf8, first.0).value, EncodeRow(utf8, others.0).value;
      assert e + (d + others.1) == e + d + others.1;
    }
  }

  // ----- The cursor

  /** `whole` is `values` followed by what the rest parses to. */
  predicate Continues(whole: Option<(seq<Elem>, Bytes)>, values: seq<Elem>, rest: Option<(seq<Elem>, Bytes)>)
  {
    match rest
    case None => whole == None
    case Some(p) => whole == Some((values + p.0, p.1))
  }

  lemma ElemsStart(whole: Option<(seq<Elem>, Bytes)>)
    ensures Continues(whole, [], whole)
  {
    if whole.Some? {
      assert [] + whole.value.0 == whole.value.0;
    }
  }

  lemma ElemsStep(utf8: Bytes -> bool, kind: ElemKind, n: nat, bs: Bytes, whole: Option<(seq<Elem>, Bytes)>,
                  values: seq<Elem>)
    requires n > 0 && Continues(whole, values, ParseElems(utf8, kind, n, bs))
    ensures match ParseElem(utf8, kind, bs)
            case None => whole == None
            case Some(p) => Continues(whole, values + [p.0], ParseElems(utf8, kind, n - 1, p.1))
  {
    hide ParseElem;
    var first := ParseElem(utf8, kind, bs);
    if first.Some? {
      var others := ParseElems(utf8, kind, n - 1, first.value.1);
      if others.Some? {
        assert values + ([first.value.0] + others.value.0) == values + [first.value.0] + others.value.0;
      }
    }
  }

  lemma NoMoreElems(utf8: Bytes -> bool, kind: ElemKind, bs: Bytes)
    ensures ParseElems(utf8, kind, 0, bs) == Some(([], bs))
  {
  }

  class Cursor {
    const bytes: Bytes
    var pos: nat

    ghost predicate Valid()
      reads this
    {
      pos <= |bytes|
    }

    ghost function Rest(): Bytes
      reads this
      requires Valid()
    {
      bytes[pos..]
    }

    constructor (bytes: Bytes)
      ensures Valid() && Rest() == bytes && this.bytes == bytes
    {
      this.bytes := bytes;
      pos := 0;
    }

    /** A failed take moves nothing; the caller gives up anyway. */
    method TakeExact(len: nat) returns (r: Option<Bytes>)
      requires Valid()
      modifies this
      ensures Valid()
      ensures if len <= |old(Rest())| then r == Some(old(Rest())[..len]) && Rest() == old(Rest())[len..]
              else r == None && Rest() == old(Rest())
    {
      var end := pos + len;
      assert end <= |bytes| ==> Rest()[..len] == bytes[pos..end] && Rest()[len..] == bytes[end..];
      if end > |bytes| {
        return None;
      }
      r := Some(bytes[pos..end]);
      pos := end;
    }

    method TakeU8() returns (r: Option<byte>)
      requires Valid()
      modifies this
      ensures Valid()
      ensures if old(Rest()) == [] then r == None else r == Some(old(Rest())[0]) && Rest() == old(Rest())[1..]
    {
      var taken := TakeExact(1);
      r := if taken.Some? then Some(taken.value[0]) else None;
    }

    method TakeU32() returns (r: Option<u32>)
      requires Valid()
      modifies this
      ensures Valid()
      ensures if |old(Rest())| < 4 then r == None
              else r.Some? && r.value == FromBe(old(Rest())[..4]) && Rest() == old(Rest())[4..]
    {
      var taken := TakeExact(4);
      match taken {
        case None => return None;
        case Some(word) =>
          Pow256Values();
          BeCanonical(word);
          return Some(FromBe(word));
      }
    }

    /** One number, flag or string. */
    method TakeElem(utf8: Bytes -> bool, kind: ElemKind) returns (r: Option<Elem>)
      requires Valid()
      modifies this
      ensures Valid()
      ensures match ParseElem(utf8, kind, old(Rest()))
              case None => r == None
              case Some(p) => r == Some(p.0) && Rest() == p.1
    {
      hide FromBe;
      match kind {
        case NumKind =>
          var n := TakeU32();
          r := if n.Some? then Some(Num(n.value)) else None;
        case FlagKind =>
          var b := TakeU8();
          r := if b.Some? && b.value <= 1 then Some(Flag(b.value == 1)) else None;
        case StrKind =>
          ghost var start := Rest();
          var length := TakeU32();
          match length {
            case None => return None;
            case Some(n) =>
              var text := TakeExact(n);
              match text {
                case None => return None;
                case Some(t) =>
                  assert t == start[4..4 + n] && Rest() == start[4 + n..];
                  return if utf8(t) then Some(Str(t)) else None;
              }
          }
      }
    }

    /** The loops of `take_vec_u32`, `take_vec_usize`, `take_vec_bool` and `take_vec_string`. */
    method TakeElems(utf8: Bytes -> bool, kind: ElemKind, count: nat) returns (r: Option<seq<Elem>>)
      requires Valid()
      modifies this
      ensures Valid()
      ensures match ParseElems(utf8, kind, count, old(Rest()))
              case None => r == None
              case Some(p) => r == Some(p.0) && Rest() == p.1
    {
      hide ParseElem, ParseElems;
      var values: seq<Elem> := [];
      ghost var whole := ParseElems(utf8, kind, count, Rest());
      ElemsStart(whole);
      for i := 0 to count
        invariant Valid()
        invariant Continues(whole, values, ParseElems(utf8, kind, count - i, Rest()))
      {
        ElemsStep(utf8, kind, count - i, Rest(), whole, values);
        var next := TakeElem(utf8, kind);
        match next {
          case None => return None;
          case Some(e) => values := values + [e];
        }
      }
      NoMoreElems(utf8, kind, Rest());
      assert values + [] == values;
      r := Some(values);
    }

    method TakeItem(utf8: Bytes -> bool, kind: ItemKind) returns (r: Option<Item>)
      requires Valid()
      modifies this
      ensures Valid()
      ensures match ParseItem(utf8, kind, old(Rest()))
              case None => r == None
              case Some(p) => r == Some(p.0) && Rest() == p.1
    {
      hide ParseElem, ParseElems;
      match kind {
        case OneOf(k) =>
          var e := TakeElem(utf8, k);
          r := if e.Some? then Some(One(e.value)) else None;
        case ManyOf(k) =>
          var count := TakeElem(utf8, NumKind);
          if count.None? {
            return None;
          }
          var es := TakeElems(utf8, k, CountOf(count.value));
          r := if es.Some? then Some(Many(es.value)) else None;
        case MaybeNum =>
          var tag := TakeU8();
          if tag.None? || tag.value > 1 {
            return None;
          }
          if tag.value == 0 {
            return Some(Maybe(None));
          }
          var n := TakeElem(utf8, NumKind);
          r := if n.Some? then Some(Maybe(Some(n.value))) else None;
      }
    }

    /** The fields of the metadata, one take after the other. */
    method TakeRow(utf8: Bytes -> bool, kinds: seq<ItemKind>) returns (r: Option<seq<Item>>)
      requires Valid()
      modifies this
      ensures Valid()
      ensures match ParseRow(utf8, kinds, old(Rest()))
              case None => r == None
              case Some(p) => r == Some(p.0) && Rest() == p.1
    {
      hide ParseItem;
      var items: seq<Item> := [];
      assert kinds[0..] == kinds;
      ghost var whole := ParseRow(utf8, kinds, Rest());
      assert whole.Some? ==> items + whole.value.0 == whole.value.0;
      for i := 0 to |kinds|
        invariant Valid()
        invariant match ParseRow(utf8, kinds[i..], Rest())
                  case None => ParseRow(utf8, kinds, old(Rest())) == None
                  case Some(p) => ParseRow(utf8, kinds, old(Rest())) == Some((items + p.0, p.1))
      {
        assert kinds[i..][0] == kinds[i] && kinds[i..][1..] == kinds[i + 1..];
        var next := TakeItem(utf8, kinds[i]);
        match next {
          case None => return None;
          case Some(item) =>
            ghost var others := ParseRow(utf8, kinds[i + 1..], Rest());
            if others.Some? {
              assert items + ([item] + others.value.0) == items + [item] + others.value.0;
            }
            items := items + [item];
        }
      }
      assert kinds[|kinds|..] == [] && items + [] == items;
      r := Some(items);
    }
  }

  // ----- The metadata as a row of items

  const META_KINDS: seq<ItemKind> := [
    OneOf(NumKind), OneOf(NumKind), OneOf(NumKind), OneOf(NumKind),
    ManyOf(NumKind), ManyOf(NumKind), ManyOf(FlagKind),
    OneOf(NumKind), OneOf(NumKind), OneOf(NumKind), OneOf(NumKind), OneOf(NumKind),
    OneOf(NumKind), OneOf(NumKind), OneOf(NumKind), OneOf(NumKind),
    OneOf(NumKind), OneOf(NumKind), OneOf(NumKind), MaybeNum,
    ManyOf(NumKind), OneOf(NumKind), ManyOf(StrKind),
    ManyOf(NumKind), ManyOf(NumKind)]

  function Nums(ns: seq<nat>): Item
  {
    Many(seq(|ns|, i requires 0 <= i < |ns| => Num(ns[i])))
  }

  function Flags(bs: seq<bool>): Item
  {
    Many(seq(|bs|, i requires 0 <= i < |bs| => Flag(bs[i])))
  }

  function Texts(ts: seq<Bytes>): Item
  {
    Many(seq(|ts|, i requires 0 <= i < |ts| => Str(ts[i])))
  }

  function Items(m: VerifyMeta): (items: seq<Item>)
    ensures RowHasKinds(META_KINDS, items)
  {
    [One(Num(m.nPowBits)), One(Num(m.nPreprocessedColumns)), One(Num(m.nTraceColumns)), One(Num(m.nInteractionColumns)),
     Nums(m.traceColumnsPerComponent), Nums(m.interactionColumnsPerComponent), Flags(m.cumulativeSumColumns),
     One(Num(m.nComponents)), One(Num(m.friLogTraceSize)), One(Num(m.friLogBlowup)), One(Num(m.friLogLastLayer)),
     One(Num(m.friNQueries)),
     One(Num(m.friFoldStep)), One(Num(m.interactionPowBits)), One(Num(m.circuitPowBits)),
     One(Num(m.circuitFriLogBlowup)),
     One(Num(m.circuitFriLogLastLayer)), One(Num(m.circuitFriNQueries)), One(Num(m.circuitFriFoldStep)),
     Maybe(if m.circuitLifting.Some? then Some(Num(m.circuitLifting.value)) else None),
     Nums(m.outputAddresses), One(Num(m.nBlakeGates)), Texts(m.preprocessedColumnIds),
     Nums(m.preprocessedRoot), Nums(m.publicOutputValues)]
  }

  /** `encode`: fails when a size does not fit 32 bits. */
  function Encode(utf8: Bytes -> bool, m: VerifyMeta): Option<Bytes>
  {
    match EncodeRow(utf8, Items(m))
    case None => None
    case Some(body) => Some(MAGIC + body)
  }

  // ----- Back from items

  function NumOf(item: Item): nat
  {
    if item.One? then CountOf(item.e) else 0
  }

  function WordOf(n: nat): u32
  {
    if n < U32_LIMIT then n else 0
  }

  function NumsOf(item: Item): seq<nat>
  {
    if item.Many? then seq(|item.es|, i requires 0 <= i < |item.es| => CountOf(item.es[i])) else []
  }

  function WordsOf(item: Item): seq<u32>
  {
    if item.Many? then seq(|item.es|, i requires 0 <= i < |item.es| => WordOf(CountOf(item.es[i]))) else []
  }

  function FlagsOf(item: Item): seq<bool>
  {
    if item.Many? then seq(|item.es|, i requires 0 <= i < |item.es| => item.es[i].Flag? && item.es[i].b) else []
  }

  function TextsOf(item: Item): seq<Bytes>
  {
    if item.Many? then
      seq(|item.es|, i requires 0 <= i < |item.es| => if item.es[i].Str? then item.es[i].text else [])
    else []
  }

  function MaybeWordOf(item: Item): Option<u32>
  {
    if item.Maybe? && item.o.Some? then Some(WordOf(CountOf(item.o.value))) else None
  }

  function MetaOf(items: seq<Item>): VerifyMeta
    requires |items| == 25
  {
    VerifyMeta(
      WordOf(NumOf(items[0])), NumOf(items[1]), NumOf(items[2]), NumOf(items[3]),
      NumsOf(items[4]), NumsOf(items[5]), FlagsOf(items[6]),
      NumOf(items[7]), NumOf(items[8]), WordOf(NumOf(items[9])), WordOf(NumOf(items[10])), NumOf(items[11]),
      WordOf(NumOf(items[12])), WordOf(NumOf(items[13])), WordOf(NumOf(items[14])), WordOf(NumOf(items[15])),
      WordOf(NumOf(items[16])), NumOf(items[17]), WordOf(NumOf(items[18])), MaybeWordOf(items[19]),
      NumsOf(items[20]), NumOf(items[21]), TextsOf(items[22]),
      WordsOf(items[23]), WordsOf(items[24]))
  }

  /** `decode`, as the meaning of the bytes. */
  function Decode(utf8: Bytes -> bool, bs: Bytes): Option<VerifyMeta>
  {
    if |bs| < 4 || bs[..4] != MAGIC then None
    else
      match ParseRow(utf8, META_KINDS, bs[4..])
      case None => None
      case Some(p) => if p.1 != [] then None else Some(MetaOf(p.0))
  }

  /** `decode`. */
  method DecodeBytes(utf8: Bytes -> bool, bytes: Bytes) returns (r: Option<VerifyMeta>)
    ensures r == Decode(utf8, bytes)
  {
    hide ParseRow, MetaOf;
    var cursor := new Cursor(bytes);
    var header := cursor.TakeExact(|MAGIC|);
    if header.None? || header.value != MAGIC {
      return None;
    }
    var items := cursor.TakeRow(utf8, META_KINDS);
    if items.None? || cursor.pos != |cursor.bytes| {
      return None;
    }
    r := Some(MetaOf(items.value));
  }

  lemma ItemsBack(m: VerifyMeta)
    ensures MetaOf(Items(m)) == m
  {
    assert NumsOf(Nums(m.traceColumnsPerComponent)) == m.traceColumnsPerComponent;
    assert NumsOf(Nums(m.interactionColumnsPerComponent)) == m.interactionColumnsPerComponent;
    assert FlagsOf(Flags(m.cumulativeSumColumns)) == m.cumulativeSumColumns;
    assert NumsOf(Nums(m.outputAddresses)) == m.outputAddresses;
    assert TextsOf(Texts(m.preprocessedColumnIds)) == m.preprocessedColumnIds;
    assert WordsOf(Nums(m.preprocessedRoot)) == m.preprocessedRoot;
    assert WordsOf(Nums(m.publicOutputValues)) == m.publicOutputValues;
  }

  /** Every number that was encoded fits 32 bits. */
  predicate Narrow(e: Elem)
  {
    e.Num? ==> e.n < U32_LIMIT
  }

  predicate NarrowItem(item: Item)
  {
    match item
    case One(e) => Narrow(e)
    case Many(es) => forall i :: 0 <= i < |es| ==> Narrow(es[i])
    case Maybe(o) => o.Some? ==> Narrow(o.value)
  }

  lemma {:induction false} EncodedElemsAreNarrow(utf8: Bytes -> bool, es: seq<Elem>)
    requires EncodeElems(utf8, es).Some?
    ensures forall i :: 0 <= i < |es| ==> Narrow(es[i])
    decreases |es|
  {
    if es == [] {
    } else {
      EncodedElemsAreNarrow(utf8, es[1..]);
      forall i | 0 <= i < |es|
        ensures Narrow(es[i])
      {
        if i > 0 {
          assert es[i] == es[1..][i - 1];
        }
      }
    }
  }

  lemma {:induction false} EncodedRowIsNarrow(utf8: Bytes -> bool, items: seq<Item>)
    requires EncodeRow(utf8, items).Some?
    ensures forall i :: 0 <= i < |items| ==> NarrowItem(items[i])
    decreases |items|
  {
    if items == [] {
    } else {
      EncodedRowIsNarrow(utf8, items[1..]);
      if items[0].Many? {
        EncodedElemsAreNarrow(utf8, items[0].es);
      }
      forall i | 0 <= i < |items|
        ensures NarrowItem(items[i])
      {
        if i > 0 {
          assert items[i] == items[1..][i - 1];
        }
      }
    }
  }

  lemma NumBack(item: Item)
    requires HasKind(OneOf(NumKind), item)
    ensures item == One(Num(NumOf(item)))
    ensures NarrowItem(item) ==> WordOf(NumOf(item)) == NumOf(item)
  {
  }

  lemma NumsBack(item: Item)
    requires HasKind(ManyOf(NumKind), item)
    ensures item == Nums(NumsOf(item))
    ensures NarrowItem(item) ==> item == Nums(WordsOf(item))
  {
    assert item.es == Nums(NumsOf(item)).es;
    if NarrowItem(item) {
      assert item.es == Nums(WordsOf(item)).es;
    }
  }

  lemma FlagsBack(item: Item)
    requires HasKind(ManyOf(FlagKind), item)
    ensures item == Flags(FlagsOf(item))
  {
    assert item.es == Flags(FlagsOf(item)).es;
  }

  lemma TextsBack(item: Item)
    requires HasKind(ManyOf(StrKind), item)
    ensures item == Texts(TextsOf(item))
  {
    assert item.es == Texts(TextsOf(item)).es;
  }

  lemma MetaBackPart1(items: seq<Item>)
    requires RowHasKinds(META_KINDS, items) && forall i :: 0 <= i < |items| ==> NarrowItem(items[i])
    ensures Items(MetaOf(items))[0..7] == items[0..7]
  {
    hide NarrowItem, Nums, NumsOf, WordsOf, Flags, FlagsOf, Texts, TextsOf, NumOf, WordOf, HasKind, MaybeWordOf;
    NumBack(items[0]);
    NumBack(items[1]);
    NumBack(items[2]);
    NumBack(items[3]);
    NumsBack(items[4]);
    NumsBack(items[5]);
    FlagsBack(items[6]);
  }

  lemma MetaBackPart2(items: seq<Item>)
    requires RowHasKinds(META_KINDS, items) && forall i :: 0 <= i < |items| ==> NarrowItem(items[i])
    ensures Items(MetaOf(items))[7..13] == items[7..13]
  {
    hide NarrowItem, Nums, NumsOf, WordsOf, Flags, FlagsOf, Texts, TextsOf, NumOf, WordOf, HasKind, MaybeWordOf;
    NumBack(items[7]);
    NumBack(items[8]);
    NumBack(items[9]);
    NumBack(items[10]);
    NumBack(items[11]);
    NumBack(items[12]);
  }

  lemma MetaBackPart3(items: seq<Item>)
    requires RowHasKinds(META_KINDS, items) && forall i :: 0 <= i < |items| ==> NarrowItem(items[i])
    ensures Items(MetaOf(items))[13..19] == items[13..19]
  {
    hide NarrowItem, Nums, NumsOf, WordsOf, Flags, FlagsOf, Texts, TextsOf, NumOf, WordOf, HasKind, MaybeWordOf;
    NumBack(items[13]);
    NumBack(items[14]);
    NumBack(items[15]);
    NumBack(items[16]);
    NumBack(items[17]);
    NumBack(items[18]);
  }

  lemma MetaBackPart4(items: seq<Item>)
    requires RowHasKinds(META_KINDS, items) && forall i :: 0 <= i < |items| ==> NarrowItem(items[i])
    ensures Items(MetaOf(items))[19..25] == items[19..25]
  {
    hide NarrowItem, Nums, NumsOf, WordsOf, Flags, FlagsOf, Texts, TextsOf, NumOf, WordOf, HasKind, MaybeWordOf;
    MaybeBack(items[19]);
    NumsBack(items[20]);
    NumBack(items[21]);
    TextsBack(items[22]);
    NumsBack(items[23]);
    NumsBack(items[24]);
  }

  lemma MetaBack(items: seq<Item>)
    requires RowHasKinds(META_KINDS, items) && forall i :: 0 <= i < |items| ==> NarrowItem(items[i])
    ensures Items(MetaOf(items)) == items
  {
    hide MetaOf, Items, HasKind, NarrowItem;
    var back := Items(MetaOf(items));
    MetaBackPart1(items);
    MetaBackPart2(items);
    MetaBackPart3(items);
    MetaBackPart4(items);
    assert back == back[0..7] + back[7..13] + back[13..19] + back[19..25];
    assert items == items[0..7] + items[7..13] + items[13..19] + items[19..25];
  }

  lemma MaybeBack(item: Item)
    requires HasKind(MaybeNum, item) && NarrowItem(item)
    ensures item == Maybe(if MaybeWordOf(item).Some? then Some(Num(MaybeWordOf(item).value)) else None)
  {
  }

  /** Decoding is a bijection between the accepted bytes and the metadata that
      can be encoded: bytes decode to `m` exactly when `m` encodes to them. */
  lemma MetaCodecIsExact(utf8: Bytes -> bool, bs: Bytes, m: VerifyMeta)
    ensures Decode(utf8, bs) == Some(m) <==> Encode(utf8, m) == Some(bs)
  {
    hide ParseRow, EncodeRow, MetaOf, Items;
    if Decode(utf8, bs) == Some(m) {
      var items := ParseRow(utf8, META_KINDS, bs[4..]).value.0;
      ParsedRowEncodes(utf8, META_KINDS, bs[4..]);
      EncodedRowIsNarrow(utf8, items);
      MetaBack(items);
      assert EncodeRow(utf8, items).value + [] == EncodeRow(utf8, items).value;
      assert bs == bs[..4] + bs[4..];
    }
    if Encode(utf8, m) == Some(bs) {
      var body := EncodeRow(utf8, Items(m)).value;
      EncodedRowParses(utf8, META_KINDS, Items(m), []);
      assert body + [] == body && bs[..4] == MAGIC && bs[4..] == body;
      ItemsBack(m);
    }
  }

  /** No accepted bytes extend other accepted bytes. */
  lemma MetaHasNoTrailingBytes(utf8: Bytes -> bool, bs: Bytes, more: Bytes)
    requires Decode(utf8, bs).Some? && Decode(utf8, bs + more).Some?
    ensures more == []
  {
    hide ParseRow, EncodeRow, MetaOf, Items;
    assert (bs + more)[4..] == bs[4..] + more;
    var items := ParseRow(utf8, META_KINDS, bs[4..]).value.0;
    ParsedRowEncodes(utf8, META_KINDS, bs[4..]);
    EncodedRowParses(utf8, META_KINDS, items, more);
    assert EncodeRow(utf8, items).value + [] == EncodeRow(utf8, items).value;
  }
}
