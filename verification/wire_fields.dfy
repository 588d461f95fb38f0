/** The few shapes of the Tezos data encoding that the kernel's wire format uses:
    fixed-width fields, fields behind a four-byte length, optional ones, structs
    of fields, and lists of structs. Parsing works on a prefix. */
module WireFields {
  import opened Bytes
  import opened Wrappers

  datatype FieldSpec = Sized(width: nat) | Limited(max: nat) | Optional(max: nat)

  datatype Field = Raw(bytes: Bytes) | Absent

  const PRESENT: byte := 255
  const MISSING: byte := 0

  function EncodeLimited(max: nat, bytes: Bytes): Option<Bytes>
  {
    if |bytes| > max || |bytes| >= U32_LIMIT then None else Some(BeBytes(|bytes|, 4) + bytes)
  }

  function ParseLimited(max: nat, bs: Bytes): (r: Option<(Bytes, Bytes)>)
    ensures r.Some? ==> |r.value.1| < |bs|
  {
    if |bs| < 4 then None
    else
      var n := FromBe(bs[..4]);
      if n > max || |bs| - 4 < n then None else Some((bs[4..4 + n], bs[4 + n..]))
  }

  lemma EncodedLimitedParses(max: nat, bytes: Bytes, rest: Bytes)
    requires EncodeLimited(max, bytes).Some?
    ensures ParseLimited(max, EncodeLimited(max, bytes).value + rest) == Some((bytes, rest))
  {
    var bs := EncodeLimited(max, bytes).value + rest;
    Pow256Values();
    BeRoundTrip(|bytes|, 4);
    hide BeBytes, FromBe, Pow256;
    assert bs[..4] == BeBytes(|bytes|, 4);
    assert bs[4..4 + |bytes|] == bytes && bs[4 + |bytes|..] == rest;
  }

  lemma ParsedLimitedEncodes(max: nat, bs: Bytes)
    requires ParseLimited(max, bs).Some?
    ensures var p := ParseLimited(max, bs).value;
            EncodeLimited(max, p.0).Some? && bs == EncodeLimited(max, p.0).value + p.1
  {
    Pow256Values();
    BeCanonical(bs[..4]);
    hide BeBytes, FromBe, Pow256;
    assert bs == bs[..4] + ParseLimited(max, bs).value.0 + ParseLimited(max, bs).value.1;
  }

  lemma LimitedIsExact(max: nat, bytes: Bytes, bs: Bytes, rest: Bytes)
    ensures ParseLimited(max, bs) == Some((bytes, rest)) <==>
            EncodeLimited(max, bytes).Some? && bs == EncodeLimited(max, bytes).value + rest
  {
    hide EncodeLimited, ParseLimited;
    if ParseLimited(max, bs).Some? {
      ParsedLimitedEncodes(max, bs);
    }
    if EncodeLimited(max, bytes).Some? {
      EncodedLimitedParses(max, bytes, rest);
    }
  }

  function EncodeField(spec: FieldSpec, f: Field): Option<Bytes>
  {
    match spec
    case Sized(width) => if f.Raw? && |f.bytes| == width then Some(f.bytes) else None
    case Limited(max) => if f.Raw? then EncodeLimited(max, f.bytes) else None
    case Optional(max) =>
      if f.Absent? then Some([MISSING])
      else
        match EncodeLimited(max, f.bytes)
        case None => None
        case Some(e) => Some([PRESENT] + e)
  }

  function ParseField(spec: FieldSpec, bs: Bytes): (r: Option<(Field, Bytes)>)
  {
    match spec
    case Sized(width) => if |bs| < width then None else Some((Raw(bs[..width]), bs[width..]))
    case Limited(max) =>
      (match ParseLimited(max, bs)
       case None => None
       case Some(p) => Some((Raw(p.0), p.1)))
    case Optional(max) =>
      if bs == [] then None
      else if bs[0] == MISSING then Some((Absent, bs[1..]))
      else if bs[0] != PRESENT then None
      else
        match ParseLimited(max, bs[1..])
        case None => None
        case Some(p) => Some((Raw(p.0), p.1))
  }

  lemma FieldIsExact(spec: FieldSpec, f: Field, bs: Bytes, rest: Bytes)
    ensures ParseField(spec, bs) == Some((f, rest)) <==>
            EncodeField(spec, f).Some? && bs == EncodeField(spec, f).value + rest
  {
    match spec {
      case Sized(width) =>
        if |bs| >= width {
          assert bs == bs[..width] + bs[width..];
        }
        if f.Raw? && |f.bytes| == width && bs == f.bytes + rest {
          assert bs[..width] == f.bytes && bs[width..] == rest;
        }
      case Limited(max) =>
        if f.Raw? {
          LimitedIsExact(max, f.bytes, bs, rest);
        }
      case Optional(max) => OptionalIsExact(max, f, bs, rest);
    }
  }

  lemma OptionalIsExact(max: nat, f: Field, bs: Bytes, rest: Bytes)
    ensures ParseField(Optional(max), bs) == Some((f, rest)) <==>
            EncodeField(Optional(max), f).Some? && bs == EncodeField(Optional(max), f).value + rest
  {
    hide EncodeLimited, ParseLimited;
    if bs != [] {
      assert bs == [bs[0]] + bs[1..];
    }
    match f {
      case Absent =>
        if bs == [MISSING] + rest {
          assert bs[1..] == rest;
        }
      case Raw(bytes) =>
        if EncodeLimited(max, bytes).Some? && bs == [PRESENT] + EncodeLimited(max, bytes).value + rest {
          assert bs[1..] == EncodeLimited(max, bytes).value + rest;
        }
        if bs != [] {
          LimitedIsExact(max, bytes, bs[1..], rest);
          if EncodeLimited(max, bytes).Some? && bs[0] == PRESENT && bs[1..] == EncodeLimited(max, bytes).value + rest {
            assert bs == [PRESENT] + EncodeLimited(max, bytes).value + rest;
          }
        }
    }
  }

  // ----- Structs

  function EncodeStruct(specs: seq<FieldSpec>, fields: seq<Field>): Option<Bytes>
  {
    if |specs| != |fields| then None
    else if specs == [] then Some([])
    else
      match (EncodeField(specs[0], fields[0]), EncodeStruct(specs[1..], fields[1..]))
      case (Some(first), Some(others)) => Some(first + others)
      case _ => None
  }

  function ParseStruct(specs: seq<FieldSpec>, bs: Bytes): (r: Option<(seq<Field>, Bytes)>)
    ensures r.Some? ==> |r.value.0| == |specs|
  {
    if specs == [] then Some(([], bs))
    else
      match ParseField(specs[0], bs)
      case None => None
      case Some(first) =>
        match ParseStruct(specs[1..], first.1)
        case None => None
        case Some(others) => Some(([first.0] + others.0, others.1))
  }

  lemma {:induction false} EncodedStructParses(specs: seq<FieldSpec>, fields: seq<Field>, rest: Bytes)
    requires EncodeStruct(specs, fields).Some?
    ensures ParseStruct(specs, EncodeStruct(specs, fields).value + rest) == Some((fields, rest))
    decreases |specs|
  {
    hide EncodeField, ParseField;
    if specs == [] {
      assert [] + rest == rest;
    } else {
      var first, others := EncodeField(specs[0], fields[0]).value, EncodeStruct(specs[1..], fields[1..]).value;
      EncodedStructParses(specs[1..], fields[1..], rest);
      assert first + others + rest == first + (others + rest);
      FieldIsExact(specs[0], fields[0], first + (others + rest), others + rest);
      assert [fields[0]] + fields[1..] == fields;
    }
  }

  lemma {:induction false} ParsedStructEncodes(specs: seq<FieldSpec>, bs: Bytes)
    requires ParseStruct(specs, bs).Some?
    ensures var p := ParseStruct(specs, bs).value;
            EncodeStruct(specs, p.0).Some? && bs == EncodeStruct(specs, p.0).value + p.1
    decreases |specs|
  {
    hide EncodeField, ParseField;
    if specs == [] {
      assert [] + bs == bs;
    } else {
      var first := ParseField(specs[0], bs).value;
      ParsedStructEncodes(specs[1..], first.1);
      FieldIsExact(specs[0], first.0, bs, first.1);
      var others := ParseStruct(specs[1..], first.1).value;
      assert ([first.0] + others.0)[1..] == others.0;
      var e, d := EncodeField(specs[0], first.0).value, EncodeStruct(specs[1..], others.0).value;
      assert e + (d + others.1) == e + d + others.1;
    }
  }

  /** Parsing a struct off the front and encoding it are inverse, exactly. */
  lemma StructIsExact(specs: seq<FieldSpec>, fields: seq<Field>, bs: Bytes, rest: Bytes)
    ensures ParseStruct(specs, bs) == Some((fields, rest)) <==>
            EncodeStruct(specs, fields).Some? && bs == EncodeStruct(specs, fields).value + rest
  {
    hide EncodeStruct, ParseStruct;
    if ParseStruct(specs, bs) == Some((fields, rest)) {
      ParsedStructEncodes(specs, bs);
    }
    if EncodeStruct(specs, fields).Some? && bs == EncodeStruct(specs, fields).value + rest {
      EncodedStructParses(specs, fields, rest);
    }
  }

  // ----- Lists of structs, until the input is used up

  function EncodeAll(specs: seq<FieldSpec>, items: seq<seq<Field>>): Option<Bytes>
  {
    if items == [] then Some([])
    else
      match (EncodeStruct(specs, items[0]), EncodeAll(specs, items[1..]))
      case (Some(first), Some(others)) => Some(first + others)
      case _ => None
  }

  /** An item that consumes nothing is an error, so this ends. */
  function ParseAll(specs: seq<FieldSpec>, bs: Bytes): Option<seq<seq<Field>>>
    decreases |bs|
  {
    if bs == [] then Some([])
    else
      match ParseStruct(specs, bs)
      case None => None
      case Some(first) =>
        if |first.1| >= |bs| then None
        else
          match ParseAll(specs, first.1)
          case None => None
          case Some(others) => Some([first.0] + others)
  }

  /** Every encoding of a struct that starts with a fixed-width field is nonempty. */
  lemma StartsNonempty(specs: seq<FieldSpec>, fields: seq<Field>)
    requires specs != [] && specs[0].Sized? && specs[0].width > 0 && EncodeStruct(specs, fields).Some?
    ensures |EncodeStruct(specs, fields).value| > 0
  {
  }

  lemma {:induction false} EncodedListParses(specs: seq<FieldSpec>, items: seq<seq<Field>>)
    requires specs != [] && specs[0].Sized? && specs[0].width > 0 && EncodeAll(specs, items).Some?
    ensures ParseAll(specs, EncodeAll(specs, items).value) == Some(items)
    decreases |items|
  {
    hide EncodeStruct, ParseStruct;
    if items == [] {
    } else {
      var first, others := EncodeStruct(specs, items[0]).value, EncodeAll(specs, items[1..]).value;
      StartsNonempty(specs, items[0]);
      StructIsExact(specs, items[0], first + others, others);
      EncodedListParses(specs, items[1..]);
      assert [items[0]] + items[1..] == items;
    }
  }

  lemma {:induction false} ParsedListEncodes(specs: seq<FieldSpec>, bs: Bytes)
    requires ParseAll(specs, bs).Some?
    ensures EncodeAll(specs, ParseAll(specs, bs).value) == Some(bs)
    decreases |bs|
  {
    hide EncodeStruct, ParseStruct;
    if bs == [] {
    } else {
      var first := ParseStruct(specs, bs).value;
      ParsedListEncodes(specs, first.1);
      StructIsExact(specs, first.0, bs, first.1);
      var others := ParseAll(specs, first.1).value;
      assert ([first.0] + others)[1..] == others;
    }
  }

  lemma ListIsExact(specs: seq<FieldSpec>, items: seq<seq<Field>>, bs: Bytes)
    requires specs != [] && specs[0].Sized? && specs[0].width > 0
    ensures ParseAll(specs, bs) == Some(items) <==> EncodeAll(specs, items) == Some(bs)
  {
    hide EncodeAll, ParseAll;
    if ParseAll(specs, bs) == Some(items) {
      ParsedListEncodes(specs, bs);
    }
    if EncodeAll(specs, items) == Some(bs) {
      EncodedListParses(specs, items);
    }
  }
}
