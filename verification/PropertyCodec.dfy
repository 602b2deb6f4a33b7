/**
 Property values between JSON and the service's messages (grm-mcp/src/service.rs), with the typed
 objects of src/runtime/value.rs. Trimming and the canonical forms of decimals, dates, times,
 durations and uuids are parameters; bytes are done in full.
 */
module PropertyCodec {
  import opened Prelude
  import opened Orders
  import opened Utf8
  import B = Base64

  const I64_MAX := 0x7fff_ffff_ffff_ffff
  const I64_MIN := -0x8000_0000_0000_0000
  const U64_MAX := 0xffff_ffff_ffff_ffff

  /** A double: finite, known by its bits, or not finite. */
  datatype Double = Finite(bits: nat) | NotFinite

  type U64 = n: int | 0 <= n <= U64_MAX
  type I64 = n: int | I64_MIN <= n <= I64_MAX
  type Negative = n: int | I64_MIN <= n < 0 witness -1

  /** A JSON number: serde_json keeps non-negative integers, negative ones and finite doubles apart. */
  datatype Number = PosInt(u: U64) | NegInt(n: Negative) | Float(bits: nat)

  datatype Json =
    | Null
    | Bool(b: bool)
    | Num(number: Number)
    | Str(s: string)
    | Array(items: seq<Json>)
    | Object(fields: map<string, Json>)

  datatype Tag = Decimal | Date | DateTime | Duration | Uuid

  datatype PropertyKind =
    | StringValue(s: string)
    | IntValue(i: I64)
    | FloatValue(f: Double)
    | BoolValue(b: bool)
    | BytesValue(bytes: seq<Byte>)
    | TextValue(tag: Tag, text: string)

  datatype PropertyValue = PropertyValue(kind: Option<PropertyKind>)

  datatype Property = Property(name: string, value: Option<PropertyValue>)

  datatype Error = Missing(field: string) | Constraint(message: string)

  /** Canonical(tag, text) is the canonical form of a typed text, if it has one. */
  datatype Host = Host(Trim: string -> string, Canonical: (Tag, string) -> Option<string>)

  predicate Base64Text(s: string)
  {
    forall i :: 0 <= i < |s| ==> B.ValueOf(s[i]).Some? || s[i] == '='
  }

  /** Base64 text has no space around it. */
  ghost predicate HostLaws(host: Host)
  {
    forall s: string :: Base64Text(s) ==> host.Trim(s) == s
  }

  const TYPE_FIELD := "$grm_type"
  const VALUE_FIELD := "value"

  function Keyword(tag: Tag): string
  {
    match tag
    case Decimal => "decimal"
    case Date => "date"
    case DateTime => "datetime"
    case Duration => "duration"
    case Uuid => "uuid"
  }

  function TagOf(keyword: string): (r: Option<Tag>)
    ensures forall tag :: r == Some(tag) <==> keyword == Keyword(tag)
  {
    if keyword == "decimal" then Some(Decimal)
    else if keyword == "date" then Some(Date)
    else if keyword == "datetime" then Some(DateTime)
    else if keyword == "duration" then Some(Duration)
    else if keyword == "uuid" then Some(Uuid)
    else None
  }

  /** The kind and payload of a typed object: two text fields and nothing else. */
  function TypedParts(v: Json): Option<(string, string)>
  {
    if v.Object? && TYPE_FIELD in v.fields && v.fields[TYPE_FIELD].Str?
       && VALUE_FIELD in v.fields && v.fields[VALUE_FIELD].Str? && |v.fields| == 2
    then Some((v.fields[TYPE_FIELD].s, v.fields[VALUE_FIELD].s))
    else None
  }

  function Tagged(keyword: string, raw: string): Json
  {
    Object(map[TYPE_FIELD := Str(keyword), VALUE_FIELD := Str(raw)])
  }

  /** A typed object is determined by its parts. */
  lemma TypedExactly(v: Json, keyword: string, raw: string)
    ensures TypedParts(v) == Some((keyword, raw)) <==> v == Tagged(keyword, raw)
  {
    assert TYPE_FIELD != VALUE_FIELD by {
      assert TYPE_FIELD[0] != VALUE_FIELD[0];
    }
    var t := Tagged(keyword, raw);
    assert t.fields.Keys == {TYPE_FIELD, VALUE_FIELD};
    assert |t.fields| == |t.fields.Keys| == 2;
    if TypedParts(v) == Some((keyword, raw)) {
      TwoKeys(v.fields, TYPE_FIELD, VALUE_FIELD);
      assert v.fields == t.fields;
    }
  }

  lemma TwoKeys(m: map<string, Json>, a: string, b: string)
    requires a in m && b in m && a != b && |m| == 2
    ensures m.Keys == {a, b}
  {
    var rest := m.Keys - {a, b};
    assert |m.Keys| == |rest| + |{a, b}| by {
      assert m.Keys == rest + {a, b};
    }
    assert |{a, b}| == 2;
  }

  // ------------------------------------------------------------------- encoding

  /** property_value: a JSON value to a message. */
  function Encode(v: Json): Result<PropertyValue, Error>
  {
    match v
    case Str(s) => Success(PropertyValue(Some(StringValue(s))))
    case Bool(b) => Success(PropertyValue(Some(BoolValue(b))))
    case Num(PosInt(u)) =>
      if u <= I64_MAX then Success(PropertyValue(Some(IntValue(u))))
      else Failure(Constraint("integer property value is too large for int64"))
    case Num(NegInt(n)) => Success(PropertyValue(Some(IntValue(n))))
    case Num(Float(bits)) => Success(PropertyValue(Some(FloatValue(Finite(bits)))))
    case Null => Failure(Constraint("null is not a supported graph value"))
    case Array(_) => Failure(Constraint("graph values must be primitive"))
    case Object(_) =>
      var parts := TypedParts(v);
      if parts.None? then Failure(Constraint("graph values must be primitive"))
      else if parts.value.0 == "bytes" then
        var bytes := B.DecodeBytes(parts.value.1);
        if bytes.None? then Failure(Constraint("invalid typed bytes property value"))
        else Success(PropertyValue(Some(BytesValue(bytes.value))))
      else
        var tag := TagOf(parts.value.0);
        if tag.None? then Failure(Constraint("graph values must be primitive"))
        else Success(PropertyValue(Some(TextValue(tag.value, parts.value.1))))
  }

  // ------------------------------------------------------------------- decoding

  /** What the json! macro makes of a signed integer. */
  function JsonInt(i: I64): Json
  {
    if i >= 0 then Num(PosInt(i)) else Num(NegInt(i))
  }

  function CanonicalBytes(host: Host, input: string): Result<Json, Error>
  {
    var trimmed := host.Trim(input);
    var bytes := B.DecodeBytes(trimmed);
    if bytes.None? || B.EncodeBytes(bytes.value) != trimmed then Failure(Constraint("expected canonical base64 bytes value"))
    else Success(Tagged("bytes", trimmed))
  }

  /** property_value_to_json. */
  function Decode(host: Host, p: PropertyValue): Result<Json, Error>
  {
    if p.kind.None? then Failure(Missing("property.kind"))
    else
      match p.kind.value
      case StringValue(s) => Success(Str(s))
      case IntValue(i) => Success(JsonInt(i))
      case FloatValue(Finite(bits)) => Success(Num(Float(bits)))
      case FloatValue(NotFinite) => Success(Null)
      case BoolValue(b) => Success(Bool(b))
      case BytesValue(bytes) => CanonicalBytes(host, B.EncodeBytes(bytes))
      case TextValue(tag, text) =>
        var canonical := host.Canonical(tag, text);
        if canonical.None? then Failure(Constraint("expected canonical " + Keyword(tag) + " value"))
        else Success(Tagged(Keyword(tag), canonical.value))
  }

  // ----------------------------------------------------------------- one value

  /** The values the service accepts. */
  ghost predicate Accepted(v: Json)
  {
    || v.Str? || v.Bool?
    || (v.Num? && (v.number.PosInt? ==> v.number.u <= I64_MAX))
    || (exists bytes :: v == Tagged("bytes", B.EncodeBytes(bytes)))
    || (exists tag, raw :: v == Tagged(Keyword(tag), raw))
  }

  /** The typed texts in it, if any, are canonical. */
  ghost predicate CanonicalText(host: Host, v: Json)
  {
    forall tag, raw :: v == Tagged(Keyword(tag), raw) ==> host.Canonical(tag, raw) == Some(raw)
  }

  lemma KeywordsApart(tag: Tag)
    ensures Keyword(tag) != "bytes" && TagOf(Keyword(tag)) == Some(tag)
  {
  }

  /** Exactly these values are accepted; integers above the signed range are rejected, not rounded. */
  lemma AcceptedExactly(v: Json)
    ensures Encode(v).Success? <==> Accepted(v)
  {
    hide B.EncodeBytes, B.DecodeBytes, Tagged, TypedParts, Keyword;
    forall keyword: string, raw: string
      ensures TypedParts(v) == Some((keyword, raw)) <==> v == Tagged(keyword, raw)
    {
      TypedExactly(v, keyword, raw);
    }
    forall tag: Tag
      ensures Keyword(tag) != "bytes" && TagOf(Keyword(tag)) == Some(tag)
    {
      KeywordsApart(tag);
    }
    if v.Object? {
      var parts := TypedParts(v);
      if bytes :| v == Tagged("bytes", B.EncodeBytes(bytes)) {
        B.DecodesExactly(B.EncodeBytes(bytes), bytes);
      }
      if parts.Some? && parts.value.0 == "bytes" && B.DecodeBytes(parts.value.1).Some? {
        B.EncodeDecoded(parts.value.1);
        assert v == Tagged("bytes", B.EncodeBytes(B.DecodeBytes(parts.value.1).value));
      }
    } else {
      NotTagged(v);
    }
  }

  lemma NotTagged(v: Json)
    requires !v.Object?
    ensures forall keyword, raw :: v != Tagged(keyword, raw)
  {
  }

  lemma {:induction false} EncodedIsBase64Text(b: seq<Byte>)
    ensures Base64Text(B.EncodeBytes(b))
  {
    if |b| >= 3 {
      EncodedIsBase64Text(b[3..]);
    }
    forall n: B.Sextet
      ensures B.ValueOf(B.CharOf(n)).Some?
    {
      B.AlphabetExact(n, ' ');
    }
    hide B.CharOf, B.ValueOf, B.First, B.Second, B.Third, B.Fourth;
  }

  /** Bytes come back as the typed object of their one encoding. */
  lemma BytesDecode(host: Host, bytes: seq<Byte>)
    requires HostLaws(host)
    ensures CanonicalBytes(host, B.EncodeBytes(bytes)) == Success(Tagged("bytes", B.EncodeBytes(bytes)))
  {
    EncodedIsBase64Text(bytes);
    B.DecodeEncoded(bytes);
  }

  lemma TaggedEncodes(tag: Tag, raw: string)
    ensures Encode(Tagged(Keyword(tag), raw)) == Success(PropertyValue(Some(TextValue(tag, raw))))
  {
    TypedExactly(Tagged(Keyword(tag), raw), Keyword(tag), raw);
    KeywordsApart(tag);
  }

  lemma BytesEncode(bytes: seq<Byte>)
    ensures Encode(Tagged("bytes", B.EncodeBytes(bytes))) == Success(PropertyValue(Some(BytesValue(bytes))))
  {
    TypedExactly(Tagged("bytes", B.EncodeBytes(bytes)), "bytes", B.EncodeBytes(bytes));
    B.DecodeEncoded(bytes);
  }

  lemma TaggedInjective(a: string, r: string, b: string, q: string)
    requires Tagged(a, r) == Tagged(b, q)
    ensures a == b && r == q
  {
    TypedExactly(Tagged(a, r), a, r);
    TypedExactly(Tagged(a, r), b, q);
  }

  /** Every accepted value comes back unchanged exactly when its typed text, if any, is canonical. */
  lemma ValueRoundTrip(host: Host, v: Json)
    requires HostLaws(host) && Accepted(v)
    ensures Encode(v).Success?
    ensures Decode(host, Encode(v).value) == Success(v) <==> CanonicalText(host, v)
  {
    AcceptedExactly(v);
    hide B.EncodeBytes, B.DecodeBytes, CanonicalBytes;
    if bytes :| v == Tagged("bytes", B.EncodeBytes(bytes)) {
      BytesEncode(bytes);
      BytesDecode(host, bytes);
      forall tag, raw
        ensures v != Tagged(Keyword(tag), raw)
      {
        KeywordsApart(tag);
        if v == Tagged(Keyword(tag), raw) {
          TaggedInjective(Keyword(tag), raw, "bytes", B.EncodeBytes(bytes));
        }
      }
    } else if tag, raw :| v == Tagged(Keyword(tag), raw) {
      TaggedEncodes(tag, raw);
      TextRoundTrip(host, tag, raw);
    } else {
      hide Keyword, Tagged;
    }
  }

  lemma TextRoundTrip(host: Host, tag: Tag, raw: string)
    ensures var v := Tagged(Keyword(tag), raw);
            Decode(host, PropertyValue(Some(TextValue(tag, raw)))) == Success(v) <==> CanonicalText(host, v)
  {
    var v := Tagged(Keyword(tag), raw);
    forall t, r | v == Tagged(Keyword(t), r)
      ensures t == tag && r == raw
    {
      TaggedInjective(Keyword(tag), raw, Keyword(t), r);
      KeywordsApart(tag);
      KeywordsApart(t);
    }
    if c :| host.Canonical(tag, raw) == Some(c) && Tagged(Keyword(tag), c) == v {
      TaggedInjective(Keyword(tag), c, Keyword(tag), raw);
    }
    hide Tagged, Keyword;
  }

  /** A message that decodes encodes back to itself exactly when it holds no odd double and only canonical text. */
  lemma MessageRoundTrip(host: Host, p: PropertyValue)
    requires HostLaws(host) && Decode(host, p).Success?
    ensures Encode(Decode(host, p).value) == Success(p)
            <==> p.kind.value != FloatValue(NotFinite)
                 && (p.kind.value.TextValue? ==> host.Canonical(p.kind.value.tag, p.kind.value.text) == Some(p.kind.value.text))
  {
    match p.kind.value
    case BytesValue(bytes) =>
      BytesDecode(host, bytes);
      BytesEncode(bytes);
    case TextValue(tag, text) =>
      TaggedEncodes(tag, host.Canonical(tag, text).value);
    case StringValue(_) =>
    case IntValue(_) =>
    case FloatValue(_) =>
    case BoolValue(_) =>
  }

  /** Which typed object is which message. */
  lemma TypedObjects(raw: string)
    ensures Encode(Object(map["$grm_type" := Str("decimal"), "value" := Str(raw)])) == Success(PropertyValue(Some(TextValue(Decimal, raw))))
    ensures Encode(Object(map["$grm_type" := Str("date"), "value" := Str(raw)])) == Success(PropertyValue(Some(TextValue(Date, raw))))
    ensures Encode(Object(map["$grm_type" := Str("datetime"), "value" := Str(raw)])) == Success(PropertyValue(Some(TextValue(DateTime, raw))))
    ensures Encode(Object(map["$grm_type" := Str("duration"), "value" := Str(raw)])) == Success(PropertyValue(Some(TextValue(Duration, raw))))
    ensures Encode(Object(map["$grm_type" := Str("uuid"), "value" := Str(raw)])) == Success(PropertyValue(Some(TextValue(Uuid, raw))))
  {
    TaggedEncodes(Decimal, raw);
    TaggedEncodes(Date, raw);
    TaggedEncodes(DateTime, raw);
    TaggedEncodes(Duration, raw);
    TaggedEncodes(Uuid, raw);
  }

  /** What is refused is refused for what it is. */
  lemma RefusedExactly(v: Json)
    requires !Accepted(v)
    ensures Encode(v) == Failure(Constraint(
                           if v.Null? then "null is not a supported graph value"
                           else if v.Num? then "integer property value is too large for int64"
                           else if exists raw :: v == Tagged("bytes", raw) then "invalid typed bytes property value"
                           else "graph values must be primitive"))
  {
    AcceptedExactly(v);
    hide B.EncodeBytes, B.DecodeBytes, Tagged, Keyword;
    if v.Object? {
      var parts := TypedParts(v);
      if parts.Some? {
        TypedExactly(v, parts.value.0, parts.value.1);
      }
      if raw :| v == Tagged("bytes", raw) {
        TypedExactly(v, "bytes", raw);
      }
    } else {
      NotTagged(v);
    }
  }

  /**
   A message decodes exactly if it has a kind and its typed text, if any, has a canonical form, which
   it decodes to; only a double that is not finite becomes null.
   */
  lemma DecodedExactly(host: Host, p: PropertyValue)
    requires HostLaws(host)
    ensures Decode(host, p).Success? <==> p.kind.Some? && (p.kind.value.TextValue? ==> host.Canonical(p.kind.value.tag, p.kind.value.text).Some?)
    ensures Decode(host, p).Success? ==>
              var v := Decode(host, p).value;
              && (v.Null? <==> p.kind.value == FloatValue(NotFinite))
              && (p.kind.value.TextValue? ==> v == Tagged(Keyword(p.kind.value.tag), host.Canonical(p.kind.value.tag, p.kind.value.text).value))
              && (p.kind.value.IntValue? ==> v == Num(if p.kind.value.i >= 0 then PosInt(p.kind.value.i) else NegInt(p.kind.value.i)))
              && (p.kind.value.BytesValue? ==> v == Tagged("bytes", B.EncodeBytes(p.kind.value.bytes)))
  {
    if p.kind.Some? && p.kind.value.BytesValue? {
      BytesDecode(host, p.kind.value.bytes);
    }
    hide B.EncodeBytes, B.DecodeBytes, Keyword;
  }

  // ------------------------------------------------------------------ whole maps

  /** The properties in the order of their names, up to the first value that is rejected. */
  function EncodeAll(values: map<string, Json>, names: seq<string>): Result<seq<Property>, Error>
    requires forall n :: n in names ==> n in values
  {
    if names == [] then Success([])
    else
      var first := Encode(values[names[0]]);
      if first.Failure? then Failure(first.error)
      else
        var rest := EncodeAll(values, names[1..]);
        if rest.Failure? then rest else Success([Property(names[0], Some(first.value))] + rest.value)
  }

  /** property_map; the source's map is sorted by name. */
  function EncodeMap(less: Order, values: map<string, Json>): Result<seq<Property>, Error>
    requires StrictTotal(less)
  {
    EncodeAll(values, Sorted(less, values.Keys))
  }

  /** The object built from a list of properties: later ones win, and the first failure stops. */
  function DecodeAll(host: Host, ps: seq<Property>): Result<map<string, Json>, Error>
  {
    if ps == [] then Success(map[])
    else
      var before := DecodeAll(host, ps[..|ps| - 1]);
      if before.Failure? then before
      else Inserted(host, before.value, ps[|ps| - 1])
  }

  function Inserted(host: Host, fields: map<string, Json>, p: Property): Result<map<string, Json>, Error>
  {
    if p.value.None? then Failure(Missing("property.value"))
    else
      var v := Decode(host, p.value.value);
      if v.Failure? then Failure(v.error) else Success(fields[p.name := v.value])
  }

  /** property_map_value. */
  method DecodeMap(host: Host, ps: Option<seq<Property>>) returns (r: Result<Json, Error>)
    ensures match ps
            case None => r == Success(Object(map[]))
            case Some(list) =>
              r == (match DecodeAll(host, list) case Success(fields) => Success(Object(fields)) case Failure(e) => Failure(e))
  {
    var fields: map<string, Json> := map[];
    if ps.Some? {
      var list := ps.value;
      for i := 0 to |list|
        invariant DecodeAll(host, list[..i]) == Success(fields)
      {
        assert list[..i + 1][..i] == list[..i];
        var p := list[i];
        var next := Inserted(host, fields, p);
        if next.Failure? {
          FailureStays(host, list, i + 1);
          return Failure(next.error);
        }
        fields := next.value;
      }
      assert list[..|list|] == list;
    }
    r := Success(Object(fields));
  }

  lemma {:induction false} FailureStays(host: Host, list: seq<Property>, i: nat)
    requires i <= |list| && DecodeAll(host, list[..i]).Failure?
    ensures DecodeAll(host, list) == DecodeAll(host, list[..i])
    decreases |list| - i
  {
    hide Inserted;
    if i < |list| {
      assert list[..i + 1][..i] == list[..i];
      FailureStays(host, list, i + 1);
    } else {
      assert list[..i] == list;
    }
  }

  ghost predicate AllAccepted(values: map<string, Json>)
  {
    forall n :: n in values ==> Accepted(values[n])
  }

  /** A property list spells these names with the encodings of their values. */
  ghost predicate Spells(ps: seq<Property>, values: map<string, Json>, names: seq<string>)
  {
    && |ps| == |names|
    && forall i :: 0 <= i < |ps| ==>
         names[i] in values && ps[i].name == names[i] && ps[i].value.Some? && Encode(values[names[i]]) == Success(ps[i].value.value)
  }

  lemma {:induction false} EncodeAllExact(values: map<string, Json>, names: seq<string>)
    requires forall n :: n in names ==> n in values
    ensures EncodeAll(values, names).Success? <==> forall n :: n in names ==> Accepted(values[n])
    ensures EncodeAll(values, names).Success? ==> Spells(EncodeAll(values, names).value, values, names)
  {
    hide Encode, Accepted;
    if names != [] {
      AcceptedExactly(values[names[0]]);
      EncodeAllExact(values, names[1..]);
      assert names == [names[0]] + names[1..];
    }
  }

  /** A map is accepted exactly when all its values are. */
  lemma MapAcceptedExactly(less: Order, values: map<string, Json>)
    requires StrictTotal(less)
    ensures EncodeMap(less, values).Success? <==> AllAccepted(values)
  {
    hide Accepted, StrictTotal, Sorted;
    EncodeAllExact(values, Sorted(less, values.Keys));
  }

  /** Decoding what spells distinct names gives the named values back, if each round-trips. */
  lemma {:induction false} DecodeSpelled(host: Host, ps: seq<Property>, values: map<string, Json>, names: seq<string>)
    requires HostLaws(host) && Spells(ps, values, names)
    requires forall n :: n in names ==> Accepted(values[n]) && CanonicalText(host, values[n])
    ensures DecodeAll(host, ps) == Success(map n | n in names :: values[n])
  {
    hide Encode, Accepted, CanonicalText, HostLaws, Decode;
    if ps != [] {
      var k := |ps| - 1;
      DecodeSpelled(host, ps[..k], values, names[..k]);
      assert names == names[..k] + [names[k]];
      ValueRoundTrip(host, values[names[k]]);
      var m := map n | n in names[..k] :: values[n];
      assert m[names[k] := values[names[k]]] == map n | n in names :: values[n];
    }
  }

  /** What decoding a list of distinct names stored under each name. */
  lemma {:induction false} DecodedUnder(host: Host, ps: seq<Property>, names: seq<string>)
    requires |ps| == |names| && NoDup(names) && DecodeAll(host, ps).Success?
    requires forall i :: 0 <= i < |ps| ==> ps[i].name == names[i] && ps[i].value.Some?
    ensures forall i :: 0 <= i < |ps| ==>
              names[i] in DecodeAll(host, ps).value
              && Decode(host, ps[i].value.value) == Success(DecodeAll(host, ps).value[names[i]])
  {
    hide Decode;
    if ps != [] {
      DecodedUnder(host, ps[..|ps| - 1], names[..|ps| - 1]);
    }
  }

  lemma UnchangedIsCanonical(host: Host, ps: seq<Property>, values: map<string, Json>, names: seq<string>, n: string)
    requires HostLaws(host) && Spells(ps, values, names) && NoDup(names)
    requires DecodeAll(host, ps) == Success(values)
    requires n in names && Accepted(values[n])
    ensures CanonicalText(host, values[n])
  {
    hide Accepted, CanonicalText, HostLaws, DecodeAll, Encode, Decode, NoDup;
    DecodedUnder(host, ps, names);
    var i :| 0 <= i < |names| && names[i] == n;
    ValueRoundTrip(host, values[n]);
  }

  /** A whole accepted map comes back unchanged exactly when its typed texts are canonical. */
  lemma MapRoundTrip(host: Host, less: Order, values: map<string, Json>)
    requires HostLaws(host) && StrictTotal(less) && AllAccepted(values)
    ensures EncodeMap(less, values).Success?
    ensures DecodeAll(host, EncodeMap(less, values).value) == Success(values)
            <==> forall n :: n in values ==> CanonicalText(host, values[n])
  {
    hide Accepted, CanonicalText, HostLaws, StrictTotal, Sorted, EncodeAll, DecodeAll, Encode, Decode, Spells, NoDup, Ascending;
    var names := Sorted(less, values.Keys);
    AscendingNoDup(less, names);
    EncodeAllExact(values, names);
    var ps := EncodeMap(less, values).value;
    if forall n :: n in values ==> CanonicalText(host, values[n]) {
      DecodeSpelled(host, ps, values, names);
      assert (map n | n in names :: values[n]) == values;
    }
    if DecodeAll(host, ps) == Success(values) {
      forall n | n in values
        ensures CanonicalText(host, values[n])
      {
        UnchangedIsCanonical(host, ps, values, names, n);
      }
    }
  }

  /** Property i is the first of the list that has no value or one that does not decode, and this is its error. */
  ghost predicate BadAt(host: Host, ps: seq<Property>, i: nat, error: Error)
  {
    && i < |ps| && (forall j :: 0 <= j < i ==> Decodes(host, ps[j])) && !Decodes(host, ps[i])
    && error == if ps[i].value.None? then Missing("property.value") else Decode(host, ps[i].value.value).error
  }

  predicate Decodes(host: Host, p: Property)
  {
    p.value.Some? && Decode(host, p.value.value).Success?
  }

  /** The last property of this name decodes to `v`. */
  ghost predicate LastIs(host: Host, ps: seq<Property>, name: string, v: Json)
  {
    exists i: nat :: LastNamed(ps, name, i) && ps[i].value.Some? && Decode(host, ps[i].value.value) == Success(v)
  }

  predicate LastNamed(ps: seq<Property>, name: string, i: nat)
  {
    i < |ps| && ps[i].name == name && forall j :: i < j < |ps| ==> ps[j].name != name
  }

  lemma LastIsLast(host: Host, ps: seq<Property>, name: string, v: Json)
    requires ps != [] && Decodes(host, ps[|ps| - 1])
    ensures var n := |ps| - 1;
            LastIs(host, ps, name, v)
            <==> if ps[n].name == name then Decode(host, ps[n].value.value) == Success(v) else LastIs(host, ps[..n], name, v)
  {
    hide Decode;
    var n := |ps| - 1;
    assert LastNamed(ps, name, n) <==> ps[n].name == name;
    forall i: nat | i < n
      ensures LastNamed(ps, name, i) <==> ps[n].name != name && LastNamed(ps[..n], name, i)
    {
      assert forall j :: 0 <= j < n ==> ps[..n][j] == ps[j];
      assert ps[n].name != name && LastNamed(ps[..n], name, i) ==> forall j :: i < j < n ==> ps[j].name == ps[..n][j].name;
    }
    if i: nat :| LastNamed(ps[..n], name, i) && ps[..n][i].value.Some? && Decode(host, ps[..n][i].value.value) == Success(v) {
      assert ps[n].name != name ==> LastNamed(ps, name, i);
    }
    if i: nat :| LastNamed(ps, name, i) && ps[i].value.Some? && Decode(host, ps[i].value.value) == Success(v) {
      assert i < n ==> LastNamed(ps[..n], name, i);
    }
  }

  /** The object holds each name listed, and no other, with what its last property decodes to; the first bad property is reported. */
  lemma {:induction false} DecodeAllExactly(host: Host, ps: seq<Property>)
    ensures DecodeAll(host, ps).Success? <==> forall i :: 0 <= i < |ps| ==> Decodes(host, ps[i])
    ensures DecodeAll(host, ps).Success? ==>
              forall name, v :: (name in DecodeAll(host, ps).value && DecodeAll(host, ps).value[name] == v) <==> LastIs(host, ps, name, v)
    ensures DecodeAll(host, ps).Failure? ==> exists i :: BadAt(host, ps, i, DecodeAll(host, ps).error)
  {
    hide Decode, LastIs;
    if ps == [] {
      NoneIsLast(host);
    } else {
      var n := |ps| - 1;
      DecodeAllExactly(host, ps[..n]);
      assert forall i :: 0 <= i < n ==> ps[..n][i] == ps[i];
      if DecodeAll(host, ps[..n]).Failure? {
        var i :| BadAt(host, ps[..n], i, DecodeAll(host, ps[..n]).error);
        assert BadAt(host, ps, i, DecodeAll(host, ps).error);
      } else if Decodes(host, ps[n]) {
        forall name, v
          ensures (name in DecodeAll(host, ps).value && DecodeAll(host, ps).value[name] == v) <==> LastIs(host, ps, name, v)
        {
          LastIsLast(host, ps, name, v);
        }
      } else {
        assert BadAt(host, ps, n, DecodeAll(host, ps).error);
      }
    }
  }

  lemma NoneIsLast(host: Host)
    ensures forall name, v :: !LastIs(host, [], name, v)
  {
  }

  /** The value of this name is the first in the order of the names that is refused, and this is the result. */
  ghost predicate RefusedFirst(less: Order, values: map<string, Json>, name: string, r: Result<seq<Property>, Error>)
  {
    && name in values && Encode(values[name]).Failure? && r == Failure(Encode(values[name]).error)
    && forall m :: m in values && less(m, name) ==> Accepted(values[m])
  }

  /** One property for each name, in the order of the names, with its value's encoding. */
  ghost predicate EncodesInOrder(less: Order, values: map<string, Json>, ps: seq<Property>)
  {
    && |ps| == |values|
    && (forall i, j :: 0 <= i < j < |ps| ==> less(ps[i].name, ps[j].name))
    && forall i :: 0 <= i < |ps| ==>
         ps[i].name in values && ps[i].value.Some? && Encode(values[ps[i].name]) == Success(ps[i].value.value)
  }

  /** What a map becomes: its properties in order, or the first refusal. */
  lemma EncodeMapExactly(less: Order, values: map<string, Json>)
    requires StrictTotal(less)
    ensures AllAccepted(values) ==> EncodeMap(less, values).Success? && EncodesInOrder(less, values, EncodeMap(less, values).value)
    ensures !AllAccepted(values) ==> exists name :: RefusedFirst(less, values, name, EncodeMap(less, values))
  {
    var names := Sorted(less, values.Keys);
    hide Encode, Accepted, Sorted, EncodeAll, RefusedFirst, Spells, EncodesInOrder, StrictTotal;
    var r := EncodeAll(values, names);
    assert EncodeMap(less, values) == r;
    EncodeAllExact(values, names);
    AscendingNoDup(less, names);
    hide Ascending, NoDup, EncodeMap;
    NamesCounted(names, values.Keys);
    assert |values.Keys| == |values|;
    if AllAccepted(values) {
      SpelledInOrder(less, values, names, r.value);
    } else {
      var n :| n in values && !Accepted(values[n]);
      assert n in names;
      var i := FirstRefused(values, names);
      FirstInOrder(less, values, names, i, r);
    }
  }

  lemma SpelledInOrder(less: Order, values: map<string, Json>, names: seq<string>, ps: seq<Property>)
    requires Spells(ps, values, names) && Ascending(less, names) && |names| == |values|
    ensures EncodesInOrder(less, values, ps)
  {
    hide Encode;
  }

  ghost predicate RefusedAt(values: map<string, Json>, names: seq<string>, i: nat, r: Result<seq<Property>, Error>)
    requires forall n :: n in names ==> n in values
  {
    && i < |names| && Encode(values[names[i]]).Failure? && r == Failure(Encode(values[names[i]]).error)
    && forall j :: 0 <= j < i ==> Accepted(values[names[j]])
  }

  lemma FirstInOrder(less: Order, values: map<string, Json>, names: seq<string>, i: nat, r: Result<seq<Property>, Error>)
    requires StrictTotal(less) && Ascending(less, names) && forall n :: n in names <==> n in values
    requires RefusedAt(values, names, i, r)
    ensures RefusedFirst(less, values, names[i], r)
  {
    hide Encode, Accepted;
    forall m | m in values && less(m, names[i])
      ensures Accepted(values[m])
    {
      assert m in names;
      var j :| 0 <= j < |names| && names[j] == m;
      NotLater(less, names, i, j);
    }
  }

  lemma NotLater(less: Order, names: seq<string>, i: nat, j: nat)
    requires StrictTotal(less) && Ascending(less, names) && i < |names| && j < |names| && less(names[j], names[i])
    ensures j < i
  {
    var a, b := names[i], names[j];
    assert i < j ==> less(a, b);
    assert less(a, b) && less(b, a) ==> less(a, a);
  }

  lemma {:induction false} NamesCounted(names: seq<string>, keys: set<string>)
    requires NoDup(names) && forall n :: n in names <==> n in keys
    ensures |names| == |keys|
  {
    if names != [] {
      var init, last := names[..|names| - 1], names[|names| - 1];
      assert names == init + [last];
      NamesCounted(init, keys - {last});
    }
  }

  lemma {:induction false} FirstRefused(values: map<string, Json>, names: seq<string>) returns (i: nat)
    requires (forall n :: n in names ==> n in values) && exists n :: n in names && !Accepted(values[n])
    ensures RefusedAt(values, names, i, EncodeAll(values, names))
  {
    hide Encode, Accepted;
    AcceptedExactly(values[names[0]]);
    var rest := names[1..];
    assert names == [names[0]] + rest;
    if Accepted(values[names[0]]) {
      var k := FirstRefused(values, rest);
      i := k + 1;
      assert names[i] == rest[k];
      assert forall j :: 0 < j < i ==> names[j] == rest[j - 1];
    } else {
      i := 0;
    }
  }
}
