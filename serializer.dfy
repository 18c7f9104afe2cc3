/**
 * The serializer of src/Serializer.php: the dispatcher `serialize`, the
 * scalar encoders, the array encoder and the object encoder.
 *
 * The functions below state what one call produces; the methods
 * `SerializeArray` and `SerializeObject` are the source's loops that append
 * to `$inner`, proved to produce the same. Both hand nested values to the
 * dispatcher `Serialize`.
 */
module Serializer {
  import opened Text
  import opened Values
  import opened Outcomes
  import opened References
  import opened Fields

  const NULL: Bytes := "N;"
  const TRUE: Bytes := "b:1;"
  const FALSE: Bytes := "b:0;"
  const NAN: Bytes := "d:NAN;"
  const INF: Bytes := "d:INF;"
  const NEGATIVE_INF: Bytes := "d:-INF;"
  const RESOURCE: Bytes := "i:0;"
  const SELF_REFERENCE: Bytes := "r:1;"
  const ANONYMOUS_PREFIX: Bytes := "class@anonymous"

  /** `s:<byte length>:"<bytes>";`, the bytes written as they are: the
      declared length is the byte count, and the bytes follow it unchanged. */
  function SerializeString(s: Bytes): (r: Bytes)
    ensures |r| >= 2 && r[..2] == "s:"
  {
    "s:" + DecimalText(|s|) + ":\"" + s + "\";"
  }

  /** The declared length of a string token reads back as the byte count,
      and the bytes follow it unchanged. */
  lemma StringDeclaresLength(s: Bytes)
    ensures ParseNat(SerializeString(s)[2..]) == Some((|s|, ":\"" + s + "\";"))
  {
    var tail := ":\"" + s + "\";";
    assert SerializeString(s) == "s:" + (DecimalText(|s|) + tail);
    NumberFirst("s:", |s|, tail);
  }

  /** `i:<signed decimal>;`: the number reads back as `i`. */
  function SerializeInt(i: Int64): (r: Bytes)
    ensures |r| >= 2 && r[..2] == "i:"
  {
    "i:" + DecimalText(i) + ";"
  }

  /** The number of an integer token reads back as `i`, and `;` ends it. */
  lemma IntReadsBack(i: Int64)
    ensures ParseInt(SerializeInt(i)[2..]) == Some((i as int, ";"))
  {
    DecimalTextRoundTrip(i, ";");
    assert SerializeInt(i)[2..] == DecimalText(i) + ";";
  }

  /** `d:<text>;`: the token's only `;` is its last byte. */
  function SerializeFloat(f: Float): (r: Bytes)
    ensures |r| >= 3 && r[..2] == "d:" && r[|r| - 1] == ';'
    ensures forall k | 2 <= k < |r| - 1 :: r[k] != ';'
  {
    match f
    case PosInf => INF
    case NegInf => NEGATIVE_INF
    case NaN => NAN
    case Finite(text) => "d:" + text + ";"
  }

  /** What `serialize($key)` gives for an array key. */
  function SerializeKey(k: Key): Bytes {
    match k
    case IntKey(i) => SerializeInt(i)
    case StrKey(s) => SerializeString(s)
  }

  /** `R:<position>;` */
  function BackReference(p: nat): Bytes {
    "R:" + DecimalText(p) + ";"
  }

  /** `strpos($className, 'class@anonymous') === 0`, which holds exactly
      when the name starts with the prefix. */
  function IsAnonymous(className: Bytes): (b: bool)
    ensures b <==>
      |className| >= |ANONYMOUS_PREFIX| && className == ANONYMOUS_PREFIX + className[|ANONYMOUS_PREFIX|..]
  {
    FoundAtStart(className, ANONYMOUS_PREFIX);
    IndexOf(className, ANONYMOUS_PREFIX) == Some(0)
  }

  /** `$value === $object`: the property holds the object being encoded. */
  predicate IsThisObject(m: Member, o: Object) {
    m.SelfRef? || Identical(m.v, Obj(o))
  }

  /** `<name length>:"<name>":`, the class name of both object forms. */
  function ClassHeader(className: Bytes): Bytes {
    DecimalText(|className|) + ":\"" + className + "\":"
  }

  /** `<count>:{<inner>}`: an entry or field count, or a payload length,
      followed by the braced contents. */
  function Braced(count: nat, inner: Bytes): Bytes {
    DecimalText(count) + ":{" + inner + "}"
  }

  /** `C:<name length>:"<name>":<payload length>:{<payload>}` */
  function CustomText(className: Bytes, payload: Bytes): (r: Bytes)
    ensures |r| >= 2 && r[..2] == "C:"
  {
    "C:" + ClassHeader(className) + Braced(|payload|, payload)
  }

  /** `O:<name length>:"<name>":<field count>:{<fields>}` */
  function ObjectText(className: Bytes, count: nat, inner: Bytes): (r: Bytes)
    ensures |r| >= 2 && r[..2] == "O:"
  {
    "O:" + ClassHeader(className) + Braced(count, inner)
  }

  /** `a:<entry count>:{<entries>}` */
  function ArrayText(count: nat, inner: Bytes): (r: Bytes)
    ensures |r| >= 2 && r[..2] == "a:"
  {
    "a:" + Braced(count, inner)
  }

  /** Both object forms declare the byte length of the class name, and the
      quoted name follows it. */
  lemma CustomDeclaresName(className: Bytes, payload: Bytes)
    ensures ParseNat(CustomText(className, payload)[2..]) ==
      Some((|className|, ":\"" + className + "\":" + Braced(|payload|, payload)))
  {
    NumberFirst("C:", |className|, ":\"" + className + "\":" + Braced(|payload|, payload));
    HeaderSplit("C:", className, Braced(|payload|, payload));
  }

  lemma ObjectDeclaresName(className: Bytes, count: nat, inner: Bytes)
    ensures ParseNat(ObjectText(className, count, inner)[2..]) ==
      Some((|className|, ":\"" + className + "\":" + Braced(count, inner)))
  {
    NumberFirst("O:", |className|, ":\"" + className + "\":" + Braced(count, inner));
    HeaderSplit("O:", className, Braced(count, inner));
  }

  /** An array token's declared count reads back, and the braced entries
      follow it. */
  lemma ArrayDeclaresCount(count: nat, inner: Bytes)
    ensures ParseNat(ArrayText(count, inner)[2..]) == Some((count, ":{" + inner + "}"))
  {
    NumberFirst("a:", count, ":{" + inner + "}");
    BracedSplit(count, inner);
  }

  lemma HeaderSplit(tag: Bytes, className: Bytes, body: Bytes)
    ensures tag + ClassHeader(className) + body ==
      tag + (DecimalText(|className|) + (":\"" + className + "\":" + body))
  {
  }

  lemma BracedSplit(count: nat, inner: Bytes)
    ensures Braced(count, inner) == DecimalText(count) + (":{" + inner + "}")
  {
  }

  /** A two-byte tag, a number, then text that does not start with a digit. */
  lemma NumberFirst(tag: Bytes, n: nat, rest: Bytes)
    requires |tag| == 2 && |rest| >= 1 && rest[0] == ':'
    ensures (tag + (DecimalText(n) + rest))[..2] == tag
    ensures ParseNat((tag + (DecimalText(n) + rest))[2..]) == Some((n, rest))
  {
    assert (tag + (DecimalText(n) + rest))[2..] == NatText(n) + rest;
    NatTextRoundTrip(n, rest);
  }

  /** `a` written in front of what `r` produced, or `r`'s exception. */
  function Then(a: Encoded, r: Result<Encoded>): Result<Encoded> {
    match r
    case Err(e) => Err(e)
    case Ok(b) => Ok(Encoded(a.text + b.text, a.notices + b.notices))
  }

  const Nothing := Encoded([], [])

  /** The one-letter type code a value's token starts with. */
  function TypeTag(v: Value): Byte
    requires !v.Closure?
  {
    match v
    case Null => 'N'
    case Bool(_) => 'b'
    case Int(_) => 'i'
    case Float(_) => 'd'
    case Str(_) => 's'
    case Arr(_) => 'a'
    case Obj(o) => if o.serializable.Some? then 'C' else 'O'
    case Resource(_) => 'i'
  }

  /** `serialize($value)`: the type tests in the source's order; a closure
      is refused before the object test sees it. */
  function Serialize(v: Value): (r: Result<Encoded>)
    decreases v, 3
    ensures v.Closure? ==> r == Err(ClosureNotAllowed)
  {
    match v
    case Closure(_) => Err(ClosureNotAllowed)
    case Null => Ok(Encoded(NULL, []))
    case Bool(b) => Ok(Encoded(if b then TRUE else FALSE, []))
    case Str(s) => Ok(Encoded(SerializeString(s), []))
    case Int(i) => Ok(Encoded(SerializeInt(i), []))
    case Float(f) => Ok(Encoded(SerializeFloat(f), []))
    case Arr(es) => EncodeArray(es)
    case Obj(o) => EncodeObject(o)
    case Resource(_) => Ok(Encoded(RESOURCE, []))
  }

  /** The array's text declares as many entries as the array has. */
  function EncodeArray(es: seq<Entry>): (r: Result<Encoded>)
    decreases Arr(es), 2
    ensures r.Ok? ==> |r.value.text| >= 2 && r.value.text[..2] == "a:"
  {
    match EncodeEntries(es, 0)
    case Err(e) => Err(e)
    case Ok(inner) => Ok(Encoded(ArrayText(|es|, inner.text), inner.notices))
  }

  /** One entry: its key, then its value or `R:<p>;`. */
  function EncodeEntry(es: seq<Entry>, i: nat): Result<Encoded>
    requires i < |es|
    decreases Arr(es), 0
  {
    var key := SerializeKey(es[i].key);
    match ReferencePosition(es, i)
    case Some(p) => Ok(Encoded(key + BackReference(p), []))
    case None => Then(Encoded(key, []), Serialize(es[i].value))
  }

  /** The entries from `from` on, in iteration order; the first exception
      ends the encoding. */
  function EncodeEntries(es: seq<Entry>, from: nat): Result<Encoded>
    requires from <= |es|
    decreases Arr(es), 1, |es| - from
  {
    if from == |es| then Ok(Nothing)
    else
      match EncodeEntry(es, from)
      case Err(e) => Err(e)
      case Ok(entry) => Then(entry, EncodeEntries(es, from + 1))
  }

  /** A class named `class@anonymous...` is refused before any hook is consulted;
      Serializable objects are written as `C:`; others as `O:` with the
      fields `SelectFields` chooses. */
  function EncodeObject(o: Object): (r: Result<Encoded>)
    decreases Obj(o), 2
    ensures IsAnonymous(o.className) ==> r == Err(AnonymousClassNotAllowed)
    ensures r.Ok? ==>
      && |r.value.text| >= 2
      && r.value.text[..2] == (if o.serializable.Some? then "C:" else "O:")
  {
    if IsAnonymous(o.className) then Err(AnonymousClassNotAllowed)
    else if o.serializable.Some? then Ok(Encoded(CustomText(o.className, o.serializable.value), []))
    else
      match SelectFields(o)
      case Err(e) => Err(e)
      case Ok(selection) =>
        match EncodeFields(o, selection.fields, 0)
        case Err(e) => Err(e)
        case Ok(inner) =>
          Ok(Encoded(ObjectText(o.className, |selection.fields|, inner.text), selection.notices + inner.notices))
  }

  /** An encoded array declares exactly as many entries as it has. */
  lemma ArrayDeclaresEntries(es: seq<Entry>)
    requires EncodeArray(es).Ok?
    ensures ParseNat(EncodeArray(es).value.text[2..]).Some?
    ensures ParseNat(EncodeArray(es).value.text[2..]).value.0 == |es|
  {
    ArrayDeclaresCount(|es|, EncodeEntries(es, 0).value.text);
  }

  /** An encoded object, in either form, declares its class name's length. */
  lemma ObjectDeclaresClassName(o: Object)
    requires EncodeObject(o).Ok?
    ensures ParseNat(EncodeObject(o).value.text[2..]).Some?
    ensures ParseNat(EncodeObject(o).value.text[2..]).value.0 == |o.className|
  {
    if o.serializable.Some? {
      CustomDeclaresName(o.className, o.serializable.value);
    } else {
      var selection := SelectFields(o).value;
      ObjectDeclaresName(o.className, |selection.fields|, EncodeFields(o, selection.fields, 0).value.text);
    }
  }

  /** Every token that is written starts with its type's letter; a closure
      is never written. */
  lemma StartsWithTypeTag(v: Value)
    requires Serialize(v).Ok?
    ensures !v.Closure? && |Serialize(v).value.text| >= 2
    ensures Serialize(v).value.text[0] == TypeTag(v)
  {
    match v
    case Null =>
    case Bool(b) =>
    case Str(s) =>
    case Int(i) =>
    case Float(f) =>
    case Arr(es) =>
    case Obj(o) =>
    case Resource(_) =>
  }

  /** The fields of `o` are drawn from its reflected properties. */
  ghost predicate FieldsOf(o: Object, fs: seq<Property>) {
    forall p | p in fs :: p in o.properties || p in o.parentProperties
  }

  /** One field: its mangled name, then `r:1;` if it holds the object
      itself, its value otherwise. */
  function EncodeField(o: Object, p: Property): Result<Encoded>
    requires p in o.properties || p in o.parentProperties
    decreases Obj(o), 0
  {
    var name := SerializeString(MangledName(p));
    if IsThisObject(p.value, o) then Ok(Encoded(name + SELF_REFERENCE, []))
    else Then(Encoded(name, []), Serialize(p.value.v))
  }

  function EncodeFields(o: Object, fs: seq<Property>, from: nat): Result<Encoded>
    requires FieldsOf(o, fs) && from <= |fs|
    decreases Obj(o), 1, |fs| - from
  {
    if from == |fs| then Ok(Nothing)
    else
      match EncodeField(o, fs[from])
      case Err(e) => Err(e)
      case Ok(field) => Then(field, EncodeFields(o, fs, from + 1))
  }

  lemma SelectedFieldsOf(o: Object)
    requires SelectFields(o).Ok?
    ensures FieldsOf(o, SelectFields(o).value.fields)
  {
  }

  lemma ThenNothing(r: Result<Encoded>)
    ensures Then(Nothing, r) == r
  {
    match r
    case Err(_) =>
    case Ok(c) =>
      assert [] + c.text == c.text && [] + c.notices == c.notices;
  }

  lemma ThenThen(a: Encoded, b: Encoded, r: Result<Encoded>)
    ensures Then(a, Then(b, r)) == Then(Encoded(a.text + b.text, a.notices + b.notices), r)
  {
    match r
    case Err(_) =>
    case Ok(c) =>
      assert a.text + (b.text + c.text) == (a.text + b.text) + c.text;
      assert a.notices + (b.notices + c.notices) == (a.notices + b.notices) + c.notices;
  }

  /** One step of the array loop when the entry's value is encoded. */
  lemma EntryValueStep(es: seq<Entry>, i: nat, inner: Encoded, value: Result<Encoded>)
    requires i < |es| && ReferencePosition(es, i).None? && value == Serialize(es[i].value)
    ensures value.Err? ==> Then(inner, EncodeEntries(es, i)) == Err(value.error)
    ensures value.Ok? ==>
      Then(inner, EncodeEntries(es, i)) ==
      Then(Encoded(inner.text + SerializeKey(es[i].key) + value.value.text, inner.notices + value.value.notices),
           EncodeEntries(es, i + 1))
  {
    var key := SerializeKey(es[i].key);
    if value.Ok? {
      var entry := Encoded(key + value.value.text, [] + value.value.notices);
      assert EncodeEntry(es, i) == Ok(entry);
      assert [] + value.value.notices == value.value.notices;
      assert inner.text + key + value.value.text == inner.text + entry.text;
      ThenThen(inner, entry, EncodeEntries(es, i + 1));
    }
  }

  /** One step of the array loop when the entry is a back-reference. */
  lemma EntryReferenceStep(es: seq<Entry>, i: nat, inner: Encoded, p: nat)
    requires i < |es| && ReferencePosition(es, i) == Some(p)
    ensures Then(inner, EncodeEntries(es, i)) ==
      Then(Encoded(inner.text + SerializeKey(es[i].key) + BackReference(p), inner.notices), EncodeEntries(es, i + 1))
  {
    var key := SerializeKey(es[i].key);
    var entry := Encoded(key + BackReference(p), []);
    assert EncodeEntry(es, i) == Ok(entry);
    assert inner.notices + [] == inner.notices;
    assert inner.text + key + BackReference(p) == inner.text + entry.text;
    ThenThen(inner, entry, EncodeEntries(es, i + 1));
  }

  /** One step of the field loop when the field holds the object itself. */
  lemma FieldSelfStep(o: Object, fs: seq<Property>, i: nat, inner: Encoded)
    requires FieldsOf(o, fs) && i < |fs| && IsThisObject(fs[i].value, o)
    ensures Then(inner, EncodeFields(o, fs, i)) ==
      Then(Encoded(inner.text + SerializeString(MangledName(fs[i])) + SELF_REFERENCE, inner.notices),
           EncodeFields(o, fs, i + 1))
  {
    var p := fs[i];
    assert p in o.properties || p in o.parentProperties;
    var name := SerializeString(MangledName(p));
    var field := Encoded(name + SELF_REFERENCE, []);
    FieldSelfText(o, p, name);
    assert inner.notices + [] == inner.notices;
    assert inner.text + name + SELF_REFERENCE == inner.text + field.text;
    ThenThen(inner, field, EncodeFields(o, fs, i + 1));
  }

  /** One step of the field loop when the field's value is encoded. */
  lemma FieldValueStep(o: Object, fs: seq<Property>, i: nat, inner: Encoded, value: Result<Encoded>)
    requires FieldsOf(o, fs) && i < |fs| && !IsThisObject(fs[i].value, o) && value == Serialize(fs[i].value.v)
    ensures value.Err? ==> Then(inner, EncodeFields(o, fs, i)) == Err(value.error)
    ensures value.Ok? ==>
      Then(inner, EncodeFields(o, fs, i)) ==
      Then(Encoded(inner.text + SerializeString(MangledName(fs[i])) + value.value.text, inner.notices + value.value.notices),
           EncodeFields(o, fs, i + 1))
  {
    var p := fs[i];
    assert p in o.properties || p in o.parentProperties;
    var name := SerializeString(MangledName(p));
    if value.Ok? {
      var field := Encoded(name + value.value.text, value.value.notices);
      FieldValueText(o, p, name, value.value);
      assert inner.text + name + value.value.text == inner.text + field.text;
      ThenThen(inner, field, EncodeFields(o, fs, i + 1));
    }
  }

  lemma FieldSelfText(o: Object, p: Property, name: Bytes)
    requires p in o.properties || p in o.parentProperties
    requires IsThisObject(p.value, o) && name == SerializeString(MangledName(p))
    ensures EncodeField(o, p) == Ok(Encoded(name + SELF_REFERENCE, []))
  {
  }

  lemma FieldValueText(o: Object, p: Property, name: Bytes, value: Encoded)
    requires p in o.properties || p in o.parentProperties
    requires !IsThisObject(p.value, o) && Serialize(p.value.v) == Ok(value)
    requires name == SerializeString(MangledName(p))
    ensures EncodeField(o, p) == Ok(Encoded(name + value.text, value.notices))
  {
    var t := Then(Encoded(name, []), Serialize(p.value.v));
    assert EncodeField(o, p) == t;
    assert [] + value.notices == value.notices;
    assert t == Ok(Encoded(name + value.text, value.notices));
  }

  /** `serializeArray`: walks the entries in order, asking
      `getReferencePosition` for each and appending the key and the value or
      the back-reference to `$inner`, then writes the header with the entry
      count. */
  method SerializeArray(es: seq<Entry>) returns (r: Result<Encoded>)
    requires ValidArray(es)
    ensures r == EncodeArray(es)
  {
    var cells := StoreCells(es);
    var inner := Nothing;
    ThenNothing(EncodeEntries(es, 0));
    for i := 0 to |es|
      invariant Backs(es, cells)
      invariant EncodeEntries(es, 0) == Then(inner, EncodeEntries(es, i))
    {
      assert exists j | 0 <= j < |es| :: es[j].key == es[i].key;
      var reference := GetReferencePosition(es, es[i].key, cells);
      assert IndexOfKey(es, es[i].key) == i;
      var text := inner.text + SerializeKey(es[i].key);
      if reference.None? {
        var value := Serialize(es[i].value);
        EntryValueStep(es, i, inner, value);
        if value.Err? {
          return Err(value.error);
        }
        inner := Encoded(text + value.value.text, inner.notices + value.value.notices);
      } else {
        EntryReferenceStep(es, i, inner, reference.value);
        inner := Encoded(text + BackReference(reference.value), inner.notices);
      }
    }
    assert inner.text + [] == inner.text && inner.notices + [] == inner.notices;
    r := Ok(Encoded(ArrayText(|es|, inner.text), inner.notices));
  }

  /** `serializeObject`: the anonymous-class test, the Serializable form,
      then the field loop appending each mangled name and the value or
      `r:1;` to `$inner`, and the header with the field count. */
  method SerializeObject(o: Object) returns (r: Result<Encoded>)
    ensures r == EncodeObject(o)
  {
    if IsAnonymous(o.className) {
      return Err(AnonymousClassNotAllowed);
    }
    if o.serializable.Some? {
      return Ok(Encoded(CustomText(o.className, o.serializable.value), []));
    }
    var selection := SelectFields(o);
    if selection.Err? {
      return Err(selection.error);
    }
    var fields := selection.value.fields;
    SelectedFieldsOf(o);
    var inner := Nothing;
    ThenNothing(EncodeFields(o, fields, 0));
    for i := 0 to |fields|
      invariant EncodeFields(o, fields, 0) == Then(inner, EncodeFields(o, fields, i))
    {
      var text := inner.text + SerializeString(MangledName(fields[i]));
      if IsThisObject(fields[i].value, o) {
        FieldSelfStep(o, fields, i, inner);
        inner := Encoded(text + SELF_REFERENCE, inner.notices);
      } else {
        var value := Serialize(fields[i].value.v);
        FieldValueStep(o, fields, i, inner, value);
        if value.Err? {
          return Err(value.error);
        }
        inner := Encoded(text + value.value.text, inner.notices + value.value.notices);
      }
    }
    assert inner.text + [] == inner.text && inner.notices + [] == inner.notices;
    r := Ok(Encoded(ObjectText(o.className, |fields|, inner.text), selection.value.notices + inner.notices));
  }
}
