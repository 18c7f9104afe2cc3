/**
 * A reader for the serialization format, used to state what the encoder's
 * text means: every encoding reads back, with nothing left over and nothing
 * missing, as the token tree of the value it came from. This fixes the
 * declared string lengths, entry counts and field counts as exact and the
 * encoding as self-delimiting.
 */
module Wire {
  import opened Text
  import opened Values
  import opened Outcomes
  import opened References
  import opened Fields
  import opened Serializer

  /** One written value, as the format's grammar sees it. */
  datatype Token =
    | TNull
    | TBool(b: bool)
    | TInt(i: int)
    | TFloat(text: Bytes)
    | TStr(s: Bytes)
    | TArray(items: seq<Item>)
    | TObject(className: Bytes, items: seq<Item>)
    | TCustom(className: Bytes, payload: Bytes)
    | TRef(position: nat)
    | TSelfRef(position: nat)

  /** A key (or mangled field name) and the value written after it. */
  datatype Item = Item(key: Token, value: Token)

  /** The index of the first `;`, or |s| when there is none. */
  function SemicolonIndex(s: Bytes): (n: nat)
    ensures n <= |s|
    ensures forall i | 0 <= i < n :: s[i] != ';'
    ensures n < |s| ==> s[n] == ';'
  {
    if s == [] || s[0] == ';' then 0 else 1 + SemicolonIndex(s[1..])
  }

  /** A decimal count followed by `lit`. */
  function NumberThen(s: Bytes, lit: Bytes): (r: Option<(nat, Bytes)>)
    ensures r.Some? ==> |r.value.1| < |s|
  {
    match ParseNat(s)
    case None => None
    case Some((n, u)) =>
      match Expect(u, lit)
      case None => None
      case Some(w) => Some((n, w))
  }

  /** `n` bytes taken as they are, followed by `lit`. */
  function Take(s: Bytes, n: nat, lit: Bytes): (r: Option<(Bytes, Bytes)>)
    ensures r.Some? ==> |r.value.1| <= |s| - n
  {
    if n > |s| then None
    else
      match Expect(s[n..], lit)
      case None => None
      case Some(w) => Some((s[..n], w))
  }

  /** `<length>:"<name>":` */
  function QuotedName(s: Bytes): (r: Option<(Bytes, Bytes)>)
    ensures r.Some? ==> |r.value.1| < |s|
  {
    match NumberThen(s, ":\"")
    case None => None
    case Some((n, u)) => Take(u, n, "\":")
  }

  function ParseBoolBody(t: Bytes): (r: Option<(Token, Bytes)>)
    ensures r.Some? ==> |r.value.1| < |t|
  {
    if |t| >= 2 && (t[0] == '0' || t[0] == '1') && t[1] == ';' then Some((TBool(t[0] == '1'), t[2..]))
    else None
  }

  function ParseIntBody(t: Bytes): (r: Option<(Token, Bytes)>)
    ensures r.Some? ==> |r.value.1| < |t|
  {
    match ParseInt(t)
    case None => None
    case Some((i, u)) =>
      match Expect(u, ";")
      case None => None
      case Some(w) => Some((TInt(i), w))
  }

  function ParseFloatBody(t: Bytes): (r: Option<(Token, Bytes)>)
    ensures r.Some? ==> |r.value.1| < |t|
  {
    var n := SemicolonIndex(t);
    if n < |t| then Some((TFloat(t[..n]), t[n + 1..])) else None
  }

  function ParseStringBody(t: Bytes): (r: Option<(Token, Bytes)>)
    ensures r.Some? ==> |r.value.1| < |t|
  {
    match NumberThen(t, ":\"")
    case None => None
    case Some((n, u)) =>
      match Take(u, n, "\";")
      case None => None
      case Some((s, w)) => Some((TStr(s), w))
  }

  /** `<length>:{<bytes>}`, the payload of a custom encoding. */
  function CountedBytes(u: Bytes): (r: Option<(Bytes, Bytes)>)
    ensures r.Some? ==> |r.value.1| < |u|
  {
    match NumberThen(u, ":{")
    case None => None
    case Some((n, w)) => Take(w, n, "}")
  }

  function ParseCustomBody(t: Bytes): (r: Option<(Token, Bytes)>)
    ensures r.Some? ==> |r.value.1| < |t|
  {
    match QuotedName(t)
    case None => None
    case Some((name, u)) =>
      match CountedBytes(u)
      case None => None
      case Some((payload, x)) => Some((TCustom(name, payload), x))
  }

  /** `R:<position>;`, a back-reference to an aliased array entry. */
  function ParseReferenceBody(t: Bytes): (r: Option<(Token, Bytes)>)
    ensures r.Some? ==> |r.value.1| < |t|
  {
    match NumberThen(t, ";")
    case None => None
    case Some((p, w)) => Some((TRef(p), w))
  }

  /** `r:<position>;`, a back-reference to an object. */
  function ParseSelfReferenceBody(t: Bytes): (r: Option<(Token, Bytes)>)
    ensures r.Some? ==> |r.value.1| < |t|
  {
    match NumberThen(t, ";")
    case None => None
    case Some((p, w)) => Some((TSelfRef(p), w))
  }

  /** The kinds of value a tag letter announces. */
  datatype Tag =
    | BoolTag | IntTag | FloatTag | StringTag | ArrayTag | ObjectTag | CustomTag
    | ReferenceTag | SelfReferenceTag

  function TagOf(c: Byte): Option<Tag> {
    if c == 'b' then Some(BoolTag)
    else if c == 'i' then Some(IntTag)
    else if c == 'd' then Some(FloatTag)
    else if c == 's' then Some(StringTag)
    else if c == 'a' then Some(ArrayTag)
    else if c == 'O' then Some(ObjectTag)
    else if c == 'C' then Some(CustomTag)
    else if c == 'R' then Some(ReferenceTag)
    else if c == 'r' then Some(SelfReferenceTag)
    else None
  }

  /** Reads one value from the front of `s`; the rest is what follows it. */
  function ParseValue(s: Bytes): (r: Option<(Token, Bytes)>)
    decreases |s|, 0
    ensures r.Some? ==> |r.value.1| < |s|
  {
    if |s| < 2 then None
    else if s[0] == 'N' && s[1] == ';' then Some((TNull, s[2..]))
    else if s[1] != ':' then None
    else
      match TagOf(s[0])
      case None => None
      case Some(tag) => ParseTagged(tag, s[2..])
  }

  /** Reads the body of a value after its tag letter and the colon. */
  function ParseTagged(tag: Tag, t: Bytes): (r: Option<(Token, Bytes)>)
    decreases |t|, 4
    ensures r.Some? ==> |r.value.1| < |t|
  {
    if tag == ArrayTag then ParseArrayBody(t)
    else if tag == ObjectTag then ParseObjectBody(t)
    else ScalarReader(tag)(t)
  }

  /** The reader of the body of each kind of value that holds no nested
      value. */
  function ScalarReader(tag: Tag): Bytes -> Option<(Token, Bytes)> {
    match tag
    case BoolTag => ParseBoolBody
    case IntTag => ParseIntBody
    case FloatTag => ParseFloatBody
    case StringTag => ParseStringBody
    case CustomTag => ParseCustomBody
    case ReferenceTag => ParseReferenceBody
    case SelfReferenceTag => ParseSelfReferenceBody
    case _ => (t: Bytes) => None
  }

  /** `<count>:{<items>}`, the part arrays and objects share. */
  function CountedItems(t: Bytes): (r: Option<(seq<Item>, Bytes)>)
    decreases |t|, 2
    ensures r.Some? ==> |r.value.1| < |t|
  {
    match NumberThen(t, ":{")
    case None => None
    case Some((n, u)) =>
      match ParseItems(n, u)
      case None => None
      case Some((items, w)) =>
        match Expect(w, "}")
        case None => None
        case Some(x) => Some((items, x))
  }

  function ParseArrayBody(t: Bytes): (r: Option<(Token, Bytes)>)
    decreases |t|, 3
    ensures r.Some? ==> |r.value.1| < |t|
  {
    match CountedItems(t)
    case None => None
    case Some((items, x)) => Some((TArray(items), x))
  }

  /** `<length>:"<class>":` followed by the counted items. */
  function ParseObjectBody(t: Bytes): (r: Option<(Token, Bytes)>)
    decreases |t|, 3
    ensures r.Some? ==> |r.value.1| < |t|
  {
    match QuotedName(t)
    case None => None
    case Some((name, u)) =>
      match CountedItems(u)
      case None => None
      case Some((items, x)) => Some((TObject(name, items), x))
  }

  /** Reads `n` key/value pairs. */
  function ParseItems(n: nat, s: Bytes): (r: Option<(seq<Item>, Bytes)>)
    decreases |s|, 1
    ensures r.Some? ==> |r.value.1| <= |s| && |r.value.0| == n
  {
    if n == 0 then Some(([], s))
    else
      match ParseValue(s)
      case None => None
      case Some((key, u)) =>
        match ParseValue(u)
        case None => None
        case Some((value, w)) =>
          match ParseItems(n - 1, w)
          case None => None
          case Some((items, x)) => Some(([Item(key, value)] + items, x))
  }

  // ---------------------------------------------------------------------
  // The token tree each value is written as.

  function KeyToken(k: Key): Token {
    match k
    case IntKey(i) => TInt(i)
    case StrKey(s) => TStr(s)
  }

  /** What stands between `d:` and `;`. */
  function FloatWord(f: Float): (w: Bytes)
    ensures forall i | 0 <= i < |w| :: w[i] != ';'
  {
    match f
    case PosInf => "INF"
    case NegInf => "-INF"
    case NaN => "NAN"
    case Finite(text) => text
  }

  /** The tree of a value whose encoding succeeds: scalars as themselves, a
      resource as the integer 0, an array as its keys with either a
      back-reference or the value's own tree, an object as its class name
      with its payload or its mangled field names and values. Values whose
      encoding fails have no text and get `TNull` here. */
  function Tree(v: Value): Token
    decreases v, 3
  {
    match v
    case Null => TNull
    case Bool(b) => TBool(b)
    case Int(i) => TInt(i)
    case Float(f) => TFloat(FloatWord(f))
    case Str(s) => TStr(s)
    case Arr(es) => TArray(EntryItems(es, 0))
    case Obj(o) => ObjectTree(o)
    case Closure(_) => TNull
    case Resource(_) => TInt(0)
  }

  function EntryItem(es: seq<Entry>, i: nat): Item
    requires i < |es|
    decreases Arr(es), 0
  {
    Item(KeyToken(es[i].key),
      match ReferencePosition(es, i)
      case Some(p) => TRef(p)
      case None => Tree(es[i].value))
  }

  function EntryItems(es: seq<Entry>, from: nat): (r: seq<Item>)
    requires from <= |es|
    decreases Arr(es), 1, |es| - from
    ensures |r| == |es| - from
  {
    if from == |es| then [] else [EntryItem(es, from)] + EntryItems(es, from + 1)
  }

  function ObjectTree(o: Object): Token
    decreases Obj(o), 2
  {
    if o.serializable.Some? then TCustom(o.className, o.serializable.value)
    else
      match SelectFields(o)
      case Err(_) => TNull
      case Ok(selection) => TObject(o.className, FieldItems(o, selection.fields, 0))
  }

  function FieldItem(o: Object, p: Property): Item
    requires p in o.properties || p in o.parentProperties
    decreases Obj(o), 0
  {
    Item(TStr(MangledName(p)), if IsThisObject(p.value, o) then TSelfRef(1) else Tree(p.value.v))
  }

  function FieldItems(o: Object, fs: seq<Property>, from: nat): (r: seq<Item>)
    requires FieldsOf(o, fs) && from <= |fs|
    decreases Obj(o), 1, |fs| - from
    ensures |r| == |fs| - from
  {
    if from == |fs| then [] else [FieldItem(o, fs[from])] + FieldItems(o, fs, from + 1)
  }

  // ---------------------------------------------------------------------
  // Reading the encoder's pieces.

  /** A tag letter, a colon and a body are read by the body's reader. */
  lemma Tagged(c: Byte, tag: Tag, t: Bytes)
    requires TagOf(c) == Some(tag)
    ensures ParseValue([c, ':'] + t) == ParseTagged(tag, t)
  {
    var s := [c, ':'] + t;
    assert s[0] == c && s[1] == ':' && s[2..] == t;
  }

  lemma {:induction false} SemicolonIndexText(w: Bytes, rest: Bytes)
    requires forall i | 0 <= i < |w| :: w[i] != ';'
    ensures SemicolonIndex(w + ";" + rest) == |w|
  {
    if w != [] {
      assert (w + ";" + rest)[1..] == w[1..] + ";" + rest;
      SemicolonIndexText(w[1..], rest);
    }
  }

  lemma NumberThenText(k: nat, lit: Bytes, rest: Bytes)
    requires |lit| > 0 && !IsDigit(lit[0])
    ensures NumberThen(DecimalText(k) + lit + rest, lit) == Some((k, rest))
  {
    assert (lit + rest)[0] == lit[0];
    NatTextRoundTrip(k, lit + rest);
    assert DecimalText(k) + lit + rest == NatText(k) + (lit + rest);
    ExpectLiteral(lit, rest);
  }

  lemma TakeText(x: Bytes, lit: Bytes, rest: Bytes)
    ensures Take(x + lit + rest, |x|, lit) == Some((x, rest))
  {
    var s := x + lit + rest;
    assert s[|x|..] == lit + rest;
    assert s[..|x|] == x;
    ExpectLiteral(lit, rest);
  }

  lemma QuotedNameText(name: Bytes, rest: Bytes)
    ensures QuotedName(ClassHeader(name) + rest) == Some((name, rest))
  {
    var u := name + "\":" + rest;
    assert ClassHeader(name) + rest == DecimalText(|name|) + ":\"" + u;
    NumberThenText(|name|, ":\"", u);
    TakeText(name, "\":", rest);
  }

  lemma StringBodyText(s: Bytes, rest: Bytes)
    ensures ParseStringBody(DecimalText(|s|) + ":\"" + (s + "\";" + rest)) == Some((TStr(s), rest))
  {
    NumberThenText(|s|, ":\"", s + "\";" + rest);
    TakeText(s, "\";", rest);
  }

  lemma ParseStringText(s: Bytes, rest: Bytes)
    ensures ParseValue(SerializeString(s) + rest) == Some((TStr(s), rest))
  {
    var t := DecimalText(|s|) + ":\"" + (s + "\";" + rest);
    assert SerializeString(s) + rest == ['s', ':'] + t;
    TaggedString(t);
    StringBodyText(s, rest);
  }

  lemma ParseIntText(i: int, rest: Bytes)
    ensures ParseValue("i:" + DecimalText(i) + ";" + rest) == Some((TInt(i), rest))
  {
    var t := DecimalText(i) + (";" + rest);
    assert "i:" + DecimalText(i) + ";" + rest == ['i', ':'] + t;
    TaggedInt(t);
    DecimalTextRoundTrip(i, ";" + rest);
    ExpectLiteral(";", rest);
  }

  lemma ParseKeyText(k: Key, rest: Bytes)
    ensures ParseValue(SerializeKey(k) + rest) == Some((KeyToken(k), rest))
  {
    match k
    case IntKey(i) => ParseIntText(i, rest);
    case StrKey(s) => ParseStringText(s, rest);
  }

  lemma FloatBodyText(w: Bytes, rest: Bytes)
    requires forall i | 0 <= i < |w| :: w[i] != ';'
    ensures ParseFloatBody(w + (";" + rest)) == Some((TFloat(w), rest))
  {
    var t := w + (";" + rest);
    assert t == w + ";" + rest;
    SemicolonIndexText(w, rest);
    assert t[..|w|] == w && t[|w| + 1..] == rest;
  }

  lemma ParseFloatText(f: Float, rest: Bytes)
    ensures ParseValue(SerializeFloat(f) + rest) == Some((TFloat(FloatWord(f)), rest))
  {
    var w := FloatWord(f);
    var t := w + (";" + rest);
    assert SerializeFloat(f) == "d:" + w + ";";
    assert SerializeFloat(f) + rest == ['d', ':'] + t;
    TaggedFloat(t);
    FloatBodyText(w, rest);
  }

  lemma ParseReferenceText(p: nat, rest: Bytes)
    ensures ParseValue(BackReference(p) + rest) == Some((TRef(p), rest))
  {
    var t := DecimalText(p) + ";" + rest;
    assert BackReference(p) + rest == ['R', ':'] + t;
    TaggedReference(t);
    NumberThenText(p, ";", rest);
  }

  lemma ParseSelfReferenceText(rest: Bytes)
    ensures ParseValue(SELF_REFERENCE + rest) == Some((TSelfRef(1), rest))
  {
    var t := DecimalText(1) + ";" + rest;
    assert DecimalText(1) == "1";
    assert SELF_REFERENCE + rest == ['r', ':'] + t;
    TaggedSelfReference(t);
    NumberThenText(1, ";", rest);
  }

  lemma CountedBytesText(payload: Bytes, rest: Bytes)
    ensures CountedBytes(Braced(|payload|, payload) + rest) == Some((payload, rest))
  {
    var x := payload + "}" + rest;
    assert Braced(|payload|, payload) + rest == DecimalText(|payload|) + ":{" + x;
    NumberThenText(|payload|, ":{", x);
    TakeText(payload, "}", rest);
  }

  lemma CustomBodyText(name: Bytes, payload: Bytes, rest: Bytes)
    ensures ParseCustomBody(ClassHeader(name) + (Braced(|payload|, payload) + rest))
      == Some((TCustom(name, payload), rest))
  {
    QuotedNameText(name, Braced(|payload|, payload) + rest);
    CountedBytesText(payload, rest);
  }

  lemma ParseCustomText(name: Bytes, payload: Bytes, rest: Bytes)
    ensures ParseValue(CustomText(name, payload) + rest) == Some((TCustom(name, payload), rest))
  {
    Regroup("C:", ClassHeader(name), Braced(|payload|, payload), rest);
    TaggedCustom(ClassHeader(name) + (Braced(|payload|, payload) + rest));
    CustomBodyText(name, payload, rest);
  }

  lemma CountedItemsText(n: nat, inner: Bytes, items: seq<Item>, rest: Bytes)
    requires ParseItems(n, inner + ("}" + rest)) == Some((items, "}" + rest))
    ensures CountedItems(Braced(n, inner) + rest) == Some((items, rest))
  {
    var u := inner + "}" + rest;
    assert Braced(n, inner) + rest == DecimalText(n) + ":{" + u;
    assert u == inner + ("}" + rest);
    NumberThenText(n, ":{", u);
    ExpectLiteral("}", rest);
  }

  lemma Scalar(tag: Tag, t: Bytes)
    requires tag != ArrayTag && tag != ObjectTag
    ensures ParseTagged(tag, t) == ScalarReader(tag)(t)
  {
  }

  lemma TaggedBool(t: Bytes)
    ensures ParseValue(['b', ':'] + t) == ParseBoolBody(t)
  {
    Tagged('b', BoolTag, t);
    Scalar(BoolTag, t);
    DispatchBool();
  }

  lemma DispatchBool()
    ensures ScalarReader(BoolTag) == ParseBoolBody
  {
  }

  lemma TaggedInt(t: Bytes)
    ensures ParseValue(['i', ':'] + t) == ParseIntBody(t)
  {
    Tagged('i', IntTag, t);
    Scalar(IntTag, t);
    DispatchInt();
  }

  lemma DispatchInt()
    ensures ScalarReader(IntTag) == ParseIntBody
  {
  }

  lemma TaggedFloat(t: Bytes)
    ensures ParseValue(['d', ':'] + t) == ParseFloatBody(t)
  {
    Tagged('d', FloatTag, t);
    Scalar(FloatTag, t);
    DispatchFloat();
  }

  lemma DispatchFloat()
    ensures ScalarReader(FloatTag) == ParseFloatBody
  {
  }

  lemma TaggedString(t: Bytes)
    ensures ParseValue(['s', ':'] + t) == ParseStringBody(t)
  {
    Tagged('s', StringTag, t);
    Scalar(StringTag, t);
    DispatchString();
  }

  lemma DispatchString()
    ensures ScalarReader(StringTag) == ParseStringBody
  {
  }

  lemma TaggedReference(t: Bytes)
    ensures ParseValue(['R', ':'] + t) == ParseReferenceBody(t)
  {
    Tagged('R', ReferenceTag, t);
    Scalar(ReferenceTag, t);
    DispatchReference();
  }

  lemma DispatchReference()
    ensures ScalarReader(ReferenceTag) == ParseReferenceBody
  {
  }

  lemma TaggedSelfReference(t: Bytes)
    ensures ParseValue(['r', ':'] + t) == ParseSelfReferenceBody(t)
  {
    Tagged('r', SelfReferenceTag, t);
    Scalar(SelfReferenceTag, t);
    DispatchSelfReference();
  }

  lemma DispatchSelfReference()
    ensures ScalarReader(SelfReferenceTag) == ParseSelfReferenceBody
  {
  }

  lemma TaggedArray(t: Bytes)
    ensures ParseValue(['a', ':'] + t) == ParseArrayBody(t)
  {
    Tagged('a', ArrayTag, t);
    DispatchArray(t);
  }

  lemma DispatchArray(t: Bytes)
    ensures ParseTagged(ArrayTag, t) == ParseArrayBody(t)
  {
  }

  lemma TaggedObject(t: Bytes)
    ensures ParseValue(['O', ':'] + t) == ParseObjectBody(t)
  {
    Tagged('O', ObjectTag, t);
    DispatchObject(t);
  }

  lemma DispatchObject(t: Bytes)
    ensures ParseTagged(ObjectTag, t) == ParseObjectBody(t)
  {
  }

  lemma TaggedCustom(t: Bytes)
    ensures ParseValue(['C', ':'] + t) == ParseCustomBody(t)
  {
    Tagged('C', CustomTag, t);
    Scalar(CustomTag, t);
    DispatchCustom();
  }

  lemma DispatchCustom()
    ensures ScalarReader(CustomTag) == ParseCustomBody
  {
  }

  lemma ParseArrayText(n: nat, inner: Bytes, items: seq<Item>, rest: Bytes)
    requires ParseItems(n, inner + ("}" + rest)) == Some((items, "}" + rest))
    ensures ParseValue(ArrayText(n, inner) + rest) == Some((TArray(items), rest))
  {
    Regroup3("a:", Braced(n, inner), rest);
    TaggedArray(Braced(n, inner) + rest);
    CountedItemsText(n, inner, items, rest);
  }

  lemma ParseObjectText(name: Bytes, n: nat, inner: Bytes, items: seq<Item>, rest: Bytes)
    requires ParseItems(n, inner + ("}" + rest)) == Some((items, "}" + rest))
    ensures ParseValue(ObjectText(name, n, inner) + rest) == Some((TObject(name, items), rest))
  {
    Regroup("O:", ClassHeader(name), Braced(n, inner), rest);
    TaggedObject(ClassHeader(name) + (Braced(n, inner) + rest));
    QuotedNameText(name, Braced(n, inner) + rest);
    CountedItemsText(n, inner, items, rest);
  }

  /** One key/value pair in front of the remaining pairs. */
  lemma ItemsStep(n: nat, s: Bytes, u: Bytes, w: Bytes, key: Token, value: Token, items: seq<Item>, rest: Bytes)
    requires n > 0
    requires ParseValue(s) == Some((key, u)) && ParseValue(u) == Some((value, w))
    requires ParseItems(n - 1, w) == Some((items, rest))
    ensures ParseItems(n, s) == Some(([Item(key, value)] + items, rest))
  {
  }

  /** The text of one pair, `key` then `value`, in front of the text of the
      remaining pairs. */
  lemma PairText(n: nat, key: Bytes, value: Bytes, tail: Bytes, rest: Bytes,
                 keyToken: Token, valueToken: Token, items: seq<Item>)
    requires n > 0
    requires ParseValue(key + (value + (tail + rest))) == Some((keyToken, value + (tail + rest)))
    requires ParseValue(value + (tail + rest)) == Some((valueToken, tail + rest))
    requires ParseItems(n - 1, tail + rest) == Some((items, rest))
    ensures ParseItems(n, key + value + tail + rest) == Some(([Item(keyToken, valueToken)] + items, rest))
  {
    Regroup(key, value, tail, rest);
    ItemsStep(n, key + (value + (tail + rest)), value + (tail + rest), tail + rest,
      keyToken, valueToken, items, rest);
  }

  // ---------------------------------------------------------------------
  // The round trip.

  /** Whatever follows it, a successful encoding of `v` reads back as
      exactly `Tree(v)`. */
  lemma {:induction false} ParseSerialized(v: Value, rest: Bytes)
    requires Serialize(v).Ok?
    ensures ParseValue(Serialize(v).value.text + rest) == Some((Tree(v), rest))
    decreases v, 3
  {
    match v
    case Null =>
      assert (NULL + rest)[0] == 'N' && (NULL + rest)[1] == ';' && (NULL + rest)[2..] == rest;
    case Bool(b) =>
      var t := [if b then '1' else '0', ';'] + rest;
      assert Serialize(v).value.text + rest == ['b', ':'] + t;
      TaggedBool(t);
      assert t[2..] == rest;
    case Int(i) => ParseIntText(i, rest);
    case Float(f) => ParseFloatText(f, rest);
    case Str(s) => ParseStringText(s, rest);
    case Arr(es) => ParseArray(es, rest);
    case Obj(o) => ParseObject(o, rest);
    case Resource(_) =>
      assert RESOURCE == "i:" + DecimalText(0) + ";";
      ParseIntText(0, rest);
  }

  lemma {:induction false} ParseArray(es: seq<Entry>, rest: Bytes)
    requires EncodeArray(es).Ok?
    ensures ParseValue(EncodeArray(es).value.text + rest) == Some((TArray(EntryItems(es, 0)), rest))
    decreases Arr(es), 2
  {
    var inner := EncodeEntries(es, 0).value.text;
    assert EncodeArray(es).value.text == ArrayText(|es|, inner);
    ParseEntries(es, 0, "}" + rest);
    ParseArrayText(|es|, inner, EntryItems(es, 0), rest);
  }

  lemma {:induction false} ParseEntries(es: seq<Entry>, from: nat, rest: Bytes)
    requires from <= |es| && EncodeEntries(es, from).Ok?
    ensures ParseItems(|es| - from, EncodeEntries(es, from).value.text + rest) == Some((EntryItems(es, from), rest))
    decreases Arr(es), 1, |es| - from
  {
    var text := EncodeEntries(es, from).value.text;
    if from == |es| {
      assert text + rest == rest;
    } else {
      var tail := EncodeEntries(es, from + 1).value.text;
      var after := tail + rest;
      var key := SerializeKey(es[from].key);
      ParseEntries(es, from + 1, rest);
      match ReferencePosition(es, from)
      case Some(p) =>
        assert text == key + BackReference(p) + tail;
        ParseKeyText(es[from].key, BackReference(p) + after);
        ParseReferenceText(p, after);
        PairText(|es| - from, key, BackReference(p), tail, rest,
          KeyToken(es[from].key), TRef(p), EntryItems(es, from + 1));
      case None =>
        var value := Serialize(es[from].value).value.text;
        assert text == key + value + tail;
        ParseKeyText(es[from].key, value + after);
        ParseSerialized(es[from].value, after);
        PairText(|es| - from, key, value, tail, rest,
          KeyToken(es[from].key), Tree(es[from].value), EntryItems(es, from + 1));
    }
  }

  lemma {:induction false} ParseObject(o: Object, rest: Bytes)
    requires EncodeObject(o).Ok?
    ensures ParseValue(EncodeObject(o).value.text + rest) == Some((ObjectTree(o), rest))
    decreases Obj(o), 2
  {
    if o.serializable.Some? {
      ParseCustomText(o.className, o.serializable.value, rest);
    } else {
      var fields := SelectFields(o).value.fields;
      var inner := EncodeFields(o, fields, 0).value.text;
      assert EncodeObject(o).value.text == ObjectText(o.className, |fields|, inner);
      assert ObjectTree(o) == TObject(o.className, FieldItems(o, fields, 0));
      ParseFields(o, fields, 0, "}" + rest);
      ParseObjectText(o.className, |fields|, inner, FieldItems(o, fields, 0), rest);
    }
  }

  lemma {:induction false} ParseFields(o: Object, fs: seq<Property>, from: nat, rest: Bytes)
    requires FieldsOf(o, fs) && from <= |fs| && EncodeFields(o, fs, from).Ok?
    ensures ParseItems(|fs| - from, EncodeFields(o, fs, from).value.text + rest) == Some((FieldItems(o, fs, from), rest))
    decreases Obj(o), 1, |fs| - from
  {
    if from == |fs| {
      assert EncodeFields(o, fs, from).value.text + rest == rest;
    } else {
      ParseFields(o, fs, from + 1, rest);
      ParseFieldStep(o, fs, from, rest);
    }
  }

  /** One field in front of fields already known to read back. */
  lemma ParseFieldStep(o: Object, fs: seq<Property>, from: nat, rest: Bytes)
    requires FieldsOf(o, fs) && from < |fs| && EncodeFields(o, fs, from).Ok?
    requires ParseItems(|fs| - from - 1, EncodeFields(o, fs, from + 1).value.text + rest) ==
      Some((FieldItems(o, fs, from + 1), rest))
    ensures ParseItems(|fs| - from, EncodeFields(o, fs, from).value.text + rest) == Some((FieldItems(o, fs, from), rest))
    decreases Obj(o), 0
  {
    var text := EncodeFields(o, fs, from).value.text;
    var p := fs[from];
    assert p in o.properties || p in o.parentProperties;
    var tail := EncodeFields(o, fs, from + 1).value.text;
    var after := tail + rest;
    var name := SerializeString(MangledName(p));
    if IsThisObject(p.value, o) {
      assert text == name + SELF_REFERENCE + tail;
      ParseStringText(MangledName(p), SELF_REFERENCE + after);
      ParseSelfReferenceText(after);
      PairText(|fs| - from, name, SELF_REFERENCE, tail, rest,
        TStr(MangledName(p)), TSelfRef(1), FieldItems(o, fs, from + 1));
    } else {
      var value := Serialize(p.value.v).value.text;
      assert text == name + value + tail;
      ParseStringText(MangledName(p), value + after);
      ParseSerialized(p.value.v, after);
      PairText(|fs| - from, name, value, tail, rest,
        TStr(MangledName(p)), Tree(p.value.v), FieldItems(o, fs, from + 1));
    }
  }
}
