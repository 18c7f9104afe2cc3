/**
 * The serializer on concrete values, among them the values the repository's
 * test suite passes (tests/SerializerTest.php), with the exact text the
 * code as written produces for each.
 */
module Scenarios {
  import opened Text
  import opened Values
  import opened Outcomes
  import opened Fields
  import opened References
  import opened Serializer
  import opened Failures

  /** The fixed tokens of null, the booleans, the non-finite floats and an
      open resource. */
  lemma FixedTokens(resource: nat)
    ensures Serialize(Null) == Ok(Encoded("N;", []))
    ensures Serialize(Bool(true)) == Ok(Encoded("b:1;", []))
    ensures Serialize(Bool(false)) == Ok(Encoded("b:0;", []))
    ensures Serialize(Float(PosInf)) == Ok(Encoded("d:INF;", []))
    ensures Serialize(Float(NegInf)) == Ok(Encoded("d:-INF;", []))
    ensures Serialize(Float(NaN)) == Ok(Encoded("d:NAN;", []))
    ensures Serialize(Resource(resource)) == Ok(Encoded("i:0;", []))
  {
  }

  /** Strings are written as their bytes, quotes included, with no escaping. */
  lemma StringScenarios()
    ensures Serialize(Str("")) == Ok(Encoded("s:0:\"\";", []))
    ensures Serialize(Str("foo")) == Ok(Encoded("s:3:\"foo\";", []))
    ensures Serialize(Str("foo\"bar")) == Ok(Encoded("s:7:\"foo\"bar\";", []))
  {
    assert SerializeString("") == "s:0:\"\";" by { assert DecimalText(0) == "0"; }
    assert SerializeString("foo") == "s:3:\"foo\";" by { assert DecimalText(3) == "3"; }
    assert SerializeString("foo\"bar") == "s:7:\"foo\"bar\";" by { assert DecimalText(7) == "7"; }
  }

  lemma IntScenarios()
    ensures Serialize(Int(0)) == Ok(Encoded("i:0;", []))
    ensures Serialize(Int(5)) == Ok(Encoded("i:5;", []))
    ensures Serialize(Int(-5)) == Ok(Encoded("i:-5;", []))
  {
    assert SerializeInt(0) == "i:0;" by { assert DecimalText(0) == "0"; }
    assert SerializeInt(5) == "i:5;" by { assert DecimalText(5) == "5"; }
    assert SerializeInt(-5) == "i:-5;" by { assert DecimalText(-5) == "-5"; }
  }

  lemma EmptyArrayScenario()
    ensures Serialize(Arr([])) == Ok(Encoded("a:0:{}", []))
  {
    assert ArrayText(0, []) == "a:0:{}" by { assert DecimalText(0) == "0"; }
  }

  /** `['foo', 'bar']` with entries 2 and 3 then bound by reference to
      entry 1, so that all three share one cell. */
  function AliasedEntries(): seq<Entry> {
    [Entry(IntKey(0), 0, Str("foo")), Entry(IntKey(1), 1, Str("bar")),
     Entry(IntKey(2), 1, Str("bar")), Entry(IntKey(3), 1, Str("bar"))]
  }

  /** Entry 1 finds entry 2 (position 4), which comes after it; entries 2
      and 3 find entry 1 (position 3). */
  lemma AliasedPositions()
    ensures ReferencePosition(AliasedEntries(), 0) == None
    ensures ReferencePosition(AliasedEntries(), 1) == Some(4)
    ensures ReferencePosition(AliasedEntries(), 2) == Some(3)
    ensures ReferencePosition(AliasedEntries(), 3) == Some(3)
  {
    var es := AliasedEntries();
    assert AliasOf(es, 1, 2) && AliasOf(es, 2, 1) && AliasOf(es, 3, 1);
  }

  lemma SmallDecimals()
    ensures DecimalText(0) == "0" && DecimalText(1) == "1" && DecimalText(2) == "2"
    ensures DecimalText(3) == "3" && DecimalText(4) == "4" && DecimalText(8) == "8"
  {
    assert DigitChar(0) == '0' && DigitChar(1) == '1' && DigitChar(2) == '2';
    assert DigitChar(3) == '3' && DigitChar(4) == '4' && DigitChar(8) == '8';
  }

  /** An entry written with its value, the key's text first. */
  lemma EntryWithValue(es: seq<Entry>, i: nat, value: Bytes)
    requires i < |es| && ReferencePosition(es, i).None?
    requires Serialize(es[i].value) == Ok(Encoded(value, []))
    ensures EncodeEntry(es, i) == Ok(Encoded(SerializeKey(es[i].key) + value, []))
  {
    var none: seq<Notice> := [];
    assert none + none == none;
  }

  lemma AliasedEntry0()
    ensures EncodeEntry(AliasedEntries(), 0) == Ok(Encoded("i:0;s:3:\"foo\";", []))
  {
    AliasedPositions();
    SmallDecimals();
    assert SerializeString("foo") == "s:3:\"foo\";";
    EntryWithValue(AliasedEntries(), 0, "s:3:\"foo\";");
    assert SerializeKey(IntKey(0)) == "i:0;";
    assert "i:0;" + "s:3:\"foo\";" == "i:0;s:3:\"foo\";";
  }

  lemma AliasedEntry1()
    ensures EncodeEntry(AliasedEntries(), 1) == Ok(Encoded("i:1;R:4;", []))
  {
    AliasedPositions();
    SmallDecimals();
    assert SerializeKey(IntKey(1)) == "i:1;";
    assert BackReference(4) == "R:4;";
    assert "i:1;" + "R:4;" == "i:1;R:4;";
  }

  lemma AliasedEntry2()
    ensures EncodeEntry(AliasedEntries(), 2) == Ok(Encoded("i:2;R:3;", []))
  {
    AliasedPositions();
    SmallDecimals();
    assert SerializeKey(IntKey(2)) == "i:2;";
    assert BackReference(3) == "R:3;";
    assert "i:2;" + "R:3;" == "i:2;R:3;";
  }

  lemma AliasedEntry3()
    ensures EncodeEntry(AliasedEntries(), 3) == Ok(Encoded("i:3;R:3;", []))
  {
    AliasedPositions();
    SmallDecimals();
    assert SerializeKey(IntKey(3)) == "i:3;";
    assert BackReference(3) == "R:3;";
    assert "i:3;" + "R:3;" == "i:3;R:3;";
  }

  /** The entries' texts, each after the one before. */
  lemma AliasedEntriesText()
    ensures EncodeEntries(AliasedEntries(), 0) ==
      Ok(Encoded("i:0;s:3:\"foo\";" + ("i:1;R:4;" + ("i:2;R:3;" + "i:3;R:3;")), []))
  {
    var es := AliasedEntries();
    AliasedEntry0();
    AliasedEntry1();
    AliasedEntry2();
    AliasedEntry3();
    var none: seq<Notice> := [];
    assert none + none == none;
    assert EncodeEntries(es, 4) == Ok(Nothing);
    assert "i:3;R:3;" + [] == "i:3;R:3;";
    assert EncodeEntries(es, 3) == Ok(Encoded("i:3;R:3;", none));
    assert EncodeEntries(es, 2) == Ok(Encoded("i:2;R:3;" + "i:3;R:3;", none));
    assert EncodeEntries(es, 1) == Ok(Encoded("i:1;R:4;" + ("i:2;R:3;" + "i:3;R:3;"), none));
  }

  lemma ArrayHeader(inner: Bytes)
    ensures ArrayText(4, inner) == "a:4:{" + inner + "}"
  {
    SmallDecimals();
    assert ArrayText(4, inner) == "a:" + ("4" + ":{" + inner + "}");
  }

  lemma ArrayValue(es: seq<Entry>)
    ensures Serialize(Arr(es)) == EncodeArray(es)
  {
  }

  lemma ArrayOfEntriesText(es: seq<Entry>, inner: Encoded)
    requires EncodeEntries(es, 0) == Ok(inner)
    ensures EncodeArray(es) == Ok(Encoded(ArrayText(|es|, inner.text), inner.notices))
  {
  }

  /** The array's text around the text of its entries. */
  lemma ArrayOfEntries(es: seq<Entry>, inner: Encoded)
    requires EncodeEntries(es, 0) == Ok(inner)
    ensures Serialize(Arr(es)) == Ok(Encoded(ArrayText(|es|, inner.text), inner.notices))
  {
    ArrayValue(es);
    ArrayOfEntriesText(es, inner);
  }

  /** Every entry of the group is written as a back-reference, so "bar"
      itself is never written:
      `a:4:{i:0;s:3:"foo";i:1;R:4;i:2;R:3;i:3;R:3;}`. */
  lemma SelfReferencingArrayScenario()
    ensures Serialize(Arr(AliasedEntries())) ==
      Ok(Encoded("a:4:{" + ("i:0;s:3:\"foo\";" + ("i:1;R:4;" + ("i:2;R:3;" + "i:3;R:3;"))) + "}", []))
  {
    var inner := "i:0;s:3:\"foo\";" + ("i:1;R:4;" + ("i:2;R:3;" + "i:3;R:3;"));
    AliasedEntriesText();
    ArrayOfEntries(AliasedEntries(), Encoded(inner, []));
    ArrayHeader(inner);
  }

  /** `$x = [NAN]; $a = [&$x, &$x];`: both entries share the cell of `$x`,
      whose array holds NaN. */
  function NanArrayEntries(): seq<Entry> {
    [Entry(IntKey(0), 0, Arr([Entry(IntKey(0), 1, Float(NaN))])),
     Entry(IntKey(1), 0, Arr([Entry(IntKey(0), 1, Float(NaN))]))]
  }

  /** Read from the same cell, the array is identical to itself although
      its element is not, so each entry points at the other. */
  lemma NanArrayPositions()
    ensures ReferencePosition(NanArrayEntries(), 0) == Some(3)
    ensures ReferencePosition(NanArrayEntries(), 1) == Some(2)
  {
    var es := NanArrayEntries();
    assert AliasOf(es, 0, 1) && AliasOf(es, 1, 0);
  }

  lemma NanArrayEntry0()
    ensures EncodeEntry(NanArrayEntries(), 0) == Ok(Encoded("i:0;R:3;", []))
  {
    NanArrayPositions();
    SmallDecimals();
    assert SerializeKey(IntKey(0)) == "i:0;";
    assert BackReference(3) == "R:3;";
    assert "i:0;" + "R:3;" == "i:0;R:3;";
  }

  lemma NanArrayEntry1()
    ensures EncodeEntry(NanArrayEntries(), 1) == Ok(Encoded("i:1;R:2;", []))
  {
    NanArrayPositions();
    SmallDecimals();
    assert SerializeKey(IntKey(1)) == "i:1;";
    assert BackReference(2) == "R:2;";
    assert "i:1;" + "R:2;" == "i:1;R:2;";
  }

  /** `a:2:{i:0;R:3;i:1;R:2;}`: the array `$x` is never written. */
  lemma NanArrayScenario()
    ensures Serialize(Arr(NanArrayEntries())) == Ok(Encoded("a:2:{" + ("i:0;R:3;" + "i:1;R:2;") + "}", []))
  {
    var es := NanArrayEntries();
    SmallDecimals();
    NanArrayEntry0();
    NanArrayEntry1();
    var none: seq<Notice> := [];
    assert none + none == none;
    assert "i:1;R:2;" + [] == "i:1;R:2;";
    assert EncodeEntries(es, 2) == Ok(Nothing);
    assert EncodeEntries(es, 1) == Ok(Encoded("i:1;R:2;", none));
    assert EncodeEntries(es, 0) == Ok(Encoded("i:0;R:3;" + "i:1;R:2;", none));
    var inner := "i:0;R:3;" + "i:1;R:2;";
    ArrayOfEntries(es, Encoded(inner, none));
    assert |es| == 2;
    assert ArrayText(2, inner) == "a:" + ("2" + ":{" + inner + "}");
    assert "a:" + ("2" + ":{" + inner + "}") == "a:2:{" + inner + "}";
  }

  /** `$n = NAN; $a = [&$n, &$n];`: the float NaN is not identical to itself
      even when read twice from one cell, so neither entry is a reference
      and NaN is written twice. */
  lemma NanFloatPositions()
    ensures ReferencePosition([Entry(IntKey(0), 0, Float(NaN)), Entry(IntKey(1), 0, Float(NaN))], 0) == None
    ensures ReferencePosition([Entry(IntKey(0), 0, Float(NaN)), Entry(IntKey(1), 0, Float(NaN))], 1) == None
  {
  }

  /** A stdClass instance whose property `a` holds the instance itself. */
  function SelfReferencingObject(): Object {
    Object(1, "stdClass", [Property("a", Public, false, "stdClass", SelfRef)], [], None, None)
  }

  lemma SelfReferencingFields()
    ensures SelectFields(SelfReferencingObject()) == Ok(Selection(SelfReferencingObject().properties, []))
  {
    var o := SelfReferencingObject();
    assert OwnProperties(o) == o.properties;
    assert ParentPrivateProperties(o) == [];
    assert o.properties + [] == o.properties;
  }

  lemma SelfReferencingFieldText()
    ensures EncodeFields(SelfReferencingObject(), SelfReferencingObject().properties, 0) ==
      Ok(Encoded("s:1:\"a\";r:1;", []))
  {
    var o := SelfReferencingObject();
    var p := o.properties[0];
    SmallDecimals();
    assert MangledName(p) == "a";
    assert SerializeString("a") == "s:1:\"a\";";
    assert EncodeFields(o, o.properties, 1) == Ok(Nothing);
    assert "s:1:\"a\";" + "r:1;" == "s:1:\"a\";r:1;";
    assert EncodeField(o, p) == Ok(Encoded("s:1:\"a\";r:1;", []));
    assert "s:1:\"a\";r:1;" + [] == "s:1:\"a\";r:1;";
    var none: seq<Notice> := [];
    assert none + none == none;
  }

  lemma StdClassHeader(inner: Bytes)
    ensures ObjectText("stdClass", 1, inner) == "O:8:\"stdClass\":1:{" + inner + "}"
  {
    SmallDecimals();
    assert ClassHeader("stdClass") == "8:\"stdClass\":";
    assert Braced(1, inner) == "1:{" + inner + "}";
  }

  /** The field is written as `r:1;`: `O:8:"stdClass":1:{s:1:"a";r:1;}`. */
  lemma SelfReferencingObjectScenario()
    ensures Serialize(Obj(SelfReferencingObject())) ==
      Ok(Encoded("O:8:\"stdClass\":1:{" + "s:1:\"a\";r:1;" + "}", []))
  {
    SelfReferencingFields();
    SelfReferencingFieldText();
    StdClassHeader("s:1:\"a\";r:1;");
    var none: seq<Notice> := [];
    assert none + none == none;
  }

  /** The properties of the test fixture `ClassWithSleep` (declared in
      class `c`), in declaration order; `d`, `e` and `f` are static. */
  function SleepFixtureProperties(c: Bytes): seq<Property> {
    [Property("a", Public, false, c, Holds(Int(1))),
     Property("b", Protected, false, c, Holds(Str("two"))),
     Property("c", Private, false, c, Holds(Arr([Entry(IntKey(0), 0, Str("three")), Entry(IntKey(1), 1, Int(3))]))),
     Property("d", Public, true, c, Holds(Int(4))),
     Property("e", Protected, true, c, Holds(Str("five"))),
     Property("f", Private, true, c, Holds(Arr([Entry(IntKey(0), 0, Str("six")), Entry(IntKey(1), 1, Int(6))])))]
  }

  function SleepFixture(c: Bytes, keep: seq<Bytes>): Object {
    Object(2, c, SleepFixtureProperties(c), [], None, Some(SleepNames(keep)))
  }

  lemma FilterStep<T(!new)>(s: seq<T>, keep: T -> bool)
    requires s != []
    ensures Filter(s, keep) == if keep(s[0]) then [s[0]] + Filter(s[1..], keep) else Filter(s[1..], keep)
  {
  }

  lemma SleepFixtureOwnProperties(c: Bytes, keep: seq<Bytes>)
    ensures
      var ps := SleepFixtureProperties(c);
      OwnProperties(SleepFixture(c, keep)) == [ps[0], ps[1], ps[2]]
  {
    var ps := SleepFixtureProperties(c);
    var k := (p: Property) => !p.isStatic;
    FilterStep(ps[5..], k);
    assert ps[5..][1..] == [];
    FilterStep(ps[4..], k);
    assert ps[4..][1..] == ps[5..];
    FilterStep(ps[3..], k);
    assert ps[3..][1..] == ps[4..];
    FilterStep(ps[2..], k);
    assert ps[2..][1..] == ps[3..];
    FilterStep(ps[1..], k);
    assert ps[1..][1..] == ps[2..];
    FilterStep(ps, k);
  }

  lemma SleepFixtureOwnNames(c: Bytes, keep: seq<Bytes>)
    ensures Names(OwnProperties(SleepFixture(c, keep))) == ["a", "b", "c"]
  {
    SleepFixtureOwnProperties(c, keep);
  }

  /** Keeping the own properties `__sleep` names, in declaration order. */
  lemma SleepFixtureKept(c: Bytes, keep: seq<Bytes>)
    requires keep == ["a", "c"] || keep == ["a", "d"]
    ensures
      var ps := SleepFixtureProperties(c);
      Filter([ps[0], ps[1], ps[2]], (p: Property) => p.name in keep) ==
        if keep == ["a", "c"] then [ps[0], ps[2]] else [ps[0]]
  {
    var ps := SleepFixtureProperties(c);
    var own := [ps[0], ps[1], ps[2]];
    var k := (p: Property) => p.name in keep;
    FilterStep(own[2..], k);
    assert own[2..][1..] == [];
    FilterStep(own[1..], k);
    assert own[1..][1..] == own[2..];
    FilterStep(own, k);
  }

  /** `__sleep` returning `['a', 'c']`: the fields are `a` and `c`, and no
      notice is raised. */
  lemma SleepScenario(c: Bytes)
    ensures
      var ps := SleepFixtureProperties(c);
      SelectFields(SleepFixture(c, ["a", "c"])) == Ok(Selection([ps[0], ps[2]], []))
  {
    var keep: seq<Bytes> := ["a", "c"];
    var o := SleepFixture(c, keep);
    var ps := SleepFixtureProperties(c);
    SleepFixtureOwnProperties(c, keep);
    SleepFixtureOwnNames(c, keep);
    SleepFixtureKept(c, keep);
    assert FirstMissing(keep, ["a", "b", "c"]) == 2;
    assert ParentPrivateProperties(o) == [];
    assert [ps[0], ps[2]] + [] == [ps[0], ps[2]];
  }

  /** `__sleep` returning `['a', 'd']`, where `d` is static: only `a` is
      written, and one notice names `d`. */
  lemma SleepStaticMemberScenario(c: Bytes)
    ensures
      var ps := SleepFixtureProperties(c);
      SelectFields(SleepFixture(c, ["a", "d"])) ==
        Ok(Selection([ps[0]], [MissingSleepMember("d")]))
  {
    var keep: seq<Bytes> := ["a", "d"];
    var o := SleepFixture(c, keep);
    var ps := SleepFixtureProperties(c);
    SleepFixtureOwnProperties(c, keep);
    SleepFixtureOwnNames(c, keep);
    SleepFixtureKept(c, keep);
    assert FirstMissing(keep, ["a", "b", "c"]) == 1;
    assert ParentPrivateProperties(o) == [];
    assert [ps[0]] + [] == [ps[0]];
  }

  /** `[1, function () {}]`: the closure ends the call, and the text of
      the entry before it is lost. */
  lemma ClosureInArrayScenario(closure: nat)
    ensures Serialize(Arr([Entry(IntKey(0), 0, Int(1)), Entry(IntKey(1), 1, Closure(closure))])) ==
      Err(ClosureNotAllowed)
  {
    var es := [Entry(IntKey(0), 0, Int(1)), Entry(IntKey(1), 1, Closure(closure))];
    assert !AliasOf(es, 1, 0);
    assert ReferencePosition(es, 1).None?;
    assert !EntryRefused(es, 0);
    EntryErrorPropagates(es, 0, 1);
  }

  /** Two entries bound by reference to one closure: both are written as
      back-references, so the closure is never reached and the call
      succeeds. */
  lemma AliasedClosureScenario(closure: nat)
    ensures Serialize(Arr([Entry(IntKey(0), 0, Closure(closure)), Entry(IntKey(1), 0, Closure(closure))])).Ok?
  {
    var es := [Entry(IntKey(0), 0, Closure(closure)), Entry(IntKey(1), 0, Closure(closure))];
    assert AliasOf(es, 0, 1) && AliasOf(es, 1, 0);
    assert !EntryRefused(es, 0) && !EntryRefused(es, 1);
    FailsExactlyWhenRefused(Arr(es));
  }
}
