/**
 * When a call of the serializer ends in an exception: a closure the encoder
 * reaches (src/Serializer.php:38-40), a class whose name
 * starts with `class@anonymous` (src/Serializer.php:180-182), or a `__sleep` result that is not an array
 * (src/Serializer.php:220-227). The exception leaves no text behind, since
 * `Result.Err` carries none, and one reached anywhere inside a value ends
 * the whole call.
 */
module Failures {
  import opened Text
  import opened Values
  import opened Outcomes
  import opened References
  import opened Fields
  import opened Serializer

  /** `v` holds, at a place the encoder writes out, something it refuses.
      An array entry written as `R:<p>;` and a field written as `r:1;` are
      not written out, so what they hold is never looked at. */
  ghost predicate Refused(v: Value)
    decreases v, 3
  {
    match v
    case Closure(_) => true
    case Arr(es) => SomeEntryRefused(es, 0)
    case Obj(o) => ObjectRefused(o)
    case _ => false
  }

  /** Some entry from `from` on is written out and refused. */
  ghost predicate SomeEntryRefused(es: seq<Entry>, from: nat)
    decreases Arr(es), 1
  {
    exists i | from <= i < |es| :: EntryRefused(es, i)
  }

  ghost predicate EntryRefused(es: seq<Entry>, i: nat)
    requires i < |es|
    decreases Arr(es), 0
  {
    ReferencePosition(es, i).None? && Refused(es[i].value)
  }

  /** A class named `class@anonymous...` is refused whatever hooks it has; a Serializable
      object never shows its fields; otherwise a non-array `__sleep` result
      or a refused field value ends the call. */
  ghost predicate ObjectRefused(o: Object)
    decreases Obj(o), 2
  {
    || IsAnonymous(o.className)
    || (o.serializable.None? &&
        (|| o.sleep == Some(NotAnArray)
         || SomeFieldRefused(o, SelectFields(o).value.fields, 0)))
  }

  /** Some field of `fs` from `from` on holds a refused value. */
  ghost predicate SomeFieldRefused(o: Object, fs: seq<Property>, from: nat)
    requires FieldsOf(o, fs)
    decreases Obj(o), 1
  {
    exists i | from <= i < |fs| :: FieldRefused(o, fs[i])
  }

  ghost predicate FieldRefused(o: Object, p: Property)
    requires p in o.properties || p in o.parentProperties
    decreases Obj(o), 0
  {
    !IsThisObject(p.value, o) && Refused(p.value.v)
  }

  /** A call fails exactly when the value holds something refused at a
      place the encoder writes out. */
  lemma {:induction false} FailsExactlyWhenRefused(v: Value)
    ensures Serialize(v).Err? <==> Refused(v)
    decreases v, 3
  {
    match v
    case Arr(es) =>
      EntriesFail(es, 0);
    case Obj(o) =>
      ObjectFails(o);
    case _ =>
  }

  lemma {:induction false} EntriesFail(es: seq<Entry>, from: nat)
    requires from <= |es|
    ensures EncodeEntries(es, from).Err? <==> SomeEntryRefused(es, from)
    decreases Arr(es), 1, |es| - from
  {
    if from < |es| {
      EntriesFail(es, from + 1);
      assert EncodeEntry(es, from).Err? <==> EntryRefused(es, from) by {
        if ReferencePosition(es, from).None? {
          FailsExactlyWhenRefused(es[from].value);
        }
      }
      assert SomeEntryRefused(es, from) <==> EntryRefused(es, from) || SomeEntryRefused(es, from + 1);
    }
  }

  lemma {:induction false} ObjectFails(o: Object)
    ensures EncodeObject(o).Err? <==> ObjectRefused(o)
    decreases Obj(o), 2
  {
    if !IsAnonymous(o.className) && o.serializable.None? && o.sleep != Some(NotAnArray) {
      SelectedFieldsOf(o);
      FieldsFail(o, SelectFields(o).value.fields, 0);
    }
  }

  lemma {:induction false} FieldsFail(o: Object, fs: seq<Property>, from: nat)
    requires FieldsOf(o, fs) && from <= |fs|
    ensures EncodeFields(o, fs, from).Err? <==> SomeFieldRefused(o, fs, from)
    decreases Obj(o), 1, |fs| - from
  {
    if from < |fs| {
      FieldsFail(o, fs, from + 1);
      var p := fs[from];
      assert p in o.properties || p in o.parentProperties;
      assert EncodeField(o, p).Err? <==> FieldRefused(o, p) by {
        if !IsThisObject(p.value, o) {
          FailsExactlyWhenRefused(p.value.v);
        }
      }
      assert SomeFieldRefused(o, fs, from) <==> FieldRefused(o, p) || SomeFieldRefused(o, fs, from + 1);
    }
  }

  /** The exception of the first entry written out that fails reaches the
      caller unchanged: nothing before it is kept. */
  lemma {:induction false} EntryErrorPropagates(es: seq<Entry>, from: nat, i: nat)
    requires from <= i < |es|
    requires forall j | from <= j < i :: !EntryRefused(es, j)
    requires ReferencePosition(es, i).None? && Serialize(es[i].value).Err?
    ensures EncodeEntries(es, from) == Err(Serialize(es[i].value).error)
    decreases i - from
  {
    if from < i {
      EntryErrorPropagates(es, from + 1, i);
      assert !EntryRefused(es, from);
      if ReferencePosition(es, from).None? {
        FailsExactlyWhenRefused(es[from].value);
      }
      assert EncodeEntry(es, from).Ok?;
    } else {
      assert EncodeEntry(es, i) == Err(Serialize(es[i].value).error);
    }
  }

  /** The same for the fields of an object. */
  lemma {:induction false} FieldErrorPropagates(o: Object, fs: seq<Property>, from: nat, i: nat)
    requires FieldsOf(o, fs) && from <= i < |fs|
    requires forall j | from <= j < i :: !FieldRefused(o, fs[j])
    requires !IsThisObject(fs[i].value, o) && Serialize(fs[i].value.v).Err?
    ensures EncodeFields(o, fs, from) == Err(Serialize(fs[i].value.v).error)
    decreases i - from
  {
    var p := fs[from];
    assert p in o.properties || p in o.parentProperties;
    if from < i {
      FieldErrorPropagates(o, fs, from + 1, i);
      FieldWritten(o, p);
      FieldsAfterWritten(o, fs, from, Serialize(fs[i].value.v).error);
    } else {
      FieldFailsHere(o, fs, i);
    }
  }

  lemma FieldsAfterWritten(o: Object, fs: seq<Property>, from: nat, e: Error)
    requires FieldsOf(o, fs) && from < |fs|
    requires fs[from] in o.properties || fs[from] in o.parentProperties
    requires EncodeField(o, fs[from]).Ok? && EncodeFields(o, fs, from + 1) == Err(e)
    ensures EncodeFields(o, fs, from) == Err(e)
  {
  }

  lemma FieldFailsHere(o: Object, fs: seq<Property>, i: nat)
    requires FieldsOf(o, fs) && i < |fs|
    requires fs[i] in o.properties || fs[i] in o.parentProperties
    requires !IsThisObject(fs[i].value, o) && Serialize(fs[i].value.v).Err?
    ensures EncodeFields(o, fs, i) == Err(Serialize(fs[i].value.v).error)
  {
  }

  lemma FieldWritten(o: Object, p: Property)
    requires p in o.properties || p in o.parentProperties
    requires !FieldRefused(o, p)
    ensures EncodeField(o, p).Ok?
    decreases Obj(o), 0
  {
    if !IsThisObject(p.value, o) {
      FailsExactlyWhenRefused(p.value.v);
    }
  }
}
