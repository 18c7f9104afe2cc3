/**
 * The default object encoding's field list (src/Serializer.php:196-248) and
 * the name mangling of its fields (src/Serializer.php:252-260).
 */
module Fields {
  import opened Text
  import opened Values
  import opened Outcomes

  /** `array_filter`: the elements that pass, in their order. */
  function Filter<T(!new)>(s: seq<T>, keep: T -> bool): (r: seq<T>)
    ensures |r| <= |s|
    ensures forall x :: x in r <==> x in s && keep(x)
  {
    if s == [] then []
    else if keep(s[0]) then [s[0]] + Filter(s[1..], keep)
    else Filter(s[1..], keep)
  }

  /** Filtering keeps the input's order: the filtered parts of a split
      list, one after the other. */
  lemma {:induction false} FilterAppend<T(!new)>(a: seq<T>, b: seq<T>, keep: T -> bool)
    ensures Filter(a + b, keep) == Filter(a, keep) + Filter(b, keep)
  {
    if a != [] {
      assert (a + b)[0] == a[0];
      assert (a + b)[1..] == a[1..] + b;
      FilterAppend(a[1..], b, keep);
    } else {
      assert a + b == b;
    }
  }

  /** One element is kept once when it passes and dropped otherwise; with
      `FilterAppend` this fixes the result of every filter. */
  lemma FilterSingleton<T(!new)>(x: T, keep: T -> bool)
    ensures Filter([x], keep) == if keep(x) then [x] else []
  {
    assert [x][1..] == [];
  }

  function Names(ps: seq<Property>): (r: seq<Bytes>)
    ensures |r| == |ps| && forall i | 0 <= i < |ps| :: r[i] == ps[i].name
  {
    if ps == [] then [] else [ps[0].name] + Names(ps[1..])
  }

  /** The index of the first name of `names` that is not in `known` (the
      one the notice reports: `reset` of the `array_diff`), or |names| when
      every name is known. */
  function FirstMissing(names: seq<Bytes>, known: seq<Bytes>): (i: nat)
    ensures i <= |names|
    ensures forall j | 0 <= j < i :: names[j] in known
    ensures i < |names| ==> names[i] !in known
  {
    if names == [] || names[0] !in known then 0
    else 1 + FirstMissing(names[1..], known)
  }

  /** The object's own non-static properties (`getProperties()` without the
      static ones). */
  function OwnProperties(o: Object): seq<Property> {
    Filter(o.properties, (p: Property) => !p.isStatic)
  }

  /** The parent class's non-static private properties. */
  function ParentPrivateProperties(o: Object): seq<Property> {
    Filter(o.parentProperties, (p: Property) => p.visibility == Private && !p.isStatic)
  }

  /** `in_array($property->getName(), $propertiesToKeep, true)` */
  function NamedIn(keep: seq<Bytes>): Property -> bool {
    (p: Property) => p.name in keep
  }

  /** The fields the default encoding writes and the notices raised while
      choosing them. */
  datatype Selection = Selection(fields: seq<Property>, notices: seq<Notice>)

  /** Own non-static properties, kept only if `__sleep` names them when the
      class has `__sleep`, followed by the parent's non-static private
      properties, which `__sleep` never filters. A name `__sleep` returns
      that is not an own non-static property raises one notice naming the
      first such name; a `__sleep` result that is not an array ends the call. */
  function SelectFields(o: Object): (r: Result<Selection>)
    ensures r.Err? <==> o.sleep == Some(NotAnArray)
    ensures r.Ok? ==> forall p ::
      p in r.value.fields <==>
        || (p in o.properties && !p.isStatic && (o.sleep.Some? ==> p.name in o.sleep.value.names))
        || (p in o.parentProperties && p.visibility == Private && !p.isStatic)
    ensures r.Ok? ==> |r.value.notices| <= 1
    ensures r.Ok? && o.sleep.None? ==> r.value.notices == []
    ensures r.Ok? && o.sleep.Some? ==>
      (r.value.notices == [] <==>
        forall i | 0 <= i < |o.sleep.value.names| :: o.sleep.value.names[i] in Names(OwnProperties(o)))
    ensures r.Ok? && o.sleep.Some? && r.value.notices != [] ==>
      var names := o.sleep.value.names;
      var i := FirstMissing(names, Names(OwnProperties(o)));
      i < |names| && r.value.notices == [MissingSleepMember(names[i])]
    ensures r.Ok? && o.sleep.None? ==> r.value.fields == OwnProperties(o) + ParentPrivateProperties(o)
    ensures r.Ok? && o.sleep.Some? ==>
      r.value.fields == Filter(OwnProperties(o), NamedIn(o.sleep.value.names)) + ParentPrivateProperties(o)
  {
    var own := OwnProperties(o);
    var parent := ParentPrivateProperties(o);
    match o.sleep
    case None => Ok(Selection(own + parent, []))
    case Some(NotAnArray) => Err(SleepNotArray)
    case Some(SleepNames(keep)) =>
      var missing := FirstMissing(keep, Names(own));
      var notices := if missing < |keep| then [MissingSleepMember(keep[missing])] else [];
      Ok(Selection(Filter(own, NamedIn(keep)) + parent, notices))
  }

  /** The name a field is written under: public unchanged, protected as
      `\0*\0name`, private as `\0<declaring class>\0name`. */
  function MangledName(p: Property): (m: Bytes)
    ensures |m| >= |p.name| && m[|m| - |p.name|..] == p.name
    ensures p.visibility == Public ==> m == p.name
    ensures p.visibility == Protected ==> |m| == |p.name| + 3 && m[..3] == "\0*\0"
    ensures p.visibility == Private ==>
      |m| == |p.declaringClass| + |p.name| + 2 && m[0] == '\0' && m[1 + |p.declaringClass|] == '\0' &&
      m[1..1 + |p.declaringClass|] == p.declaringClass
  {
    if p.visibility == Protected then "\0*\0" + p.name
    else if p.visibility == Private then "\0" + p.declaringClass + "\0" + p.name
    else p.name
  }

  predicate NulFree(s: Bytes) {
    forall i | 0 <= i < |s| :: s[i] != '\0'
  }

  /** The index of the first NUL byte, or |s| when there is none. */
  function NulIndex(s: Bytes): (n: nat)
    ensures n <= |s|
  {
    if s == [] || s[0] == '\0' then 0 else 1 + NulIndex(s[1..])
  }

  /** Reads a mangled name back: its visibility, the declaring class for a
      private one, and the bare name. */
  function Demangle(m: Bytes): (Visibility, Bytes, Bytes) {
    if |m| >= 3 && m[..3] == "\0*\0" then (Protected, [], m[3..])
    else if |m| >= 1 && m[0] == '\0' && NulIndex(m[1..]) < |m| - 1 then
      var n := NulIndex(m[1..]);
      (Private, m[1..1 + n], m[n + 2..])
    else (Public, [], m)
  }

  lemma {:induction false} NulIndexAfter(a: Bytes, b: Bytes)
    requires NulFree(a)
    ensures NulIndex(a + ['\0'] + b) == |a|
  {
    if a != [] {
      assert (a + ['\0'] + b)[1..] == a[1..] + ['\0'] + b;
      NulIndexAfter(a[1..], b);
    }
  }

  /** A property is read back from its mangled name when a public name does
      not start with NUL and a private one's declaring class holds no NUL
      (PHP property and class names hold none). The class name `*` is not a
      PHP class name. */
  lemma DemangleMangledName(p: Property)
    requires p.visibility == Public ==> p.name == [] || p.name[0] != '\0'
    requires p.visibility == Private ==> NulFree(p.declaringClass) && p.declaringClass != "*"
    ensures Demangle(MangledName(p)) ==
      (p.visibility, if p.visibility == Private then p.declaringClass else [], p.name)
  {
    match p.visibility
    case Protected =>
      var m := MangledName(p);
      assert m[..3] == "\0*\0" && m[3..] == p.name;
    case Private =>
      DemanglePrivate(p.declaringClass, p.name);
    case Public =>
  }

  /** `\0<class>\0<name>` splits at the NUL that ends the class. */
  lemma DemanglePrivate(c: Bytes, name: Bytes)
    requires NulFree(c) && c != "*"
    ensures Demangle("\0" + c + "\0" + name) == (Private, c, name)
  {
    var m := "\0" + c + "\0" + name;
    assert m == ['\0'] + (c + ['\0'] + name);
    assert m[1..] == c + ['\0'] + name;
    assert |c| == 0 ==> m[1] == '\0';
    assert |c| == 1 ==> m[1] == c[0] && c == [c[0]] && m[2] == '\0';
    assert |c| >= 2 ==> m[2] == c[1];
    assert !(|m| >= 3 && m[..3] == "\0*\0");
    NulIndexAfter(c, name);
    assert m[1..1 + |c|] == c;
    assert m[|c| + 2..] == name;
  }
}
