# A verified model of the PHP serializer

This project models `Ntzm\Serializer\Serializer` (src/Serializer.php). It is a
reimplementation, in PHP, of the engine's `serialize()`: it turns a PHP value
into the engine's textual serialization format. The model follows the code
method by method:

- `serialize` dispatches on the value's type, in the source's order. A
  closure is refused first. Then come null, the booleans, strings,
  integers, floats, arrays, objects and open resources.
- `serializeString`, `serializeInt` and `serializeFloat` write the scalar
  tokens `s:<len>:"<bytes>";`, `i:<n>;` and `d:...;`.
- `serializeArray` writes `a:<count>:{...}`. Each entry is its key followed
  by its value, or by `R:<position>;` when `getReferencePosition` finds
  another entry bound to it by reference.
- `getReferencePosition` finds such an entry. It first tests `!==`. It then
  writes a fresh probe object into the entry's storage cell, checks whether
  the other entry sees it, and puts the old value back.
- `serializeObject` handles objects in this order:
  - it refuses classes whose name starts with `class@anonymous` (the
    `strpos` test). Under PHP 8 an anonymous class that extends a class or
    implements an interface is named after that parent or interface (for
    example `Serializable@anonymous`), so this test lets it through;
  - it writes Serializable objects as `C:<len>:"<class>":<len>:{<payload>}`;
  - otherwise it chooses the fields to write: the own non-static
    properties, filtered by `__sleep` when present, then the parent's
    private ones;
  - it mangles each field's name by its visibility;
  - it writes `r:1;` for a field that holds the object itself.

PHP values are modelled as a datatype (module `Values`):

- An array entry carries the storage cell it lives in. Two entries bound
  with `&` share a cell.
- An object is a descriptor: its instance id and class name; the
  properties reflection reports for its class and for its parent class,
  each with its value; the payload its `Serializable::serialize()` returns;
  and what its `__sleep()` returns.
- PHP strings are byte strings, `seq<Byte>`.

A call produces an `Encoded` value or an `Error`:

- `Encoded` is the text plus the notices raised on the way (`trigger_error`).
- `Error` is the exception that ends the call. It keeps no partial text.

The parts of the code that update state step by step are imperative Dafny:

- the loops of `serializeArray` and of the field writer are
  `Serializer.SerializeArray` and `Serializer.SerializeObject`;
- the probe write and restore of `getReferencePosition` works on an
  `array` of cells, in `References.GetReferencePosition` and
  `References.SharesCell`.

Each method is proved equal to the function that defines it: `EncodeArray`,
`EncodeObject`, or `ReferencePosition`.

These defining functions have three kinds of partners:

- a reader for the format, in module `Wire`. Every text the encoder
  produces reads back as the token tree of the value it came from, with
  nothing missing and nothing left over. So the declared lengths and counts
  are exact.
- an exact characterisation of when a call fails (module `Failures`).
- worked values from the repository's test suite (module `Scenarios`).

Three behaviours of the code as written are easy to misread; the model keeps
each of them as written:

- **Back-references cover every entry of an aliased group.**
  `getReferencePosition` scans every OTHER entry of the array, later ones
  included, and returns the first match. So the first entry of a group
  bound by reference points forward, and the shared value is never written
  in full.
  - The test value `['foo', 'bar']`, with entries 2 and 3 bound to entry 1,
    encodes as `a:4:{i:0;s:3:"foo";i:1;R:4;i:2;R:3;i:3;R:3;}`.
  - The engine's own `serialize()` writes `i:1;s:3:"bar";` there. The
    test 'self-referencing array' (tests/SerializerTest.php:70-74) compares
    the two outputs (line 34), so on this value the two differ.
  - The model follows the code (`References.AliasedEntriesAllReferenced`,
    `Scenarios.SelfReferencingArrayScenario`).
  - Two reads of one cell see the same array, and `===` accepts the same
    array without comparing its entries. So an array holding NaN, bound
    twice by reference, is still written as back-references
    (`Scenarios.NanArrayScenario`). Only the float NaN itself is never
    `===`, even to itself, so it is written in full each time.
- **A missing `__sleep` name.** The code raises one notice naming the first
  missing name and goes on writing the fields that remain.
- **Only the object itself is detected.** Inside an object, only a field
  holding the object being encoded becomes `r:1;`. Any other object is
  written out again each time it is reached. Because a back-referenced
  array entry is never looked at, two entries bound to one closure do not
  raise the closure exception (`Scenarios.AliasedClosureScenario`).

Modules, one file each:

- `Text`: bytes, decimal text and its reader.
- `Values`: PHP values and `===`.
- `Outcomes`: errors, notices and results.
- `Fields`: field selection and name mangling.
- `References`: the back-reference scan.
- `Serializer`: the encoder.
- `Wire`: the format's reader.
- `Failures`: when a call throws.
- `Scenarios`: concrete values.

## Model

| member | source | states |
|---|---|---|
| Serializer.StartsWithTypeTag | src/Serializer.php:36-77 | every token written starts with its type's letter (`N`, `b`, `i`, `d`, `s`, `a`, `C` or `O`, and `i` for an open resource), and a closure is never written |
| Serializer.SerializeString | src/Serializer.php:79-82 | a string token starts with `s:` |
| Serializer.StringDeclaresLength | src/Serializer.php:79-82 | the length a string token declares is the byte count of the string, and `:"`, the bytes unchanged and `";` follow it |
| Serializer.SerializeInt | src/Serializer.php:84-87 | an integer token starts with `i:` |
| Serializer.IntReadsBack | src/Serializer.php:84-87 | the number of an integer token reads back as the integer, negative ones included, and `;` ends it |
| Serializer.SerializeFloat | src/Serializer.php:89-111 | a float token starts with `d:` and ends with `;`, and that `;` is its only one |
| Serializer.IsAnonymous | src/Serializer.php:180 | `strpos($className, 'class@anonymous') === 0` holds exactly when the name starts with `class@anonymous` |
| Text.IndexOf | src/Serializer.php:180 | `strpos`: the index returned is where the needle occurs, and no earlier index has it; None only when it occurs nowhere |
| Text.FoundAtStart | src/Serializer.php:180 | `strpos` returns 0 exactly when the haystack starts with the needle |
| Text.NatText | src/Serializer.php:81 | the `%d` text of a count or length is at least one digit, all digits, with a leading `0` only for zero |
| Text.DecimalText | src/Serializer.php:86 | the `%d` text of an integer has a `-` exactly when it is negative, then digits with no leading zero; zero is `0` |
| Serializer.Serialize | src/Serializer.php:38-40 | a closure ends the call with the closure exception, before any other type test |
| Serializer.EncodeArray | src/Serializer.php:113-131 | an array's text starts with `a:` |
| Serializer.ArrayDeclaresEntries | src/Serializer.php:113-131 | an array's text declares exactly as many entries as the array has |
| Serializer.ArrayDeclaresCount | src/Serializer.php:130 | the `a:` header's count reads back and the braced entries follow it |
| Serializer.EncodeObject | src/Serializer.php:175-281 | a class named `class@anonymous...` ends the call with that exception whatever hooks it has (the test comes before the Serializable and `__sleep` handling); otherwise a written object's text starts with `C:` when it is Serializable and with `O:` otherwise |
| Serializer.ObjectDeclaresClassName | src/Serializer.php:175-281 | an object's text, in either form, declares the byte length of its class name |
| Serializer.CustomDeclaresName | src/Serializer.php:187-193 | the `C:` header's name length reads back and the quoted name and the braced payload follow it |
| Serializer.ObjectDeclaresName | src/Serializer.php:274-280 | the `O:` header's name length reads back and the quoted name and the braced fields follow it |
| Serializer.SerializeArray | src/Serializer.php:113-131 | the loop appending each key and its value, or `R:<p>;`, to `$inner`, then wrapping it in `a:<count>:{...}`, produces exactly `EncodeArray`; it returns the first exception a value raises |
| Serializer.SerializeObject | src/Serializer.php:175-281 | the object writer (anonymous check, Serializable form, field selection, the field loop with its mangled names and `r:1;`, the `O:` header with the field count) produces exactly `EncodeObject` |
| Serializer.EntryValueStep | src/Serializer.php:121-124 | one array-loop step that writes a value: the key's text then the value's text are appended and its notices kept, or the value's exception ends the array |
| Serializer.EntryReferenceStep | src/Serializer.php:121-127 | one array-loop step for a referenced entry appends the key's text then `R:<p>;` and raises nothing |
| Serializer.FieldSelfStep | src/Serializer.php:262-268 | a field holding the object itself appends its name's string token then `r:1;` |
| Serializer.FieldValueStep | src/Serializer.php:262-271 | any other field appends its name's string token then its value's text, or ends the object with the value's exception |
| References.GetReferencePosition | src/Serializer.php:133-172 | the scan counting positions from 2, skipping its own key and values that are `!==`, and probing the cell, returns `ReferencePosition` of the entry with that key and leaves every cell as it found it |
| References.SharesCell | src/Serializer.php:151-167 | writing the probe object into one cell and reading the other reports true exactly when both are the same cell, and the old value is restored |
| References.ReferencePosition | src/Serializer.php:133-172 | None exactly when no other entry shares the cell and holds a `===` value; otherwise 2 plus the index of the first such entry, before or after the entry itself |
| References.ScanForAlias | src/Serializer.php:138-169 | the scan from a given index on: None exactly when no entry from there on is an alias; otherwise the position of the first alias from there on |
| References.IndexOfKey | src/Serializer.php:139 | the entry `$i === $key` picks out holds that key, and no entry before it does |
| References.SeparateCellsNeverReferenced | src/Serializer.php:145-167 | equal values held in separate cells are never written as back-references |
| References.AliasedEntriesAllReferenced | src/Serializer.php:133-172 | in an array the engine built, an entry of a group bound by reference is written as `R:` exactly when its value is not the float NaN (an array holding NaN is still referenced); the group's first entry points forward to a later position |
| References.ReferencesArePaired | src/Serializer.php:138-165 | the entry that a back-reference names has a back-reference of its own |
| Values.Identical | src/Serializer.php:145 | `===` of values read from two different cells holds only for values of the same type, and never when either is the float NaN |
| Values.IdenticalSymmetric | src/Serializer.php:145 | `===` does not depend on the order of its operands |
| Fields.Filter | src/Serializer.php:197-202 | an element is in `array_filter`'s result exactly when it was given and passes, and the result is no longer than the input |
| Fields.FilterAppend | src/Serializer.php:197-202 | `array_filter` keeps the input's order: filtering two lists joined is filtering each and joining the results |
| Fields.FilterSingleton | src/Serializer.php:197-202 | a single element is kept once when it passes and dropped otherwise, so with `FilterAppend` the result is each passing element once, in order |
| Fields.Names | src/Serializer.php:228-230 | `array_map` of `getName` has one name per property, in order |
| Fields.FirstMissing | src/Serializer.php:226-236 | the name the notice reports is the first name `__sleep` returned that is not an own non-static property; every name before it is one |
| Fields.SelectFields | src/Serializer.php:196-248 | the fields are the own non-static properties in reflection order, only those `__sleep` names when it is present, followed by the parent's non-static private properties; at most one notice, raised exactly when `__sleep` names something else, and it names the first such name; a non-array `__sleep` result ends the call |
| Fields.MangledName | src/Serializer.php:252-260 | a public name is kept; a protected one gets the prefix `\0*\0`; a private one gets `\0<declaring class>\0`; the bare name always ends the result |
| Fields.DemangleMangledName | src/Serializer.php:252-260 | the mangled name (`\0*\0` for protected, `\0<class>\0` for private) gives back the visibility, the declaring class and the bare name |
| Wire.ParseSerialized | src/Serializer.php:36-77 | every text `serialize` returns reads back as the token tree of its value, followed by whatever came after it |
| Wire.ParseArray | src/Serializer.php:113-131 | an array's text reads back as exactly its entry count of items: keys, and values or back-reference positions |
| Wire.ParseEntries | src/Serializer.php:118-128 | the entries' texts read back, one key/value pair per entry, in order |
| Wire.ParseObject | src/Serializer.php:184-280 | an object's text reads back as its class name and payload (`C:`) or as its class name and its fields (`O:`) |
| Wire.ParseFields | src/Serializer.php:252-272 | the fields' texts read back as mangled names each followed by the value or the self-reference |
| Wire.ParseStringText | src/Serializer.php:79-82 | `s:<len>:"<bytes>";` reads back as the exact bytes, quotes in them included |
| Wire.ParseIntText | src/Serializer.php:84-87 | `i:<n>;` reads back as `n`, negative numbers included |
| Wire.ParseFloatText | src/Serializer.php:89-111 | the float tokens read back as the float's text, the non-finite ones as their words |
| Wire.ParseKeyText | src/Serializer.php:121 | an array key's text reads back as the key |
| Wire.ParseReferenceText | src/Serializer.php:126 | `R:<p>;` reads back as position `p` |
| Wire.ParseSelfReferenceText | src/Serializer.php:268 | `r:1;` reads back as a self-reference to position 1 |
| Wire.ParseCustomText | src/Serializer.php:187-193 | `C:<len>:"<class>":<len>:{<payload>}` reads back as the class name and payload, whatever bytes the payload holds |
| Wire.ParseArrayText | src/Serializer.php:130 | the `a:` header reads back around its items |
| Wire.ParseObjectText | src/Serializer.php:274-280 | the `O:` header reads back around its items |
| Text.DecimalTextRoundTrip | src/Serializer.php:86 | the `%d` text of any integer reads back as that integer |
| Failures.FailsExactlyWhenRefused | src/Serializer.php:38-40 | a call throws exactly when a closure, an object whose class name starts with `class@anonymous`, or a non-array `__sleep` result sits at a place the encoder writes out |
| Failures.EntriesFail | src/Serializer.php:118-128 | the entries fail exactly when one written out in full (not as `R:`) is refused |
| Failures.ObjectFails | src/Serializer.php:180-248 | an object fails exactly when its class name starts with `class@anonymous`, or when it is not Serializable and its `__sleep` result is not an array or one of its written fields is refused |
| Failures.FieldsFail | src/Serializer.php:252-272 | the fields fail exactly when one that does not hold the object itself holds something refused |
| Failures.EntryErrorPropagates | src/Serializer.php:118-128 | the exception of the first entry that fails reaches the caller unchanged |
| Failures.FieldErrorPropagates | src/Serializer.php:262-271 | the exception of the first field that fails reaches the caller unchanged |
| Scenarios.FixedTokens | src/Serializer.php:27-33 | null, true, false, INF, -INF, NAN and an open resource give `N;`, `b:1;`, `b:0;`, `d:INF;`, `d:-INF;`, `d:NAN;` and `i:0;` |
| Scenarios.StringScenarios | src/Serializer.php:79-82 | `""`, `"foo"` and `foo"bar` give `s:0:"";`, `s:3:"foo";` and `s:7:"foo"bar";` |
| Scenarios.IntScenarios | src/Serializer.php:84-87 | 0, 5 and -5 give `i:0;`, `i:5;` and `i:-5;` |
| Scenarios.EmptyArrayScenario | src/Serializer.php:113-131 | `[]` gives `a:0:{}` |
| Scenarios.AliasedPositions | src/Serializer.php:133-172 | in the test's self-referencing array, entry 0 is not referenced, entry 1 gets position 4 (entry 2, after it) and entries 2 and 3 get position 3 |
| Scenarios.SelfReferencingArrayScenario | src/Serializer.php:113-131 | the test's self-referencing array gives `a:4:{i:0;s:3:"foo";i:1;R:4;i:2;R:3;i:3;R:3;}` |
| Scenarios.NanArrayPositions | src/Serializer.php:133-172 | for `$x = [NAN]; [&$x, &$x]`, entry 0 gets position 3 and entry 1 gets position 2, although `$x` holds NaN |
| Scenarios.NanArrayScenario | src/Serializer.php:113-131 | that array gives `a:2:{i:0;R:3;i:1;R:2;}` |
| Scenarios.NanFloatPositions | src/Serializer.php:145 | for `$n = NAN; [&$n, &$n]`, neither entry is a back-reference |
| Scenarios.SelfReferencingObjectScenario | src/Serializer.php:266-268 | a stdClass whose property `a` holds itself gives `O:8:"stdClass":1:{s:1:"a";r:1;}` |
| Scenarios.SleepFixtureOwnProperties | src/Serializer.php:197-202 | of the fixture `ClassWithSleep`, the non-static properties `a`, `b`, `c` remain and the static `d`, `e`, `f` are dropped |
| Scenarios.SleepScenario | src/Serializer.php:217-248 | `ClassWithSleep`, whose `__sleep` returns `['a', 'c']`, writes fields `a` and `c` and raises no notice |
| Scenarios.SleepStaticMemberScenario | src/Serializer.php:226-244 | if that `__sleep` returns `['a', 'd']` with `d` static, only `a` is written and one notice names `d` |
| Scenarios.ClosureInArrayScenario | src/Serializer.php:38-40 | `[1, closure]` throws the closure exception and keeps no text |
| Scenarios.AliasedClosureScenario | src/Serializer.php:119-127 | two entries bound by reference to one closure are both written as `R:`, so the call succeeds |

## Left out

- Finite floats: the text of a finite float is taken as given. The model does not render it under `serialize_precision`, and the `ini_set` swap of `precision` (src/Serializer.php:103-110) is not modelled. The model only requires that the text contains no `;`.
- Reflection: `ReflectionObject`, `getParentClass` and `setAccessible` are replaced by the property descriptors an `Object` carries. The order of those lists is taken as reflection reports it.
- Closed resources: `is_resource` is false for them, so `serialize` falls off its end (src/Serializer.php:74-77). Every value of the model is one of the types the dispatcher tests.
- `__serialize`, `__unserialize` and incomplete classes: the code does not consult `__serialize`. An incomplete class is an ordinary class descriptor in the model, and its name mangling from unserialized data is not modelled.
- Serializable payloads: the code writes the payload's `strlen`. The model takes the payload as bytes and does not model a hook that returns a non-string.
- Notices: a notice is recorded in the result, and the call goes on as it does when notices are not turned into exceptions. A test harness that converts them into exceptions is not modelled.
- Fields.SelectFields: a `__sleep` result that is not an array ends the call with `SleepNotArray`, as under PHP 8, where the notice is followed by `array_diff` rejecting its argument. Under PHP 7, `array_diff` only warns, and the file's `strict_types=1` (src/Serializer.php:3) makes the `in_array` of the filter callback (src/Serializer.php:241-243) throw a TypeError for the first own non-static property. So PHP 7 goes on only when the object has no such property; that one path, which writes the parent's private properties alone, is not modelled.
- `__sleep` names that are not strings: the names are byte strings (`SleepNames` holds `seq<Bytes>`), so a name such as the integer `1` cannot be expressed. `array_diff` (src/Serializer.php:226) compares names as strings, but `in_array(..., true)` (src/Serializer.php:242) compares them strictly. So `[1]` against a property `"1"` drops the field without a notice, and the model does not capture that.
- Integer width: keys and integers are 64-bit (`Int64`). Overflow cannot occur in the code, since it only formats integers.
- Value graph: an object may hold itself, and no other cycle is modelled. An array or object reached twice through different objects is written twice, as the code does, so only the self-reference of a field to its own object is a cycle here. In the code any other cycle recurses without end: two objects holding each other, or an array holding a reference to itself that is reached through a path other than an aliased entry. Values in the model are finite trees, so they cannot express such a cycle.
- Uninitialized typed properties: `getValue` (src/Serializer.php:264) throws for a typed property that was never assigned. Every property of the model holds a value, so this exception is not modelled.
- Notices before an exception: when a notice (a missing `__sleep` name) is raised and a later field then throws, PHP has already emitted the notice. The model's `Err` carries only the exception.
