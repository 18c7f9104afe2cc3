/**
 * `getReferencePosition`: finding, for one entry of an array, another entry
 * bound to it by reference, and the back-reference position `R:<p>;` that
 * the array encoder writes in its place.
 *
 * The engine's array is modelled by its entries and by the storage cells
 * behind them (`cells`). The source detects a shared cell by writing a
 * fresh probe object into the entry and looking whether the other entry
 * sees it; the method below does the same on `cells` and puts the old
 * content back.
 */
module References {
  import opened Text
  import opened Values

  /** `$array[$i] === $array[$key]` for entries `a` and `b`. Two reads of
      one storage cell give the same zval: the same array, which `===`
      accepts before looking at its entries, the same object, or the same
      scalar, so only the float NaN fails. Reads of different cells are
      compared by `Identical`. */
  predicate ReadsIdentical(a: Entry, b: Entry) {
    if a.cell == b.cell then b.value != Float(NaN) else Identical(a.value, b.value)
  }

  /** Entry `j` is another entry that passes the `!==` test against entry
      `k` and that the probe finds in `k`'s cell. */
  predicate AliasOf(es: seq<Entry>, k: nat, j: nat)
    requires k < |es| && j < |es|
  {
    j != k && ReadsIdentical(es[j], es[k]) && es[j].cell == es[k].cell
  }

  /** The scan from entry `from` on, counting positions from `2 + from`. */
  function ScanForAlias(es: seq<Entry>, k: nat, from: nat): (r: Option<nat>)
    requires k < |es| && from <= |es|
    decreases |es| - from
    ensures r.None? <==> forall j | from <= j < |es| :: !AliasOf(es, k, j)
    ensures r.Some? ==>
      && from + 2 <= r.value < |es| + 2
      && AliasOf(es, k, r.value - 2)
      && forall j | from <= j < r.value - 2 :: !AliasOf(es, k, j)
  {
    if from == |es| then None
    else if AliasOf(es, k, from) then Some(from + 2)
    else ScanForAlias(es, k, from + 1)
  }

  /** The position written as `R:<p>;` for entry `k`, or None to encode its
      value. Positions are 2 plus the index of the FIRST other entry of the
      whole array, before or after `k`, that shares `k`'s cell and holds a
      `===` value (position 1 is the array itself). */
  function ReferencePosition(es: seq<Entry>, k: nat): (r: Option<nat>)
    requires k < |es|
    ensures r.None? <==> forall j | 0 <= j < |es| :: !AliasOf(es, k, j)
    ensures r.Some? ==>
      && 2 <= r.value < |es| + 2
      && AliasOf(es, k, r.value - 2)
      && forall j | 0 <= j < r.value - 2 :: !AliasOf(es, k, j)
  {
    ScanForAlias(es, k, 0)
  }

  /** Two entries with equal values in distinct cells (two separately built
      equal values) are never a back-reference to each other. */
  lemma {:induction false} SeparateCellsNeverReferenced(es: seq<Entry>, k: nat)
    requires k < |es|
    requires forall j | 0 <= j < |es| && j != k :: es[j].cell != es[k].cell
    ensures ReferencePosition(es, k) == None
  {
  }

  /** In an array the engine built, every entry of a group bound together by
      reference is written as `R:` (each names the first OTHER member, so the
      group's first entry points forward and the shared value is never
      written), unless the value is the float NaN, which is not `===` to
      itself. An array holding NaN is still `===` to itself here: both reads
      give the same array. */
  lemma {:induction false} AliasedEntriesAllReferenced(es: seq<Entry>, j: nat, k: nat)
    requires ConsistentCells(es)
    requires j < |es| && k < |es| && j != k && es[j].cell == es[k].cell
    ensures ReferencePosition(es, k).Some? <==> es[k].value != Float(NaN)
    ensures ReferencePosition(es, j).Some? <==> es[k].value != Float(NaN)
    ensures es[k].value != Float(NaN) && (forall i | 0 <= i < k :: es[i].cell != es[k].cell) ==>
      ReferencePosition(es, k).value > k + 2
  {
    if ReferencePosition(es, k).Some? {
      var i := ReferencePosition(es, k).value - 2;
      assert AliasOf(es, k, i);
    }
    if ReferencePosition(es, j).Some? {
      var i := ReferencePosition(es, j).value - 2;
      assert AliasOf(es, j, i);
      assert es[j].value == es[k].value;
    }
    if es[k].value != Float(NaN) {
      assert es[j].value == es[k].value;
      assert AliasOf(es, k, j);
      assert AliasOf(es, j, k);
      var p := ReferencePosition(es, k).value;
      assert p - 2 != k;
    }
  }

  /** Back-references come in pairs: the entry named by entry `k`'s
      back-reference has a back-reference too. */
  lemma {:induction false} ReferencesArePaired(es: seq<Entry>, k: nat)
    requires ConsistentCells(es)
    requires k < |es| && ReferencePosition(es, k).Some?
    ensures ReferencePosition(es, ReferencePosition(es, k).value - 2).Some?
  {
    var j := ReferencePosition(es, k).value - 2;
    assert es[j].value == es[k].value;
    assert AliasOf(es, j, k);
  }

  /** The first index holding `key`. */
  function IndexOfKey(es: seq<Entry>, key: Key): (k: nat)
    requires exists j | 0 <= j < |es| :: es[j].key == key
    ensures k < |es| && es[k].key == key
    ensures forall j | 0 <= j < k :: es[j].key != key
  {
    if es[0].key == key then 0
    else
      assert exists j | 1 <= j < |es| :: es[j].key == key;
      assert exists j | 0 <= j < |es[1..]| :: es[1..][j].key == key;
      1 + IndexOfKey(es[1..], key)
  }

  /** A storage cell: a value, or the probe object written into it. */
  datatype Slot = Held(v: Value) | Probe

  /** `===` on what two cells hold; the probe is one fresh instance. */
  function SlotIdentical(a: Slot, b: Slot): bool {
    match (a, b)
    case (Held(x), Held(y)) => Identical(x, y)
    case (Probe, Probe) => true
    case _ => false
  }

  /** `$array[$i] === $array[$key]` on the cells: reading one cell twice
      gives the same zval, as in `ReadsIdentical`. */
  predicate CellsIdentical(cells: array<Slot>, there: nat, home: nat)
    requires there < cells.Length && home < cells.Length
    reads cells
  {
    if there == home then cells[home] != Held(Float(NaN)) else SlotIdentical(cells[there], cells[home])
  }

  /** `cells` holds the value of every entry in the entry's cell. */
  ghost predicate Backs(es: seq<Entry>, cells: array<Slot>)
    reads cells
  {
    forall j | 0 <= j < |es| :: es[j].cell < cells.Length && cells[es[j].cell] == Held(es[j].value)
  }

  function MaxCell(es: seq<Entry>): (m: nat)
    ensures forall j | 0 <= j < |es| :: es[j].cell <= m
  {
    if es == [] then 0
    else
      var m := MaxCell(es[1..]);
      assert forall j | 1 <= j < |es| :: es[j] == es[1..][j - 1];
      if es[0].cell > m then es[0].cell else m
  }

  /** Lays out the cells behind the entries of an array. */
  method StoreCells(es: seq<Entry>) returns (cells: array<Slot>)
    requires ConsistentCells(es)
    ensures fresh(cells) && Backs(es, cells)
  {
    cells := new Slot[MaxCell(es) + 1](_ => Probe);
    for i := 0 to |es|
      invariant forall j | 0 <= j < i :: cells[es[j].cell] == Held(es[j].value)
    {
      cells[es[i].cell] := Held(es[i].value);
    }
  }

  /** The probe test of `getReferencePosition`: writes a fresh object into
      cell `home`, looks whether cell `there` now holds it, and puts the old
      content of `home` back. */
  method SharesCell(cells: array<Slot>, home: nat, there: nat) returns (shared: bool)
    requires home < cells.Length && there < cells.Length
    requires cells[there].Held?
    modifies cells
    ensures unchanged(cells)
    ensures shared <==> there == home
  {
    var initial := cells[home];
    cells[home] := Probe;
    if SlotIdentical(cells[there], cells[home]) {
      cells[home] := initial;
      return true;
    }
    cells[home] := initial;
    return false;
  }

  /** `getReferencePosition($array, $key)`: counts positions from 2, skips
      the entry with the same key, skips entries whose value is not `===`,
      and otherwise asks the probe test whether the other entry shares
      `$key`'s cell. */
  method GetReferencePosition(es: seq<Entry>, key: Key, cells: array<Slot>) returns (pos: Option<nat>)
    requires UniqueKeys(es) && Backs(es, cells)
    requires exists j | 0 <= j < |es| :: es[j].key == key
    modifies cells
    ensures unchanged(cells)
    ensures pos == ReferencePosition(es, IndexOfKey(es, key))
  {
    ghost var k := IndexOfKey(es, key);
    var home := es[IndexOfKey(es, key)].cell;
    var position := 2;
    var i := 0;
    while i < |es|
      invariant 0 <= i <= |es| && position == 2 + i
      invariant unchanged(cells)
      invariant forall j | 0 <= j < i :: !AliasOf(es, k, j)
    {
      if es[i].key != key {
        var there := es[i].cell;
        assert cells[there] == Held(es[i].value) && cells[home] == Held(es[k].value);
        assert CellsIdentical(cells, there, home) == ReadsIdentical(es[i], es[k]);
        if CellsIdentical(cells, there, home) {
          var shared := SharesCell(cells, home, there);
          if shared {
            assert AliasOf(es, k, i);
            assert ReferencePosition(es, k).Some?;
            return Some(position);
          }
        }
      }
      position := position + 1;
      i := i + 1;
    }
    return None;
  }
}
