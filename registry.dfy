/**
 * The structure registry: `structure_exists`, `create_structure` and
 * `find_structure_parent`. Structural units (titles, chapters, articles ...)
 * form a tree through their parent ids; a unit is identified by its number
 * together with its parent.
 */
module Registry {
  import opened Wrappers
  import opened Strings
  import opened Tables

  /**
   * What `create_structure` hands back, and so what the next level of the
   * chain gets as `parent_id`: nothing yet (the first level), an id, or
   * `false` for a rejected or failed level.
   */
  datatype StructRef = Unset | Id(id: nat) | Rejected

  /** Every parent id names an earlier row, so walking up always ends. */
  ghost predicate ParentsBefore(rows: seq<StructureRow>) {
    forall k :: 0 <= k < |rows| && rows[k].parent.Some? ==> 1 <= rows[k].parent.value <= k
  }

  /** No two rows share number and parent. */
  ghost predicate UniqueKeys(rows: seq<StructureRow>) {
    forall a, b :: 0 <= a < b < |rows| ==> rows[a].number != rows[b].number || rows[a].parent != rows[b].parent
  }

  ghost predicate Valid(rows: seq<StructureRow>) {
    ParentsBefore(rows) && UniqueKeys(rows)
  }

  /** The `parent_id` condition of the lookup: an empty parent (unset, `false`, 0) means `IS NULL`. */
  function ParentKey(parent: StructRef): Option<nat> {
    if parent.Id? && parent.id != 0 then Some(parent.id) else None
  }

  /** `structure_exists()`: the id of the first row with this number and parent. */
  function StructureExists(rows: seq<StructureRow>, number: string, parent: Option<nat>): (r: Option<nat>)
    ensures r.Some? ==> 1 <= r.value <= |rows| && rows[r.value - 1].number == number && rows[r.value - 1].parent == parent
    ensures r.Some? ==> forall k :: 0 <= k < r.value - 1 ==> rows[k].number != number || rows[k].parent != parent
    ensures r.None? <==> forall k :: 0 <= k < |rows| ==> rows[k].number != number || rows[k].parent != parent
  {
    if |rows| == 0 then None
    else match StructureExists(rows[..|rows| - 1], number, parent)
      case Some(id) => Some(id)
      case None =>
        if rows[|rows| - 1].number == number && rows[|rows| - 1].parent == parent then Some(|rows|) else None
  }

  /** The number is missing (a number of "0" is accepted) or the label is empty. */
  predicate Unusable(number: string, unitLabel: string) {
    number == "" || IsEmpty(unitLabel)
  }

  /**
   * `create_structure()` on table `rows`: the new table and the result. An
   * unusable unit is rejected; an existing (number, parent) gives its id;
   * otherwise a row is appended, except that a `false` parent makes the
   * insert statement malformed and the call fails.
   */
  function Create(rows: seq<StructureRow>, number: string, name: string, unitLabel: string, parent: StructRef)
    : (seq<StructureRow>, StructRef)
  {
    if Unusable(number, unitLabel) then (rows, Rejected)
    else match StructureExists(rows, number, ParentKey(parent))
      case Some(id) => (rows, Id(id))
      case None =>
        if parent.Rejected? then (rows, Rejected)
        else
          var row := StructureRow(number, if IsEmpty(name) then None else Some(name), unitLabel,
                                  if parent.Id? then Some(parent.id) else None);
          (rows + [row], Id(NextId(|rows|)))
  }

  /**
   * An unusable unit is refused without touching the table; a usable one
   * whose (number, parent) is registered gets that row's id and leaves the
   * table, and so the stored name and label, unchanged; a `false` parent
   * with no matching root row is refused; otherwise the id is that of a new
   * last row carrying the unit under the key the lookup used.
   */
  lemma CreateOutcome(rows: seq<StructureRow>, number: string, name: string, unitLabel: string, parent: StructRef)
    ensures Unusable(number, unitLabel) ==> Create(rows, number, name, unitLabel, parent) == (rows, Rejected)
    ensures !Unusable(number, unitLabel) && StructureExists(rows, number, ParentKey(parent)).Some? ==>
      Create(rows, number, name, unitLabel, parent) == (rows, Id(StructureExists(rows, number, ParentKey(parent)).value))
    ensures !Unusable(number, unitLabel) && StructureExists(rows, number, ParentKey(parent)).None? && !parent.Rejected? ==>
      var (rows', r) := Create(rows, number, name, unitLabel, parent);
      |rows'| == |rows| + 1 && rows'[..|rows|] == rows && r == Id(|rows'|) &&
      rows'[|rows|].number == number && rows'[|rows|].unitLabel == unitLabel &&
      rows'[|rows|].name == (if IsEmpty(name) then None else Some(name)) &&
      rows'[|rows|].parent == (if parent.Id? then Some(parent.id) else None) &&
      (parent != Id(0) ==> rows'[|rows|].parent == ParentKey(parent))
    ensures !Unusable(number, unitLabel) && StructureExists(rows, number, ParentKey(parent)).None? && parent.Rejected? ==>
      Create(rows, number, name, unitLabel, parent) == (rows, Rejected)
    ensures Create(rows, number, name, unitLabel, parent).1.Rejected? ==> Create(rows, number, name, unitLabel, parent).0 == rows
  {
  }

  /** Creating the same unit twice gives the same id, and the second call changes nothing. */
  lemma CreateIdempotent(rows: seq<StructureRow>, number: string, name: string, unitLabel: string, parent: StructRef)
    requires parent != Id(0)
    ensures var (rows1, r1) := Create(rows, number, name, unitLabel, parent);
      Create(rows1, number, name, unitLabel, parent) == (rows1, r1)
  {
    var (rows1, r1) := Create(rows, number, name, unitLabel, parent);
    if !Unusable(number, unitLabel) && StructureExists(rows, number, ParentKey(parent)).None? && !parent.Rejected? {
      assert rows1[|rows|].number == number && rows1[|rows|].parent == ParentKey(parent);
      assert rows1[..|rows|] == rows;
      assert StructureExists(rows1, number, ParentKey(parent)) == Some(|rows1|);
    }
  }

  /** Registering a unit under an existing parent (or none) keeps the table well formed and hands back a valid id. */
  lemma CreateValid(rows: seq<StructureRow>, number: string, name: string, unitLabel: string, parent: StructRef)
    requires Valid(rows)
    requires parent.Id? ==> 1 <= parent.id <= |rows|
    ensures Valid(Create(rows, number, name, unitLabel, parent).0)
    ensures Create(rows, number, name, unitLabel, parent).1.Id? ==>
      1 <= Create(rows, number, name, unitLabel, parent).1.id <= |Create(rows, number, name, unitLabel, parent).0|
  {
    var (rows1, r1) := Create(rows, number, name, unitLabel, parent);
    if |rows1| > |rows| {
      assert rows1[..|rows|] == rows;
      assert rows1[|rows|].number == number && rows1[|rows|].parent == ParentKey(parent);
    }
  }

  /** `create_structure()` against the database. */
  method CreateStructure(db: Database, number: string, name: string, unitLabel: string, parent: StructRef)
    returns (r: StructRef)
    modifies db`structures
    ensures (db.structures, r) == Create(old(db.structures), number, name, unitLabel, parent)
  {
    if number == "" || IsEmpty(unitLabel) {
      return Rejected;
    }
    var existing := StructureExists(db.structures, number, ParentKey(parent));
    if existing.Some? {
      return Id(existing.value);
    }
    if parent.Rejected? {
      return Rejected;
    }
    var stored := if IsEmpty(name) then None else Some(name);
    var parentId := if parent.Id? then Some(parent.id) else None;
    db.structures := db.structures + [StructureRow(number, stored, unitLabel, parentId)];
    r := Id(|db.structures|);
  }

  // ----- walking up the tree -----

  /** The ids from `id` up to its root: `id`, its parent, its grandparent, ... */
  ghost function Ancestry(rows: seq<StructureRow>, id: nat): (a: seq<nat>)
    requires ParentsBefore(rows)
    ensures forall j :: 0 <= j < |a| ==> 1 <= a[j] <= |rows|
    decreases id
  {
    if !(1 <= id <= |rows|) then []
    else if rows[id - 1].parent.None? then [id]
    else [id] + Ancestry(rows, rows[id - 1].parent.value)
  }

  /**
   * The id of the nearest unit at or above `id` whose label is `label`; none
   * when `id` is not a unit or the root is reached without a match.
   */
  function NearestWithLabel(rows: seq<StructureRow>, id: nat, unitLabel: string): (r: Option<nat>)
    requires ParentsBefore(rows)
    decreases id
  {
    if !(1 <= id <= |rows|) then None
    else if rows[id - 1].unitLabel == unitLabel then Some(id)
    else if rows[id - 1].parent.None? then None
    else NearestWithLabel(rows, rows[id - 1].parent.value, unitLabel)
  }

  /** No unit among the ids `a` carries the label. */
  ghost predicate NoneLabelled(rows: seq<StructureRow>, a: seq<nat>, unitLabel: string) {
    forall j :: 0 <= j < |a| && 1 <= a[j] <= |rows| ==> rows[a[j] - 1].unitLabel != unitLabel
  }

  /** Putting a unit in front of some ids adds just that unit's label to check. */
  lemma NoneLabelledCons(rows: seq<StructureRow>, id: nat, b: seq<nat>, unitLabel: string)
    requires 1 <= id <= |rows|
    ensures NoneLabelled(rows, [id] + b, unitLabel) <==> rows[id - 1].unitLabel != unitLabel && NoneLabelled(rows, b, unitLabel)
  {
    var a := [id] + b;
    assert a[0] == id;
    assert forall j :: 0 < j < |a| ==> a[j] == b[j - 1];
    if !NoneLabelled(rows, b, unitLabel) {
      var j :| 0 <= j < |b| && 1 <= b[j] <= |rows| && rows[b[j] - 1].unitLabel == unitLabel;
      assert a[j + 1] == b[j];
    }
  }

  /** No unit is found exactly when no unit of the ancestry carries the label. */
  lemma {:induction false} NearestNoneIffUnlabelled(rows: seq<StructureRow>, id: nat, unitLabel: string)
    requires ParentsBefore(rows)
    ensures NearestWithLabel(rows, id, unitLabel).None? <==> NoneLabelled(rows, Ancestry(rows, id), unitLabel)
    decreases id
  {
    if 1 <= id <= |rows| {
      AncestryStep(rows, id);
      if rows[id - 1].parent.Some? {
        var p := rows[id - 1].parent.value;
        if rows[id - 1].unitLabel != unitLabel {
          NearestNoneIffUnlabelled(rows, p, unitLabel);
        }
        NoneLabelledCons(rows, id, Ancestry(rows, p), unitLabel);
      } else {
        NoneLabelledCons(rows, id, [], unitLabel);
      }
    }
  }

  /** Position `j` of the ancestry `a` is the first one whose unit carries the label. */
  ghost predicate FirstLabelledAt(rows: seq<StructureRow>, a: seq<nat>, j: nat, unitLabel: string) {
    j < |a| && (forall i :: 0 <= i <= j ==> 1 <= a[i] <= |rows|) &&
    rows[a[j] - 1].unitLabel == unitLabel &&
    forall i :: 0 <= i < j ==> rows[a[i] - 1].unitLabel != unitLabel
  }

  /** A unit with a parent has itself and then its parent's ancestry as ancestry. */
  lemma AncestryStep(rows: seq<StructureRow>, id: nat)
    requires ParentsBefore(rows) && 1 <= id <= |rows|
    ensures |Ancestry(rows, id)| > 0 && Ancestry(rows, id)[0] == id
    ensures rows[id - 1].parent.Some? ==> Ancestry(rows, id) == [id] + Ancestry(rows, rows[id - 1].parent.value)
  {
  }

  /** The unit found carries the label and is the first of the ancestry that does. */
  lemma {:induction false} NearestIsFirstLabelled(rows: seq<StructureRow>, id: nat, unitLabel: string)
    requires ParentsBefore(rows) && NearestWithLabel(rows, id, unitLabel).Some?
    ensures exists j: nat :: FirstLabelledAt(rows, Ancestry(rows, id), j, unitLabel) &&
                        Ancestry(rows, id)[j] == NearestWithLabel(rows, id, unitLabel).value
    decreases id
  {
    var a := Ancestry(rows, id);
    var r := NearestWithLabel(rows, id, unitLabel).value;
    AncestryStep(rows, id);
    if rows[id - 1].unitLabel == unitLabel {
      assert FirstLabelledAt(rows, a, 0, unitLabel) && a[0] == r;
    } else {
      var p := rows[id - 1].parent.value;
      NearestIsFirstLabelled(rows, p, unitLabel);
      var b := Ancestry(rows, p);
      var j: nat :| FirstLabelledAt(rows, b, j, unitLabel) && b[j] == r;
      FirstLabelledCons(rows, id, b, j, unitLabel);
    }
  }

  /** Putting an unlabelled unit in front moves the first labelled position one along. */
  lemma FirstLabelledCons(rows: seq<StructureRow>, id: nat, b: seq<nat>, j: nat, unitLabel: string)
    requires 1 <= id <= |rows| && rows[id - 1].unitLabel != unitLabel && FirstLabelledAt(rows, b, j, unitLabel)
    ensures FirstLabelledAt(rows, [id] + b, j + 1, unitLabel) && ([id] + b)[j + 1] == b[j]
  {
    var a := [id] + b;
    forall i | 0 < i <= j + 1 ensures a[i] == b[i - 1] {
    }
  }

  /**
   * `find_structure_parent()`: from the unit `start`, follow parent ids up
   * until a unit with the label is found. An unset or `false` start, or a
   * start that names no unit, finds nothing.
   */
  method FindStructureParent(db: Database, start: StructRef, unitLabel: string) returns (r: Option<nat>)
    requires ParentsBefore(db.structures)
    ensures r == if start.Id? then NearestWithLabel(db.structures, start.id, unitLabel) else None
  {
    if !start.Id? {
      return None;
    }
    var rows := db.structures;
    var current: nat := start.id;
    while true
      invariant NearestWithLabel(rows, current, unitLabel) == NearestWithLabel(rows, start.id, unitLabel)
      decreases current
    {
      if !(1 <= current <= |rows|) {
        return None;
      }
      var row := rows[current - 1];
      if row.unitLabel == unitLabel {
        return Some(current);
      }
      if row.parent.None? {
        return None;
      }
      current := row.parent.value;
    }
  }
}
