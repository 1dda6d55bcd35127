/**
 * What the `<unit>` loop of `parse()` makes of the structural header: one
 * level per distinct `level` attribute, in the order the levels first
 * appear, each holding the name, label and identifier of the last unit with
 * that level and the last non-empty `order_by` among those units.
 */
module HeaderFacts {
  import opened Wrappers
  import opened Strings
  import opened Document
  import opened SectionParser

  /** The position of the last unit with level `level`. */
  function LastUnit(us: seq<Unit>, level: string): (r: Option<nat>)
    ensures r.Some? ==> r.value < |us| && us[r.value].level == level
    ensures r.Some? ==> forall k :: r.value < k < |us| ==> us[k].level != level
    ensures r.None? <==> forall k :: 0 <= k < |us| ==> us[k].level != level
    decreases |us|
  {
    if |us| == 0 then None
    else if us[|us| - 1].level == level then Some(|us| - 1)
    else LastUnit(us[..|us| - 1], level)
  }

  /** The last non-empty `order_by` among the units with level `level`, if any. */
  function LastOrderBy(us: seq<Unit>, level: string): (r: Option<string>)
    ensures r.Some? ==> !IsEmpty(r.value)
    ensures (forall k :: 0 <= k < |us| ==> us[k].level != level) ==> r.None?
    decreases |us|
  {
    if |us| == 0 then None
    else if us[|us| - 1].level == level && !IsEmpty(us[|us| - 1].orderBy) then Some(us[|us| - 1].orderBy)
    else LastOrderBy(us[..|us| - 1], level)
  }

  /** One merge keeps the levels already collected in place and finds the unit's level afterwards. */
  lemma MergeUnitLevels(st: seq<Level>, u: Unit)
    ensures FindLevel(st, u.level).Some? ==> |MergeUnit(st, u)| == |st|
    ensures FindLevel(st, u.level).None? ==> |MergeUnit(st, u)| == |st| + 1 && MergeUnit(st, u)[|st|].level == u.level
    ensures forall j :: 0 <= j < |st| ==> MergeUnit(st, u)[j].level == st[j].level
    ensures FindLevel(MergeUnit(st, u), u.level).Some?
  {
    var m := MergeUnit(st, u);
    match FindLevel(st, u.level)
    case None =>
      assert m[|st|].level == u.level;
    case Some(j) =>
      assert m[j].level == u.level;
  }

  /** A level found before a merge is still found after it. */
  lemma MergeUnitKeeps(st: seq<Level>, u: Unit, level: string)
    requires FindLevel(st, level).Some?
    ensures FindLevel(MergeUnit(st, u), level).Some?
  {
    MergeUnitLevels(st, u);
    var j := FindLevel(st, level).value;
    assert MergeUnit(st, u)[j].level == level;
  }

  /** Every unit's level is collected. */
  lemma {:induction false} CollectCovers(us: seq<Unit>, k: nat)
    requires k < |us|
    ensures FindLevel(CollectUnits(us), us[k].level).Some?
    decreases |us|
  {
    var ps := us[..|us| - 1];
    var u := us[|us| - 1];
    if k == |us| - 1 {
      MergeUnitLevels(CollectUnits(ps), u);
    } else {
      assert us[k] == ps[k];
      CollectCovers(ps, k);
      MergeUnitKeeps(CollectUnits(ps), u, us[k].level);
    }
  }

  /** No level is collected twice. */
  lemma {:induction false} CollectDistinct(us: seq<Unit>, a: nat, b: nat)
    requires a < b < |CollectUnits(us)|
    ensures CollectUnits(us)[a].level != CollectUnits(us)[b].level
    decreases |us|
  {
    var ps := us[..|us| - 1];
    var u := us[|us| - 1];
    var st := CollectUnits(ps);
    MergeUnitLevels(st, u);
    if b < |st| {
      CollectDistinct(ps, a, b);
    }
  }

  /** Every collected level is the level of some unit. */
  lemma {:induction false} CollectFromUnits(us: seq<Unit>, j: nat)
    requires j < |CollectUnits(us)|
    ensures FirstUnit(us, CollectUnits(us)[j].level).Some?
    decreases |us|
  {
    var ps := us[..|us| - 1];
    var u := us[|us| - 1];
    var st := CollectUnits(ps);
    MergeUnitLevels(st, u);
    if j < |st| {
      CollectFromUnits(ps, j);
    }
  }

  /** The levels are collected in the order in which they first appear among the units. */
  lemma {:induction false} CollectOrder(us: seq<Unit>, a: nat, b: nat)
    requires a < b < |CollectUnits(us)|
    ensures FirstUnit(us, CollectUnits(us)[a].level).Some? && FirstUnit(us, CollectUnits(us)[b].level).Some?
    ensures FirstUnit(us, CollectUnits(us)[a].level).value < FirstUnit(us, CollectUnits(us)[b].level).value
    decreases |us|
  {
    var ps := us[..|us| - 1];
    var u := us[|us| - 1];
    var st := CollectUnits(ps);
    MergeUnitLevels(st, u);
    CollectFromUnits(ps, a);
    if b < |st| {
      CollectOrder(ps, a, b);
    } else {
      forall k | 0 <= k < |ps| ensures ps[k].level != u.level {
        if ps[k].level == u.level {
          CollectCovers(ps, k);
        }
      }
      assert FirstUnit(us, u.level) == Some(|ps|);
    }
  }

  /**
   * `parse()` gets past the `<unit>` loop exactly when every level it
   * collects has a name: a unit whose level is empty is the fatal one.
   */
  lemma NamedLevels(us: seq<Unit>)
    ensures FirstUnit(us, "").None? <==>
      forall j :: 0 <= j < |CollectUnits(us)| ==> CollectUnits(us)[j].level != ""
  {
    match FirstUnit(us, "")
    case Some(k) =>
      CollectCovers(us, k);
      var j := FindLevel(CollectUnits(us), "").value;
      assert CollectUnits(us)[j].level == "";
    case None =>
      forall j | 0 <= j < |CollectUnits(us)| ensures CollectUnits(us)[j].level != "" {
        CollectFromUnits(us, j);
      }
  }

  /**
   * A collected level holds the name, label and identifier of the last unit
   * with that level, and the last non-empty `order_by` among those units.
   */
  lemma {:induction false} CollectEntry(us: seq<Unit>, j: nat)
    requires j < |CollectUnits(us)|
    ensures var e := CollectUnits(us)[j];
      LastUnit(us, e.level).Some? &&
      e.name == us[LastUnit(us, e.level).value].name &&
      e.levelLabel == us[LastUnit(us, e.level).value].levelLabel &&
      e.identifier == us[LastUnit(us, e.level).value].identifier &&
      e.orderBy == LastOrderBy(us, e.level)
    decreases |us|
  {
    var ps := us[..|us| - 1];
    var u := us[|us| - 1];
    var st := CollectUnits(ps);
    MergeUnitLevels(st, u);
    if j < |st| {
      CollectEntry(ps, j);
      if st[j].level == u.level {
        assert FindLevel(st, u.level) == Some(j) by {
          var f := FindLevel(st, u.level).value;
          if f != j {
            if f < j { CollectDistinct(ps, f, j); } else { CollectDistinct(ps, j, f); }
          }
        }
      }
    } else {
      forall k | 0 <= k < |ps| ensures ps[k].level != u.level {
        if ps[k].level == u.level {
          CollectCovers(ps, k);
        }
      }
    }
  }
}
