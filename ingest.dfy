/**
 * `store()`: writes one parsed law to the tables. The structural levels are
 * registered from the most general to the most specific, each under the
 * one before it; the law row follows, then its cross-references, its text
 * segments with their prefix hierarchies and, when the law looks like it
 * defines terms, its definitions.
 */
module Ingest {
  import opened Wrappers
  import opened Strings
  import opened Assoc
  import opened Document
  import opened Tables
  import opened Registry
  import References
  import Definitions

  // ----- structural levels -----

  /**
   * The structure loop: the first `n` levels registered in order, the first
   * as a root and each later one under what the previous registration
   * returned (an id, or `false` for a rejected level).
   */
  function Chain(rows: seq<StructureRow>, levels: seq<Level>, n: nat): (seq<StructureRow>, StructRef)
    requires n <= |levels|
    decreases n
  {
    if n == 0 then (rows, Unset)
    else
      var (rows1, parent) := Chain(rows, levels, n - 1);
      Create(rows1, levels[n - 1].identifier, levels[n - 1].name, levels[n - 1].levelLabel, parent)
  }

  /**
   * Registering the levels keeps the table well formed, never changes a row
   * already there, and hands back an id naming a row.
   */
  lemma {:induction false} ChainValid(rows: seq<StructureRow>, levels: seq<Level>, n: nat)
    requires n <= |levels| && Valid(rows)
    ensures Valid(Chain(rows, levels, n).0)
    ensures |rows| <= |Chain(rows, levels, n).0| && Chain(rows, levels, n).0[..|rows|] == rows
    ensures Chain(rows, levels, n).1.Id? ==> 1 <= Chain(rows, levels, n).1.id <= |Chain(rows, levels, n).0|
    decreases n
  {
    if n > 0 {
      ChainValid(rows, levels, n - 1);
      var (rows1, parent) := Chain(rows, levels, n - 1);
      var level := levels[n - 1];
      CreateValid(rows1, level.identifier, level.name, level.levelLabel, parent);
      CreateOutcome(rows1, level.identifier, level.name, level.levelLabel, parent);
      var rows2 := Chain(rows, levels, n).0;
      assert rows2[..|rows1|] == rows1;
      assert rows2[..|rows|] == rows1[..|rows|];
    }
  }

  /**
   * The id a level receives names a row with that level's number whose
   * parent is what the level before it received: nothing for the first
   * level, or for a level after a rejected one.
   */
  lemma ChainLink(rows: seq<StructureRow>, levels: seq<Level>, n: nat)
    requires 0 < n <= |levels| && Valid(rows)
    ensures var (rows', r) := Chain(rows, levels, n);
      r.Id? ==> rows'[r.id - 1].number == levels[n - 1].identifier &&
                rows'[r.id - 1].parent == ParentKey(Chain(rows, levels, n - 1).1)
  {
    ChainValid(rows, levels, n - 1);
    var (rows1, parent) := Chain(rows, levels, n - 1);
    var level := levels[n - 1];
    CreateValid(rows1, level.identifier, level.name, level.levelLabel, parent);
    CreateOutcome(rows1, level.identifier, level.name, level.levelLabel, parent);
  }

  /** The structure loop against the database. */
  method RegisterStructure(db: Database, levels: seq<Level>) returns (r: StructRef)
    modifies db`structures
    ensures (db.structures, r) == Chain(old(db.structures), levels, |levels|)
  {
    r := Unset;
    for n := 0 to |levels|
      invariant (db.structures, r) == Chain(old(db.structures), levels, n)
    {
      r := CreateStructure(db, levels[n].identifier, levels[n].name, levels[n].levelLabel, r);
    }
  }

  // ----- the law row -----

  /**
   * The law row: the structure id when registration produced one, the
   * header fields, the full text ("" when unset) and the sort key only when
   * it is not empty.
   */
  function LawRowOf(code: Code, structure: StructRef): LawRow {
    LawRow(if structure.Id? then Some(structure.id) else None, code.catchLine, code.sectionNumber,
           code.text.GetOr(""), if IsEmpty(code.orderBy) then None else Some(code.orderBy), code.history)
  }

  // ----- references -----

  /** The references table after the law's citations are counted and stored, when it has any. */
  function ReferencesAfter(refs: map<(nat, string), nat>, lawId: nat, text: Option<string>,
                           sectionPattern: string -> seq<string>): map<(nat, string), nat>
  {
    if text.None? then refs
    else
      var sections := References.CountValues(References.NormalizeAll(sectionPattern(text.value)));
      if |sections| == 0 then refs else References.KeepOrInsert(refs, lawId, sections)
  }

  // ----- text segments -----

  /** A segment without a type is a plain section. */
  function KindOf(kind: string): (r: string)
    ensures !IsEmpty(r)
    ensures !IsEmpty(kind) ==> r == kind
    ensures IsEmpty(kind) ==> r == "section"
  {
    if IsEmpty(kind) then "section" else kind
  }

  /** One text row per segment, in key order, numbered from 1. */
  function TextRowsOf(lawId: nat, segs: map<int, Segment>): (rows: seq<TextRow>)
    requires Dense(segs)
  {
    seq(|segs|, k requires 0 <= k < |segs| && Dense(segs) => TextRow(lawId, k + 1, segs[k].text, KindOf(segs[k].kind)))
  }

  /** The prefix rows of one text row: one per hierarchy entry, numbered from 1. */
  function PrefixRowsFor(textId: nat, hierarchy: seq<string>): (rows: seq<PrefixRow>) {
    seq(|hierarchy|, j requires 0 <= j < |hierarchy| => PrefixRow(textId, hierarchy[j], j + 1))
  }

  /** The prefix rows of the first `n` segments, whose text rows have ids `firstId`, `firstId + 1`, ... */
  function PrefixRowsOf(firstId: nat, segs: map<int, Segment>, n: nat): seq<PrefixRow>
    requires Dense(segs) && n <= |segs|
    decreases n
  {
    if n == 0 then [] else PrefixRowsOf(firstId, segs, n - 1) + PrefixRowsFor(firstId + n - 1, segs[n - 1].hierarchy)
  }

  /**
   * The text rows carry the segments in order, numbered from 1, typed
   * "section" when they have no type.
   */
  lemma TextRowsLayout(lawId: nat, segs: map<int, Segment>)
    requires Dense(segs)
    ensures |TextRowsOf(lawId, segs)| == |segs|
    ensures forall k :: 0 <= k < |segs| ==>
      var row := TextRowsOf(lawId, segs)[k];
      row.lawId == lawId && row.sequence == k + 1 && row.text == segs[k].text &&
      (IsEmpty(segs[k].kind) ==> row.kind == "section") && (!IsEmpty(segs[k].kind) ==> row.kind == segs[k].kind)
  {
  }

  /** Entry `j` of segment `k` is a row of text row `firstId + k`, numbered `j + 1`. */
  lemma {:induction false} PrefixRowsComplete(firstId: nat, segs: map<int, Segment>, n: nat, k: nat, j: nat)
    requires Dense(segs) && k < n <= |segs| && j < |segs[k].hierarchy|
    ensures PrefixRow(firstId + k, segs[k].hierarchy[j], j + 1) in PrefixRowsOf(firstId, segs, n)
    decreases n
  {
    var before := PrefixRowsOf(firstId, segs, n - 1);
    var last := PrefixRowsFor(firstId + n - 1, segs[n - 1].hierarchy);
    assert PrefixRowsOf(firstId, segs, n) == before + last;
    if k == n - 1 {
      assert last[j] == PrefixRow(firstId + k, segs[k].hierarchy[j], j + 1);
    } else {
      PrefixRowsComplete(firstId, segs, n - 1, k, j);
    }
  }

  /** A prefix row names the hierarchy entry it was made from. */
  predicate EntryOf(r: PrefixRow, firstId: nat, segs: map<int, Segment>, n: nat)
    requires Dense(segs) && n <= |segs|
  {
    firstId <= r.textId < firstId + n && 1 <= r.sequence <= |segs[r.textId - firstId].hierarchy| &&
    r.identifier == segs[r.textId - firstId].hierarchy[r.sequence - 1]
  }

  /** Every prefix row is an entry: of segment `textId - firstId`, at position `sequence - 1`. */
  lemma {:induction false} PrefixRowsSound(firstId: nat, segs: map<int, Segment>, n: nat, i: nat)
    requires Dense(segs) && n <= |segs| && i < |PrefixRowsOf(firstId, segs, n)|
    ensures EntryOf(PrefixRowsOf(firstId, segs, n)[i], firstId, segs, n)
    decreases n
  {
    var before := PrefixRowsOf(firstId, segs, n - 1);
    var last := PrefixRowsFor(firstId + n - 1, segs[n - 1].hierarchy);
    var all := PrefixRowsOf(firstId, segs, n);
    assert all == before + last;
    if i >= |before| {
      assert all[i] == last[i - |before|];
    } else {
      PrefixRowsSound(firstId, segs, n - 1, i);
      assert all[i] == before[i];
    }
  }

  /** The inner loop of the segment loop: one prefix row per hierarchy entry. */
  method PrefixRows(textId: nat, hierarchy: seq<string>) returns (added: seq<PrefixRow>)
    ensures added == PrefixRowsFor(textId, hierarchy)
  {
    added := [];
    for j := 0 to |hierarchy|
      invariant |added| == j && forall m :: 0 <= m < j ==> added[m] == PrefixRow(textId, hierarchy[m], m + 1)
    {
      added := added + [PrefixRow(textId, hierarchy[j], j + 1)];
    }
  }

  /** One pass of the segment loop: the text row, then its prefix rows. */
  method StoreSegment(db: Database, lawId: nat, sequence: nat, segment: Segment)
    modifies db`texts, db`textPrefixes
    ensures db.texts == old(db.texts) + [TextRow(lawId, sequence, segment.text, KindOf(segment.kind))]
    ensures db.textPrefixes == old(db.textPrefixes) + PrefixRowsFor(|db.texts|, segment.hierarchy)
  {
    var kind := segment.kind;
    if IsEmpty(kind) {
      kind := "section";
    }
    db.texts := db.texts + [TextRow(lawId, sequence, segment.text, kind)];
    var added := PrefixRows(|db.texts|, segment.hierarchy);
    db.textPrefixes := db.textPrefixes + added;
  }

  /** The tables after one more pass of the segment loop extend the rows of one more segment. */
  lemma StoreTextsStep(texts: seq<TextRow>, prefixes: seq<PrefixRow>, lawId: nat, segs: map<int, Segment>, i: nat)
    requires Dense(segs) && i < |segs|
    ensures var rows := TextRowsOf(lawId, segs);
      var firstId := NextId(|texts|);
      var texts' := texts + rows[..i] + [TextRow(lawId, i + 1, segs[i].text, KindOf(segs[i].kind))];
      texts' == texts + rows[..i + 1] &&
      prefixes + PrefixRowsOf(firstId, segs, i) + PrefixRowsFor(|texts'|, segs[i].hierarchy)
        == prefixes + PrefixRowsOf(firstId, segs, i + 1)
  {
    var rows := TextRowsOf(lawId, segs);
    assert rows[..i + 1] == rows[..i] + [rows[i]];
  }

  /** The segment loop with its inner prefix loop, against the database. */
  method StoreTexts(db: Database, lawId: nat, segs: map<int, Segment>)
    requires Dense(segs)
    modifies db`texts, db`textPrefixes
    ensures db.texts == old(db.texts) + TextRowsOf(lawId, segs)
    ensures db.textPrefixes == old(db.textPrefixes) + PrefixRowsOf(NextId(|old(db.texts)|), segs, |segs|)
  {
    ghost var texts := db.texts;
    ghost var prefixes := db.textPrefixes;
    for i := 0 to |segs|
      invariant db.texts == texts + TextRowsOf(lawId, segs)[..i]
      invariant db.textPrefixes == prefixes + PrefixRowsOf(NextId(|texts|), segs, i)
    {
      StoreTextsStep(texts, prefixes, lawId, segs, i);
      StoreSegment(db, lawId, i + 1, segs[i]);
    }
    assert TextRowsOf(lawId, segs)[..|segs|] == TextRowsOf(lawId, segs);
  }

  // ----- definitions -----

  const NameMarkers := ["Definition", "Meaning of certain terms.", "Meaning of "]
  const TextMarkers := ["\" mean ", "\" means ", "\" shall include ", "\" includes ", "\" has the same meaning ",
                        " as used in this ", " for the purpose of this ", " for purposes of this "]

  /** One of `pats` occurs in `s`. */
  predicate ContainsAny(s: string, pats: seq<string>) {
    exists j :: 0 <= j < |pats| && Contains(s, pats[j])
  }

  /**
   * Whether to look for definitions: the section's name or its text carries
   * one of the markers, or the section sits where the global definitions
   * are kept.
   */
  predicate Triggered(name: string, text: Option<string>, isGlobal: bool) {
    ContainsAny(name, NameMarkers) || (text.Some? && ContainsAny(text.value, TextMarkers)) || isGlobal
  }

  /** More text around a triggering text still triggers. */
  lemma TriggerExtends(name: string, text: string, isGlobal: bool, before: string, after: string)
    requires Triggered(name, Some(text), isGlobal)
    ensures Triggered(name, Some(before + text + after), isGlobal)
  {
    if !ContainsAny(name, NameMarkers) && !isGlobal {
      var j :| 0 <= j < |TextMarkers| && Contains(text, TextMarkers[j]);
      ContainsExtended(text, TextMarkers[j], before, after);
    }
  }

  function Reverse(s: seq<string>): (r: seq<string>)
    ensures |r| == |s| && forall i :: 0 <= i < |s| ==> r[i] == s[|s| - 1 - i]
  {
    seq(|s|, i requires 0 <= i < |s| => s[|s| - 1 - i])
  }

  /** `array_search($x, $xs)`: the first position of `x`. */
  function IndexIn(xs: seq<string>, x: string): (r: Option<nat>)
    ensures r.Some? ==> r.value < |xs| && xs[r.value] == x && forall i :: 0 <= i < r.value ==> xs[i] != x
    ensures r.None? <==> x !in xs
    decreases |xs|
  {
    if |xs| == 0 then None
    else if xs[0] == x then Some(0)
    else if IndexIn(xs[1..], x).None? then None
    else Some(IndexIn(xs[1..], x).value + 1)
  }

  /**
   * `scope_specificity`: the position of the scope among the structural
   * units listed in `STRUCTURE`, counted from the most specific, followed
   * by "global".
   */
  function Specificity(scope: string, structureList: string): Option<nat> {
    IndexIn(Ranking(structureList), scope)
  }

  predicate DistinctUnits(units: seq<string>) {
    forall a, b :: 0 <= a < b < |units| ==> units[a] != units[b]
  }

  /** The units listed, most specific first, then "global". */
  function Ranking(structureList: string): (list: seq<string>)
    ensures var units := Split(structureList, ",");
      |list| == |units| + 1 && list[|units|] == "global" &&
      forall i :: 0 <= i < |units| ==> list[i] == units[|units| - 1 - i]
  {
    Reverse(Split(structureList, ",")) + ["global"]
  }

  /** For distinct units, the most specific (last listed) unit has specificity 0, each one more than the unit listed after it. */
  lemma SpecificityOfUnit(structureList: string, j: nat)
    requires DistinctUnits(Split(structureList, ",")) && j < |Split(structureList, ",")|
    ensures Specificity(Split(structureList, ",")[j], structureList) == Some(|Split(structureList, ",")| - 1 - j)
  {
    RankOfUnit(Split(structureList, ","), j);
  }

  /** "global", when not itself listed, comes after every unit. */
  lemma SpecificityOfGlobal(structureList: string)
    requires "global" !in Split(structureList, ",")
    ensures Specificity("global", structureList) == Some(|Split(structureList, ",")|)
  {
    RankOfGlobal(Split(structureList, ","));
  }

  /** A scope has a specificity exactly when it is listed or is "global". */
  lemma SpecificityDefined(structureList: string, scope: string)
    ensures Specificity(scope, structureList).Some? <==> scope in Split(structureList, ",") || scope == "global"
  {
    RankDefined(Split(structureList, ","), scope);
  }

  // The same three facts for any list of units, ranked most specific first.

  lemma RankOfUnit(units: seq<string>, j: nat)
    requires DistinctUnits(units) && j < |units|
    ensures IndexIn(Reverse(units) + ["global"], units[j]) == Some(|units| - 1 - j)
  {
    var list := Reverse(units) + ["global"];
    assert list[|units| - 1 - j] == units[j];
  }

  lemma RankOfGlobal(units: seq<string>)
    requires "global" !in units
    ensures IndexIn(Reverse(units) + ["global"], "global") == Some(|units|)
  {
    var list := Reverse(units) + ["global"];
    assert list[|units|] == "global";
    assert forall i :: 0 <= i < |units| ==> list[i] == units[|units| - 1 - i];
  }

  lemma RankDefined(units: seq<string>, scope: string)
    ensures IndexIn(Reverse(units) + ["global"], scope).Some? <==> scope in units || scope == "global"
  {
    var list := Reverse(units) + ["global"];
    assert list[|units|] == "global";
    if scope in list && scope != "global" {
      var i :| 0 <= i < |list| && list[i] == scope;
      assert units[|units| - 1 - i] == scope;
    }
    if scope in units {
      var j :| 0 <= j < |units| && units[j] == scope;
      assert list[|units| - 1 - j] == scope;
    }
  }

  /**
   * The dictionary after the definitions step: nothing unless the section
   * triggers and definitions are found; the global location forces the
   * scope to "global"; a scope above the section is tied to the nearest
   * enclosing unit carrying that label, when there is one.
   */
  function DefinitionsAfter(dictionary: seq<DefinitionRow>, structures: seq<StructureRow>, lawId: nat, text: Option<string>,
                            name: string, isGlobal: bool, structureList: string, structure: StructRef,
                            stripTags: string -> string): seq<DefinitionRow>
    requires ParentsBefore(structures)
  {
    if !Triggered(name, text, isGlobal) then dictionary
    else
      var found := Definitions.ExtractSpec(text, stripTags);
      if found.None? then dictionary
      else
        var scope := if isGlobal then "global" else found.value.scope;
        Definitions.StoreDefs(dictionary, found.value.terms, lawId, scope, Specificity(scope, structureList),
                              DefinitionUnit(structures, structure, scope))
  }

  /**
   * The structural unit that bounds definitions of scope `scope`: none for a
   * section or global scope or without a structure, otherwise the nearest
   * enclosing unit carrying that label.
   */
  function DefinitionUnit(structures: seq<StructureRow>, structure: StructRef, scope: string): Option<nat>
    requires ParentsBefore(structures)
  {
    if scope != "section" && scope != "global" && structure.Id?
    then NearestWithLabel(structures, structure.id, scope) else None
  }

  /**
   * The bounding unit is the first unit of the law's ancestry that carries
   * the scope's label; there is none exactly for a section or global scope,
   * without a structure, or when no enclosing unit carries the label.
   */
  lemma DefinitionUnitNearest(structures: seq<StructureRow>, structure: StructRef, scope: string)
    requires ParentsBefore(structures)
    ensures scope == "section" || scope == "global" || !structure.Id? ==> DefinitionUnit(structures, structure, scope).None?
    ensures scope != "section" && scope != "global" && structure.Id? ==>
      (DefinitionUnit(structures, structure, scope).None? <==> NoneLabelled(structures, Ancestry(structures, structure.id), scope))
    ensures DefinitionUnit(structures, structure, scope).Some? ==>
      structure.Id? &&
      exists j: nat :: FirstLabelledAt(structures, Ancestry(structures, structure.id), j, scope) &&
                  Ancestry(structures, structure.id)[j] == DefinitionUnit(structures, structure, scope).value
  {
    if scope != "section" && scope != "global" && structure.Id? {
      NearestNoneIffUnlabelled(structures, structure.id, scope);
      if NearestWithLabel(structures, structure.id, scope).Some? {
        NearestIsFirstLabelled(structures, structure.id, scope);
      }
    }
  }

  /**
   * Rows are added exactly when the section triggers, definitions are found
   * and their scope has a specificity; then one row per term, in order, with
   * its definition, this law, the scope ("global" for the global location),
   * the scope's specificity and the bounding unit.
   */
  lemma DefinitionsAfterEffect(dictionary: seq<DefinitionRow>, structures: seq<StructureRow>, lawId: nat, text: Option<string>,
                               name: string, isGlobal: bool, structureList: string, structure: StructRef,
                               stripTags: string -> string)
    requires ParentsBefore(structures)
    ensures var after := DefinitionsAfter(dictionary, structures, lawId, text, name, isGlobal, structureList, structure, stripTags);
      var found := Definitions.ExtractSpec(text, stripTags);
      (after != dictionary <==>
        Triggered(name, text, isGlobal) && found.Some? &&
        Specificity(if isGlobal then "global" else found.value.scope, structureList).Some?) &&
      (after != dictionary ==>
        var scope := if isGlobal then "global" else found.value.scope;
        |after| == |dictionary| + |found.value.terms| && after[..|dictionary|] == dictionary &&
        forall j :: 0 <= j < |found.value.terms| ==>
          after[|dictionary| + j] == DefinitionRow(lawId, found.value.terms[j].0, found.value.terms[j].1, scope,
                                                   Specificity(scope, structureList).value,
                                                   DefinitionUnit(structures, structure, scope)))
  {
    var found := Definitions.ExtractSpec(text, stripTags);
    if Triggered(name, text, isGlobal) && found.Some? {
      var after := DefinitionsAfter(dictionary, structures, lawId, text, name, isGlobal, structureList, structure, stripTags);
      assert |found.value.terms| > 0;
      if Specificity(if isGlobal then "global" else found.value.scope, structureList).Some? {
        assert |after| > |dictionary|;
      }
    }
  }

  /** The definitions step against the database. */
  method StoreDictionary(db: Database, lawId: nat, text: Option<string>, name: string, isGlobal: bool,
                         structureList: string, structure: StructRef, stripTags: string -> string)
    requires ParentsBefore(db.structures)
    modifies db`dictionary
    ensures db.dictionary ==
      DefinitionsAfter(old(db.dictionary), db.structures, lawId, text, name, isGlobal, structureList, structure, stripTags)
  {
    if !Triggered(name, text, isGlobal) {
      return;
    }
    var found := Definitions.ExtractDefinitions(text, stripTags);
    if found.None? {
      return;
    }
    var scope := if isGlobal then "global" else found.value.scope;
    var unit: Option<nat> := None;
    if scope != "section" && scope != "global" {
      unit := FindStructureParent(db, structure, scope);
    }
    var specificity := Specificity(scope, structureList);
    var _ := Definitions.StoreDefinitions(db, found.value.terms, lawId, scope, specificity, unit);
  }

  // ----- the whole store -----

  /**
   * The tables after `store()` for a parsed law: the structural levels
   * registered, the law row appended, its references, text rows, prefix
   * rows and definitions added.
   */
  function StoreSpec(before: Snapshot, code: Code, name: string, isGlobal: bool, structureList: string,
                     sectionPattern: string -> seq<string>, stripTags: string -> string): Snapshot
    requires Valid(before.structures) && Dense(code.segments)
  {
    var (structures, structure) := Chain(before.structures, code.structure, |code.structure|);
    var lawId := NextId(|before.laws|);
    ChainValid(before.structures, code.structure, |code.structure|);
    Snapshot(
      structures,
      before.laws + [LawRowOf(code, structure)],
      before.texts + TextRowsOf(lawId, code.segments),
      before.textPrefixes + PrefixRowsOf(NextId(|before.texts|), code.segments, |code.segments|),
      ReferencesAfter(before.references, lawId, code.text, sectionPattern),
      DefinitionsAfter(before.dictionary, structures, lawId, code.text, name, isGlobal, structureList, structure, stripTags))
  }

  /**
   * The law row's structure is the id the most specific level received,
   * and that row carries the level's number; the structure table stays well
   * formed and keeps its earlier rows.
   */
  lemma StoreSpecStructure(before: Snapshot, code: Code, name: string, isGlobal: bool, structureList: string,
                           sectionPattern: string -> seq<string>, stripTags: string -> string)
    requires Valid(before.structures) && Dense(code.segments)
    ensures var after := StoreSpec(before, code, name, isGlobal, structureList, sectionPattern, stripTags);
      Valid(after.structures) &&
      |before.structures| <= |after.structures| && after.structures[..|before.structures|] == before.structures &&
      |after.laws| == |before.laws| + 1 && after.laws[..|before.laws|] == before.laws &&
      (after.laws[|before.laws|].structure.Some? ==>
        |code.structure| > 0 &&
        1 <= after.laws[|before.laws|].structure.value <= |after.structures| &&
        after.structures[after.laws[|before.laws|].structure.value - 1].number == code.structure[|code.structure| - 1].identifier)
  {
    ChainValid(before.structures, code.structure, |code.structure|);
    if |code.structure| > 0 {
      ChainLink(before.structures, code.structure, |code.structure|);
    }
  }

  /** `store()` for a parsed law: the tables become `StoreSpec` of what they were. */
  method StoreLaw(db: Database, c: Code, name: string, isGlobal: bool, structureList: string,
                  sectionPattern: string -> seq<string>, stripTags: string -> string) returns (lawId: nat)
    requires Valid(db.structures) && Dense(c.segments)
    modifies db
    ensures lawId == |db.laws| == NextId(|old(db.laws)|)
    ensures db.State() == StoreSpec(old(db.State()), c, name, isGlobal, structureList, sectionPattern, stripTags)
  {
    ghost var before := db.State();
    var structure;
    structure, lawId := StoreLawRow(db, c);
    ChainValid(before.structures, c.structure, |c.structure|);
    StoreReferencesOf(db, lawId, c.text, sectionPattern);
    StoreTexts(db, lawId, c.segments);
    StoreDictionary(db, lawId, c.text, name, isGlobal, structureList, structure, stripTags);
  }

  /** The structural levels registered and the law row appended. */
  method StoreLawRow(db: Database, c: Code) returns (structure: StructRef, lawId: nat)
    modifies db`structures, db`laws
    ensures (db.structures, structure) == Chain(old(db.structures), c.structure, |c.structure|)
    ensures db.laws == old(db.laws) + [LawRowOf(c, structure)] && lawId == |db.laws|
  {
    structure := RegisterStructure(db, c.structure);
    db.laws := db.laws + [LawRowOf(c, structure)];
    lawId := |db.laws|;
  }

  /** The law's citations counted and stored, when it has any. */
  method StoreReferencesOf(db: Database, lawId: nat, text: Option<string>, sectionPattern: string -> seq<string>)
    modifies db`references
    ensures db.references == ReferencesAfter(old(db.references), lawId, text, sectionPattern)
  {
    var sections := References.ExtractReferences(text, sectionPattern);
    if sections.Some? && |sections.value| > 0 {
      var _ := References.StoreReferences(db, lawId, sections.value);
    }
  }

  /**
   * `store()`: nothing happens without a parsed law (the script stops);
   * otherwise the tables become `StoreSpec` of what they were, and the law's
   * id is that of the row appended to `laws`.
   */
  method Store(db: Database, code: Option<Code>, name: string, isGlobal: bool, structureList: string,
               sectionPattern: string -> seq<string>, stripTags: string -> string) returns (lawId: Option<nat>)
    requires Valid(db.structures)
    requires code.Some? ==> Dense(code.value.segments)
    modifies db
    ensures code.None? ==> lawId.None? && db.State() == old(db.State())
    ensures code.Some? ==>
      lawId == Some(|db.laws|) &&
      db.State() == StoreSpec(old(db.State()), code.value, name, isGlobal, structureList, sectionPattern, stripTags)
    ensures Valid(db.structures)
  {
    if code.None? {
      return None;
    }
    ghost var before := db.State();
    var id := StoreLaw(db, code.value, name, isGlobal, structureList, sectionPattern, stripTags);
    StoreSpecStructure(before, code.value, name, isGlobal, structureList, sectionPattern, stripTags);
    return Some(id);
  }
}
