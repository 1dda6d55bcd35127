/**
 * `Parser::parse` and `Parser::recurse`: the walk over one statute document.
 *
 * The parser keeps its working state in object fields, as the original does:
 * the record being built (`code`), the prefix-hierarchy stack shared by the
 * whole walk, the recursion `depth` and the counter `i` that `recurse` hands
 * back. The functions in the first half of the module say, step for step,
 * what one call does to that state; the class methods are proved to follow
 * them, and the module WalkFacts proves what the walk achieves.
 */
module SectionParser {
  import opened Wrappers
  import opened Strings
  import opened Document

  // ----- the structural header -----

  /** The position of the level called `level`, if it has been collected. */
  function FindLevel(st: seq<Level>, level: string): (r: Option<nat>)
    ensures r.Some? ==> r.value < |st| && st[r.value].level == level
    ensures r.None? ==> forall j :: 0 <= j < |st| ==> st[j].level != level
  {
    if |st| == 0 then None
    else if st[0].level == level then Some(0)
    else match FindLevel(st[1..], level)
      case None => None
      case Some(j) => Some(j + 1)
  }

  /**
   * One pass of the `<unit>` loop: the properties of `$structure->{$level}`
   * are overwritten, and `order_by` only when the unit carries a non-empty one.
   */
  function MergeUnit(st: seq<Level>, u: Unit): seq<Level> {
    var ob := if IsEmpty(u.orderBy) then None else Some(u.orderBy);
    match FindLevel(st, u.level)
    case None => st + [Level(u.level, u.name, u.levelLabel, u.identifier, ob)]
    case Some(j) =>
      st[j := Level(u.level, u.name, u.levelLabel, u.identifier, if ob.Some? then ob else st[j].orderBy)]
  }

  /** The position of the first unit with level `level`. */
  function FirstUnit(us: seq<Unit>, level: string): (r: Option<nat>)
    ensures r.Some? ==> r.value < |us| && us[r.value].level == level
    ensures r.Some? ==> forall k :: 0 <= k < r.value ==> us[k].level != level
    ensures r.None? <==> forall k :: 0 <= k < |us| ==> us[k].level != level
    decreases |us|
  {
    if |us| == 0 then None
    else match FirstUnit(us[..|us| - 1], level)
      case Some(k) => Some(k)
      case None => if us[|us| - 1].level == level then Some(|us| - 1) else None
  }

  /** The structure collected from the first |us| units. */
  function CollectUnits(us: seq<Unit>): seq<Level>
    decreases |us|
  {
    if |us| == 0 then [] else MergeUnit(CollectUnits(us[..|us| - 1]), us[|us| - 1])
  }

  // ----- segment writes -----

  /** The segment object at slot `i`, or a blank one when the slot is new. */
  function SlotOf(m: map<int, Segment>, i: int): Segment {
    if i in m then m[i] else Blank
  }

  /** The new `type` of a slot: set only when the element carries a non-empty one. */
  function KindAfter(old_kind: string, n: Node): string {
    if IsEmpty(n.kind) then old_kind else n.kind
  }

  /** An undivided text block: only `->text` of slot `i` is (over)written. */
  function WriteBlock(m: map<int, Segment>, i: int, t: string): map<int, Segment> {
    m[i := SlotOf(m, i).(text := t)]
  }

  /**
   * A top-level subsection: trimmed text, prefix, the type, and a property
   * "0" of the prefix hierarchy holding the prefix. On a new slot that is a
   * one-entry hierarchy. A slot written before by `recurse` holds a
   * hierarchy made by an `(object)` cast, whose integer keys the name "0"
   * does not address in PHP 5 and 7.0, so the prefix is added after its
   * entries.
   */
  function WriteTop(m: map<int, Segment>, i: int, c: Node): map<int, Segment> {
    var s := SlotOf(m, i);
    var h := s.hierarchy + [c.prefix];
    m[i := Segment(Trim(c.text), c.prefix, h, KindAfter(s.kind, c))]
  }

  /** A nested subsection: untrimmed text, prefix, the whole stack as hierarchy, and the type. */
  function WriteNested(m: map<int, Segment>, i: int, c: Node, stack: seq<string>): map<int, Segment> {
    var s := SlotOf(m, i);
    m[i := Segment(c.text, c.prefix, stack, KindAfter(s.kind, c))]
  }

  /** What a top-level subsection appends to the full text. */
  function Piece(c: Node): string {
    c.prefix + " " + Trim(c.text) + "\r\r"
  }

  /** PHP `array_slice($s, 0, -$depth)`. */
  function SliceOff(s: seq<string>, depth: int): seq<string> {
    if depth > 0 then (if depth >= |s| then [] else s[..|s| - depth])
    else if -depth >= |s| then s
    else s[..-depth]
  }

  // ----- the children recurse() iterates -----

  /** The children named `section`, in order (`$subsection->section`). */
  function SectionsOf(s: seq<Node>): (r: seq<Node>)
    ensures |r| <= |s|
    ensures forall x :: x in r ==> x in s && x.tag == "section"
  {
    if |s| == 0 then []
    else (if s[0].tag == "section" then [s[0]] else []) + SectionsOf(s[1..])
  }

  /** `isset($subsection->section)`. */
  predicate HasSections(n: Node) {
    |SectionsOf(n.children)| > 0
  }

  /**
   * What one call of `recurse` iterates: every child element of a top-level
   * subsection, or the `section` children of a nested one.
   */
  function Kids(parent: Node, onlySections: bool): (r: seq<Node>)
    ensures forall x :: x in r ==> x in parent.children
  {
    if onlySections then SectionsOf(parent.children) else parent.children
  }

  // ----- recurse() as a function of the walk state -----

  /** The fields `recurse` reads and writes. */
  datatype Walk = Walk(segs: map<int, Segment>, stack: seq<string>, depth: int, counter: int)

  /** `recurse($parent's children, $i)` applied to walk state `w`. */
  function RecurseSpec(w: Walk, parent: Node, onlySections: bool, i: int): Walk
    decreases parent, 1, 0
  {
    RecurseLoop(w.(depth := 1), parent, onlySections, 0, i)
  }

  /** The `foreach` of `recurse` from child `k` on, with local counter `i`. */
  function RecurseLoop(w: Walk, parent: Node, onlySections: bool, k: nat, i: int): Walk
    requires k <= |Kids(parent, onlySections)|
    decreases parent, 0, |Kids(parent, onlySections)| - k
  {
    var kids := Kids(parent, onlySections);
    if k == |kids| then w
    else
      assert kids[k] in parent.children;
      RecurseLoop(Step(w, kids[k], i), parent, onlySections, k + 1, i + 1)
  }

  /**
   * One pass of the `foreach` in `recurse` for child `c` at slot `i`: write
   * the slot, push the prefix, recurse into `section` children one level
   * deeper, then cut `depth` entries off the stack and store the counter.
   */
  function Step(w: Walk, c: Node, i: int): Walk
    decreases c, 2
  {
    var pushed := w.stack + [c.prefix];
    var w1 := w.(segs := WriteNested(w.segs, i, c, pushed), stack := pushed);
    var w2 := if HasSections(c) then RecurseSpec(w1.(depth := w1.depth + 1), c, true, i + 1) else w1;
    w2.(stack := SliceOff(w2.stack, w2.depth), counter := i + 1)
  }

  // ----- parse()'s walk over the text blocks -----

  /** The walk state plus the full text and parse()'s own counter `$i`. */
  datatype TextState = TextState(walk: Walk, text: Option<string>, i: int)

  /** One top-level subsection `c` of a text block (lines 157-189). */
  function TopStep(ts: TextState, c: Node): TextState {
    var w := ts.walk;
    var w1 := w.(segs := WriteTop(w.segs, ts.i, c), stack := w.stack + [c.prefix]);
    var text := Some(ts.text.GetOr("") + Piece(c));
    var i1 := ts.i + 1;
    if |c.children| > 0 then
      var w2 := RecurseSpec(w1, c, false, i1);
      TextState(w2.(stack := []), text, w2.counter)
    else
      TextState(w1.(stack := []), text, i1)
  }

  /** The top-level subsections of one text block, from child `k` on. */
  function Subsections(ts: TextState, blk: Node, k: nat): TextState
    requires k <= |blk.children|
    decreases |blk.children| - k
  {
    if k == |blk.children| then ts
    else Subsections(TopStep(ts, blk.children[k]), blk, k + 1)
  }

  /**
   * The text blocks from block `b` on: an undivided block sets its slot's
   * text and the full text and ends the walk; a divided one is walked.
   */
  function TextBlocks(ts: TextState, texts: seq<Node>, b: nat): TextState
    requires b <= |texts|
    decreases |texts| - b
  {
    if b == |texts| then ts
    else if |texts[b].children| == 0 then
      var t := Trim(texts[b].text);
      ts.(walk := ts.walk.(segs := WriteBlock(ts.walk.segs, ts.i, t)), text := Some(t))
    else TextBlocks(Subsections(ts, texts[b], 0), texts, b + 1)
  }

  /** All the parser's fields. */
  /** How a call ends: with a return value, or with a fatal error that stops the script. */
  datatype Exit = Returned(ok: bool) | Fatal

  datatype ParserState = ParserState(code: Option<Code>, stack: seq<string>, depth: int, counter: int)

  /** `recurse` on the whole parser: without a record it does nothing. */
  function RecurseState(ps: ParserState, parent: Node, onlySections: bool, i: int): ParserState {
    if ps.code.None? then ps
    else
      var w := RecurseSpec(Walk(ps.code.value.segments, ps.stack, ps.depth, ps.counter), parent, onlySections, i);
      ParserState(Some(ps.code.value.(segments := w.segs)), w.stack, w.depth, w.counter)
  }

  /** The header fields and structure of a fresh record for `d`. */
  function Header(d: Law): Code {
    Code(d.catchLine, d.sectionNumber, d.orderBy, d.history, CollectUnits(d.units), None, map[])
  }

  /** A fresh record for `d` whose structure holds only the first `k` units. */
  function HeaderUpTo(d: Law, k: nat): Code
    requires k <= |d.units|
  {
    Code(d.catchLine, d.sectionNumber, d.orderBy, d.history, CollectUnits(d.units[..k]), None, map[])
  }

  /**
   * `parse()` stopped by the fatal error at unit `k`, whose level is empty
   * (`->{""}` is "Cannot access empty property"): the record holds the
   * header and the units before it, and the walk fields are untouched.
   */
  function HaltSpec(ps: ParserState, d: Law, k: nat): ParserState
    requires k <= |d.units|
  {
    ParserState(Some(HeaderUpTo(d, k)), ps.stack, ps.depth, ps.counter)
  }

  /** The text walk of `parse` over `d`, from the parser's stack, depth and counter. */
  function WalkLaw(ps: ParserState, d: Law): TextState {
    TextBlocks(TextState(Walk(map[], ps.stack, ps.depth, ps.counter), None, 0), d.texts, 0)
  }

  /** `parse()` run to its end: nothing without a document; otherwise a new record. */
  function ParseSpec(ps: ParserState, doc: Option<Law>): ParserState {
    if doc.None? then ps
    else
      var ts := WalkLaw(ps, doc.value);
      ParserState(Some(Header(doc.value).(text := ts.text, segments := ts.walk.segs)),
                  ts.walk.stack, ts.walk.depth, ts.walk.counter)
  }

  class Parser {
    /** `$this->code`, the record under construction. */
    var code: Option<Code>
    /** `$this->prefix_hierarchy`, the stack shared by the whole walk. */
    var hierarchy: seq<string>
    /** `$this->depth`. */
    var depth: int
    /** `$this->i`, the counter `recurse` hands back. */
    var counter: int

    constructor ()
      ensures code == None && hierarchy == [] && depth == 0 && counter == 0
    {
      code := None;
      hierarchy := [];
      depth := 0;
      counter := 0;
    }

    function State(): ParserState
      reads this
    {
      ParserState(code, hierarchy, depth, counter)
    }

    /** The text-walk state, with parse()'s local counter `i`. */
    function Current(i: int): TextState
      reads this
      requires code.Some?
    {
      TextState(Walk(code.value.segments, hierarchy, depth, counter), code.value.text, i)
    }

    /**
     * `recurse($section, $i)`: writes one segment per child at the running
     * counter, recursing into children that have `section` children.
     */
    method Recurse(parent: Node, onlySections: bool, start: int) returns (ok: bool)
      modifies this
      ensures ok == old(code).Some?
      ensures State() == RecurseState(old(State()), parent, onlySections, start)
      decreases parent, 1
    {
      if code.None? {
        return false;
      }
      ghost var goal := RecurseSpec(Walk(code.value.segments, hierarchy, depth, counter), parent, onlySections, start);
      ghost var rest := code.value;
      depth := 1;
      var kids := Kids(parent, onlySections);
      var i := start;
      var k := 0;
      while k < |kids|
        invariant 0 <= k <= |kids|
        invariant code.Some? && code.value == rest.(segments := code.value.segments)
        invariant RecurseLoop(Walk(code.value.segments, hierarchy, depth, counter), parent, onlySections, k, i) == goal
        decreases |kids| - k
      {
        var c := kids[k];
        assert c in parent.children;
        RecurseChild(c, i);
        i := i + 1;
        k := k + 1;
      }
      return true;
    }

    /** One pass of the `foreach` in `recurse`, for child `c` at slot `i`. */
    method RecurseChild(c: Node, i: int)
      requires code.Some?
      modifies this
      ensures code.Some? && code.value == old(code.value).(segments := code.value.segments)
      ensures Walk(code.value.segments, hierarchy, depth, counter) ==
        Step(old(Walk(code.value.segments, hierarchy, depth, counter)), c, i)
      decreases c, 2
    {
      hierarchy := hierarchy + [c.prefix];
      code := Some(code.value.(segments := WriteNested(code.value.segments, i, c, hierarchy)));
      if HasSections(c) {
        depth := depth + 1;
        var _ := Recurse(c, true, i + 1);
      }
      hierarchy := SliceOff(hierarchy, depth);
      counter := i + 1;
    }

    /**
     * The `<unit>` loop of `parse()`: a fresh record holding the header and
     * the collected structure. A unit whose level is empty is fatal: the
     * loop stops there with the units before it collected.
     */
    method ParseHeader(d: Law) returns (fatal: bool)
      modifies this
      ensures fatal == FirstUnit(d.units, "").Some?
      ensures !fatal ==> code == Some(Header(d))
      ensures fatal ==> code == Some(HeaderUpTo(d, FirstUnit(d.units, "").value))
      ensures hierarchy == old(hierarchy) && depth == old(depth) && counter == old(counter)
    {
      code := Some(Code(d.catchLine, d.sectionNumber, d.orderBy, d.history, [], None, map[]));
      var u := 0;
      while u < |d.units|
        invariant 0 <= u <= |d.units|
        invariant forall k :: 0 <= k < u ==> d.units[k].level != ""
        invariant code == Some(HeaderUpTo(d, u))
        invariant hierarchy == old(hierarchy) && depth == old(depth) && counter == old(counter)
      {
        if d.units[u].level == "" {
          return true;
        }
        assert d.units[..u + 1][..u] == d.units[..u];
        code := Some(code.value.(structure := MergeUnit(code.value.structure, d.units[u])));
        u := u + 1;
      }
      assert d.units[..u] == d.units;
      return false;
    }

    /** The inner `foreach` of `parse()` over the subsections of one divided text block. */
    method ParseBlock(blk: Node, start: int) returns (i: int)
      requires code.Some?
      modifies this
      ensures code.Some? && code.value == old(code.value).(text := code.value.text, segments := code.value.segments)
      ensures Current(i) == Subsections(old(Current(start)), blk, 0)
    {
      i := start;
      ghost var entry := Current(i);
      var k := 0;
      while k < |blk.children|
        invariant 0 <= k <= |blk.children|
        invariant code.Some? && code.value == old(code.value).(text := code.value.text, segments := code.value.segments)
        invariant Subsections(Current(i), blk, k) == Subsections(entry, blk, 0)
        decreases |blk.children| - k
      {
        i := ParseChild(blk.children[k], i);
        k := k + 1;
      }
    }

    /** One pass of that `foreach`: write subsection `c` to slot `i`, append it to the text, walk its children. */
    method ParseChild(c: Node, start: int) returns (i: int)
      requires code.Some?
      modifies this
      ensures code.Some? && code.value == old(code.value).(text := code.value.text, segments := code.value.segments)
      ensures Current(i) == TopStep(old(Current(start)), c)
    {
      code := Some(code.value.(segments := WriteTop(code.value.segments, start, c),
                               text := Some(code.value.text.GetOr("") + Piece(c))));
      hierarchy := hierarchy + [c.prefix];
      i := start + 1;
      if |c.children| > 0 {
        var _ := Recurse(c, false, i);
        i := counter;
      }
      hierarchy := [];
    }

    /**
     * `parse()`: copies the header, collects the structural units, then walks
     * the text blocks. It returns false without a document and stops the
     * script at a unit whose level is empty.
     */
    method Parse(doc: Option<Law>) returns (r: Exit)
      modifies this
      ensures doc.None? ==> r == Returned(false) && State() == old(State())
      ensures doc.Some? && FirstUnit(doc.value.units, "").Some? ==>
        r == Fatal && State() == HaltSpec(old(State()), doc.value, FirstUnit(doc.value.units, "").value)
      ensures doc.Some? && FirstUnit(doc.value.units, "").None? ==>
        r == Returned(true) && State() == ParseSpec(old(State()), doc)
    {
      if doc.None? {
        return Returned(false);
      }
      var d := doc.value;
      var fatal := ParseHeader(d);
      if fatal {
        return Fatal;
      }
      ghost var base := code.value;
      ghost var goal := WalkLaw(old(State()), d);
      var i := 0;
      var b := 0;
      while b < |d.texts|
        invariant 0 <= b <= |d.texts|
        invariant code.Some? && code.value == base.(text := code.value.text, segments := code.value.segments)
        invariant TextBlocks(Current(i), d.texts, b) == goal
        decreases |d.texts| - b
      {
        var blk := d.texts[b];
        if |blk.children| == 0 {
          var t := Trim(blk.text);
          code := Some(code.value.(segments := WriteBlock(code.value.segments, i, t), text := Some(t)));
          assert Current(i) == goal;
          break;
        }
        i := ParseBlock(blk, i);
        b := b + 1;
      }
      assert Current(i) == goal;
      return Returned(true);
    }
  }
}
