/**
 * What the section walk achieves, proved about the functions that the
 * `Parser` methods follow: the shared stack and `depth` after `recurse`, the
 * counter it hands back, which segment slots it writes and what each ends up
 * holding, and what `parse` makes of a whole document.
 */
module WalkFacts {
  import opened Wrappers
  import opened Strings
  import opened Document
  import opened SectionParser

  function Max(a: int, b: int): int {
    if a < b then b else a
  }

  // ----- stack, depth and counter -----

  /**
   * `recurse` leaves the shared stack as it found it and `depth` at 1; the
   * counter it hands back is its start plus the number of children it
   * iterated, whatever happened further down (a nested call's advance is not
   * copied back).
   */
  lemma {:induction false} RecurseShape(w: Walk, parent: Node, only: bool, i: int)
    ensures RecurseSpec(w, parent, only, i).stack == w.stack
    ensures RecurseSpec(w, parent, only, i).depth == 1
    ensures RecurseSpec(w, parent, only, i).counter
         == if |Kids(parent, only)| == 0 then w.counter else i + |Kids(parent, only)|
    decreases parent, 1, 0
  {
    LoopShape(w.(depth := 1), parent, only, 0, i);
  }

  lemma {:induction false} LoopShape(w: Walk, parent: Node, only: bool, k: nat, i: int)
    requires k <= |Kids(parent, only)| && w.depth == 1
    ensures RecurseLoop(w, parent, only, k, i).stack == w.stack
    ensures RecurseLoop(w, parent, only, k, i).depth == 1
    ensures RecurseLoop(w, parent, only, k, i).counter
         == if k == |Kids(parent, only)| then w.counter else i + |Kids(parent, only)| - k
    decreases parent, 0, |Kids(parent, only)| - k
  {
    var kids := Kids(parent, only);
    if k < |kids| {
      assert kids[k] in parent.children;
      StepShape(w, kids[k], i);
      LoopShape(Step(w, kids[k], i), parent, only, k + 1, i + 1);
    }
  }

  /** One child: the stack is back to what it was, `depth` is 1 and the counter is one past the child's slot. */
  lemma {:induction false} StepShape(w: Walk, c: Node, i: int)
    requires w.depth == 1
    ensures Step(w, c, i).stack == w.stack && Step(w, c, i).depth == 1 && Step(w, c, i).counter == i + 1
    decreases c, 2
  {
    var pushed := w.stack + [c.prefix];
    var w1 := w.(segs := WriteNested(w.segs, i, c, pushed), stack := pushed);
    if HasSections(c) {
      RecurseShape(w1.(depth := w1.depth + 1), c, true, i + 1);
    }
  }

  // ----- which slots are written -----

  /** One past the highest slot `recurse` writes, starting at `i`. */
  ghost function SpecReach(parent: Node, only: bool, i: int): int
    decreases parent, 1, 0
  {
    LoopReach(parent, only, 0, i)
  }

  ghost function LoopReach(parent: Node, only: bool, k: nat, i: int): int
    requires k <= |Kids(parent, only)|
    decreases parent, 0, |Kids(parent, only)| - k
  {
    var kids := Kids(parent, only);
    if k == |kids| then i
    else
      assert kids[k] in parent.children;
      Max(StepReach(kids[k], i), LoopReach(parent, only, k + 1, i + 1))
  }

  /** One past the highest slot written for child `c` at slot `i`. */
  ghost function StepReach(c: Node, i: int): int
    decreases c, 2
  {
    if HasSections(c) then SpecReach(c, true, i + 1) else i + 1
  }

  /**
   * `recurse` started at `i` adds exactly the slots `i` up to its reach, which
   * is at least one slot per child, and leaves every slot below `i` alone.
   */
  lemma {:induction false} RecurseSlots(w: Walk, parent: Node, only: bool, i: int)
    ensures SpecReach(parent, only, i) >= i + |Kids(parent, only)|
    ensures forall j :: j in RecurseSpec(w, parent, only, i).segs <==> j in w.segs || i <= j < SpecReach(parent, only, i)
    ensures forall j :: j < i && j in w.segs ==> RecurseSpec(w, parent, only, i).segs[j] == w.segs[j]
    decreases parent, 1, 0
  {
    LoopSlots(w.(depth := 1), parent, only, 0, i);
  }

  lemma {:induction false} LoopSlots(w: Walk, parent: Node, only: bool, k: nat, i: int)
    requires k <= |Kids(parent, only)|
    ensures LoopReach(parent, only, k, i) >= i + |Kids(parent, only)| - k
    ensures forall j :: j in RecurseLoop(w, parent, only, k, i).segs <==> j in w.segs || i <= j < LoopReach(parent, only, k, i)
    ensures forall j :: j < i && j in w.segs ==> RecurseLoop(w, parent, only, k, i).segs[j] == w.segs[j]
    decreases parent, 0, |Kids(parent, only)| - k
  {
    var kids := Kids(parent, only);
    if k < |kids| {
      assert kids[k] in parent.children;
      StepSlots(w, kids[k], i);
      LoopSlots(Step(w, kids[k], i), parent, only, k + 1, i + 1);
    }
  }

  /**
   * One child at slot `i`: the slots `i` up to the child's reach are added,
   * slot `i` holds the child's own write, and nothing below `i` changes.
   */
  lemma {:induction false} StepSlots(w: Walk, c: Node, i: int)
    ensures StepReach(c, i) >= i + 1
    ensures forall j :: j in Step(w, c, i).segs <==> j in w.segs || i <= j < StepReach(c, i)
    ensures forall j :: j < i && j in w.segs ==> Step(w, c, i).segs[j] == w.segs[j]
    ensures Step(w, c, i).segs[i] == WriteNested(w.segs, i, c, w.stack + [c.prefix])[i]
    decreases c, 2
  {
    var pushed := w.stack + [c.prefix];
    var w1 := w.(segs := WriteNested(w.segs, i, c, pushed), stack := pushed);
    if HasSections(c) {
      RecurseSlots(w1.(depth := w1.depth + 1), c, true, i + 1);
    }
  }

  // ----- what the slots hold -----

  /**
   * After `recurse` started at `i`, slot `i + k` holds child `k`: its own
   * untrimmed text, its prefix, and as prefix hierarchy the stack the call
   * found plus that prefix. A nested call may have written further slots,
   * but every later sibling overwrites the one after it.
   */
  lemma {:induction false} RecurseFinal(w: Walk, parent: Node, only: bool, i: int)
    ensures forall k :: 0 <= k < |Kids(parent, only)| ==>
      HoldsChild(RecurseSpec(w, parent, only, i).segs, i + k, Kids(parent, only)[k], w.stack)
    decreases parent, 1, 0
  {
    LoopFinal(w.(depth := 1), parent, only, 0, i);
  }

  /** Slot `j` holds child `c`'s text and prefix, with hierarchy `stack` plus that prefix. */
  ghost predicate HoldsChild(m: map<int, Segment>, j: int, c: Node, stack: seq<string>) {
    j in m && m[j].text == c.text && m[j].prefix == c.prefix && m[j].hierarchy == stack + [c.prefix]
  }

  lemma {:induction false} LoopFinal(w: Walk, parent: Node, only: bool, k0: nat, i: int)
    requires k0 <= |Kids(parent, only)| && w.depth == 1
    ensures forall k :: k0 <= k < |Kids(parent, only)| ==>
      HoldsChild(RecurseLoop(w, parent, only, k0, i).segs, i + (k - k0), Kids(parent, only)[k], w.stack)
    decreases parent, 0, |Kids(parent, only)| - k0
  {
    var kids := Kids(parent, only);
    if k0 < |kids| {
      assert kids[k0] in parent.children;
      var w3 := Step(w, kids[k0], i);
      StepShape(w, kids[k0], i);
      LoopFirst(w, parent, only, k0, i);
      LoopFinal(w3, parent, only, k0 + 1, i + 1);
    }
  }

  /** The first child the loop takes keeps the slot it wrote, whatever its later siblings do. */
  lemma LoopFirst(w: Walk, parent: Node, only: bool, k0: nat, i: int)
    requires k0 < |Kids(parent, only)| && w.depth == 1
    ensures HoldsChild(RecurseLoop(w, parent, only, k0, i).segs, i, Kids(parent, only)[k0], w.stack)
  {
    var c := Kids(parent, only)[k0];
    assert c in parent.children;
    var w3 := Step(w, c, i);
    StepShape(w, c, i);
    StepSlots(w, c, i);
    assert HoldsChild(w3.segs, i, c, w.stack);
    LoopSlots(w3, parent, only, k0 + 1, i + 1);
  }

  /**
   * Every slot `recurse` changes holds a prefix hierarchy that extends the
   * stack the call found and ends with the slot's own prefix.
   */
  ghost predicate Under(before: map<int, Segment>, after: map<int, Segment>, base: seq<string>) {
    forall j :: j in after && (j !in before || after[j] != before[j]) ==> Extends(after[j], base)
  }

  /** The segment's hierarchy strictly extends `base` and ends with the segment's prefix. */
  ghost predicate Extends(s: Segment, base: seq<string>) {
    |s.hierarchy| > |base| && s.hierarchy[..|base|] == base && s.hierarchy[|s.hierarchy| - 1] == s.prefix
  }

  lemma ExtendsShorter(s: Segment, base: seq<string>, longer: seq<string>)
    requires Extends(s, longer) && |longer| >= |base| && longer[..|base|] == base
    ensures Extends(s, base)
  {
    assert s.hierarchy[..|base|] == s.hierarchy[..|longer|][..|base|];
  }

  lemma UnderTrans(m0: map<int, Segment>, m1: map<int, Segment>, m2: map<int, Segment>, base: seq<string>, longer: seq<string>)
    requires Under(m0, m1, base) && Under(m1, m2, longer)
    requires |longer| >= |base| && longer[..|base|] == base
    ensures Under(m0, m2, base)
  {
    forall j | j in m2 && (j !in m0 || m2[j] != m0[j])
      ensures Extends(m2[j], base)
    {
      if j !in m1 || m2[j] != m1[j] {
        ExtendsShorter(m2[j], base, longer);
      }
    }
  }

  lemma {:induction false} RecurseUnder(w: Walk, parent: Node, only: bool, i: int)
    ensures Under(w.segs, RecurseSpec(w, parent, only, i).segs, w.stack)
    decreases parent, 1, 0
  {
    LoopUnder(w.(depth := 1), parent, only, 0, i);
  }

  lemma {:induction false} LoopUnder(w: Walk, parent: Node, only: bool, k: nat, i: int)
    requires k <= |Kids(parent, only)| && w.depth == 1
    ensures Under(w.segs, RecurseLoop(w, parent, only, k, i).segs, w.stack)
    decreases parent, 0, |Kids(parent, only)| - k
  {
    var kids := Kids(parent, only);
    if k < |kids| {
      assert kids[k] in parent.children;
      var w3 := Step(w, kids[k], i);
      StepUnder(w, kids[k], i);
      StepShape(w, kids[k], i);
      LoopUnder(w3, parent, only, k + 1, i + 1);
      UnderTrans(w.segs, w3.segs, RecurseLoop(w3, parent, only, k + 1, i + 1).segs, w.stack, w.stack);
    }
  }

  lemma {:induction false} StepUnder(w: Walk, c: Node, i: int)
    ensures Under(w.segs, Step(w, c, i).segs, w.stack)
    decreases c, 2
  {
    var pushed := w.stack + [c.prefix];
    var w1 := w.(segs := WriteNested(w.segs, i, c, pushed), stack := pushed);
    assert pushed[..|w.stack|] == w.stack;
    assert Extends(w1.segs[i], w.stack);
    assert Under(w.segs, w1.segs, w.stack);
    if HasSections(c) {
      RecurseUnder(w1.(depth := w1.depth + 1), c, true, i + 1);
      UnderTrans(w.segs, w1.segs, Step(w, c, i).segs, w.stack, pushed);
    }
  }

  // ----- density of the segment map -----

  /** The keys of `m` are exactly 0 .. n - 1. */
  ghost predicate UpTo(m: map<int, Segment>, n: int) {
    forall j :: j in m <==> 0 <= j < n
  }

  /** The integers 0 .. n - 1. */
  ghost function Range(n: nat): (r: set<int>)
    ensures forall j :: j in r <==> 0 <= j < n
  {
    if n == 0 then {} else Range(n - 1) + {n - 1}
  }

  lemma {:induction false} RangeSize(n: nat)
    ensures |Range(n)| == n
  {
    if n > 0 {
      RangeSize(n - 1);
    }
  }

  lemma UpToDense(m: map<int, Segment>, n: nat)
    requires UpTo(m, n)
    ensures |m| == n && Dense(m)
  {
    RangeSize(n);
    assert m.Keys == Range(n);
  }

  /**
   * A top-level subsection at a slot no further than one past the last one
   * keeps the segment keys dense and leaves the counter within them.
   */
  lemma TopStepDense(ts: TextState, c: Node)
    requires Dense(ts.walk.segs) && 0 <= ts.i <= |ts.walk.segs|
    ensures Dense(TopStep(ts, c).walk.segs)
    ensures ts.i < TopStep(ts, c).i <= |TopStep(ts, c).walk.segs|
  {
    var n := |ts.walk.segs|;
    var w := ts.walk;
    var w1 := w.(segs := WriteTop(w.segs, ts.i, c), stack := w.stack + [c.prefix]);
    var n1 := Max(n, ts.i + 1);
    assert UpTo(w1.segs, n1);
    if |c.children| > 0 {
      RecurseSlots(w1, c, false, ts.i + 1);
      RecurseShape(w1, c, false, ts.i + 1);
      var n2 := Max(n1, SpecReach(c, false, ts.i + 1));
      assert UpTo(TopStep(ts, c).walk.segs, n2);
      UpToDense(TopStep(ts, c).walk.segs, n2);
    } else {
      UpToDense(w1.segs, n1);
    }
  }

  lemma {:induction false} SubsectionsDense(ts: TextState, blk: Node, k: nat)
    requires k <= |blk.children|
    requires Dense(ts.walk.segs) && 0 <= ts.i <= |ts.walk.segs|
    ensures Dense(Subsections(ts, blk, k).walk.segs)
    ensures ts.i <= Subsections(ts, blk, k).i <= |Subsections(ts, blk, k).walk.segs|
    decreases |blk.children| - k
  {
    if k < |blk.children| {
      TopStepDense(ts, blk.children[k]);
      SubsectionsDense(TopStep(ts, blk.children[k]), blk, k + 1);
    }
  }

  lemma {:induction false} TextBlocksDense(ts: TextState, texts: seq<Node>, b: nat)
    requires b <= |texts|
    requires Dense(ts.walk.segs) && 0 <= ts.i <= |ts.walk.segs|
    ensures Dense(TextBlocks(ts, texts, b).walk.segs)
    decreases |texts| - b
  {
    if b < |texts| {
      if |texts[b].children| == 0 {
        var m := WriteBlock(ts.walk.segs, ts.i, Trim(texts[b].text));
        assert UpTo(m, Max(|ts.walk.segs|, ts.i + 1));
        UpToDense(m, Max(|ts.walk.segs|, ts.i + 1));
      } else {
        SubsectionsDense(ts, texts[b], 0);
        TextBlocksDense(Subsections(ts, texts[b], 0), texts, b + 1);
      }
    }
  }

  /** The segments of a parsed record are keyed 0 .. n - 1. */
  lemma ParseDense(ps: ParserState, d: Law)
    ensures Dense(ParseSpec(ps, Some(d)).code.value.segments)
  {
    TextBlocksDense(TextState(Walk(map[], ps.stack, ps.depth, ps.counter), None, 0), d.texts, 0);
  }

  // ----- what parse() makes of a document -----

  /**
   * A first text block without child elements becomes the only segment and
   * the full text, both trimmed; no later block is read.
   */
  lemma ParseUndivided(ps: ParserState, d: Law)
    requires |d.texts| > 0 && |d.texts[0].children| == 0
    ensures ParseSpec(ps, Some(d)).code.value.segments == map[0 := Segment(Trim(d.texts[0].text), "", [], "")]
    ensures ParseSpec(ps, Some(d)).code.value.text == Some(Trim(d.texts[0].text))
  {
  }

  /**
   * One top-level subsection `c` written at slot `ts.i`: that slot holds the
   * trimmed text and prefix, with the prefix added after the hierarchy the
   * slot had (the only entry when the slot is new); slot `ts.i + 1 + k` holds child `k`
   * untrimmed under `[c.prefix]`; the full text gains `c`'s piece; the shared
   * stack is empty again; parse's counter moves past the children; and no
   * slot below `ts.i` changes.
   */
  lemma TopStepSlots(ts: TextState, c: Node)
    ensures var r := TopStep(ts, c);
      ts.i in r.walk.segs &&
      r.walk.segs[ts.i].text == Trim(c.text) &&
      r.walk.segs[ts.i].prefix == c.prefix &&
      r.walk.segs[ts.i].hierarchy == SlotOf(ts.walk.segs, ts.i).hierarchy + [c.prefix] &&
      (ts.i !in ts.walk.segs ==> r.walk.segs[ts.i].hierarchy == [c.prefix])
    ensures forall k :: 0 <= k < |c.children| ==>
      HoldsChild(TopStep(ts, c).walk.segs, ts.i + 1 + k, c.children[k], ts.walk.stack + [c.prefix])
    ensures forall j :: j < ts.i && j in ts.walk.segs ==>
      j in TopStep(ts, c).walk.segs && TopStep(ts, c).walk.segs[j] == ts.walk.segs[j]
    ensures TopStep(ts, c).text == Some(ts.text.GetOr("") + Piece(c))
    ensures TopStep(ts, c).walk.stack == []
    ensures TopStep(ts, c).i == ts.i + 1 + |c.children|
  {
    var w := ts.walk;
    var w1 := w.(segs := WriteTop(w.segs, ts.i, c), stack := w.stack + [c.prefix]);
    if |c.children| > 0 {
      RecurseSlots(w1, c, false, ts.i + 1);
      RecurseShape(w1, c, false, ts.i + 1);
      RecurseFinal(w1, c, false, ts.i + 1);
    }
  }

  /** The later steps of a text block touch no slot below the one they start at. */
  lemma {:induction false} SubsectionsKeep(ts: TextState, blk: Node, k: nat)
    requires k <= |blk.children|
    ensures ts.i <= Subsections(ts, blk, k).i
    ensures forall j :: j < ts.i && j in ts.walk.segs ==>
      j in Subsections(ts, blk, k).walk.segs && Subsections(ts, blk, k).walk.segs[j] == ts.walk.segs[j]
    decreases |blk.children| - k
  {
    if k < |blk.children| {
      TopStepSlots(ts, blk.children[k]);
      SubsectionsKeep(TopStep(ts, blk.children[k]), blk, k + 1);
    }
  }

  /** The concatenated pieces of the top-level subsections `cs[k..]`. */
  function Pieces(cs: seq<Node>, k: nat): string
    requires k <= |cs|
    decreases |cs| - k
  {
    if k == |cs| then "" else Piece(cs[k]) + Pieces(cs, k + 1)
  }

  /** The concatenated pieces of every top-level subsection of the blocks `texts[b..]`. */
  function BlockPieces(texts: seq<Node>, b: nat): string
    requires b <= |texts|
    decreases |texts| - b
  {
    if b == |texts| then "" else Pieces(texts[b].children, 0) + BlockPieces(texts, b + 1)
  }

  lemma TopStepText(ts: TextState, c: Node)
    ensures TopStep(ts, c).text == Some(ts.text.GetOr("") + Piece(c))
  {
  }

  lemma {:induction false} SubsectionsText(ts: TextState, blk: Node, k: nat)
    requires k <= |blk.children|
    ensures Subsections(ts, blk, k).text
         == if k == |blk.children| then ts.text else Some(ts.text.GetOr("") + Pieces(blk.children, k))
    decreases |blk.children| - k
  {
    if k < |blk.children| {
      var c := blk.children[k];
      var next := TopStep(ts, c);
      TopStepText(ts, c);
      SubsectionsText(next, blk, k + 1);
      assert Subsections(ts, blk, k) == Subsections(next, blk, k + 1);
      Associate(ts.text.GetOr(""), Piece(c), Pieces(blk.children, k + 1), Pieces(blk.children, k),
                k + 1 == |blk.children|, next.text, Subsections(next, blk, k + 1).text);
    }
  }

  /** The text after one more block, whether or not blocks follow it. */
  lemma Associate(pre: string, here: string, tail: string, all: string, last: bool, mid: Option<string>, r: Option<string>)
    requires all == here + tail && mid == Some(pre + here)
    requires last ==> tail == "" && r == mid
    requires !last ==> r == Some(mid.GetOr("") + tail)
    ensures r == Some(pre + all)
  {
    if last {
      assert all == here;
    } else {
      assert pre + here + tail == pre + (here + tail);
    }
  }

  lemma {:induction false} TextBlocksText(ts: TextState, texts: seq<Node>, b: nat)
    requires b <= |texts|
    requires forall j :: b <= j < |texts| ==> |texts[j].children| > 0
    ensures TextBlocks(ts, texts, b).text
         == if b == |texts| then ts.text else Some(ts.text.GetOr("") + BlockPieces(texts, b))
    decreases |texts| - b
  {
    if b < |texts| {
      var pre := ts.text.GetOr("");
      var blk := texts[b];
      var mid := Subsections(ts, blk, 0);
      SubsectionsText(ts, blk, 0);
      TextBlocksText(mid, texts, b + 1);
      var here := Pieces(blk.children, 0);
      var tail := BlockPieces(texts, b + 1);
      Associate(pre, here, tail, BlockPieces(texts, b), b + 1 == |texts|,
                mid.text, TextBlocks(mid, texts, b + 1).text);
      assert TextBlocks(ts, texts, b) == TextBlocks(mid, texts, b + 1);
    }
  }

  /**
   * When every text block is divided, the full text is the concatenation,
   * in document order, of `prefix + " " + trim(text) + "\r\r"` over the
   * top-level subsections; nested subsections contribute nothing.
   */
  lemma ParseFullText(ps: ParserState, d: Law)
    requires forall j :: 0 <= j < |d.texts| ==> |d.texts[j].children| > 0
    ensures ParseSpec(ps, Some(d)).code.value.text
         == if |d.texts| == 0 then None else Some(BlockPieces(d.texts, 0))
  {
    var ts := TextState(Walk(map[], ps.stack, ps.depth, ps.counter), None, 0);
    TextBlocksText(ts, d.texts, 0);
    var r := TextBlocks(ts, d.texts, 0);
    assert ParseSpec(ps, Some(d)).code.value.text == r.text;
    if |d.texts| > 0 {
      assert r.text == Some("" + BlockPieces(d.texts, 0));
      assert "" + BlockPieces(d.texts, 0) == BlockPieces(d.texts, 0);
    }
  }

  /** Once a divided block has been walked, the shared stack is left empty. */
  lemma {:induction false} TextBlocksStack(ts: TextState, texts: seq<Node>, b: nat)
    requires b <= |texts|
    requires ts.walk.stack == [] || (b < |texts| && |texts[b].children| > 0)
    ensures TextBlocks(ts, texts, b).walk.stack == []
    decreases |texts| - b
  {
    if b < |texts| && |texts[b].children| > 0 {
      var blk := texts[b];
      TopStepSlots(ts, blk.children[0]);
      SubsectionsStack(TopStep(ts, blk.children[0]), blk, 1);
      TextBlocksStack(Subsections(ts, blk, 0), texts, b + 1);
    }
  }

  lemma {:induction false} SubsectionsStack(ts: TextState, blk: Node, k: nat)
    requires k <= |blk.children| && ts.walk.stack == []
    ensures Subsections(ts, blk, k).walk.stack == []
    decreases |blk.children| - k
  {
    if k < |blk.children| {
      TopStepSlots(ts, blk.children[k]);
      SubsectionsStack(TopStep(ts, blk.children[k]), blk, k + 1);
    }
  }

  /** A parse whose first block is divided leaves the parser's stack empty. */
  lemma ParseStack(ps: ParserState, d: Law)
    requires |d.texts| > 0 && |d.texts[0].children| > 0
    ensures ParseSpec(ps, Some(d)).stack == []
  {
    TextBlocksStack(TextState(Walk(map[], ps.stack, ps.depth, ps.counter), None, 0), d.texts, 0);
  }

  // ----- two-level documents -----

  /** No child of a top-level subsection has `section` children of its own. */
  predicate Shallow(c: Node) {
    forall g :: g in c.children ==> !HasSections(g)
  }

  lemma {:induction false} FlatReach(parent: Node, k: nat, i: int)
    requires k <= |parent.children| && Shallow(parent)
    ensures LoopReach(parent, false, k, i) == i + |parent.children| - k
    decreases |parent.children| - k
  {
    if k < |parent.children| {
      assert parent.children[k] in parent.children;
      FlatReach(parent, k + 1, i + 1);
    }
  }

  /**
   * In a two-level subsection nothing is overwritten: the segments written
   * end exactly where parse's counter resumes, so the next top-level
   * subsection gets a new slot (and with it the one-entry hierarchy).
   */
  lemma TopStepShallow(ts: TextState, c: Node)
    requires Shallow(c) && Dense(ts.walk.segs) && ts.i == |ts.walk.segs|
    ensures Dense(TopStep(ts, c).walk.segs) && TopStep(ts, c).i == |TopStep(ts, c).walk.segs|
  {
    TopStepDense(ts, c);
    var w := ts.walk;
    var w1 := w.(segs := WriteTop(w.segs, ts.i, c), stack := w.stack + [c.prefix]);
    assert UpTo(w1.segs, ts.i + 1);
    if |c.children| > 0 {
      RecurseSlots(w1, c, false, ts.i + 1);
      RecurseShape(w1, c, false, ts.i + 1);
      FlatReach(c, 0, ts.i + 1);
      assert UpTo(TopStep(ts, c).walk.segs, ts.i + 1 + |c.children|);
      UpToDense(TopStep(ts, c).walk.segs, ts.i + 1 + |c.children|);
    } else {
      UpToDense(w1.segs, ts.i + 1);
    }
  }

  // ----- the counter is not handed back from nested calls -----

  // A document whose first subsection `A.` has a child `1.` with two
  // `section` children `(i)` and `(ii)`, followed by a sibling `2.`, and then
  // a second subsection `B.`.
  const ExI := Node("section", "(i)", "", "s1", [])
  const ExII := Node("section", "(ii)", "", "s2", [])
  const Ex1 := Node("section", "1.", "", "k1", [ExI, ExII])
  const Ex2 := Node("section", "2.", "", "k2", [])
  const ExA := Node("section", "A.", "", "", [Ex1, Ex2])
  const ExB := Node("section", "B.", "", "", [])
  const ExLaw := Law("", "", "", "", [], [Node("text", "", "", "", [ExA, ExB])])

  /** The slots once `A.` and `1.` are written. */
  const ExAt1 := map[0 := Segment("", "A.", ["A."], ""), 1 := Segment("k1", "1.", ["A.", "1."], "")]
  /** ... and once the nested call has written `(i)` and `(ii)`. */
  const ExAtII := ExAt1[2 := Segment("s1", "(i)", ["A.", "1.", "(i)"], "")][3 := Segment("s2", "(ii)", ["A.", "1.", "(ii)"], "")]

  lemma ExNested()
    ensures RecurseSpec(Walk(ExAt1, ["A.", "1."], 2, 0), Ex1, true, 2) == Walk(ExAtII, ["A.", "1."], 1, 4)
  {
    assert [ExI, ExII][1..] == [ExII];
    assert SectionsOf([ExII]) == [ExII];
    assert Kids(Ex1, true) == [ExI, ExII];
    assert !HasSections(ExI) && !HasSections(ExII);
    var w := Walk(ExAt1, ["A.", "1."], 1, 0);
    assert ["A.", "1."] + ["(i)"] == ["A.", "1.", "(i)"] && ["A.", "1.", "(i)"][..2] == ["A.", "1."];
    assert ["A.", "1."] + ["(ii)"] == ["A.", "1.", "(ii)"] && ["A.", "1.", "(ii)"][..2] == ["A.", "1."];
    assert 2 !in ExAt1 && 3 !in ExAt1[2 := Segment("s1", "(i)", ["A.", "1.", "(i)"], "")];
    var ws1 := Step(w, ExI, 2);
    assert ws1 == Walk(ExAt1[2 := Segment("s1", "(i)", ["A.", "1.", "(i)"], "")], ["A.", "1."], 1, 3);
    var ws2 := Step(ws1, ExII, 3);
    assert ws2 == Walk(ExAtII, ["A.", "1."], 1, 4);
    assert RecurseLoop(w, Ex1, true, 0, 2) == RecurseLoop(ws1, Ex1, true, 1, 3) == RecurseLoop(ws2, Ex1, true, 2, 4);
  }

  /** The walk state once `A.` is written and `recurse` has started on its children. */
  const ExInA := Walk(map[0 := Segment("", "A.", ["A."], "")], ["A."], 1, 0)

  /** `1.` goes to slot 1 and its nested call writes `(i)` and `(ii)` to slots 2 and 3. */
  lemma ExStep1()
    ensures Step(ExInA, Ex1, 1) == Walk(ExAtII, ["A."], 1, 2)
  {
    assert HasSections(Ex1) by { assert SectionsOf(Ex1.children) == [ExI, ExII]; }
    assert ["A."] + ["1."] == ["A.", "1."] && ["A.", "1."][..1] == ["A."];
    assert 1 !in ExInA.segs;
    ExNested();
  }

  /** `2.` goes to slot 2, the counter handed back from `1.`, over `(i)`. */
  lemma ExStep2()
    ensures Step(Walk(ExAtII, ["A."], 1, 2), Ex2, 2) == Walk(ExAtII[2 := Segment("k2", "2.", ["A.", "2."], "")], ["A."], 1, 3)
  {
    assert !HasSections(Ex2);
    assert ["A."] + ["2."] == ["A.", "2."] && ["A.", "2."][..1] == ["A."];
    assert 2 in ExAtII && ExAtII[2].kind == "";
  }

  lemma ExUnderA()
    ensures RecurseSpec(Walk(map[0 := Segment("", "A.", ["A."], "")], ["A."], 0, 0), ExA, false, 1)
         == Walk(ExAtII[2 := Segment("k2", "2.", ["A.", "2."], "")], ["A."], 1, 3)
  {
    assert Kids(ExA, false) == [Ex1, Ex2];
    ExStep1();
    ExStep2();
    var wk1 := Walk(ExAtII, ["A."], 1, 2);
    var wk2 := Walk(ExAtII[2 := Segment("k2", "2.", ["A.", "2."], "")], ["A."], 1, 3);
    assert RecurseLoop(ExInA, ExA, false, 0, 1) == RecurseLoop(wk1, ExA, false, 1, 2) == RecurseLoop(wk2, ExA, false, 2, 3);
  }

  /**
   * Parsing that document from a fresh parser: the nested call's advance is
   * not copied back, so `2.` lands on the slot of `(i)` and `B.` on the slot
   * of `(ii)`, whose stale hierarchy it extends with its own prefix; neither
   * nested text survives.
   */
  lemma NestedAdvanceLost()
    ensures ParseSpec(ParserState(None, [], 0, 0), Some(ExLaw)).code.value.segments == map[
        0 := Segment("", "A.", ["A."], ""),
        1 := Segment("k1", "1.", ["A.", "1."], ""),
        2 := Segment("k2", "2.", ["A.", "2."], ""),
        3 := Segment("", "B.", ["A.", "1.", "(ii)", "B."], "")]
    ensures ParseSpec(ParserState(None, [], 0, 0), Some(ExLaw)).code.value.text == Some("A. \r\rB. \r\r")
  {
    ExWalk();
    ExFinal();
  }

  /** The text walk over the one block of that document ends in `ExAfterB`. */
  lemma ExWalk()
    ensures WalkLaw(ParserState(None, [], 0, 0), ExLaw) == ExAfterB
  {
    var blk := ExLaw.texts[0];
    var t0 := TextState(Walk(map[], [], 0, 0), None, 0);
    ExTopA();
    ExTopB();
    assert Subsections(t0, blk, 0) == Subsections(ExAfterA, blk, 1) == Subsections(ExAfterB, blk, 2) == ExAfterB;
    assert TextBlocks(t0, ExLaw.texts, 0) == TextBlocks(ExAfterB, ExLaw.texts, 1) == ExAfterB;
  }

  /** The slots and full text `ExAfterB` holds, written out. */
  lemma ExFinal()
    ensures ExAfterB.walk.segs == map[
        0 := Segment("", "A.", ["A."], ""),
        1 := Segment("k1", "1.", ["A.", "1."], ""),
        2 := Segment("k2", "2.", ["A.", "2."], ""),
        3 := Segment("", "B.", ["A.", "1.", "(ii)", "B."], "")]
    ensures ExAfterB.text == Some("A. \r\rB. \r\r")
  {
  }

  /** The text walk once `A.` and everything under it are written. */
  const ExAfterA := TextState(Walk(ExAtII[2 := Segment("k2", "2.", ["A.", "2."], "")], [], 1, 3), Some("A. \r\r"), 3)
  /** ... and once `B.` is written too. */
  const ExAfterB := TextState(Walk(ExAfterA.walk.segs[3 := Segment("", "B.", ["A.", "1.", "(ii)", "B."], "")], [], 1, 3),
                              Some("A. \r\rB. \r\r"), 4)

  /** The first top-level subsection, `A.`, written to slot 0 with everything under it. */
  lemma ExTopA()
    ensures TopStep(TextState(Walk(map[], [], 0, 0), None, 0), ExA) == ExAfterA
  {
    ExUnderA();
    ExWriteA(ExA);
    ExPieceA(ExA);
  }

  /** The second, `B.`, written to slot 3 over `(ii)`, its prefix added after that slot's hierarchy. */
  lemma ExTopB()
    ensures TopStep(ExAfterA, ExB) == ExAfterB
  {
    ExWriteB(ExB, ExAfterA.walk.segs);
    ExPieceB(ExB);
  }

  // The writes and text pieces of `A.` and `B.`, stated for any node with
  // their fields so that the verifier need not evaluate the constants.

  lemma ExWriteA(c: Node)
    requires c.prefix == "A." && c.text == "" && c.kind == ""
    ensures WriteTop(map[], 0, c) == map[0 := Segment("", "A.", ["A."], "")]
    ensures [] + [c.prefix] == ["A."]
  {
  }

  lemma ExPieceA(c: Node)
    requires c.prefix == "A." && c.text == ""
    ensures "" + Piece(c) == "A. \r\r"
  {
  }

  lemma ExWriteB(c: Node, m: map<int, Segment>)
    requires c.prefix == "B." && c.text == "" && c.kind == ""
    requires 3 in m && m[3] == Segment("s2", "(ii)", ["A.", "1.", "(ii)"], "")
    ensures WriteTop(m, 3, c) == m[3 := Segment("", "B.", ["A.", "1.", "(ii)", "B."], "")]
  {
    var h: seq<string> := ["A.", "1.", "(ii)"];
    var h' := h + [c.prefix];
    assert |h'| == 4 && h'[0] == "A." && h'[1] == "1." && h'[2] == "(ii)" && h'[3] == "B.";
    assert h' == ["A.", "1.", "(ii)", "B."];
    assert SlotOf(m, 3).hierarchy == h;
    assert Trim(c.text) == "" && KindAfter(m[3].kind, c) == "";
  }

  lemma ExPieceB(c: Node)
    requires c.prefix == "B." && c.text == ""
    ensures "A. \r\r" + Piece(c) == "A. \r\rB. \r\r"
  {
  }
}
