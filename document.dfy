/**
 * The statute document as it arrives (an XML tree, here a datatype) and the
 * normalised record the parser builds from it.
 */
module Document {
  import opened Wrappers

  /**
   * One XML element of the law's body: its element name, its `prefix` and
   * `type` attributes ("" when absent, which is what PHP's string cast gives),
   * its own character data (the direct text children only, as SimpleXML's
   * string cast returns) and its child elements in document order.
   */
  datatype Node = Node(tag: string, prefix: string, kind: string, text: string, children: seq<Node>)

  /** One `<unit>` of the `<structure>` block: its text and its attributes. */
  datatype Unit = Unit(level: string, name: string, levelLabel: string, identifier: string, orderBy: string)

  /** One statute file: the header fields, the structural units and the `<text>` blocks. */
  datatype Law = Law(
    catchLine: string,
    sectionNumber: string,
    orderBy: string,
    history: string,
    units: seq<Unit>,
    texts: seq<Node>)

  /** `$code->structure->{$level}`: one structural level of the parsed record. */
  datatype Level = Level(level: string, name: string, levelLabel: string, identifier: string, orderBy: Option<string>)

  /**
   * `$code->section->{$i}`: one text segment. `hierarchy` is the prefix
   * hierarchy (empty when never set); `kind` is the `type` ("" when never set).
   */
  datatype Segment = Segment(text: string, prefix: string, hierarchy: seq<string>, kind: string)

  /** A segment slot nobody has written yet. */
  const Blank := Segment("", "", [], "")

  /**
   * `$this->code`: the normalised record. `text` is the reconstructed full
   * text (`None` while unset); `segments` is keyed by the parser's counter.
   */
  datatype Code = Code(
    catchLine: string,
    sectionNumber: string,
    orderBy: string,
    history: string,
    structure: seq<Level>,
    text: Option<string>,
    segments: map<int, Segment>)

  /** The segment keys are exactly 0 .. |m| - 1. */
  ghost predicate Dense(m: map<int, Segment>) {
    forall j :: j in m <==> 0 <= j < |m|
  }
}
