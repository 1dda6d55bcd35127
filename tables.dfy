/**
 * The database tables the importer writes, held in memory. The row at
 * position k of a table has id k + 1, the id `lastInsertID()` hands back
 * after the insert that appended it.
 */
module Tables {
  import opened Wrappers

  /** A row of `structure`: a title, chapter, article ... of the code. */
  datatype StructureRow = StructureRow(number: string, name: Option<string>, unitLabel: string, parent: Option<nat>)

  /** A row of `laws`: one section's header and full text. */
  datatype LawRow = LawRow(
    structure: Option<nat>,
    catchLine: string,
    section: string,
    text: string,
    orderBy: Option<string>,
    history: string)

  /** A row of `text`: one segment of a law, numbered from 1 within the law. */
  datatype TextRow = TextRow(lawId: nat, sequence: nat, text: string, kind: string)

  /** A row of `text_sections`: one entry of a segment's prefix hierarchy, numbered from 1. */
  datatype PrefixRow = PrefixRow(textId: nat, identifier: string, sequence: nat)

  /** A row of `dictionary`: one defined term. */
  datatype DefinitionRow = DefinitionRow(
    lawId: nat,
    term: string,
    definition: string,
    scope: string,
    specificity: nat,
    structure: Option<nat>)

  /** The id the next row appended to a table of `n` rows receives. */
  function NextId(n: nat): (id: nat)
    ensures id >= 1 && id > n
  {
    n + 1
  }

  /** The contents of every table at one moment. */
  datatype Snapshot = Snapshot(
    structures: seq<StructureRow>,
    laws: seq<LawRow>,
    texts: seq<TextRow>,
    textPrefixes: seq<PrefixRow>,
    references: map<(nat, string), nat>,
    dictionary: seq<DefinitionRow>)

  class Database {
    var structures: seq<StructureRow>
    var laws: seq<LawRow>
    var texts: seq<TextRow>
    var textPrefixes: seq<PrefixRow>
    /** `laws_references`, keyed by its unique key (law id, cited section number); the value is `mentions`. */
    var references: map<(nat, string), nat>
    var dictionary: seq<DefinitionRow>

    /** An empty database. */
    constructor ()
      ensures structures == [] && laws == [] && texts == [] && textPrefixes == []
      ensures references == map[] && dictionary == []
    {
      structures := [];
      laws := [];
      texts := [];
      textPrefixes := [];
      references := map[];
      dictionary := [];
    }

    /** The contents of every table. */
    function State(): Snapshot
      reads this
    {
      Snapshot(structures, laws, texts, textPrefixes, references, dictionary)
    }
  }
}
