# The Virginia parser of The State Decoded, in Dafny

The State Decoded imports a state's legal code into a MySQL database. For
Virginia, the `Parser` class in `includes/virginia.inc.php` does this work:

- `parse()` turns one statute document (an XML tree) into a normalised
  record. The record holds the header fields, the chain of structural units
  (title, chapter, ...), the reconstructed full text, and one text segment
  per subsection, each with its prefix hierarchy. `recurse()` handles
  subsections at any depth.
- `store()` writes that record out:
  - it registers the structural units with `create_structure()`;
  - it inserts the law row;
  - it counts the citations of other sections (`extract_references()`) and
    stores them (`store_references()`);
  - it inserts the text segments and their prefixes;
  - when the law looks like it defines terms, it extracts the definitions
    (`extract_definitions()`), ties their scope to a structural unit
    (`find_structure_parent()`) and stores them (`store_definitions()`).

The model keeps the source's form. `Parser` is a class whose fields
(`code`, the shared prefix stack, `depth`, the counter) are updated by
`Parse` and `Recurse`. The database is a class `Database` whose tables are
sequences and maps that the storing methods reassign. A row's id is its
position plus one, which is what `lastInsertID()` returns.

Every loop in the source is a method with loop invariants. Each method is
proved equal to a specification function, and the lemmas about those
functions state what the code achieves.

Modules:

| module | contents |
|---|---|
| `Wrappers` | `Option` |
| `Strings` | the PHP string built-ins used: `trim`, `strpos`, `stripos`, `strtolower`, `str_replace`, `explode`, `substr_count`, `empty` |
| `Assoc` | an insertion-ordered string-keyed PHP array |
| `Document` | the input document and the parsed record |
| `SectionParser` | `parse` and `recurse`, as the class `Parser` and the functions its methods follow |
| `HeaderFacts` | what the `<unit>` loop of `parse` collects |
| `WalkFacts` | what the walk over the document achieves |
| `Tables` | the database |
| `Registry` | `structure_exists`, `create_structure`, `find_structure_parent` |
| `References` | `extract_references`, `store_references` |
| `Definitions` | `extract_definitions`, `store_definitions` |
| `Ingest` | `store` |

The file is written for PHP 5 and loads only on PHP 5 and 7.0: `unset($this)`
(includes/virginia.inc.php:983) is a fatal error from PHP 7.1 on, and PHP 8
also rejects the `$term{$i}` string offset syntax. The model follows PHP 5
and 7.0:

- `->prefix_hierarchy->{0} = …` on an object made from an array by an
  `(object)` cast cannot reach the integer key 0: it adds a property "0"
  after the existing entries. On a new slot it makes a one-entry hierarchy.
- Accessing a property with an empty name (`->{""}`) is a fatal error, which
  stops the script. The model ends `Parse` with the outcome `Fatal` there.
- Writing a property of `false` creates an object.
- `empty()` is true of `""` and `"0"`.
- `array_count_values` keys values in order of first occurrence.
- `substr($s, false)` means `substr($s, 0)`.

## Model

| member | source | states |
|---|---|---|
| SectionParser.FindLevel | includes/virginia.inc.php:124-131 | the level `$structure->{$level}` addresses: it is found at a position holding that level, and not found when no collected level has that name |
| SectionParser.Parser.Recurse | includes/virginia.inc.php:201-251 | `recurse()` succeeds exactly when a record exists; the parser's fields become what `RecurseSpec` makes of them: `depth` reset to 1, each child written at the running counter with the stack as hierarchy, the stack cut by `depth`, the counter stored |
| SectionParser.Parser.RecurseChild | includes/virginia.inc.php:218-247 | one pass of the `foreach` in `recurse()` changes the walk fields as `Step` says and leaves the record's other fields alone |
| SectionParser.Parser.Parse | includes/virginia.inc.php:100-194 | `parse()` returns false without a document; it stops with a fatal error exactly when some unit's level is empty (`->{""}` at :125), leaving the header and the units before that one (`HaltSpec`); otherwise it returns true, the header is copied, the units are merged by level, and the text blocks are walked as `ParseSpec` says (an undivided block ends the walk) |
| SectionParser.Parser.ParseHeader | includes/virginia.inc.php:111-132 | a fresh record holds the header fields and `CollectUnits` of the units, which the HeaderFacts lemmas characterise; the loop is fatal exactly when a unit's level is empty, and then holds only the units before the first such unit; the stack, depth and counter are untouched |
| HeaderFacts.NamedLevels | includes/virginia.inc.php:122-125 | the `<unit>` loop gets through exactly when every level it collects has a non-empty name |
| HeaderFacts.CollectCovers | includes/virginia.inc.php:122-131 | every unit's level has an entry in the collected structure |
| HeaderFacts.CollectFromUnits | includes/virginia.inc.php:122-131 | every collected entry is the level of some unit |
| HeaderFacts.CollectDistinct | includes/virginia.inc.php:124-131 | no level has two entries: a later unit with a known level updates its entry |
| HeaderFacts.CollectOrder | includes/virginia.inc.php:122-131 | the entries are in the order in which their levels first appear among the units |
| HeaderFacts.CollectEntry | includes/virginia.inc.php:124-131 | an entry holds the name, label and identifier of the last unit with its level, and the last non-empty `order_by` among those units (none when there is none) |
| SectionParser.Parser.ParseBlock | includes/virginia.inc.php:154-190 | the subsections of one divided block are walked as `Subsections` says; of the record only the text and the segments change |
| SectionParser.Parser.ParseChild | includes/virginia.inc.php:157-189 | one top-level subsection changes the walk, the full text and `$i` as `TopStep` says |
| WalkFacts.RecurseShape | includes/virginia.inc.php:210-248 | after `recurse()` the shared stack is back to what it was and `depth` is 1; the counter handed back is the start plus the number of children iterated, whatever nested calls did |
| WalkFacts.StepShape | includes/virginia.inc.php:215-248 | one child restores the stack, leaves `depth` at 1 and sets the counter one past its own slot |
| WalkFacts.RecurseSlots | includes/virginia.inc.php:215-248 | `recurse()` from slot i adds exactly the slots i up to its reach (at least one per child) and leaves every slot below i as it was |
| WalkFacts.StepSlots | includes/virginia.inc.php:218-225 | one child writes its own slot with the pushed stack as hierarchy, adds exactly the slots up to its reach, and touches nothing below its slot |
| WalkFacts.RecurseFinal | includes/virginia.inc.php:215-248 | after `recurse()` from i, slot i+k holds child k: its untrimmed text, its prefix, and the stack the call found plus that prefix |
| WalkFacts.RecurseUnder | includes/virginia.inc.php:224-246 | every slot `recurse()` changes gets a hierarchy that strictly extends the stack it found and ends with the slot's own prefix |
| WalkFacts.ParseDense | includes/virginia.inc.php:137-191 | the segments of a parsed record are keyed exactly 0 .. n-1 |
| WalkFacts.ParseUndivided | includes/virginia.inc.php:144-149 | a first text block without children becomes the only segment and the full text, both trimmed |
| WalkFacts.TopStepSlots | includes/virginia.inc.php:154-189 | a top-level subsection writes its slot trimmed, with its prefix added after the hierarchy the slot had (the only entry when the slot is new); its children follow untrimmed under its prefix; the full text gains its piece; the stack ends empty; the counter moves past the children; nothing below its slot changes |
| WalkFacts.ParseFullText | includes/virginia.inc.php:154-191 | when every block is divided, the full text is the concatenation of `prefix + " " + trim(text) + "\r\r"` over the top-level subsections, in document order |
| WalkFacts.ParseStack | includes/virginia.inc.php:189 | a parse whose first block is divided leaves the parser's stack empty |
| WalkFacts.TopStepShallow | includes/virginia.inc.php:154-189 | in a two-level subsection nothing is overwritten: the slots written end exactly where parse's counter resumes |
| WalkFacts.ExNested | includes/virginia.inc.php:237-247 | a nested call writes its children and leaves `depth` at 1 with the counter past them |
| WalkFacts.NestedAdvanceLost | includes/virginia.inc.php:181-183 | because a nested call's counter is not copied back, later siblings overwrite the slots of nested subsections; a concrete document shows both nested texts lost, the last slot holding the four-entry hierarchy `A.`, `1.`, `(ii)`, `B.` |
| Registry.StructureExists | includes/virginia.inc.php:510-548 | the id of the first row with this number and parent, and none exactly when no row has them |
| Registry.CreateOutcome | includes/virginia.inc.php:573-618 | an unusable unit (no number, or an empty label) is rejected without change; an existing (number, parent) gives its id and changes nothing; a `false` parent with no matching root row is rejected without change; otherwise the row (number, name or none when empty, label, parent) is appended as the new last row, keyed as the lookup was, and its id is returned |
| Registry.CreateIdempotent | includes/virginia.inc.php:585-618 | creating the same unit twice gives the same id, and the second call changes nothing |
| Registry.CreateValid | includes/virginia.inc.php:557-619 | registering under an existing parent keeps parents before children and (number, parent) unique, and returns an id that names a row |
| Registry.CreateStructure | includes/virginia.inc.php:557-619 | `create_structure()` changes the table and returns exactly what `Create` says |
| Registry.NearestNoneIffUnlabelled | includes/virginia.inc.php:648-684 | walking up finds nothing exactly when no unit in the ancestry carries the label |
| Registry.NearestIsFirstLabelled | includes/virginia.inc.php:648-684 | the unit found carries the label and is the first in the ancestry that does |
| Registry.FindStructureParent | includes/virginia.inc.php:628-685 | `find_structure_parent()` returns the nearest unit at or above the start with the label, and nothing for an unset or `false` start |
| References.NormalizeCitation | includes/virginia.inc.php:1014-1021 | a match is trimmed and loses one trailing period, colon or hyphen, exactly when it ends in one |
| References.CountValuesDistinct | includes/virginia.inc.php:1025 | `array_count_values` lists no value twice |
| References.CountValuesGet | includes/virginia.inc.php:1025 | a value is a key exactly when it occurs, and its count is its number of occurrences |
| References.CountValuesTotal | includes/virginia.inc.php:1025 | the counts add up to the number of values |
| References.NormalizeMatches | includes/virginia.inc.php:1012-1022 | the in-place loop leaves each match normalised |
| References.NormalizeMatch | includes/virginia.inc.php:1014-1021 | one pass of that loop yields `NormalizeCitation` of the match |
| References.ExtractReferences | includes/virginia.inc.php:993-1029 | no result exactly when there is no text; otherwise the counts of the normalised matches |
| References.ReferencesFound | includes/virginia.inc.php:1003-1028 | the keys are exactly the normalised matches, none repeated, and the counts add up to the number of matches |
| References.KeepOrInsertEffect | includes/virginia.inc.php:1049-1064 | after the insert, every listed section is recorded for the law; a pair already recorded keeps its count (`mentions=mentions`); a new pair gets its count; nothing else changes |
| References.KeepOrInsertIdempotent | includes/virginia.inc.php:1064 | storing the same counts twice changes nothing the second time |
| References.StoreReferences | includes/virginia.inc.php:1036-1076 | succeeds exactly when there are sections (an empty list makes a malformed statement), and then the table is `KeepOrInsert` of what it was |
| Definitions.QuoteTypeOf | includes/virginia.inc.php:703-712 | no straight quote gives directional; straight quotes and no closing directional one give straight; straight implies more straight quotes than closing directional ones |
| Definitions.ScopeOf | includes/virginia.inc.php:734-779 | the scope is chapter, title, section or global |
| Definitions.ScopePriority | includes/virginia.inc.php:734-779 | each scope is chosen exactly when one of its phrases occurs (ignoring case) and no phrase of a higher priority does; chapter is also the fallback |
| Definitions.ScopeIgnoresCase | includes/virginia.inc.php:735-769 | paragraphs that are equal up to ASCII case get the same scope |
| Definitions.RunEnd | includes/virginia.inc.php:809 | the greedy `[A-Za-z,'\s-]*` run: every character up to the end is in the class, and the next one is not |
| Definitions.MatchSound | includes/virginia.inc.php:809 | what the scanner matches at a position is an opening quote, a letter, middle-class characters, a letter and a closing quote |
| Definitions.MatchComplete | includes/virginia.inc.php:809 | every piece of text of that shape is matched at its start, with exactly that end |
| Definitions.QuotedTermsNoneIffUnquoted | includes/virginia.inc.php:809-812 | no term is found exactly when no piece of the paragraph has the shape of a quoted term |
| Definitions.QuotedTermsSound | includes/virginia.inc.php:809 | every match is an opening quote, a letter, middle-class characters, a letter and a closing quote, and occurs in the paragraph |
| Definitions.QuotedTermsNoneIff | includes/virginia.inc.php:809-812 | no term is found exactly when the pattern matches at no position |
| Definitions.NormalizeCaseRule | includes/virginia.inc.php:838-858 | skipping "and" and "or" leaves them in place; any term containing a-z is lower-cased entirely, and any term without a-z is kept |
| Definitions.TermEnd | includes/virginia.inc.php:818-858 | a matched term, quotes stripped, trimmed and case-normalised, ends in a letter or in a closing quote mark of the other convention, and so never in a comma |
| Definitions.TermsEndClean | includes/virginia.inc.php:818-881 | every term of a paragraph ends in a letter or a closing quote mark, so dropping a trailing comma never changes a term |
| Definitions.Truncate | includes/virginia.inc.php:874 | the paragraph from its first straight quote (the part cut off holds none), or the whole paragraph when it has none; always a suffix |
| Definitions.TruncateTwice | includes/virginia.inc.php:867-874 | cutting again for each later term of the paragraph changes nothing |
| Definitions.MergeEffect | includes/virginia.inc.php:883-903 | a new term stores the paragraph; a known term whose trimmed text differs gets the paragraph appended after a space; an identical one is unchanged; no other term changes; keys stay distinct |
| Definitions.MergeGrows | includes/virginia.inc.php:883-903 | a merge forgets no term and always records the merged one |
| Definitions.MergeUpToDistinct | includes/virginia.inc.php:867-904 | merging a paragraph's terms keeps the keys distinct |
| Definitions.MergeUpToKeeps | includes/virginia.inc.php:867-904 | merging forgets no term recorded before |
| Definitions.MergeUpToHas | includes/virginia.inc.php:867-904 | every merged term is recorded afterwards |
| Definitions.ParagraphPieces | includes/virginia.inc.php:715 | the paragraphs are the pieces between breaks: none holds a break, and joined with breaks they give the text back |
| Definitions.ScanDistinct | includes/virginia.inc.php:721-911 | the paragraph walk keeps the terms distinct |
| Definitions.ScanFindsTerms | includes/virginia.inc.php:721-911 | the walk has found a term exactly when some paragraph is a candidate that quotes one |
| Definitions.ExtractNoneIff | includes/virginia.inc.php:695-916 | no definitions exactly when there is no text or no paragraph is a candidate quoting a term; the terms reported are distinct |
| Definitions.ScanScope | includes/virginia.inc.php:732-783 | the scope is the one the first paragraph names, unless a later paragraph equals the first as it now stands and so recomputes it |
| Definitions.SingleParagraphScope | includes/virginia.inc.php:732-783 | a one-paragraph text takes its scope from that paragraph |
| Definitions.NormalizeTerms | includes/virginia.inc.php:838-858 | the by-reference loop leaves every term case-normalised |
| Definitions.CollectTerms | includes/virginia.inc.php:809-858 | the terms built by matching, stripping, trimming and normalising are `TermsOf` |
| Definitions.CutAtQuote | includes/virginia.inc.php:874 | the cut paragraph is `Truncate` of it |
| Definitions.MergeOne | includes/virginia.inc.php:878-903 | one pass of the inner loop is `Merge` |
| Definitions.MergeTerms | includes/virginia.inc.php:867-904 | the inner loop merges every term with the cut paragraph |
| Definitions.MergeNext | includes/virginia.inc.php:874-903 | one pass of the inner loop, from the paragraph or its cut, leaves the cut paragraph and one more term merged |
| Definitions.TakeParagraph | includes/virginia.inc.php:721-911 | one pass of the paragraph loop is `ScanParagraph`, and changes no other paragraph |
| Definitions.ExtractDefinitions | includes/virginia.inc.php:692-929 | `extract_definitions()` returns exactly `ExtractSpec` |
| Definitions.StoreDefsReadBack | includes/virginia.inc.php:954-985 | after a successful store every term reads back with its definition, scope, specificity and structure |
| Definitions.StoreDefinitions | includes/virginia.inc.php:936-987 | succeeds exactly when there are terms and a specificity, and then the rows are appended |
| Ingest.ChainValid | includes/virginia.inc.php:275-286 | registering the levels in order keeps the structure table valid, never changes an existing row, and returns an id naming a row |
| Ingest.ChainLink | includes/virginia.inc.php:278-285 | the id a level receives names a row with that level's number, whose parent is what the previous level received |
| Ingest.RegisterStructure | includes/virginia.inc.php:275-286 | the structure loop is `Chain` over all the levels |
| Ingest.KindOf | includes/virginia.inc.php:356-359 | a segment without a type is stored as "section"; a typed one keeps its type |
| Ingest.TextRowsLayout | includes/virginia.inc.php:352-405 | one text row per segment, in order, numbered from 1, with the segment's text and type |
| Ingest.PrefixRowsComplete | includes/virginia.inc.php:385-402 | entry j of segment k's hierarchy is a prefix row of that segment's text row, numbered j+1 |
| Ingest.PrefixRowsSound | includes/virginia.inc.php:385-402 | every prefix row is a hierarchy entry of the segment its text row holds, at its sequence |
| Ingest.StoreTexts | includes/virginia.inc.php:352-405 | the segment loop and its inner prefix loop append exactly `TextRowsOf` and `PrefixRowsOf` |
| Ingest.StoreSegment | includes/virginia.inc.php:356-402 | one segment appends its text row and exactly `PrefixRowsFor` its hierarchy |
| Ingest.PrefixRows | includes/virginia.inc.php:381-402 | the inner loop yields exactly `PrefixRowsFor` the hierarchy |
| Ingest.TriggerExtends | includes/virginia.inc.php:412-436 | more text around a triggering text still triggers the definition search |
| Ingest.IndexIn | includes/virginia.inc.php:489 | `array_search`: the first position of the value, and none exactly when it is absent |
| Ingest.SpecificityOfUnit | includes/virginia.inc.php:485-489 | with distinct units listed in `STRUCTURE`, the last listed has specificity 0 and each one more than the unit after it |
| Ingest.SpecificityOfGlobal | includes/virginia.inc.php:486-489 | "global", when not itself listed, ranks after every unit |
| Ingest.SpecificityDefined | includes/virginia.inc.php:485-489 | a scope has a specificity exactly when it is a listed unit or "global" |
| Ingest.DefinitionsAfterEffect | includes/virginia.inc.php:412-492 | rows are added exactly when the section triggers, definitions are found and the scope has a specificity; then row j is term j with its definition, this law, the scope ("global" at the global location), the scope's specificity and the bounding unit `DefinitionUnit` |
| Ingest.DefinitionUnitNearest | includes/virginia.inc.php:458-475 | the bounding unit is none for a section or global scope or without a structure; otherwise it is the first unit of the law's ancestry carrying the scope's label, and none exactly when no unit there carries it |
| Ingest.StoreDictionary | includes/virginia.inc.php:412-492 | the definitions step is `DefinitionsAfter` |
| Ingest.StoreSpecStructure | includes/virginia.inc.php:275-329 | after `store()` the structure table is valid and keeps its old rows; one law row is appended; its structure id names a row carrying the most specific level's number |
| Ingest.StoreLaw | includes/virginia.inc.php:258-492 | the tables become `StoreSpec` of what they were, and the law id is the new row's |
| Ingest.StoreLawRow | includes/virginia.inc.php:275-329 | the structural levels are registered as `Chain` says and the law row is appended; its id is the new row count |
| Ingest.StoreReferencesOf | includes/virginia.inc.php:335-348 | the references table becomes `ReferencesAfter` of what it was |
| Ingest.Store | includes/virginia.inc.php:258-503 | without a record nothing changes; otherwise the tables become `StoreSpec` of what they were and the structure table stays valid |

## Left out

- I/O and the database engine:
  - SQL text, escaping and `date_created`/`edition_id` columns;
  - `echo` messages;
  - the `die()` taken when an insert fails (inserts always succeed here);
  - `EDITION_ID`.
- MySQL's case-insensitive collation is not modelled. Structure numbers are compared exactly.
- `iterate()` and `extract_history()` are not part of this model, and neither are `repealed` and the other fields `parse()` never sets.
- `SECTION_PCRE` and `strip_tags` are parameters (`sectionPattern`, `stripTags`). The citation pattern belongs to site configuration, and HTML stripping is a foreign routine.
- `STRUCTURE` is the parameter `structureList`.
- The global-definitions test compares the undefined `$chapter` with `GLOBAL_DEFINITIONS`. Its outcome is the parameter `isGlobal`.
- `store()` tests `$this->code->name`, which `parse()` never sets. The name is the parameter `name`; callers modelling the code as written pass "".
- Loose `==`/`!=` between strings is modelled as strict equality. The operands compared here are not numeric strings.
- A law whose `structure_id` is `false` or unset is inserted with `structure_id=""`. MySQL stores 0 for that, with a warning, when it is not in strict mode; in strict mode the insert fails and `store()` dies. The model stores `None`. No structure row has id 0, so both name no unit.
- `store()` rewriting an empty `type` on the record's own segment object is left out. Only the stored row is modelled.
- Ingest.Store requires the record's segment keys to be 0 .. n-1. WalkFacts.ParseDense proves this of every parsed record.
- Ingest.StoreTexts visits the segments in key order, while PHP's `foreach` visits them in the order they were created. The model does not prove that the two orders agree. ParseDense proves only that the final keys are 0 .. n-1.
- Ingest.DefinitionsAfter: at the global location when no definitions are found, PHP 5 and 7.0 turn `false` into an object without terms, and `store_definitions()` refuses it. This is modelled as storing nothing.
- Definitions.DropComma: modelled as written, but it never fires. Definitions.TermsEndClean proves that every term ends in a letter or a closing quote mark.
- References.StoreReferences: `ON DUPLICATE KEY UPDATE mentions=mentions` keeps the stored count. The model follows the code, not a count increment.
- Nested subsections are stored untrimmed, as the code writes them.
- SectionParser.Parser.Parse: a top-level write always adds its prefix after the slot's hierarchy. PHP would instead replace the entry "0" of a hierarchy made by an earlier top-level write. The top-level counter only grows, so no top-level slot is written twice, but the model does not prove this. PHP 7.2 to 7.4, where `->{0}` replaces element 0, are not modelled: the file does not load there.
