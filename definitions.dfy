/**
 * Definition extraction: `extract_definitions` reads a law's text, decides
 * which quotation marks it uses, splits it into paragraphs, infers the scope
 * of its definitions from the first paragraph and collects every quoted term
 * of a defining paragraph together with the paragraph that defines it;
 * `store_definitions` writes the collected terms to the dictionary table.
 */
module Definitions {
  import opened Wrappers
  import opened Strings
  import opened Assoc
  import opened Tables

  /** The directional opening and closing double quotation marks. */
  const OpenQuote: char := '\U{201C}'
  const CloseQuote: char := '\U{201D}'

  /** The paragraph separator of the stored text. */
  const ParagraphBreak := "</p><p>"

  // ----- quote convention -----

  datatype QuoteType = Straight | Directional

  /**
   * Straight when the straight quotes outnumber twice the closing directional
   * ones (only one of the two directions is counted), else directional.
   */
  function QuoteTypeOf(text: string): (q: QuoteType)
    ensures CountChar(text, '"') == 0 ==> q == Directional
    ensures CountChar(text, '"') > 0 && CountChar(text, CloseQuote) == 0 ==> q == Straight
    ensures q == Straight ==> CountChar(text, '"') > CountChar(text, CloseQuote)
  {
    if CountChar(text, '"') > CountChar(text, CloseQuote) * 2 then Straight else Directional
  }

  /** The mark a defining paragraph must contain: `"` or the closing directional quote. */
  function QuoteSample(q: QuoteType): string {
    if q == Straight then "\"" else [CloseQuote]
  }

  // ----- scope -----

  const ChapterPhrases := ["as used in this chapter", "are used in this chapter", "for the purpose of this chapter",
                           "for purposes of this chapter", "as used in this article", "as used in this act"]
  const TitlePhrase := "in this title"
  const SectionPhrases := ["as used in this section", "for purposes of this section"]
  const CodePhrase := "as used in this Code"

  /** One of `phrases` occurs in `p`, ignoring ASCII case. */
  predicate MentionsAny(p: string, phrases: seq<string>) {
    exists j :: 0 <= j < |phrases| && ContainsNoCase(p, phrases[j])
  }

  /** The scope named by a first paragraph, tested in priority order; chapter when nothing matches. */
  function ScopeOf(p: string): (r: string)
    ensures r == "chapter" || r == "title" || r == "section" || r == "global"
  {
    if MentionsAny(p, ChapterPhrases) then "chapter"
    else if ContainsNoCase(p, TitlePhrase) then "title"
    else if MentionsAny(p, SectionPhrases) then "section"
    else if ContainsNoCase(p, CodePhrase) then "global"
    else "chapter"
  }

  /**
   * Each scope is chosen exactly when its phrases occur and no phrase of a
   * higher priority does; chapter is also the fallback.
   */
  lemma ScopePriority(p: string)
    ensures ScopeOf(p) == "title" <==> !MentionsAny(p, ChapterPhrases) && ContainsNoCase(p, TitlePhrase)
    ensures ScopeOf(p) == "section" <==>
      !MentionsAny(p, ChapterPhrases) && !ContainsNoCase(p, TitlePhrase) && MentionsAny(p, SectionPhrases)
    ensures ScopeOf(p) == "global" <==>
      !MentionsAny(p, ChapterPhrases) && !ContainsNoCase(p, TitlePhrase) && !MentionsAny(p, SectionPhrases) &&
      ContainsNoCase(p, CodePhrase)
    ensures ScopeOf(p) == "chapter" <==>
      MentionsAny(p, ChapterPhrases) ||
      (!ContainsNoCase(p, TitlePhrase) && !MentionsAny(p, SectionPhrases) && !ContainsNoCase(p, CodePhrase))
  {
  }

  /** The scope does not depend on ASCII case: paragraphs equal up to case get the same scope. */
  lemma ScopeIgnoresCase(p: string, p': string)
    requires Lower(p) == Lower(p')
    ensures ScopeOf(p) == ScopeOf(p')
  {
    assert forall pat :: ContainsNoCase(p, pat) == ContainsNoCase(p', pat);
  }

  // ----- candidate paragraphs -----

  const DefiningPhrases := [" mean ", " means ", " shall include ", " includes ", " has the same meaning as ",
                            " shall be construed ", " shall also be construed to mean "]

  /** The paragraph contains the active quote mark and one of the defining phrases. */
  predicate IsCandidate(p: string, q: QuoteType) {
    Contains(p, QuoteSample(q)) && exists j :: 0 <= j < |DefiningPhrases| && Contains(p, DefiningPhrases[j])
  }

  // ----- the quoted-term pattern -----

  predicate IsOpener(c: char) {
    c == '"' || c == OpenQuote
  }

  predicate IsCloser(c: char) {
    c == '"' || c == CloseQuote
  }

  predicate IsLetter(c: char) {
    'A' <= c <= 'Z' || 'a' <= c <= 'z'
  }

  /** A character of the pattern's middle class: a letter, a comma, an apostrophe, white space or a hyphen. */
  predicate IsTermChar(c: char) {
    IsLetter(c) || c == ',' || c == '\'' || c == '-' ||
    c == ' ' || c == '\t' || c == '\n' || c == '\r' || c == '\U{0B}' || c == '\U{0C}'
  }

  /** The end of the longest run of middle-class characters starting at `k`. */
  function RunEnd(s: string, k: nat): (e: nat)
    requires k <= |s|
    ensures k <= e <= |s|
    ensures forall j :: k <= j < e ==> IsTermChar(s[j])
    ensures e == |s| || !IsTermChar(s[e])
    decreases |s| - k
  {
    if k < |s| && IsTermChar(s[k]) then RunEnd(s, k + 1) else k
  }

  /**
   * The end (exclusive) of the match of the quoted-term pattern starting at
   * `p`: an opening quote, a letter, a run of middle-class characters whose
   * last one is a letter, and a closing quote. The greedy run can only give
   * back characters that are themselves in the class, none of which is a
   * closing quote, so the closing quote must directly follow the whole run.
   */
  function MatchAt(s: string, p: nat): (e: Option<nat>)
    ensures e.Some? ==> p + 4 <= e.value <= |s|
  {
    if p + 1 < |s| && IsOpener(s[p]) && IsLetter(s[p + 1]) then
      var r := RunEnd(s, p + 2);
      if p + 3 <= r < |s| && IsLetter(s[r - 1]) && IsCloser(s[r]) then Some(r + 1) else None
    else None
  }

  /** The shape of one quoted term, quotes included. */
  predicate WellQuoted(m: string) {
    |m| >= 4 && IsOpener(m[0]) && IsLetter(m[1]) && IsLetter(m[|m| - 2]) && IsCloser(m[|m| - 1]) &&
    forall j :: 1 <= j < |m| - 1 ==> IsTermChar(m[j])
  }

  /** Every match of the pattern from position `p` on, left to right and without overlap. */
  function QuotedTerms(s: string, p: nat): seq<string>
    decreases |s| - p
  {
    if p >= |s| then []
    else if MatchAt(s, p).Some? then [s[p..MatchAt(s, p).value]] + QuotedTerms(s, MatchAt(s, p).value)
    else QuotedTerms(s, p + 1)
  }

  /** Every match has the shape of a quoted term and occurs in the text at or after `p`. */
  lemma {:induction false} QuotedTermsSound(s: string, p: nat)
    ensures forall j :: 0 <= j < |QuotedTerms(s, p)| ==>
      WellQuoted(QuotedTerms(s, p)[j]) && exists a :: p <= a && OccursAt(s, QuotedTerms(s, p)[j], a)
    decreases |s| - p
  {
    if p < |s| {
      var e := MatchAt(s, p);
      if e.Some? {
        var m := s[p..e.value];
        QuotedTermsSound(s, e.value);
        var r := e.value - 1;
        assert WellQuoted(m) by {
          assert m[0] == s[p] && m[1] == s[p + 1] && m[|m| - 2] == s[r - 1] && m[|m| - 1] == s[r];
          forall j | 1 <= j < |m| - 1 ensures IsTermChar(m[j]) {
            assert m[j] == s[p + j];
          }
        }
        assert OccursAt(s, m, p);
        var rest := QuotedTerms(s, e.value);
        assert QuotedTerms(s, p) == [m] + rest;
        forall j | 1 <= j < |QuotedTerms(s, p)|
          ensures WellQuoted(QuotedTerms(s, p)[j]) && exists a :: p <= a && OccursAt(s, QuotedTerms(s, p)[j], a)
        {
          assert QuotedTerms(s, p)[j] == rest[j - 1];
        }
      } else {
        QuotedTermsSound(s, p + 1);
      }
    }
  }

  /** No term is found exactly when the pattern matches at no position from `p` on. */
  lemma {:induction false} QuotedTermsNoneIff(s: string, p: nat)
    ensures QuotedTerms(s, p) == [] <==> forall a :: p <= a < |s| ==> MatchAt(s, a).None?
    decreases |s| - p
  {
    if p < |s| && MatchAt(s, p).None? {
      QuotedTermsNoneIff(s, p + 1);
    }
  }

  /** Whatever the scanner matches at `p` has the shape of a quoted term. */
  lemma MatchSound(s: string, p: nat)
    requires MatchAt(s, p).Some?
    ensures WellQuoted(s[p..MatchAt(s, p).value])
  {
    var e := MatchAt(s, p).value;
    var m := s[p..e];
    assert m[0] == s[p] && m[1] == s[p + 1] && m[|m| - 2] == s[e - 2] && m[|m| - 1] == s[e - 1];
    forall j | 1 <= j < |m| - 1 ensures IsTermChar(m[j]) {
      assert m[j] == s[p + j];
    }
  }

  /** A run of middle-class characters from `k` that stops before a character outside the class ends where `RunEnd` says. */
  lemma {:induction false} RunEndAt(s: string, k: nat, e: nat)
    requires k <= e <= |s|
    requires forall j :: k <= j < e ==> IsTermChar(s[j])
    requires e == |s| || !IsTermChar(s[e])
    ensures RunEnd(s, k) == e
    decreases e - k
  {
    if k < e {
      RunEndAt(s, k + 1, e);
    }
  }

  /** Every quoted term starting at `p` is what the scanner matches there. */
  lemma MatchComplete(s: string, p: nat, e: nat)
    requires p <= e <= |s| && WellQuoted(s[p..e])
    ensures MatchAt(s, p) == Some(e)
  {
    var m := s[p..e];
    assert s[p] == m[0] && s[p + 1] == m[1] && s[e - 2] == m[|m| - 2] && s[e - 1] == m[|m| - 1];
    forall j | p + 2 <= j < e - 1 ensures IsTermChar(s[j]) {
      assert s[j] == m[j - p];
    }
    RunEndAt(s, p + 2, e - 1);
  }

  /** No term is found exactly when no piece of the text has the shape of a quoted term. */
  lemma QuotedTermsNoneIffUnquoted(s: string)
    ensures QuotedTerms(s, 0) == [] <==> forall a, e :: 0 <= a <= e <= |s| ==> !WellQuoted(s[a..e])
  {
    QuotedTermsNoneIff(s, 0);
    if QuotedTerms(s, 0) == [] {
      forall a, e | 0 <= a <= e <= |s| ensures !WellQuoted(s[a..e]) {
        if WellQuoted(s[a..e]) {
          MatchComplete(s, a, e);
        }
      }
    } else {
      var a :| 0 <= a < |s| && MatchAt(s, a).Some?;
      MatchSound(s, a);
    }
  }

  // ----- terms -----

  /** Remove the quotation marks of the active convention, wherever they are. */
  function StripQuotes(m: string, q: QuoteType): string {
    if q == Straight then ReplaceAll(m, "\"", "")
    else ReplaceAll(ReplaceAll(m, [OpenQuote], ""), [CloseQuote], "")
  }

  /**
   * The case rule as the loop over a term's characters writes it: the noise
   * words "and" and "or" are skipped, any other term containing a-z is
   * lower-cased entirely, and a term without a-z is kept.
   */
  function NormalizeCase(t: string): string {
    if t == "and" || t == "or" then t
    else if HasLowerAscii(t) then Lower(t)
    else t
  }

  /**
   * Skipping "and" and "or" only drops the reference to the term, not the
   * term, and lower-casing them changes nothing: every term containing a-z
   * ends up lower-cased and every term without a-z is kept as it is.
   */
  lemma NormalizeCaseRule(t: string)
    ensures HasLowerAscii(t) ==> NormalizeCase(t) == Lower(t)
    ensures !HasLowerAscii(t) ==> NormalizeCase(t) == t
    ensures forall k :: 0 <= k < |NormalizeCase(t)| ==> (!IsUpperAscii(NormalizeCase(t)[k]) || !HasLowerAscii(t))
  {
    if t == "and" {
      assert IsLowerAscii(t[0]);
    } else if t == "or" {
      assert IsLowerAscii(t[0]);
    }
  }

  /** The terms of a candidate paragraph: quotes stripped, trimmed and case-normalised. */
  function TermsOf(p: string, q: QuoteType): (r: seq<string>)
    ensures |r| == |QuotedTerms(p, 0)|
    ensures forall j :: 0 <= j < |r| ==> r[j] == NormalizeCase(Trim(StripQuotes(QuotedTerms(p, 0)[j], q)))
  {
    var ms := QuotedTerms(p, 0);
    seq(|ms|, j requires 0 <= j < |ms| => NormalizeCase(Trim(StripQuotes(ms[j], q))))
  }

  /** Start a definition at its first straight quote, or keep it whole when there is none. */
  function Truncate(p: string): (r: string)
    ensures Contains(p, "\"") ==> |r| > 0 && r[0] == '"'
    ensures !Contains(p, "\"") ==> r == p
    ensures |r| <= |p| && r == p[|p| - |r|..]
    ensures !Contains(p[..|p| - |r|], "\"")
  {
    if IndexOf(p, "\"").Some? then
      NoEarlierOccurrence(p, "\"", IndexOf(p, "\"").value);
      p[IndexOf(p, "\"").value..]
    else
      assert p[..0] == [];
      p
  }

  /** Truncating twice is truncating once, so repeating it for every term of a paragraph does no harm. */
  lemma TruncateTwice(p: string)
    ensures Truncate(Truncate(p)) == Truncate(p)
  {
    var r := Truncate(p);
    if Contains(p, "\"") {
      assert OccursAt(r, "\"", 0);
    }
  }

  /** Drop one trailing comma from a term. */
  function DropComma(t: string): (r: string)
    ensures |t| > 0 && t[|t| - 1] == ',' ==> r == t[..|t| - 1]
    ensures !(|t| > 0 && t[|t| - 1] == ',') ==> r == t
  {
    if |t| > 0 && t[|t| - 1] == ',' then t[..|t| - 1] else t
  }

  /** Deleting a quote character keeps a final letter, and keeps a final character unless it is that quote. */
  lemma StripTail(a: string, letter: char, last: char, c: char)
    requires IsLetter(letter) && !IsLetter(c)
    ensures ReplaceAll(a + [letter] + [last], [c], "") ==
      ReplaceAll(a, [c], "") + [letter] + (if last == c then [] else [last])
  {
    ReplaceCharSnoc(a, letter, c);
    ReplaceCharSnoc(a + [letter], last, c);
  }

  /** The string ends in a letter or in a closing quote mark. */
  predicate EndsClean(t: string) {
    |t| > 0 && (IsLetter(t[|t| - 1]) || IsCloser(t[|t| - 1]))
  }

  /** A quoted term without its quote marks ends in its last letter or in a closing mark of the other convention. */
  lemma StripEnd(m: string, q: QuoteType)
    requires WellQuoted(m)
    ensures EndsClean(StripQuotes(m, q))
  {
    var a := m[..|m| - 2];
    var letter := m[|m| - 2];
    var last := m[|m| - 1];
    assert m == a + [letter] + [last];
    if q == Straight {
      StripTail(a, letter, last, '"');
    } else {
      StripTail(a, letter, last, OpenQuote);
      var a' := ReplaceAll(a, [OpenQuote], "");
      StripTail(a', letter, last, CloseQuote);
    }
  }

  /** Trimming keeps a clean end. */
  lemma TrimEndsClean(s: string)
    requires EndsClean(s)
    ensures EndsClean(Trim(s))
  {
    TrimKeepsLast(s);
  }

  /** Case normalisation keeps a final letter a letter and a final closing mark as it is. */
  lemma NormalizeCaseKeepsEnd(t: string)
    requires EndsClean(t)
    ensures EndsClean(NormalizeCase(t))
  {
    var c := t[|t| - 1];
    if NormalizeCase(t) != t {
      assert NormalizeCase(t)[|t| - 1] == LowerChar(c);
      if IsLetter(c) {
        assert IsLetter(LowerChar(c));
      } else {
        assert LowerChar(c) == c;
      }
    }
  }

  /** A term with a clean end has no trailing comma to drop. */
  lemma EndsCleanNoComma(t: string)
    requires EndsClean(t)
    ensures DropComma(t) == t
  {
  }

  /** A term ends in a letter or a closing quote mark, so never in a comma. */
  lemma TermEnd(m: string, q: QuoteType)
    requires WellQuoted(m)
    ensures EndsClean(NormalizeCase(Trim(StripQuotes(m, q))))
    ensures DropComma(NormalizeCase(Trim(StripQuotes(m, q)))) == NormalizeCase(Trim(StripQuotes(m, q)))
  {
    var stripped := StripQuotes(m, q);
    StripEnd(m, q);
    TrimEndsClean(stripped);
    NormalizeCaseKeepsEnd(Trim(stripped));
    EndsCleanNoComma(NormalizeCase(Trim(stripped)));
  }

  /**
   * Every term of a paragraph ends in a letter or in a closing quote mark
   * (one of the other convention survives the stripping), so dropping a
   * trailing comma never changes a term.
   */
  lemma TermsEndClean(p: string, q: QuoteType, j: nat)
    requires j < |TermsOf(p, q)|
    ensures EndsClean(TermsOf(p, q)[j]) && DropComma(TermsOf(p, q)[j]) == TermsOf(p, q)[j]
  {
    QuotedTermsSound(p, 0);
    TermEnd(QuotedTerms(p, 0)[j], q);
  }

  /**
   * Record one term defined by `para`: a new term stores the paragraph; a
   * known term whose stored text differs from the paragraph once both are
   * trimmed gets the paragraph appended after a space; otherwise nothing
   * changes.
   */
  function Merge(defs: Dict<string>, term: string, para: string): Dict<string> {
    var t := DropComma(term);
    var known := Get(defs, t);
    if known.None? then Put(defs, t, para)
    else if Trim(known.value) != Trim(para) then Put(defs, t, known.value + " " + para)
    else defs
  }

  /** The three outcomes of a merge, and that it touches no other term. */
  lemma MergeEffect(defs: Dict<string>, term: string, para: string, other: string)
    requires DistinctKeys(defs)
    ensures DistinctKeys(Merge(defs, term, para))
    ensures Get(defs, DropComma(term)).None? ==> Get(Merge(defs, term, para), DropComma(term)) == Some(para)
    ensures Get(defs, DropComma(term)).Some? && Trim(Get(defs, DropComma(term)).value) != Trim(para) ==>
      Get(Merge(defs, term, para), DropComma(term)) == Some(Get(defs, DropComma(term)).value + " " + para)
    ensures Get(defs, DropComma(term)).Some? && Trim(Get(defs, DropComma(term)).value) == Trim(para) ==>
      Merge(defs, term, para) == defs
    ensures other != DropComma(term) ==> Get(Merge(defs, term, para), other) == Get(defs, other)
  {
    var t := DropComma(term);
    var known := Get(defs, t);
    if known.None? {
      PutGet(defs, t, para, other);
    } else if Trim(known.value) != Trim(para) {
      PutGet(defs, t, known.value + " " + para, other);
    }
  }

  /** A merge never forgets a term and always records the merged one. */
  lemma MergeGrows(defs: Dict<string>, term: string, para: string, other: string)
    ensures Get(Merge(defs, term, para), DropComma(term)).Some?
    ensures Get(defs, other).Some? ==> Get(Merge(defs, term, para), other).Some?
  {
    var t := DropComma(term);
    var known := Get(defs, t);
    if known.None? {
      PutKeeps(defs, t, para, other);
    } else if Trim(known.value) != Trim(para) {
      PutKeeps(defs, t, known.value + " " + para, other);
    }
  }

  /** The first `n` terms merged in order, all defined by `para`. */
  function MergeUpTo(defs: Dict<string>, terms: seq<string>, n: nat, para: string): Dict<string>
    requires n <= |terms|
    decreases n
  {
    if n == 0 then defs else Merge(MergeUpTo(defs, terms, n - 1, para), terms[n - 1], para)
  }

  /** Merging keeps the keys distinct. */
  lemma {:induction false} MergeUpToDistinct(defs: Dict<string>, terms: seq<string>, n: nat, para: string)
    requires n <= |terms| && DistinctKeys(defs)
    ensures DistinctKeys(MergeUpTo(defs, terms, n, para))
    decreases n
  {
    if n > 0 {
      MergeUpToDistinct(defs, terms, n - 1, para);
      MergeEffect(MergeUpTo(defs, terms, n - 1, para), terms[n - 1], para, "");
    }
  }

  /** Merging forgets no term that was recorded before. */
  lemma {:induction false} MergeUpToKeeps(defs: Dict<string>, terms: seq<string>, n: nat, para: string, x: string)
    requires n <= |terms| && Get(defs, x).Some?
    ensures Get(MergeUpTo(defs, terms, n, para), x).Some?
    decreases n
  {
    if n > 0 {
      MergeUpToKeeps(defs, terms, n - 1, para, x);
      MergeGrows(MergeUpTo(defs, terms, n - 1, para), terms[n - 1], para, x);
    }
  }

  /** After merging, every merged term is recorded. */
  lemma {:induction false} MergeUpToHas(defs: Dict<string>, terms: seq<string>, n: nat, para: string, j: nat)
    requires j < n <= |terms|
    ensures Get(MergeUpTo(defs, terms, n, para), DropComma(terms[j])).Some?
    decreases n
  {
    if j < n - 1 {
      MergeUpToHas(defs, terms, n - 1, para, j);
    }
    MergeGrows(MergeUpTo(defs, terms, n - 1, para), terms[n - 1], para, DropComma(terms[j]));
  }

  // ----- the paragraph walk -----

  /** A paragraph after its leftover breaks are turned into spaces and its markup is stripped. */
  function Processed(piece: string, stripTags: string -> string): string {
    stripTags(ReplaceAll(piece, ParagraphBreak, " "))
  }

  /** The terms a paragraph contributes: those it quotes if it is a candidate, none otherwise. */
  function TermsIn(p: string, q: QuoteType): seq<string> {
    if IsCandidate(p, q) then TermsOf(p, q) else []
  }

  /** The paragraph as the merge loop leaves it: cut once it has merged a term. */
  function CutFor(p: string, terms: seq<string>): string {
    if |terms| > 0 then Truncate(p) else p
  }

  /**
   * What one paragraph brings to the walk, none of which depends on the
   * paragraphs before it: its processed text, the terms it defines, the text
   * that defines them and the scope it would name.
   */
  datatype Para = Para(text: string, terms: seq<string>, cut: string, scope: string)

  function Analyze(piece: string, q: QuoteType, stripTags: string -> string): Para {
    var p := Processed(piece, stripTags);
    var terms := TermsIn(p, q);
    Para(p, terms, CutFor(p, terms), ScopeOf(p))
  }

  /** The paragraphs of a text, analysed. */
  function Paragraphs(text: string, stripTags: string -> string): (paras: seq<Para>)
    ensures |paras| == |Split(text, ParagraphBreak)|
    ensures forall k :: 0 <= k < |paras| ==>
      paras[k] == Analyze(Split(text, ParagraphBreak)[k], QuoteTypeOf(text), stripTags)
  {
    var pieces := Split(text, ParagraphBreak);
    seq(|pieces|, k requires 0 <= k < |pieces| => Analyze(pieces[k], QuoteTypeOf(text), stripTags))
  }

  /** The paragraphs are the pieces of the text between breaks: none holds a break, and joined with breaks they give the text back. */
  lemma ParagraphPieces(text: string)
    ensures forall k :: 0 <= k < |Split(text, ParagraphBreak)| ==> !Contains(Split(text, ParagraphBreak)[k], ParagraphBreak)
    ensures Join(Split(text, ParagraphBreak), ParagraphBreak) == text
  {
    SplitJoin(text, ParagraphBreak);
  }

  /**
   * What the walk over the paragraphs carries: the first paragraph as it now
   * stands (it is processed, and cut, in place), the terms found so far with
   * their definitions, and the scope.
   */
  datatype Scan = Scan(first: string, defs: Dict<string>, scope: string)

  /**
   * Paragraph `k`: the scope is recomputed when the paragraph equals the
   * first paragraph as it stands (always the case for the first one); its
   * terms are merged with its cut text, which is written back.
   */
  function ScanParagraph(st: Scan, k: nat, para: Para): Scan {
    var first := if k == 0 then para.text else st.first;
    Scan(if k == 0 then para.cut else first, MergeUpTo(st.defs, para.terms, |para.terms|, para.cut),
         if first == para.text then para.scope else st.scope)
  }

  /** The walk over the first `n` paragraphs. */
  function ScanUpTo(paras: seq<Para>, n: nat): Scan
    requires n <= |paras|
    decreases n
  {
    if n == 0 then Scan("", [], "") else ScanParagraph(ScanUpTo(paras, n - 1), n - 1, paras[n - 1])
  }

  /** What `extract_definitions` returns when it finds something. */
  datatype Found = Found(terms: Dict<string>, scope: string)

  /** `extract_definitions()`: nothing without a text or without a single term. */
  function ExtractSpec(text: Option<string>, stripTags: string -> string): Option<Found> {
    if text.None? then None
    else
      var paras := Paragraphs(text.value, stripTags);
      var st := ScanUpTo(paras, |paras|);
      if |st.defs| == 0 then None else Some(Found(st.defs, st.scope))
  }

  /** Some paragraph among the first `n` defines a term. */
  predicate SomeTermIn(paras: seq<Para>, n: nat)
    requires n <= |paras|
  {
    exists k :: 0 <= k < n && |paras[k].terms| > 0
  }

  /** The walk keeps the terms distinct. */
  lemma {:induction false} ScanDistinct(paras: seq<Para>, n: nat)
    requires n <= |paras|
    ensures DistinctKeys(ScanUpTo(paras, n).defs)
    decreases n
  {
    if n > 0 {
      var para := paras[n - 1];
      ScanDistinct(paras, n - 1);
      MergeUpToDistinct(ScanUpTo(paras, n - 1).defs, para.terms, |para.terms|, para.cut);
    }
  }

  /** The walk has found a term exactly when some paragraph defines one. */
  lemma {:induction false} ScanFindsTerms(paras: seq<Para>, n: nat)
    requires n <= |paras|
    ensures |ScanUpTo(paras, n).defs| > 0 <==> SomeTermIn(paras, n)
    decreases n
  {
    if n > 0 {
      var before := ScanUpTo(paras, n - 1).defs;
      var para := paras[n - 1];
      ScanFindsTerms(paras, n - 1);
      ScanDistinct(paras, n - 1);
      if |before| > 0 {
        MergeUpToKeeps(before, para.terms, |para.terms|, para.cut, before[0].0);
        assert SomeTermIn(paras, n);
      } else if |para.terms| > 0 {
        MergeUpToHas(before, para.terms, |para.terms|, para.cut, 0);
        assert SomeTermIn(paras, n);
      } else {
        assert !SomeTermIn(paras, n);
      }
    }
  }

  /**
   * No definitions are reported exactly when there is no text or no
   * paragraph is a candidate quoting a term; the terms reported are distinct.
   */
  lemma ExtractNoneIff(text: Option<string>, stripTags: string -> string)
    ensures ExtractSpec(text, stripTags).None? <==>
      text.None? ||
      forall k :: 0 <= k < |Split(text.value, ParagraphBreak)| ==>
        TermsIn(Processed(Split(text.value, ParagraphBreak)[k], stripTags), QuoteTypeOf(text.value)) == []
    ensures ExtractSpec(text, stripTags).Some? ==> DistinctKeys(ExtractSpec(text, stripTags).value.terms)
  {
    if text.Some? {
      var paras := Paragraphs(text.value, stripTags);
      ScanFindsTerms(paras, |paras|);
      ScanDistinct(paras, |paras|);
    }
  }

  /**
   * The first paragraph as it stands is the processed first paragraph,
   * possibly cut; the scope it names is the one reported unless a later
   * paragraph equals it and so recomputes the scope.
   */
  lemma {:induction false} ScanScope(paras: seq<Para>, n: nat)
    requires 1 <= n <= |paras|
    ensures ScanUpTo(paras, n).first == paras[0].cut
    ensures (forall k :: 1 <= k < n ==> paras[k].text != paras[0].cut) ==> ScanUpTo(paras, n).scope == paras[0].scope
    decreases n
  {
    if n > 1 {
      ScanScope(paras, n - 1);
    }
  }

  /** A one-paragraph text takes its scope from that paragraph. */
  lemma SingleParagraphScope(text: string, stripTags: string -> string)
    requires !Contains(text, ParagraphBreak)
    ensures ExtractSpec(Some(text), stripTags).Some? ==>
      ExtractSpec(Some(text), stripTags).value.scope == ScopeOf(Processed(text, stripTags))
  {
    assert Split(text, ParagraphBreak) == [text];
    var paras := Paragraphs(text, stripTags);
    ScanScope(paras, 1);
  }

  // ----- the method -----

  /** The by-reference loop that normalises the case of every term in place. */
  method NormalizeTerms(terms: array<string>)
    modifies terms
    ensures forall k :: 0 <= k < terms.Length ==> terms[k] == NormalizeCase(old(terms[k]))
  {
    for k := 0 to terms.Length
      invariant forall j :: 0 <= j < k ==> terms[j] == NormalizeCase(old(terms[j]))
      invariant forall j :: k <= j < terms.Length ==> terms[j] == old(terms[j])
    {
      var term := terms[k];
      if term != "and" && term != "or" {
        var i := 0;
        while i < |term|
          invariant 0 <= i <= |term|
          invariant terms[k] == term
          invariant forall j :: 0 <= j < i ==> !IsLowerAscii(term[j])
        {
          if IsLowerAscii(term[i]) {
            terms[k] := Lower(term);
            break;
          }
          i := i + 1;
        }
      }
    }
  }

  /** The terms of a candidate paragraph, built as the source builds them. */
  method CollectTerms(p: string, q: QuoteType) returns (terms: seq<string>)
    ensures terms == TermsOf(p, q)
  {
    var ms := QuotedTerms(p, 0);
    var arr := new string[|ms|](j requires 0 <= j < |ms| => Trim(StripQuotes(ms[j], q)));
    NormalizeTerms(arr);
    terms := arr[..];
    assert |terms| == |TermsOf(p, q)|;
  }

  /** `substr($paragraph, strpos($paragraph, '"'))`, where a missing quote counts as position 0. */
  method CutAtQuote(p: string) returns (cut: string)
    ensures cut == Truncate(p)
  {
    var at := IndexOf(p, "\"");
    cut := p[(if at.Some? then at.value else 0)..];
  }

  /** One pass of the inner loop: drop a trailing comma, then store, extend or skip. */
  method MergeOne(defs: Dict<string>, term: string, para: string) returns (defs': Dict<string>)
    ensures defs' == Merge(defs, term, para)
  {
    var t := term;
    if |t| > 0 && t[|t| - 1] == ',' {
      t := t[..|t| - 1];
    }
    var known := Get(defs, t);
    if known.None? {
      defs' := Put(defs, t, para);
    } else if Trim(known.value) != Trim(para) {
      defs' := Put(defs, t, known.value + " " + para);
    } else {
      defs' := defs;
    }
  }

  /** The inner loop: merge every term of one paragraph, cutting the paragraph before each. */
  method MergeTerms(defs: Dict<string>, terms: seq<string>, p: string) returns (defs': Dict<string>, cut: string)
    ensures cut == CutFor(p, terms)
    ensures defs' == MergeUpTo(defs, terms, |terms|, cut)
  {
    defs' := defs;
    cut := p;
    for j := 0 to |terms|
      invariant cut == if j > 0 then Truncate(p) else p
      invariant defs' == MergeUpTo(defs, terms, j, Truncate(p))
    {
      cut, defs' := MergeNext(defs, terms, j, p, cut, defs');
    }
  }

  /** One pass of that loop: cut the paragraph at its quote again, then merge term `j` with it. */
  method MergeNext(start: Dict<string>, terms: seq<string>, j: nat, ghost p: string, cut: string, defs: Dict<string>)
    returns (cut': string, defs': Dict<string>)
    requires j < |terms|
    requires cut == p || cut == Truncate(p)
    requires defs == MergeUpTo(start, terms, j, Truncate(p))
    ensures cut' == Truncate(p)
    ensures defs' == MergeUpTo(start, terms, j + 1, Truncate(p))
  {
    TruncateTwice(p);
    cut' := CutAtQuote(cut);
    defs' := MergeOne(defs, terms[j], cut');
  }

  /**
   * One pass of the paragraph loop on paragraph `k`, which is processed in
   * place, possibly recomputes the scope and, when a candidate, has its terms
   * merged and is cut in place.
   */
  method TakeParagraph(paragraphs: array<string>, k: nat, q: QuoteType, stripTags: string -> string,
                       defs: Dict<string>, scope: string, ghost before: Scan, ghost para: Para)
    returns (defs': Dict<string>, scope': string)
    requires k < paragraphs.Length
    requires para == Analyze(paragraphs[k], q, stripTags)
    requires defs == before.defs && scope == before.scope
    requires k > 0 ==> paragraphs[0] == before.first
    modifies paragraphs
    ensures forall j :: 0 <= j < paragraphs.Length && j != k ==> paragraphs[j] == old(paragraphs[j])
    ensures Scan(paragraphs[0], defs', scope') == ScanParagraph(before, k, para)
  {
    var p := ReplaceAll(paragraphs[k], ParagraphBreak, " ");
    p := stripTags(p);
    paragraphs[k] := p;
    scope' := scope;
    if paragraphs[0] == p {
      scope' := ScopeOf(p);
    }
    defs' := defs;
    if IsCandidate(p, q) {
      var terms := CollectTerms(p, q);
      var cut;
      defs', cut := MergeTerms(defs, terms, p);
      paragraphs[k] := cut;
    }
  }

  /** `extract_definitions()`. */
  method ExtractDefinitions(text: Option<string>, stripTags: string -> string) returns (r: Option<Found>)
    ensures r == ExtractSpec(text, stripTags)
  {
    if text.None? {
      return None;
    }
    var q := QuoteTypeOf(text.value);
    var pieces := Split(text.value, ParagraphBreak);
    var paragraphs := new string[|pieces|](j requires 0 <= j < |pieces| => pieces[j]);
    var defs: Dict<string> := [];
    var scope := "";
    ghost var paras := Paragraphs(text.value, stripTags);
    for k := 0 to paragraphs.Length
      invariant ScanUpTo(paras, k).defs == defs
      invariant ScanUpTo(paras, k).scope == scope
      invariant k > 0 ==> ScanUpTo(paras, k).first == paragraphs[0]
      invariant forall j :: k <= j < paragraphs.Length ==> paragraphs[j] == pieces[j]
    {
      ghost var before := ScanUpTo(paras, k);
      defs, scope := TakeParagraph(paragraphs, k, q, stripTags, defs, scope, before, paras[k]);
    }
    if |defs| == 0 {
      return None;
    }
    return Some(Found(defs, scope));
  }

  // ----- storing -----

  /** The dictionary rows for `terms`, in the order the terms were found. */
  function DefinitionRows(terms: Dict<string>, lawId: nat, scope: string, specificity: nat, structure: Option<nat>)
    : (rows: seq<DefinitionRow>)
    ensures |rows| == |terms|
    ensures forall j :: 0 <= j < |terms| ==>
      rows[j] == DefinitionRow(lawId, terms[j].0, terms[j].1, scope, specificity, structure)
  {
    seq(|terms|, j requires 0 <= j < |terms| =>
      DefinitionRow(lawId, terms[j].0, terms[j].1, scope, specificity, structure))
  }

  /**
   * `store_definitions()` as one multi-row insert: every term becomes a row,
   * unless there is no term or no specificity, which leaves the statement
   * malformed so that nothing is stored.
   */
  function StoreDefs(dictionary: seq<DefinitionRow>, terms: Dict<string>, lawId: nat, scope: string,
                     specificity: Option<nat>, structure: Option<nat>): seq<DefinitionRow>
  {
    if |terms| == 0 || specificity.None? then dictionary
    else dictionary + DefinitionRows(terms, lawId, scope, specificity.value, structure)
  }

  /**
   * After a successful store every term reads back from the dictionary with
   * its definition, scope, specificity and structure.
   */
  lemma StoreDefsReadBack(dictionary: seq<DefinitionRow>, terms: Dict<string>, lawId: nat, scope: string,
                          specificity: Option<nat>, structure: Option<nat>)
    requires |terms| > 0 && specificity.Some?
    ensures var rows := StoreDefs(dictionary, terms, lawId, scope, specificity, structure);
      |rows| == |dictionary| + |terms| && rows[..|dictionary|] == dictionary &&
      forall j :: 0 <= j < |terms| ==>
        rows[|dictionary| + j].lawId == lawId && rows[|dictionary| + j].term == terms[j].0 &&
        rows[|dictionary| + j].definition == terms[j].1 && rows[|dictionary| + j].scope == scope &&
        rows[|dictionary| + j].specificity == specificity.value && rows[|dictionary| + j].structure == structure
  {
  }

  /** `store_definitions()` against the database. */
  method StoreDefinitions(db: Database, terms: Dict<string>, lawId: nat, scope: string,
                          specificity: Option<nat>, structure: Option<nat>) returns (ok: bool)
    modifies db`dictionary
    ensures ok <==> |terms| > 0 && specificity.Some?
    ensures db.dictionary == StoreDefs(old(db.dictionary), terms, lawId, scope, specificity, structure)
  {
    if |terms| == 0 || specificity.None? {
      return false;
    }
    var rows: seq<DefinitionRow> := [];
    for j := 0 to |terms|
      invariant rows == DefinitionRows(terms[..j], lawId, scope, specificity.value, structure)
    {
      var (term, definition) := terms[j];
      rows := rows + [DefinitionRow(lawId, term, definition, scope, specificity.value, structure)];
    }
    assert terms[..|terms|] == terms;
    db.dictionary := db.dictionary + rows;
    return true;
  }
}
