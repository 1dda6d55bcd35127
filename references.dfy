/**
 * Cross-references: `extract_references` finds the citations of other
 * sections in a law's text, normalises them and counts them;
 * `store_references` records the counts against the citing law.
 */
module References {
  import opened Wrappers
  import opened Strings
  import opened Assoc
  import opened Tables

  /** The characters lopped off the end of a citation. */
  predicate IsCitationTail(c: char) {
    c == '.' || c == ':' || c == '-'
  }

  /** One match, trimmed, without one trailing period, colon or hyphen. */
  function NormalizeCitation(m: string): (r: string)
    ensures var t := Trim(m);
      |t| - 1 <= |r| <= |t| && r == t[..|r|] &&
      (|r| < |t| <==> |t| > 0 && IsCitationTail(t[|t| - 1]))
  {
    var t := Trim(m);
    if |t| > 0 && IsCitationTail(t[|t| - 1]) then t[..|t| - 1] else t
  }

  /** Every match normalised, in order. */
  function NormalizeAll(ms: seq<string>): (r: seq<string>)
    ensures |r| == |ms| && forall j :: 0 <= j < |ms| ==> r[j] == NormalizeCitation(ms[j])
  {
    seq(|ms|, j requires 0 <= j < |ms| => NormalizeCitation(ms[j]))
  }

  /** `$d[$x]++` for a counter dictionary, starting from 0. */
  function Bump(d: Dict<nat>, x: string): Dict<nat> {
    Put(d, x, Get(d, x).GetOr(0) + 1)
  }

  /**
   * PHP `array_count_values($s)`: each distinct value with the number of
   * times it occurs, keyed in order of first occurrence.
   */
  function CountValues(s: seq<string>): Dict<nat>
    decreases |s|
  {
    if |s| == 0 then [] else Bump(CountValues(s[..|s| - 1]), s[|s| - 1])
  }

  /** The sum of the counts. */
  function Total(d: Dict<nat>): nat
    decreases |d|
  {
    if |d| == 0 then 0 else Total(d[..|d| - 1]) + d[|d| - 1].1
  }

  lemma {:induction false} TotalAppend(d: Dict<nat>, k: string, v: nat)
    ensures Total(d + [(k, v)]) == Total(d) + v
  {
    assert (d + [(k, v)])[..|d|] == d;
  }

  lemma {:induction false} TotalReplace(d: Dict<nat>, j: nat, k: string, v: nat)
    requires j < |d|
    ensures Total(d[j := (k, v)]) == Total(d) - d[j].1 + v
    decreases |d|
  {
    var e := d[j := (k, v)];
    if j < |d| - 1 {
      TotalReplace(d[..|d| - 1], j, k, v);
      assert e[..|e| - 1] == d[..|d| - 1][j := (k, v)];
    } else {
      assert e[..|e| - 1] == d[..|d| - 1];
    }
  }

  /** No key is counted twice. */
  lemma {:induction false} CountValuesDistinct(s: seq<string>)
    ensures DistinctKeys(CountValues(s))
    decreases |s|
  {
    if |s| > 0 {
      var init := s[..|s| - 1];
      CountValuesDistinct(init);
      PutGet(CountValues(init), s[|s| - 1], Get(CountValues(init), s[|s| - 1]).GetOr(0) + 1, s[|s| - 1]);
    }
  }

  /** Occurrences of `x` in a sequence with one more value at the end. */
  lemma OccurrencesSnoc(init: seq<string>, last: string, x: string)
    ensures x in init + [last] <==> x in init || x == last
    ensures multiset(init + [last])[x] == multiset(init)[x] + (if x == last then 1 else 0)
    ensures x !in init ==> multiset(init)[x] == 0
  {
    assert multiset(init + [last]) == multiset(init) + multiset{last};
  }

  /** A value is a key exactly when it occurs, and its count is its number of occurrences. */
  lemma {:induction false} CountValuesGet(s: seq<string>, x: string)
    ensures Get(CountValues(s), x) == if x in s then Some(multiset(s)[x]) else None
    decreases |s|
  {
    if |s| > 0 {
      var init := s[..|s| - 1];
      var last := s[|s| - 1];
      var d := CountValues(init);
      var v := Get(d, last).GetOr(0) + 1;
      assert s == init + [last];
      assert CountValues(s) == Put(d, last, v);
      CountValuesDistinct(init);
      CountValuesGet(init, x);
      OccurrencesSnoc(init, last, x);
      PutGet(d, last, v, x);
    }
  }

  /** The counts add up to the number of values. */
  lemma {:induction false} CountValuesTotal(s: seq<string>)
    ensures Total(CountValues(s)) == |s|
    decreases |s|
  {
    if |s| > 0 {
      var init := s[..|s| - 1];
      var last := s[|s| - 1];
      var d := CountValues(init);
      CountValuesTotal(init);
      var v := Get(d, last).GetOr(0) + 1;
      if Find(d, last).None? {
        TotalAppend(d, last, v);
      } else {
        TotalReplace(d, Find(d, last).value, last, v);
      }
    }
  }

  /** The loop of `extract_references()`: every match normalised in place. */
  method NormalizeMatches(matches: array<string>)
    modifies matches
    ensures forall k :: 0 <= k < matches.Length ==> matches[k] == NormalizeCitation(old(matches[k]))
  {
    for j := 0 to matches.Length
      invariant forall k :: 0 <= k < j ==> matches[k] == NormalizeCitation(old(matches[k]))
      invariant forall k :: j <= k < matches.Length ==> matches[k] == old(matches[k])
    {
      var m := NormalizeMatch(matches[j]);
      matches[j] := m;
    }
  }

  /** The body of that loop for one match: trim it, then lop off one trailing period, colon or hyphen. */
  method NormalizeMatch(raw: string) returns (m: string)
    ensures m == NormalizeCitation(raw)
  {
    m := Trim(raw);
    if |m| > 0 && IsCitationTail(m[|m| - 1]) {
      m := m[..|m| - 1];
    }
  }

  /**
   * `extract_references()`: nothing without a text; otherwise the citations
   * `sectionPattern` finds (the matches of `SECTION_PCRE`, in order),
   * normalised and then counted.
   */
  method ExtractReferences(text: Option<string>, sectionPattern: string -> seq<string>) returns (r: Option<Dict<nat>>)
    ensures r.None? <==> text.None?
    ensures r.Some? ==> r.value == CountValues(NormalizeAll(sectionPattern(text.value)))
  {
    if text.None? {
      return None;
    }
    var found := sectionPattern(text.value);
    var matches := new string[|found|](j requires 0 <= j < |found| => found[j]);
    NormalizeMatches(matches);
    var result := matches[..];
    assert result == NormalizeAll(found);
    return Some(CountValues(result));
  }

  /**
   * Every key found is a normalised match, every normalised match is a key,
   * no key is repeated, and the counts add up to the number of matches.
   */
  lemma ReferencesFound(ms: seq<string>)
    ensures var d := CountValues(NormalizeAll(ms));
      DistinctKeys(d) && Total(d) == |ms| &&
      (forall x :: Get(d, x).Some? <==> exists j :: 0 <= j < |ms| && x == NormalizeCitation(ms[j]))
  {
    var ns := NormalizeAll(ms);
    CountValuesDistinct(ns);
    CountValuesTotal(ns);
    forall x ensures Get(CountValues(ns), x).Some? <==> exists j :: 0 <= j < |ms| && x == NormalizeCitation(ms[j]) {
      FoundAt(ms, x);
    }
  }

  /** One value is a key of the counts exactly when it is some normalised match. */
  lemma FoundAt(ms: seq<string>, x: string)
    ensures Get(CountValues(NormalizeAll(ms)), x).Some? <==> exists j :: 0 <= j < |ms| && x == NormalizeCitation(ms[j])
  {
    var ns := NormalizeAll(ms);
    CountValuesGet(ns, x);
    if x in ns {
      var j :| 0 <= j < |ns| && ns[j] == x;
    }
  }

  // ----- storing -----

  /**
   * `store_references()` as one multi-row insert with `ON DUPLICATE KEY
   * UPDATE mentions=mentions`: a new (law, section) pair gets its count, an
   * existing one keeps its stored count.
   */
  function KeepOrInsert(refs: map<(nat, string), nat>, lawId: nat, sections: Dict<nat>): map<(nat, string), nat>
    decreases |sections|
  {
    if |sections| == 0 then refs
    else
      var rest := KeepOrInsert(refs, lawId, sections[..|sections| - 1]);
      var (section, mentions) := sections[|sections| - 1];
      if (lawId, section) in rest then rest else rest[(lawId, section) := mentions]
  }

  /** Looking a key up in a dictionary with one more entry at the end. */
  lemma FindSnoc(d: Dict<nat>, e: (string, nat), k: string)
    ensures Find(d + [e], k) == if Find(d, k).Some? then Find(d, k) else if e.0 == k then Some(|d|) else None
  {
    var d' := d + [e];
    FindFirst(d, k);
    FindFirst(d', k);
    if Find(d, k).Some? {
      var j := Find(d, k).value;
      assert d'[j] == d[j];
      assert forall i :: 0 <= i < j ==> d'[i] == d[i];
    } else {
      assert forall i :: 0 <= i < |d| ==> d'[i] == d[i];
      assert d'[|d|] == e;
    }
  }

  /**
   * After the insert, one (law, section) key: present when it was before or
   * names a listed section of the law; an old entry keeps its count; a new
   * one gets the count of its listing.
   */
  lemma {:induction false} KeepOrInsertAt(refs: map<(nat, string), nat>, lawId: nat, sections: Dict<nat>, key: (nat, string))
    ensures key in KeepOrInsert(refs, lawId, sections) <==> key in refs || (key.0 == lawId && Find(sections, key.1).Some?)
    ensures key in refs ==> KeepOrInsert(refs, lawId, sections)[key] == refs[key]
    ensures key !in refs && key.0 == lawId && Find(sections, key.1).Some? ==>
      KeepOrInsert(refs, lawId, sections)[key] == sections[Find(sections, key.1).value].1
    decreases |sections|
  {
    if |sections| > 0 {
      var init := sections[..|sections| - 1];
      var last := sections[|sections| - 1];
      KeepOrInsertAt(refs, lawId, init, key);
      assert sections == init + [last];
      FindSnoc(init, last, key.1);
    }
  }

  /**
   * After the insert every listed section is recorded for the law; a pair
   * already recorded keeps its count; a new one gets the count of its
   * listing; nothing else changes.
   */
  lemma KeepOrInsertEffect(refs: map<(nat, string), nat>, lawId: nat, sections: Dict<nat>)
    ensures forall key :: key in KeepOrInsert(refs, lawId, sections) <==> key in refs || (key.0 == lawId && Find(sections, key.1).Some?)
    ensures forall key :: key in refs ==> KeepOrInsert(refs, lawId, sections)[key] == refs[key]
    ensures forall s :: (lawId, s) !in refs && Find(sections, s).Some? ==>
      KeepOrInsert(refs, lawId, sections)[(lawId, s)] == sections[Find(sections, s).value].1
  {
    forall key ensures key in KeepOrInsert(refs, lawId, sections) <==> key in refs || (key.0 == lawId && Find(sections, key.1).Some?) {
      KeepOrInsertAt(refs, lawId, sections, key);
    }
    forall key | key in refs ensures KeepOrInsert(refs, lawId, sections)[key] == refs[key] {
      KeepOrInsertAt(refs, lawId, sections, key);
    }
    forall s | (lawId, s) !in refs && Find(sections, s).Some?
      ensures KeepOrInsert(refs, lawId, sections)[(lawId, s)] == sections[Find(sections, s).value].1
    {
      KeepOrInsertAt(refs, lawId, sections, (lawId, s));
    }
  }

  /** Storing the same counts a second time changes nothing. */
  lemma KeepOrInsertIdempotent(refs: map<(nat, string), nat>, lawId: nat, sections: Dict<nat>)
    ensures KeepOrInsert(KeepOrInsert(refs, lawId, sections), lawId, sections) == KeepOrInsert(refs, lawId, sections)
  {
    var once := KeepOrInsert(refs, lawId, sections);
    KeepOrInsertEffect(refs, lawId, sections);
    KeepOrInsertEffect(once, lawId, sections);
    var twice := KeepOrInsert(once, lawId, sections);
    assert twice.Keys == once.Keys;
  }

  /**
   * `store_references()` for law `lawId`: an empty list yields a malformed
   * statement and fails without storing anything.
   */
  method StoreReferences(db: Database, lawId: nat, sections: Dict<nat>) returns (ok: bool)
    modifies db`references
    ensures ok <==> |sections| > 0
    ensures db.references == if ok then KeepOrInsert(old(db.references), lawId, sections) else old(db.references)
  {
    if |sections| == 0 {
      return false;
    }
    var refs := db.references;
    for j := 0 to |sections|
      invariant refs == KeepOrInsert(db.references, lawId, sections[..j])
    {
      assert sections[..j + 1][..j] == sections[..j];
      var (section, mentions) := sections[j];
      if (lawId, section) !in refs {
        refs := refs[(lawId, section) := mentions];
      }
    }
    assert sections[..|sections|] == sections;
    db.references := refs;
    return true;
  }
}
