/**
 What `toggle_bold` promises about the batch it submits: where each request points, that
 the text there is the word, that it is a whole word, that only `bold` is written, the
 order of the requests, and that nothing the scan accepts is left out.
 */
module ToggleBoldProperties {
  import opened Wrappers
  import opened Strings
  import opened WordScan
  import opened GoogleDocs

  /** The `k`-th submitted request is the request for the `k`-th hit, and that hit is reported by its scan. */
  lemma SubmittedIsHit(cc: CharClass, doc: Document, words: seq<string>, bold: bool, ignoreCase: bool, k: nat)
    requires NonEmptyWords(words)
    requires k < ToggleBold(cc, doc, words, bold, ignoreCase).count
    ensures var o := ToggleBold(cc, doc, words, bold, ignoreCase);
      var runs := Runs(doc.content);
      var h := Hits(cc, ignoreCase, doc, words)[k];
      && o.submitted.Some? && k < |o.submitted.value|
      && Reported(cc, ignoreCase, runs, words, h)
      && o.submitted.value[k] == BoldRequest(cc, ignoreCase, runs, words, h, bold)
  {
    var runs := Runs(doc.content);
    var hits := Hits(cc, ignoreCase, doc, words);
    HitsFromSpec(cc, ignoreCase, runs, words, 0);
    assert hits[k] in hits;
  }

  /**
   The count equals the number of requests built, `batchUpdate` is called exactly when it
   is positive, and an empty word list submits nothing.
   */
  lemma CountMatchesBatch(cc: CharClass, doc: Document, words: seq<string>, bold: bool, ignoreCase: bool)
    requires NonEmptyWords(words)
    ensures var o := ToggleBold(cc, doc, words, bold, ignoreCase);
      && o.count == |Hits(cc, ignoreCase, doc, words)|
      && (o.submitted.None? <==> o.count == 0)
      && (o.submitted.Some? ==> |o.submitted.value| == o.count)
      && (words == [] ==> o == BoldOutcome(0, None))
  {
    if words == [] {
      NoWordsNoHits(cc, ignoreCase, Runs(doc.content), 0);
    }
  }

  lemma {:induction false} NoWordsNoHits(cc: CharClass, ignoreCase: bool, runs: seq<Run>, ri: nat)
    requires ri <= |runs|
    ensures HitsFrom(cc, ignoreCase, runs, [], ri) == []
    decreases |runs| - ri
  {
    if ri < |runs| {
      NoWordsNoHits(cc, ignoreCase, runs, ri + 1);
    }
  }

  /**
   Every submitted range is as long as its word and lies inside its run, and that run is a
   `textRun` with `content` in one of the document's paragraphs.
   */
  lemma SubmittedRangeInsideRun(cc: CharClass, doc: Document, words: seq<string>, bold: bool, ignoreCase: bool, k: nat)
    requires NonEmptyWords(words)
    requires k < ToggleBold(cc, doc, words, bold, ignoreCase).count
    ensures var o := ToggleBold(cc, doc, words, bold, ignoreCase);
      var runs := Runs(doc.content);
      var h := Hits(cc, ignoreCase, doc, words)[k];
      && o.submitted.Some? && k < |o.submitted.value|
      && h.run < |runs| && h.word < |words|
      && var r := o.submitted.value[k].range;
      && r.endIndex - r.startIndex == |words[h.word]|
      && runs[h.run].startIndex <= r.startIndex
      && r.endIndex <= runs[h.run].startIndex + |runs[h.run].text|
      && exists s :: s in doc.content && ParagraphContributes(s, runs[h.run])
  {
    SubmittedIsHit(cc, doc, words, bold, ignoreCase, k);
    var runs := Runs(doc.content);
    var h := Hits(cc, ignoreCase, doc, words)[k];
    var text := Normalize(cc, ignoreCase, runs[h.run].text);
    var word := Normalize(cc, ignoreCase, words[h.word]);
    ScanSound(cc, text, word, 0);
    var starts := Scan(cc, text, word, 0);
    var i :| 0 <= i < |starts| && starts[i] == h.offset;
    assert OccursAt(text, word, starts[i]);
    RunsSpec(doc.content, runs[h.run]);
  }

  /**
   Range `r` of the document covers, inside `run`, text that is `word` (compared lower-cased
   when `ignoreCase` holds, character for character otherwise) and is a whole word of the
   normalised run text: the characters just before and just after it, where the run has
   them, are not alphanumeric.
   */
  predicate HoldsWholeWord(cc: CharClass, ignoreCase: bool, run: Run, word: string, r: Range) {
    var a := r.startIndex - run.startIndex;
    var b := r.endIndex - run.startIndex;
    && 0 <= a <= b <= |run.text|
    && b - a == |word|
    && (ignoreCase ==> Lower(cc, run.text[a..b]) == Lower(cc, word))
    && (!ignoreCase ==> run.text[a..b] == word)
    && IsWholeWord(cc, Normalize(cc, ignoreCase, run.text), a, b - a)
  }

  /** The request built for a hit the scan reports covers its word, as a whole word. */
  lemma ReportedHitHoldsWholeWord(cc: CharClass, ignoreCase: bool, runs: seq<Run>, words: seq<string>, h: Hit, bold: bool)
    requires NonEmptyWords(words) && Reported(cc, ignoreCase, runs, words, h)
    ensures HoldsWholeWord(cc, ignoreCase, runs[h.run], words[h.word], BoldRequest(cc, ignoreCase, runs, words, h, bold).range)
  {
    ReportedIsWholeWord(cc, ignoreCase, runs, words, h);
    BoldRequestRange(cc, ignoreCase, runs, words, h, bold);
    WholeWordHolds(cc, ignoreCase, runs[h.run], words[h.word], h.offset, BoldRequest(cc, ignoreCase, runs, words, h, bold).range);
  }

  /** A reported hit is a whole-word occurrence of the normalised word in the normalised run. */
  lemma ReportedIsWholeWord(cc: CharClass, ignoreCase: bool, runs: seq<Run>, words: seq<string>, h: Hit)
    requires NonEmptyWords(words) && Reported(cc, ignoreCase, runs, words, h)
    ensures WholeWordAt(cc, Normalize(cc, ignoreCase, runs[h.run].text), Normalize(cc, ignoreCase, words[h.word]), h.offset)
  {
    ScannedIsWholeWord(cc, Normalize(cc, ignoreCase, runs[h.run].text), Normalize(cc, ignoreCase, words[h.word]), h.offset);
  }

  /** The request for a hit spans the hit's word, shifted by its run's start index. */
  lemma BoldRequestRange(cc: CharClass, ignoreCase: bool, runs: seq<Run>, words: seq<string>, h: Hit, bold: bool)
    requires h.run < |runs| && h.word < |words|
    ensures BoldRequest(cc, ignoreCase, runs, words, h, bold).range
      == Range(runs[h.run].startIndex + h.offset, runs[h.run].startIndex + h.offset + |words[h.word]|)
  {
  }

  /** A whole-word occurrence of the normalised word in the normalised run holds the word there. */
  lemma WholeWordHolds(cc: CharClass, ignoreCase: bool, run: Run, word: string, i: int, r: Range)
    requires WholeWordAt(cc, Normalize(cc, ignoreCase, run.text), Normalize(cc, ignoreCase, word), i)
    requires r == Range(run.startIndex + i, run.startIndex + i + |word|)
    ensures HoldsWholeWord(cc, ignoreCase, run, word, r)
  {
    NormalizedMatch(cc, ignoreCase, run.text, word, i);
    assert |Normalize(cc, ignoreCase, word)| == |word|;
    HoldsAt(cc, ignoreCase, run, word, i, r);
  }

  /** `HoldsWholeWord` for the range at offset `i` of the run, stated at that offset. */
  lemma HoldsAt(cc: CharClass, ignoreCase: bool, run: Run, word: string, i: int, r: Range)
    requires r == Range(run.startIndex + i, run.startIndex + i + |word|)
    requires 0 <= i && i + |word| <= |run.text|
    requires ignoreCase ==> Lower(cc, run.text[i..i + |word|]) == Lower(cc, word)
    requires !ignoreCase ==> run.text[i..i + |word|] == word
    requires IsWholeWord(cc, Normalize(cc, ignoreCase, run.text), i, |word|)
    ensures HoldsWholeWord(cc, ignoreCase, run, word, r)
  {
    assert r.startIndex - run.startIndex == i;
    assert r.endIndex - run.startIndex == i + |word|;
  }


  /** Where the normalised word occurs in the normalised text, the text there is the word up to normalisation. */
  lemma NormalizedMatch(cc: CharClass, ignoreCase: bool, text: string, word: string, i: int)
    requires OccursAt(Normalize(cc, ignoreCase, text), Normalize(cc, ignoreCase, word), i)
    ensures 0 <= i && i + |word| <= |text|
    ensures ignoreCase ==> Lower(cc, text[i..i + |word|]) == Lower(cc, word)
    ensures !ignoreCase ==> text[i..i + |word|] == word
  {
    if ignoreCase {
      LowerSlice(cc, text, i, i + |word|);
    }
  }

  /**
   Every submitted range covers, in the run it was found in, the word it was built for,
   as a whole word.
   */
  lemma SubmittedHoldsWholeWord(cc: CharClass, doc: Document, words: seq<string>, bold: bool, ignoreCase: bool, k: nat)
    requires NonEmptyWords(words)
    requires k < ToggleBold(cc, doc, words, bold, ignoreCase).count
    ensures var o := ToggleBold(cc, doc, words, bold, ignoreCase);
      var runs := Runs(doc.content);
      var h := Hits(cc, ignoreCase, doc, words)[k];
      && o.submitted.Some? && k < |o.submitted.value|
      && h.run < |runs| && h.word < |words|
      && HoldsWholeWord(cc, ignoreCase, runs[h.run], words[h.word], o.submitted.value[k].range)
  {
    SubmittedIsHit(cc, doc, words, bold, ignoreCase, k);
    var h := Hits(cc, ignoreCase, doc, words)[k];
    ReportedHitHoldsWholeWord(cc, ignoreCase, Runs(doc.content), words, h, bold);
  }

  /** Every submitted request sets `bold` to the flag and names only `bold` in `fields`. */
  lemma SubmittedSetsOnlyBold(cc: CharClass, doc: Document, words: seq<string>, bold: bool, ignoreCase: bool, k: nat)
    requires NonEmptyWords(words)
    requires k < ToggleBold(cc, doc, words, bold, ignoreCase).count
    ensures var o := ToggleBold(cc, doc, words, bold, ignoreCase);
      && o.submitted.Some? && k < |o.submitted.value|
      && o.submitted.value[k].textStyle == TextStyle(Some(bold), None, None, None)
      && o.submitted.value[k].fields == "bold"
  {
    SubmittedIsHit(cc, doc, words, bold, ignoreCase, k);
  }

  /**
   Requests come run by run, within a run word by word in list order, and for one run and
   one word left to right with no overlap.
   */
  lemma SubmittedOrder(cc: CharClass, doc: Document, words: seq<string>, bold: bool, ignoreCase: bool, i: nat, j: nat)
    requires NonEmptyWords(words)
    requires i < j < ToggleBold(cc, doc, words, bold, ignoreCase).count
    ensures var o := ToggleBold(cc, doc, words, bold, ignoreCase);
      var hi := Hits(cc, ignoreCase, doc, words)[i];
      var hj := Hits(cc, ignoreCase, doc, words)[j];
      && o.submitted.Some? && j < |o.submitted.value|
      && (hi.run < hj.run || (hi.run == hj.run && hi.word <= hj.word))
      && (hi.run == hj.run && hi.word == hj.word ==>
            o.submitted.value[i].range.endIndex <= o.submitted.value[j].range.startIndex)
  {
    var runs := Runs(doc.content);
    HitsFromSpec(cc, ignoreCase, runs, words, 0);
    SubmittedIsHit(cc, doc, words, bold, ignoreCase, i);
    SubmittedIsHit(cc, doc, words, bold, ignoreCase, j);
  }

  /**
   Nothing the scan accepts is dropped: every start the scan of run `ri` accepts for word
   `wi` is submitted, as the range of that word at that place.
   */
  lemma ScannedStartIsSubmitted(cc: CharClass, doc: Document, words: seq<string>, bold: bool, ignoreCase: bool, ri: nat, wi: nat, s: int)
    requires NonEmptyWords(words)
    requires ri < |Runs(doc.content)| && wi < |words|
    requires s in RunWordScan(cc, ignoreCase, Runs(doc.content), words, ri, wi)
    ensures var o := ToggleBold(cc, doc, words, bold, ignoreCase);
      var run := Runs(doc.content)[ri];
      && o.submitted.Some?
      && exists k :: 0 <= k < |o.submitted.value|
           && o.submitted.value[k].range == Range(run.startIndex + s, run.startIndex + s + |words[wi]|)
  {
    var hits := Hits(cc, ignoreCase, doc, words);
    ScannedStartIsHit(cc, ignoreCase, doc, words, ri, wi, s);
    var k :| 0 <= k < |hits| && hits[k] == Hit(ri, wi, s);
    HitRequestRange(cc, doc, words, bold, ignoreCase, k);
    var o := ToggleBold(cc, doc, words, bold, ignoreCase);
    var run := Runs(doc.content)[ri];
    assert o.submitted.value[k].range == Range(run.startIndex + s, run.startIndex + s + |words[wi]|);
  }

  /** The `k`-th request covers the `k`-th hit's word where the hit found it. */
  lemma HitRequestRange(cc: CharClass, doc: Document, words: seq<string>, bold: bool, ignoreCase: bool, k: nat)
    requires NonEmptyWords(words) && k < |Hits(cc, ignoreCase, doc, words)|
    ensures var o := ToggleBold(cc, doc, words, bold, ignoreCase);
      var runs := Runs(doc.content);
      var h := Hits(cc, ignoreCase, doc, words)[k];
      && o.submitted.Some? && k < |o.submitted.value|
      && h.run < |runs| && h.word < |words|
      && o.submitted.value[k].range == Range(runs[h.run].startIndex + h.offset, runs[h.run].startIndex + h.offset + |words[h.word]|)
  {
    var runs := Runs(doc.content);
    var hits := Hits(cc, ignoreCase, doc, words);
    HitsInBounds(cc, ignoreCase, runs, words);
    assert hits[k] in hits;
    var reqs := Requests(cc, ignoreCase, doc, words, bold);
    assert ToggleBold(cc, doc, words, bold, ignoreCase).submitted == Some(reqs);
    assert |Normalize(cc, ignoreCase, words[hits[k].word])| == |words[hits[k].word]|;
    assert reqs[k] == BoldRequest(cc, ignoreCase, runs, words, hits[k], bold);
  }

  lemma ScannedStartIsHit(cc: CharClass, ignoreCase: bool, doc: Document, words: seq<string>, ri: nat, wi: nat, s: int)
    requires NonEmptyWords(words)
    requires ri < |Runs(doc.content)| && wi < |words|
    requires s in RunWordScan(cc, ignoreCase, Runs(doc.content), words, ri, wi)
    ensures Hit(ri, wi, s) in Hits(cc, ignoreCase, doc, words)
  {
    HitsFromSpec(cc, ignoreCase, Runs(doc.content), words, 0);
  }

  /**
   Where the occurrences of a (normalised) word in a (normalised) run cannot overlap, every
   whole-word occurrence of it is submitted.
   */
  lemma WholeWordOccurrenceIsSubmitted(cc: CharClass, doc: Document, words: seq<string>, bold: bool, ignoreCase: bool, ri: nat, wi: nat, s: nat)
    requires NonEmptyWords(words)
    requires ri < |Runs(doc.content)| && wi < |words|
    requires var text := Normalize(cc, ignoreCase, Runs(doc.content)[ri].text);
      var word := Normalize(cc, ignoreCase, words[wi]);
      OccurrencesDisjoint(text, word) && WholeWordAt(cc, text, word, s)
    ensures var o := ToggleBold(cc, doc, words, bold, ignoreCase);
      var run := Runs(doc.content)[ri];
      && o.submitted.Some?
      && exists k :: 0 <= k < |o.submitted.value|
           && o.submitted.value[k].range == Range(run.startIndex + s, run.startIndex + s + |words[wi]|)
  {
    var runs := Runs(doc.content);
    ScanExact(cc, Normalize(cc, ignoreCase, runs[ri].text), Normalize(cc, ignoreCase, words[wi]), s);
    ScannedStartIsSubmitted(cc, doc, words, bold, ignoreCase, ri, wi, s);
  }
}
