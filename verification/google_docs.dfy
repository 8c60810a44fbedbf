/**
 `toggle_bold`: walk a Google Docs document, find every whole-word occurrence of each
 word inside each text run, and build one `updateTextStyle` request per occurrence that
 sets only the `bold` field.

 The Docs service is abstracted: `documents().get` becomes the `Document` argument and
 `batchUpdate` becomes the `submitted` part of the result (None when it is not called).
 */
module GoogleDocs {
  import opened Wrappers
  import opened Strings
  import opened WordScan

  /** The parts of the Docs JSON the traversal reads; an absent key is `None`. */
  datatype TextRun = TextRun(content: Option<string>)
  datatype ParagraphElement = ParagraphElement(startIndex: int, textRun: Option<TextRun>)
  datatype Paragraph = Paragraph(elements: seq<ParagraphElement>)
  datatype StructuralElement = StructuralElement(paragraph: Option<Paragraph>)
  /** `doc['body']['content']`. */
  datatype Document = Document(content: seq<StructuralElement>)

  /** A text run that takes part in matching: its absolute start and its text. */
  datatype Run = Run(startIndex: int, text: string)

  /** Element `e` is a `textRun` with `content`, and `r` is what it contributes. */
  predicate Contributes(e: ParagraphElement, r: Run) {
    e.textRun.Some? && e.textRun.value.content == Some(r.text) && e.startIndex == r.startIndex
  }

  /** Structural element `s` is a paragraph one of whose elements contributes `r`. */
  predicate ParagraphContributes(s: StructuralElement, r: Run) {
    s.paragraph.Some? && exists e :: e in s.paragraph.value.elements && Contributes(e, r)
  }

  /** The runs of one paragraph, in element order. */
  function ElementRuns(elements: seq<ParagraphElement>): (r: seq<Run>) {
    if elements == [] then []
    else
      var e := elements[0];
      (if e.textRun.Some? && e.textRun.value.content.Some?
       then [Run(e.startIndex, e.textRun.value.content.value)] else [])
      + ElementRuns(elements[1..])
  }

  /** The runs of the whole body, in document order: paragraphs first to last. */
  function Runs(content: seq<StructuralElement>): (r: seq<Run>) {
    if content == [] then []
    else
      (if content[0].paragraph.Some? then ElementRuns(content[0].paragraph.value.elements) else [])
      + Runs(content[1..])
  }

  /** Exactly the `textRun`s that have `content` are scanned, nothing else in a paragraph. */
  lemma {:induction false} ElementRunsSpec(elements: seq<ParagraphElement>, r: Run)
    ensures r in ElementRuns(elements) <==> exists e :: e in elements && Contributes(e, r)
  {
    if elements != [] {
      ElementRunsSpec(elements[1..], r);
      var e := elements[0];
      if r in ElementRuns(elements[1..]) {
        var e' :| e' in elements[1..] && Contributes(e', r);
        assert e' in elements;
      }
      if Contributes(e, r) {
        assert r == Run(e.startIndex, e.textRun.value.content.value);
      }
      if ElementRuns([e]) == [r] {
        assert ElementRuns([e])[0] == r;
      }
      if exists e' :: e' in elements && Contributes(e', r) {
        var e' :| e' in elements && Contributes(e', r);
        if e' != e {
          assert e' in elements[1..];
        }
      }
    }
  }

  /** Exactly the text runs inside paragraphs are scanned; other structural elements add nothing. */
  lemma {:induction false} RunsSpec(content: seq<StructuralElement>, r: Run)
    ensures r in Runs(content) <==> exists s :: s in content && ParagraphContributes(s, r)
  {
    if content != [] {
      RunsSpec(content[1..], r);
      var s := content[0];
      var head := if s.paragraph.Some? then ElementRuns(s.paragraph.value.elements) else [];
      assert Runs(content) == head + Runs(content[1..]);
      if s.paragraph.Some? {
        ElementRunsSpec(s.paragraph.value.elements, r);
        if r in head {
          assert ParagraphContributes(s, r);
        }
      }
      if r in Runs(content[1..]) {
        var s' :| s' in content[1..] && ParagraphContributes(s', r);
        assert s' in content;
      }
      if exists s' :: s' in content && ParagraphContributes(s', r) {
        var s' :| s' in content && ParagraphContributes(s', r);
        if s' != s {
          assert s' in content[1..];
        }
      }
    }
  }

  /**
   The traversal goes element by element: the runs of `a + b` are those of `a`, then those
   of `b`. With `ElementRunsOne` this fixes `ElementRuns` completely, so each element is
   visited once and in order.
   */
  lemma {:induction false} ElementRunsAppend(a: seq<ParagraphElement>, b: seq<ParagraphElement>)
    ensures ElementRuns(a + b) == ElementRuns(a) + ElementRuns(b)
  {
    if a == [] {
      assert a + b == b;
    } else {
      assert (a + b)[0] == a[0] && (a + b)[1..] == a[1..] + b;
      ElementRunsAppend(a[1..], b);
    }
  }

  /** One element yields one run, `r`, exactly when it contributes `r`, and nothing otherwise. */
  lemma ElementRunsOne(e: ParagraphElement)
    ensures |ElementRuns([e])| <= 1
    ensures forall r :: ElementRuns([e]) == [r] <==> Contributes(e, r)
    ensures ElementRuns([e]) == [] <==> !(e.textRun.Some? && e.textRun.value.content.Some?)
  {
    assert [e][1..] == [];
    var head := if e.textRun.Some? && e.textRun.value.content.Some?
      then [Run(e.startIndex, e.textRun.value.content.value)] else [];
    assert ElementRuns([e]) == head + ElementRuns([]);
    assert ElementRuns([e]) == head;
    forall r
      ensures ElementRuns([e]) == [r] <==> Contributes(e, r)
    {
      if Contributes(e, r) {
        assert r == Run(e.startIndex, e.textRun.value.content.value);
      }
    }
  }

  /** The body is walked structural element by structural element, first to last. */
  lemma {:induction false} RunsAppend(a: seq<StructuralElement>, b: seq<StructuralElement>)
    ensures Runs(a + b) == Runs(a) + Runs(b)
  {
    if a == [] {
      assert a + b == b;
    } else {
      assert (a + b)[0] == a[0] && (a + b)[1..] == a[1..] + b;
      RunsAppend(a[1..], b);
    }
  }

  /** A paragraph yields the runs of its elements; any other structural element yields none. */
  lemma RunsOne(s: StructuralElement)
    ensures s.paragraph.None? ==> Runs([s]) == []
    ensures s.paragraph.Some? ==> Runs([s]) == ElementRuns(s.paragraph.value.elements)
  {
    assert [s][1..] == [];
  }

  /** Line 8 and line 16: lower-case when matching ignores case, otherwise leave as is. */
  function Normalize(cc: CharClass, ignoreCase: bool, s: string): (r: string)
    ensures |r| == |s|
  {
    if ignoreCase then Lower(cc, s) else s
  }

  /** Every word is non-empty (an empty word would make the scan loop forever). */
  predicate NonEmptyWords(words: seq<string>) {
    forall k :: 0 <= k < |words| ==> |words[k]| > 0
  }

  /**
   One accepted occurrence: which run, which word (its position in the list) and where in
   the run it starts.
   */
  datatype Hit = Hit(run: nat, word: nat, offset: int)

  /** The starts the scan accepts for word `wi` in run `ri`, both normalised. */
  function RunWordScan(cc: CharClass, ignoreCase: bool, runs: seq<Run>, words: seq<string>, ri: nat, wi: nat): (r: seq<int>)
    requires ri < |runs| && wi < |words| && NonEmptyWords(words)
  {
    Scan(cc, Normalize(cc, ignoreCase, runs[ri].text), Normalize(cc, ignoreCase, words[wi]), 0)
  }

  /** The scan of run `ri` reports word `wi` at `offset`. */
  predicate Reported(cc: CharClass, ignoreCase: bool, runs: seq<Run>, words: seq<string>, h: Hit)
    requires NonEmptyWords(words)
  {
    h.run < |runs| && h.word < |words| && h.offset in RunWordScan(cc, ignoreCase, runs, words, h.run, h.word)
  }

  /** The hits of one (run, word) pair, left to right. */
  function WordHits(cc: CharClass, ignoreCase: bool, runs: seq<Run>, words: seq<string>, ri: nat, wi: nat): (hits: seq<Hit>)
    requires ri < |runs| && wi < |words| && NonEmptyWords(words)
  {
    var starts := RunWordScan(cc, ignoreCase, runs, words, ri, wi);
    seq(|starts|, k requires 0 <= k < |starts| => Hit(ri, wi, starts[k]))
  }

  /** The hits of run `ri` for words `wi` onwards, word after word (line 18). */
  function RunHits(cc: CharClass, ignoreCase: bool, runs: seq<Run>, words: seq<string>, ri: nat, wi: nat): (hits: seq<Hit>)
    requires ri < |runs| && wi <= |words| && NonEmptyWords(words)
    decreases |words| - wi
  {
    if wi == |words| then []
    else WordHits(cc, ignoreCase, runs, words, ri, wi) + RunHits(cc, ignoreCase, runs, words, ri, wi + 1)
  }

  /** The hits of runs `ri` onwards, run after run (lines 11-15). */
  function HitsFrom(cc: CharClass, ignoreCase: bool, runs: seq<Run>, words: seq<string>, ri: nat): (hits: seq<Hit>)
    requires ri <= |runs| && NonEmptyWords(words)
    decreases |runs| - ri
  {
    if ri == |runs| then []
    else RunHits(cc, ignoreCase, runs, words, ri, 0) + HitsFrom(cc, ignoreCase, runs, words, ri + 1)
  }

  /** All hits of the document, in the order requests are appended. */
  function Hits(cc: CharClass, ignoreCase: bool, doc: Document, words: seq<string>): (r: seq<Hit>)
    requires NonEmptyWords(words)
  {
    HitsFrom(cc, ignoreCase, Runs(doc.content), words, 0)
  }

  /** Length of word `w`, 0 for an index outside the list. */
  function WordLen(words: seq<string>, w: nat): (r: nat) {
    if w < |words| then |words[w]| else 0
  }

  /**
   Request order: by run, then by position in the word list, then left to right without
   overlap for the same run and word.
   */
  predicate HitBefore(words: seq<string>, a: Hit, b: Hit) {
    || a.run < b.run
    || (a.run == b.run && a.word < b.word)
    || (a.run == b.run && a.word == b.word && a.offset + WordLen(words, a.word) <= b.offset)
  }

  predicate Ordered(words: seq<string>, hits: seq<Hit>) {
    forall i, j :: 0 <= i < j < |hits| ==> HitBefore(words, hits[i], hits[j])
  }

  lemma ConcatOrdered(words: seq<string>, a: seq<Hit>, b: seq<Hit>)
    requires Ordered(words, a) && Ordered(words, b)
    requires forall x, y :: x in a && y in b ==> HitBefore(words, x, y)
    ensures Ordered(words, a + b)
    ensures forall h :: h in a + b <==> h in a || h in b
  {
    var c := a + b;
    forall i, j | 0 <= i < j < |c|
      ensures HitBefore(words, c[i], c[j])
    {
      if j < |a| {
        assert c[i] == a[i] && c[j] == a[j];
      } else if i >= |a| {
        assert c[i] == b[i - |a|] && c[j] == b[j - |a|];
      } else {
        assert c[i] in a && c[j] in b;
      }
    }
  }

  /** The hits of one (run, word) pair are exactly the scan's starts, in the scan's order. */
  lemma WordHitsSpec(cc: CharClass, ignoreCase: bool, runs: seq<Run>, words: seq<string>, ri: nat, wi: nat)
    requires ri < |runs| && wi < |words| && NonEmptyWords(words)
    ensures forall h :: h in WordHits(cc, ignoreCase, runs, words, ri, wi) <==> h.run == ri && h.word == wi && Reported(cc, ignoreCase, runs, words, h)
    ensures Ordered(words, WordHits(cc, ignoreCase, runs, words, ri, wi))
  {
    var text := Normalize(cc, ignoreCase, runs[ri].text);
    var word := Normalize(cc, ignoreCase, words[wi]);
    var starts := RunWordScan(cc, ignoreCase, runs, words, ri, wi);
    var hits := WordHits(cc, ignoreCase, runs, words, ri, wi);
    ScanSound(cc, text, word, 0);
    forall h: Hit | h.run == ri && h.word == wi && Reported(cc, ignoreCase, runs, words, h)
      ensures h in hits
    {
      var k :| 0 <= k < |starts| && starts[k] == h.offset;
      assert hits[k] == h;
    }
    forall i, j | 0 <= i < j < |hits|
      ensures HitBefore(words, hits[i], hits[j])
    {
      assert hits[i].offset == starts[i] && hits[j].offset == starts[j];
    }
  }

  /** The hits of run `ri` for words `wi` onwards: what the scans report, in request order. */
  lemma {:induction false} RunHitsSpec(cc: CharClass, ignoreCase: bool, runs: seq<Run>, words: seq<string>, ri: nat, wi: nat)
    requires ri < |runs| && wi <= |words| && NonEmptyWords(words)
    ensures forall h :: h in RunHits(cc, ignoreCase, runs, words, ri, wi) <==> h.run == ri && wi <= h.word && Reported(cc, ignoreCase, runs, words, h)
    ensures Ordered(words, RunHits(cc, ignoreCase, runs, words, ri, wi))
    decreases |words| - wi
  {
    if wi < |words| {
      var a := WordHits(cc, ignoreCase, runs, words, ri, wi);
      var b := RunHits(cc, ignoreCase, runs, words, ri, wi + 1);
      WordHitsSpec(cc, ignoreCase, runs, words, ri, wi);
      RunHitsSpec(cc, ignoreCase, runs, words, ri, wi + 1);
      assert RunHits(cc, ignoreCase, runs, words, ri, wi) == a + b;
      forall x, y | x in a && y in b
        ensures HitBefore(words, x, y)
      {
        assert x.run == y.run && x.word < y.word;
      }
      ConcatOrdered(words, a, b);
    }
  }

  /** The hits of runs `ri` onwards: what the scans report, in request order. */
  lemma {:induction false} HitsFromSpec(cc: CharClass, ignoreCase: bool, runs: seq<Run>, words: seq<string>, ri: nat)
    requires ri <= |runs| && NonEmptyWords(words)
    ensures forall h :: h in HitsFrom(cc, ignoreCase, runs, words, ri) <==> ri <= h.run && Reported(cc, ignoreCase, runs, words, h)
    ensures Ordered(words, HitsFrom(cc, ignoreCase, runs, words, ri))
    decreases |runs| - ri
  {
    if ri < |runs| {
      var a := RunHits(cc, ignoreCase, runs, words, ri, 0);
      var b := HitsFrom(cc, ignoreCase, runs, words, ri + 1);
      RunHitsSpec(cc, ignoreCase, runs, words, ri, 0);
      HitsFromSpec(cc, ignoreCase, runs, words, ri + 1);
      assert HitsFrom(cc, ignoreCase, runs, words, ri) == a + b;
      forall x, y | x in a && y in b
        ensures HitBefore(words, x, y)
      {
        assert x.run < y.run;
      }
      ConcatOrdered(words, a, b);
    }
  }

  /** Every hit names a run and a word that exist. */
  lemma HitsInBounds(cc: CharClass, ignoreCase: bool, runs: seq<Run>, words: seq<string>)
    requires NonEmptyWords(words)
    ensures forall h :: h in HitsFrom(cc, ignoreCase, runs, words, 0) ==> h.run < |runs| && h.word < |words|
  {
    HitsFromSpec(cc, ignoreCase, runs, words, 0);
  }

  /** `range` of an `updateTextStyle` request: absolute, end exclusive. */
  datatype Range = Range(startIndex: int, endIndex: int)

  /** The style fields a request can carry; an absent field is not part of the request. */
  datatype TextStyle = TextStyle(bold: Option<bool>, italic: Option<bool>, underline: Option<bool>, strikethrough: Option<bool>)

  /** `{'updateTextStyle': {'range': .., 'textStyle': .., 'fields': ..}}`. */
  datatype Request = UpdateTextStyle(range: Range, textStyle: TextStyle, fields: string)

  /** What `toggle_bold` hands back: the counter, and the batch passed to `batchUpdate` if it is called. */
  datatype BoldOutcome = BoldOutcome(count: nat, submitted: Option<seq<Request>>)

  /**
   Lines 35-47: the request for a hit, the run-relative start and end shifted by the
   run's `startIndex`, with `textStyle` holding only `bold` and `fields` naming only `bold`.
   */
  function BoldRequest(cc: CharClass, ignoreCase: bool, runs: seq<Run>, words: seq<string>, h: Hit, bold: bool): (r: Request)
    requires h.run < |runs| && h.word < |words|
  {
    var endOffset := h.offset + |Normalize(cc, ignoreCase, words[h.word])|;
    UpdateTextStyle(
      Range(runs[h.run].startIndex + h.offset, runs[h.run].startIndex + endOffset),
      TextStyle(Some(bold), None, None, None),
      "bold")
  }

  /** The requests, one per hit and in hit order. */
  function Requests(cc: CharClass, ignoreCase: bool, doc: Document, words: seq<string>, bold: bool): (reqs: seq<Request>)
    requires NonEmptyWords(words)
    ensures |reqs| == |Hits(cc, ignoreCase, doc, words)|
  {
    var runs := Runs(doc.content);
    var hits := Hits(cc, ignoreCase, doc, words);
    HitsInBounds(cc, ignoreCase, runs, words);
    seq(|hits|, k requires 0 <= k < |hits| => BoldRequest(cc, ignoreCase, runs, words, hits[k], bold))
  }

  /**
   `toggle_bold(service, document_id, words, bold, ignore_case)`: the request list is
   submitted in one `batchUpdate` only when it is non-empty, and the counter is its length.
   */
  function ToggleBold(cc: CharClass, doc: Document, words: seq<string>, bold: bool, ignoreCase: bool): (o: BoldOutcome)
    requires NonEmptyWords(words)
  {
    var reqs := Requests(cc, ignoreCase, doc, words, bold);
    BoldOutcome(|reqs|, if |reqs| > 0 then Some(reqs) else None)
  }
}
