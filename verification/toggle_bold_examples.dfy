/**
 Worked instances of `toggle_bold` under the ASCII character classes: whole-word
 matching, case folding, words split across runs, duplicate words, and the occurrence a
 rejected candidate hides.
 */
module ToggleBoldExamples {
  import opened Wrappers
  import opened Strings
  import opened WordScan
  import opened GoogleDocs

  /** A body of one paragraph whose text runs start at the given indices. */
  function OneParagraph(runs: seq<Run>): (doc: Document)
    ensures Runs(doc.content) == runs
  {
    var elements := seq(|runs|, k requires 0 <= k < |runs| => ParagraphElement(runs[k].startIndex, Some(TextRun(Some(runs[k].text)))));
    ElementRunsOf(runs, elements);
    Document([StructuralElement(Some(Paragraph(elements)))])
  }

  lemma {:induction false} ElementRunsOf(runs: seq<Run>, elements: seq<ParagraphElement>)
    requires |elements| == |runs|
    requires forall k :: 0 <= k < |runs| ==> elements[k] == ParagraphElement(runs[k].startIndex, Some(TextRun(Some(runs[k].text))))
    ensures ElementRuns(elements) == runs
  {
    if runs != [] {
      ElementRunsOf(runs[1..], elements[1..]);
    }
  }

  const Bold := TextStyle(Some(true), None, None, None)

  /** "cat" is a whole word at 0; the "cat" of "cats" is not. */
  lemma WholeWordOnly()
    ensures Scan(Ascii, "cat cats", "cat", 0) == [0]
  {
    var text := "cat cats";
    assert Find(text, "cat", 0) == Some(0);
    assert !Ascii.isAlnum(text[3]);
    assert text[3..6] != "cat" && text[4..7] == "cat";
    assert Find(text, "cat", 3) == Some(4);
    assert Ascii.isAlnum(text[7]);
    assert Scan(Ascii, text, "cat", 3) == Scan(Ascii, text, "cat", 7) == [];
  }

  /**
   The cursor jumps past a rejected candidate, so the whole-word "a.a" at 3, which
   overlaps the rejected one at 1, is never reported.
   */
  lemma RejectedCandidateHidesOverlap()
    ensures WholeWordAt(Ascii, "ba.a.a", "a.a", 3)
    ensures Scan(Ascii, "ba.a.a", "a.a", 0) == []
  {
    var text := "ba.a.a";
    assert text[0..3] != "a.a" && text[1..4] == "a.a";
    assert Find(text, "a.a", 0) == Some(1);
    assert Ascii.isAlnum(text[0]);
    assert text[3..6] == "a.a" && !Ascii.isAlnum(text[2]);
  }

  /** One run "cat cats" at index 1 and the word "cat": one request, for indices 1 to 4. */
  lemma OneWholeWordRequest()
    ensures ToggleBold(Ascii, OneParagraph([Run(1, "cat cats")]), ["cat"], true, false)
         == BoldOutcome(1, Some([UpdateTextStyle(Range(1, 4), Bold, "bold")]))
  {
    WholeWordOnly();
    var runs := [Run(1, "cat cats")];
    assert RunWordScan(Ascii, false, runs, ["cat"], 0, 0) == [0];
    assert HitsFrom(Ascii, false, runs, ["cat"], 0) == [Hit(0, 0, 0)];
    var doc := OneParagraph(runs);
    assert Hits(Ascii, false, doc, ["cat"]) == [Hit(0, 0, 0)];
    var reqs := Requests(Ascii, false, doc, ["cat"], true);
    assert reqs[0] == UpdateTextStyle(Range(1, 4), Bold, "bold");
    assert reqs == [UpdateTextStyle(Range(1, 4), Bold, "bold")];
  }

  /** A word split over two runs is not found: each run is scanned on its own. */
  lemma WordAcrossRunsNotFound()
    ensures ToggleBold(Ascii, OneParagraph([Run(1, "bo"), Run(3, "ld")]), ["bold"], true, false)
         == BoldOutcome(0, None)
  {
    var runs := [Run(1, "bo"), Run(3, "ld")];
    assert RunWordScan(Ascii, false, runs, ["bold"], 0, 0) == [];
    assert RunWordScan(Ascii, false, runs, ["bold"], 1, 0) == [];
    assert HitsFrom(Ascii, false, runs, ["bold"], 0) == [];
  }

  /** Matching ignores case only when asked to. */
  lemma CaseFolding()
    ensures ToggleBold(Ascii, OneParagraph([Run(1, "Cat")]), ["cAT"], false, true)
         == BoldOutcome(1, Some([UpdateTextStyle(Range(1, 4), TextStyle(Some(false), None, None, None), "bold")]))
    ensures ToggleBold(Ascii, OneParagraph([Run(1, "Cat")]), ["cAT"], false, false) == BoldOutcome(0, None)
  {
    var runs := [Run(1, "Cat")];
    assert Lower(Ascii, "Cat") == "cat" && Lower(Ascii, "cAT") == "cat";
    assert Find("cat", "cat", 0) == Some(0);
    assert RunWordScan(Ascii, true, runs, ["cAT"], 0, 0) == [0];
    assert HitsFrom(Ascii, true, runs, ["cAT"], 0) == [Hit(0, 0, 0)];
    var doc := OneParagraph(runs);
    assert Hits(Ascii, true, doc, ["cAT"]) == [Hit(0, 0, 0)];
    var reqs := Requests(Ascii, true, doc, ["cAT"], false);
    assert reqs[0] == UpdateTextStyle(Range(1, 4), TextStyle(Some(false), None, None, None), "bold");
    assert reqs == [UpdateTextStyle(Range(1, 4), TextStyle(Some(false), None, None, None), "bold")];
    assert Find("Cat", "cAT", 0) == None;
    assert RunWordScan(Ascii, false, runs, ["cAT"], 0, 0) == [];
    assert HitsFrom(Ascii, false, runs, ["cAT"], 0) == [];
  }

  /** A word listed twice is scanned twice: two identical requests. */
  lemma DuplicateWordTwice()
    ensures ToggleBold(Ascii, OneParagraph([Run(1, "cat")]), ["cat", "cat"], true, false)
         == BoldOutcome(2, Some([UpdateTextStyle(Range(1, 4), Bold, "bold"), UpdateTextStyle(Range(1, 4), Bold, "bold")]))
  {
    var runs := [Run(1, "cat")];
    var words := ["cat", "cat"];
    assert Find("cat", "cat", 0) == Some(0);
    assert RunWordScan(Ascii, false, runs, words, 0, 0) == [0];
    assert RunWordScan(Ascii, false, runs, words, 0, 1) == [0];
    assert HitsFrom(Ascii, false, runs, words, 0) == [Hit(0, 0, 0), Hit(0, 1, 0)];
    var doc := OneParagraph(runs);
    var reqs := Requests(Ascii, false, doc, words, true);
    assert Hits(Ascii, false, doc, words) == [Hit(0, 0, 0), Hit(0, 1, 0)];
    assert reqs[0] == UpdateTextStyle(Range(1, 4), Bold, "bold");
    assert reqs[1] == UpdateTextStyle(Range(1, 4), Bold, "bold");
    assert reqs == [UpdateTextStyle(Range(1, 4), Bold, "bold"), UpdateTextStyle(Range(1, 4), Bold, "bold")];
  }
}
