/**
 The inner `while True` loop of `toggle_bold`: scanning one (already normalised) run text
 for one (already normalised) word, keeping only whole-word occurrences.

 The cursor advances by the word's length after EVERY candidate, accepted or rejected.
 Advancing past a rejected candidate means an occurrence overlapping it is never examined;
 this is the program's behaviour and is kept here.
 */
module WordScan {
  import opened Wrappers
  import opened Strings

  /**
   The whole-word test: the character just before index `i` and the character just
   after `i + n`, when they exist in `text`, are not alphanumeric.
   */
  predicate IsWholeWord(cc: CharClass, text: string, i: int, n: nat)
    requires 0 <= i && i + n <= |text|
  {
    !((i - 1 >= 0 && cc.isAlnum(text[i - 1])) || (i + n < |text| && cc.isAlnum(text[i + n])))
  }

  /** A whole-word occurrence of `word` at `i`. */
  predicate WholeWordAt(cc: CharClass, text: string, word: string, i: int) {
    OccursAt(text, word, i) && IsWholeWord(cc, text, i, |word|)
  }

  /** Starts `n` or more apart: the ranges `[s, s + n)` they open never overlap. */
  predicate Separated(starts: seq<int>, n: nat) {
    forall j, k :: 0 <= j < k < |starts| ==> starts[j] + n <= starts[k]
  }

  /** Every start is a whole-word occurrence of `word` at or after `from`. */
  predicate WholeWordsFrom(cc: CharClass, text: string, word: string, starts: seq<int>, from: int) {
    forall k :: 0 <= k < |starts| ==> from <= starts[k] && WholeWordAt(cc, text, word, starts[k])
  }

  /** No two occurrences of `word` in `text` overlap. */
  predicate OccurrencesDisjoint(text: string, word: string) {
    forall i, j :: 0 <= i < j <= |text| && OccursAt(text, word, i) && OccursAt(text, word, j) ==> i + |word| <= j
  }

  /**
   The starts the loop accepts once its cursor stands at `from`, in the order it finds
   them. What they are is stated by `ScanSound` and `ScanMissesOnlyOverlapped`.
   */
  function Scan(cc: CharClass, text: string, word: string, from: nat): (starts: seq<int>)
    requires |word| > 0
    decreases |text| - from
  {
    match Find(text, word, from)
    case None => []
    case Some(i) =>
      if IsWholeWord(cc, text, i, |word|) then [i] + Scan(cc, text, word, i + |word|)
      else Scan(cc, text, word, i + |word|)
  }

  /**
   Every start the scan accepts from cursor `from` on is a whole-word occurrence at or
   after `from`, and each is at least a word's length after the one before, so the
   accepted ranges never overlap and strictly increase.
   */
  lemma {:induction false} ScanSound(cc: CharClass, text: string, word: string, from: nat)
    requires |word| > 0
    ensures WholeWordsFrom(cc, text, word, Scan(cc, text, word, from), from)
    ensures Separated(Scan(cc, text, word, from), |word|)
    decreases |text| - from
  {
    FindSpec(text, word, from);
    match Find(text, word, from)
    case None =>
    case Some(i) =>
      var rest := Scan(cc, text, word, i + |word|);
      ScanSound(cc, text, word, i + |word|);
      assert Scan(cc, text, word, from) == if IsWholeWord(cc, text, i, |word|) then [i] + rest else rest;
      if IsWholeWord(cc, text, i, |word|) {
        PrependSound(cc, text, word, i, rest, from);
      }
  }

  /** A whole-word start placed before starts that are sound from its end keeps them sound. */
  lemma PrependSound(cc: CharClass, text: string, word: string, i: int, rest: seq<int>, from: int)
    requires from <= i && WholeWordAt(cc, text, word, i)
    requires WholeWordsFrom(cc, text, word, rest, i + |word|) && Separated(rest, |word|)
    ensures WholeWordsFrom(cc, text, word, [i] + rest, from) && Separated([i] + rest, |word|)
  {
    var r := [i] + rest;
    forall j, k | 0 <= j < k < |r|
      ensures r[j] + |word| <= r[k]
    {
      assert r[k] == rest[k - 1];
      if j > 0 {
        assert r[j] == rest[j - 1];
      }
    }
    forall k | 0 <= k < |r|
      ensures from <= r[k] && WholeWordAt(cc, text, word, r[k])
    {
      if k > 0 {
        assert r[k] == rest[k - 1];
      }
    }
  }

  /**
   The same loop in the shape the program writes it: the accepted starts so far are
   carried along and the next one is appended.
   */
  function ScanInto(cc: CharClass, text: string, word: string, acc: seq<int>, from: nat): (r: seq<int>)
    requires |word| > 0
    decreases |text| - from
  {
    match Find(text, word, from)
    case None => acc
    case Some(i) =>
      ScanInto(cc, text, word, if IsWholeWord(cc, text, i, |word|) then acc + [i] else acc, i + |word|)
  }

  lemma AppendOne(a: seq<int>, x: int, b: seq<int>)
    ensures a + ([x] + b) == (a + [x]) + b
  {
  }

  /** Appending as the loop goes yields what was accepted before followed by `Scan`. */
  lemma {:induction false} ScanIntoIsScan(cc: CharClass, text: string, word: string, acc: seq<int>, from: nat)
    requires |word| > 0
    ensures ScanInto(cc, text, word, acc, from) == acc + Scan(cc, text, word, from)
    decreases |text| - from
  {
    match Find(text, word, from)
    case None =>
      assert Scan(cc, text, word, from) == [];
    case Some(i) =>
      var rest := Scan(cc, text, word, i + |word|);
      if IsWholeWord(cc, text, i, |word|) {
        ScanIntoIsScan(cc, text, word, acc + [i], i + |word|);
        assert Scan(cc, text, word, from) == [i] + rest;
        AppendOne(acc, i, rest);
      } else {
        ScanIntoIsScan(cc, text, word, acc, i + |word|);
        assert Scan(cc, text, word, from) == rest;
      }
  }

  /**
   The loop as written: a cursor, `find` from the cursor, the boundary check, and an
   advance by the word's length whether the candidate was accepted or not.
   */
  method ScanRun(cc: CharClass, text: string, word: string) returns (starts: seq<int>)
    requires |word| > 0
    ensures starts == Scan(cc, text, word, 0)
  {
    starts := [];
    var cursor: nat := 0;
    var found := Find(text, word, cursor);
    while found.Some?
      invariant cursor <= |text|
      invariant found == Find(text, word, cursor)
      invariant ScanInto(cc, text, word, starts, cursor) == ScanInto(cc, text, word, [], 0)
      decreases |text| - cursor
    {
      var i := found.value;
      if IsWholeWord(cc, text, i, |word|) {
        starts := starts + [i];
      }
      cursor := i + |word|;
      found := Find(text, word, cursor);
    }
    ScanIntoIsScan(cc, text, word, [], 0);
  }

  /**
   What the scan can miss: a whole-word occurrence at or after the cursor that is not
   reported overlaps an earlier occurrence (the candidate the loop jumped over).
   */
  lemma {:induction false} ScanMissesOnlyOverlapped(cc: CharClass, text: string, word: string, from: nat, j: nat)
    requires |word| > 0
    requires from <= j && WholeWordAt(cc, text, word, j)
    ensures j in Scan(cc, text, word, from)
      || exists c :: from <= c < j < c + |word| && OccursAt(text, word, c)
    decreases |text| - from
  {
    FindSpec(text, word, from);
    match Find(text, word, from)
    case None =>
      assert false;
    case Some(i) =>
      var rest := Scan(cc, text, word, i + |word|);
      assert Scan(cc, text, word, from) == if IsWholeWord(cc, text, i, |word|) then [i] + rest else rest;
      if i + |word| <= j {
        ScanMissesOnlyOverlapped(cc, text, word, i + |word|, j);
        if j !in rest {
          var c :| i + |word| <= c < j < c + |word| && OccursAt(text, word, c);
          assert from <= c;
        }
      } else if i < j {
        assert from <= i < j < i + |word| && OccursAt(text, word, i);
      } else {
        assert j == i;
      }
  }

  /**
   Where occurrences of the word cannot overlap, the scan reports exactly the whole-word
   occurrences.
   */
  lemma ScanExact(cc: CharClass, text: string, word: string, j: nat)
    requires |word| > 0 && OccurrencesDisjoint(text, word)
    ensures j in Scan(cc, text, word, 0) <==> WholeWordAt(cc, text, word, j)
  {
    ScanSound(cc, text, word, 0);
    if WholeWordAt(cc, text, word, j) {
      ScanMissesOnlyOverlapped(cc, text, word, 0, j);
    }
  }

  /** Every start the scan reports is a whole-word occurrence. */
  lemma ScannedIsWholeWord(cc: CharClass, text: string, word: string, s: int)
    requires |word| > 0 && s in Scan(cc, text, word, 0)
    ensures WholeWordAt(cc, text, word, s)
  {
    ScanSound(cc, text, word, 0);
    var starts := Scan(cc, text, word, 0);
    var k :| 0 <= k < |starts| && starts[k] == s;
  }

  /**
   A rejected candidate at `i` pushes every start accepted afterwards to `i + |word|` or
   beyond, so no occurrence overlapping the rejected one is reported.
   */
  lemma RejectedCandidateSkipped(cc: CharClass, text: string, word: string, from: nat, i: nat)
    requires |word| > 0
    requires Find(text, word, from) == Some(i) && !IsWholeWord(cc, text, i, |word|)
    ensures forall s :: s in Scan(cc, text, word, from) ==> i + |word| <= s
  {
    assert Scan(cc, text, word, from) == Scan(cc, text, word, i + |word|);
    ScanSound(cc, text, word, i + |word|);
  }
}
