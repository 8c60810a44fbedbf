/**
 The few Python string operations the program relies on, over `string` (= `seq<char>`):
 `str.find`, `str.lower`, `str.isalnum`, `str.strip`, `str.split` and the `in` test.

 Python's `lower` and `isalnum` are Unicode-aware and `lower` may even lengthen a string
 (U+0130 lower-cases to two code points). Here both are abstracted into a `CharClass`
 record: `lower` maps one character to one character, so lower-casing preserves length,
 and `isAlnum` is an arbitrary predicate. Every property proved about the matcher holds
 for every such pair of functions.
 */
module Strings {
  import opened Wrappers

  /** The character classification the matcher is parameterised by. */
  datatype CharClass = CharClass(lower: char -> char, isAlnum: char -> bool)

  /** An ASCII instance, used only by concrete examples. */
  function AsciiLower(c: char): (r: char) {
    if 'A' <= c <= 'Z' then (c as int + 32) as char else c
  }

  predicate AsciiAlnum(c: char) {
    ('a' <= c <= 'z') || ('A' <= c <= 'Z') || ('0' <= c <= '9')
  }

  const Ascii: CharClass := CharClass(AsciiLower, AsciiAlnum)

  /** `s.lower()`: character-wise, length preserving. */
  function Lower(cc: CharClass, s: string): (r: string)
    ensures |r| == |s|
    ensures forall i :: 0 <= i < |s| ==> r[i] == cc.lower(s[i])
  {
    if s == [] then [] else [cc.lower(s[0])] + Lower(cc, s[1..])
  }

  /** Lower-casing distributes over slices, so the lowered text of a range is the range of the lowered text. */
  lemma LowerSlice(cc: CharClass, s: string, i: nat, j: nat)
    requires i <= j <= |s|
    ensures Lower(cc, s)[i..j] == Lower(cc, s[i..j])
  {
  }

  /** `word` occurs in `text` at index `i`. */
  predicate OccursAt(text: string, word: string, i: int) {
    0 <= i && i + |word| <= |text| && text[i..i + |word|] == word
  }

  /**
   `text.find(word, from)`: the first index at or after `from` where `word` occurs,
   or None (Python's -1). Like Python, an empty `word` is found at `from` when
   `from <= |text|`, and nothing is found past the end. What "first" means is
   stated by `FindSpec`.
   */
  function Find(text: string, word: string, from: nat): (r: Option<nat>)
    ensures r.Some? ==> from <= r.value && r.value + |word| <= |text|
    decreases |text| - from
  {
    if from + |word| > |text| then None
    else if text[from..from + |word|] == word then Some(from)
    else Find(text, word, from + 1)
  }

  /**
   `Find` returns the least occurrence at or after `from`, and None exactly when there is
   no occurrence at or after `from`.
   */
  lemma {:induction false} FindSpec(text: string, word: string, from: nat)
    ensures Find(text, word, from).Some? ==>
      var i := Find(text, word, from).value;
      OccursAt(text, word, i) && forall j :: from <= j < i ==> !OccursAt(text, word, j)
    ensures Find(text, word, from).None? ==> forall j :: from <= j ==> !OccursAt(text, word, j)
    decreases |text| - from
  {
    if from + |word| > |text| {
    } else if text[from..from + |word|] == word {
    } else {
      FindSpec(text, word, from + 1);
    }
  }

  /** The whitespace `str.strip()` removes (the ASCII part of Python's definition). */
  predicate IsSpace(c: char) {
    || c == ' ' || c == '\t' || c == '\n' || c == '\r' || c == '\U{000B}' || c == '\U{000C}'
    || ('\U{001C}' <= c <= '\U{001F}')
  }

  /** Number of leading whitespace characters. */
  function LeadingSpaces(s: string): (n: nat)
    ensures n <= |s|
    ensures forall i :: 0 <= i < n ==> IsSpace(s[i])
    ensures n < |s| ==> !IsSpace(s[n])
  {
    if s == [] || !IsSpace(s[0]) then 0 else 1 + LeadingSpaces(s[1..])
  }

  /** Number of trailing whitespace characters. */
  function TrailingSpaces(s: string): (n: nat)
    ensures n <= |s|
    ensures forall i :: |s| - n <= i < |s| ==> IsSpace(s[i])
    ensures n < |s| ==> !IsSpace(s[|s| - n - 1])
  {
    if s == [] || !IsSpace(s[|s| - 1]) then 0 else 1 + TrailingSpaces(s[..|s| - 1])
  }

  /** `s.strip()`: the slice between the leading and the trailing whitespace. */
  function Strip(s: string): (r: string)
    ensures exists a, b :: 0 <= a <= b <= |s| && r == s[a..b] && Trimmed(s, a, b)
    ensures r != [] ==> !IsSpace(r[0]) && !IsSpace(r[|r| - 1])
  {
    var a := LeadingSpaces(s);
    var b := |s| - TrailingSpaces(s[a..]);
    assert Trimmed(s, a, b);
    s[a..b]
  }

  /** Everything outside `s[a..b]` is whitespace. */
  predicate Trimmed(s: string, a: int, b: int)
    requires 0 <= a <= b <= |s|
  {
    (forall i :: 0 <= i < a ==> IsSpace(s[i])) && (forall i :: b <= i < |s| ==> IsSpace(s[i]))
  }

  /** Stripping keeps every non-whitespace character: one is in the result exactly when it is in the input. */
  lemma StripKeeps(s: string, c: char)
    requires !IsSpace(c)
    ensures c in Strip(s) <==> c in s
  {
    var a, b :| 0 <= a <= b <= |s| && Strip(s) == s[a..b] && Trimmed(s, a, b);
    if c in s {
      var i :| 0 <= i < |s| && s[i] == c;
      assert Strip(s)[i - a] == c;
    }
  }

  /** Where the whitespace around `s[i..j]` stops, with non-whitespace at both ends of it, `strip` cuts. */
  lemma StripUnique(s: string, i: nat, j: nat)
    requires i < j <= |s| && Trimmed(s, i, j)
    requires !IsSpace(s[i]) && !IsSpace(s[j - 1])
    ensures Strip(s) == s[i..j]
  {
    var a := LeadingSpaces(s);
    assert a == i;
    var t := s[a..];
    var m := TrailingSpaces(t);
    assert t[j - 1 - i] == s[j - 1];
    assert m < |t| ==> t[|t| - m - 1] == s[|s| - m - 1];
    assert m == |s| - j;
  }

  /** Where `strip` cuts `s`: only whitespace lies outside `s[a..b]`. */
  lemma StripBounds(s: string) returns (a: nat, b: nat)
    ensures a <= b <= |s| && Strip(s) == s[a..b]
    ensures forall k :: 0 <= k < a ==> IsSpace(s[k])
    ensures forall k :: b <= k < |s| ==> IsSpace(s[k])
  {
    a := LeadingSpaces(s);
    var t := s[a..];
    b := |s| - TrailingSpaces(t);
    forall k | b <= k < |s|
      ensures IsSpace(s[k])
    {
      assert s[k] == t[k - a];
    }
  }

  /** Taking off some of the surrounding whitespace first does not change what `strip` gives. */
  lemma StripTrimmed(s: string, i: nat, j: nat)
    requires i <= j <= |s| && Trimmed(s, i, j)
    ensures Strip(s) == Strip(s[i..j])
  {
    var t := s[i..j];
    var x, y := StripBounds(t);
    if x < y {
      assert Strip(t)[0] == t[x] && Strip(t)[y - x - 1] == t[y - 1];
      StripInside(s, i, j, x, y);
      SliceOfSlice(s, i, j, x, y);
    } else {
      AllSpaceStrip(t);
      forall k | 0 <= k < |s|
        ensures IsSpace(s[k])
      {
        if i <= k < j {
          assert s[k] == t[k - i];
        }
      }
      AllSpaceStrip(s);
    }
  }

  /** What `strip` leaves of `s[i..j]`, placed back in `s`, is what it leaves of `s`. */
  lemma StripInside(s: string, i: nat, j: nat, x: nat, y: nat)
    requires i <= j <= |s| && Trimmed(s, i, j) && x < y <= j - i
    requires !IsSpace(s[i..j][x]) && !IsSpace(s[i..j][y - 1])
    requires forall k :: 0 <= k < x ==> IsSpace(s[i..j][k])
    requires forall k :: y <= k < j - i ==> IsSpace(s[i..j][k])
    ensures Strip(s) == s[i + x..i + y]
  {
    SpacesFront(s, i, j, x);
    SpacesBack(s, i, j, y);
    assert s[i + x] == s[i..j][x] && s[i + y - 1] == s[i..j][y - 1];
    StripUnique(s, i + x, i + y);
  }

  /** Whitespace before `s[i..j]` and at the front of it is whitespace at the front of `s`. */
  lemma SpacesFront(s: string, i: nat, j: nat, x: nat)
    requires i <= j <= |s| && x <= j - i
    requires forall k :: 0 <= k < i ==> IsSpace(s[k])
    requires forall k :: 0 <= k < x ==> IsSpace(s[i..j][k])
    ensures forall k :: 0 <= k < i + x ==> IsSpace(s[k])
  {
    forall k | i <= k < i + x
      ensures IsSpace(s[k])
    {
      assert s[k] == s[i..j][k - i];
    }
  }

  /** Whitespace at the back of `s[i..j]` and after it is whitespace at the back of `s`. */
  lemma SpacesBack(s: string, i: nat, j: nat, y: nat)
    requires i <= j <= |s| && y <= j - i
    requires forall k :: j <= k < |s| ==> IsSpace(s[k])
    requires forall k :: y <= k < j - i ==> IsSpace(s[i..j][k])
    ensures forall k :: i + y <= k < |s| ==> IsSpace(s[k])
  {
    forall k | i + y <= k < j
      ensures IsSpace(s[k])
    {
      assert s[k] == s[i..j][k - i];
    }
  }

  /** A slice of a slice is a slice of the whole. */
  lemma SliceOfSlice(s: string, i: nat, j: nat, x: nat, y: nat)
    requires i <= j <= |s| && x <= y <= j - i
    ensures s[i..j][x..y] == s[i + x..i + y]
  {
    assert forall k :: 0 <= k < y - x ==> s[i..j][x..y][k] == s[i + x + k];
  }

  /** Whitespace-only strings strip to nothing, and only they do. */
  lemma AllSpaceStrip(s: string)
    ensures Strip(s) == [] <==> forall k :: 0 <= k < |s| ==> IsSpace(s[k])
  {
    var a, b := StripBounds(s);
    if Strip(s) != [] {
      assert !IsSpace(s[a]);
    }
  }

  /** Occurrences of a character add up over a concatenation. */
  lemma {:induction false} CountAppend(x: string, y: string, c: char)
    ensures Count(x + y, c) == Count(x, c) + Count(y, c)
  {
    if x != [] {
      assert (x + y)[1..] == x[1..] + y;
      CountAppend(x[1..], y, c);
    } else {
      assert x + y == y;
    }
  }

  /** Stripping keeps every non-whitespace character, so it keeps their number too. */
  lemma StripKeepsCount(s: string, c: char)
    requires !IsSpace(c)
    ensures Count(Strip(s), c) == Count(s, c)
  {
    var a, b := StripBounds(s);
    CountThree(s, a, b, c);
    SpacesHold(s, 0, a, c);
    SpacesHold(s, b, |s|, c);
  }

  /** Counting over `s` is counting over its three parts cut at `a` and `b`. */
  lemma CountThree(s: string, a: nat, b: nat, c: char)
    requires a <= b <= |s|
    ensures Count(s, c) == Count(s[0..a], c) + Count(s[a..b], c) + Count(s[b..|s|], c)
  {
    assert s == s[0..a] + s[a..b] + s[b..|s|];
    CountAppend(s[0..a] + s[a..b], s[b..|s|], c);
    CountAppend(s[0..a], s[a..b], c);
  }

  /** Whitespace holds no non-whitespace character. */
  lemma SpacesHold(s: string, i: nat, j: nat, c: char)
    requires i <= j <= |s| && !IsSpace(c)
    requires forall k :: i <= k < j ==> IsSpace(s[k])
    ensures Count(s[i..j], c) == 0
  {
    assert forall k :: 0 <= k < j - i ==> s[i..j][k] == s[i + k];
  }

  /**
   Stripping `a + [c] + b`, for a non-whitespace `c`, takes only leading whitespace off `a`
   (up to `i`) and only trailing whitespace off `b` (from `m`).
   */
  lemma StripAround(a: string, c: char, b: string) returns (i: nat, m: nat)
    requires !IsSpace(c)
    ensures i <= |a| && m <= |b|
    ensures forall k :: 0 <= k < i ==> IsSpace(a[k])
    ensures forall k :: m <= k < |b| ==> IsSpace(b[k])
    ensures Strip(a + [c] + b) == a[i..] + [c] + b[..m]
  {
    var s := a + [c] + b;
    i := LeadingSpaces(a);
    m := |b| - TrailingSpaces(b);
    var j := |a| + 1 + m;
    var front, back := a[i..], b[..m];
    var core := front + [c] + back;
    forall k | 0 <= k < i
      ensures IsSpace(s[k])
    {
      assert s[k] == a[k];
    }
    forall k | j <= k < |s|
      ensures IsSpace(s[k])
    {
      assert s[k] == b[k - |a| - 1];
    }
    SliceAcross(a, c, b, i, m);
    if front != [] {
      assert core[0] == a[i];
    }
    if back != [] {
      assert core[|core| - 1] == back[|back| - 1] == b[m - 1];
    }
    StripCore(s, i, j, core);
  }

  /** Stripping `s` leaves `s[i..j]` when only whitespace lies outside it and it has none at its ends. */
  lemma StripCore(s: string, i: nat, j: nat, core: string)
    requires i <= j <= |s| && Trimmed(s, i, j)
    requires s[i..j] == core && Stripped(core)
    ensures Strip(s) == core
  {
    StripTrimmed(s, i, j);
    StripIdentity(core);
  }

  /** Dropping leading whitespace before stripping changes nothing. */
  lemma StripFrom(s: string, i: nat)
    requires i <= |s| && forall k :: 0 <= k < i ==> IsSpace(s[k])
    ensures Strip(s[i..]) == Strip(s)
  {
    StripTrimmed(s, i, |s|);
    assert s[i..|s|] == s[i..];
  }

  /** Dropping trailing whitespace before stripping changes nothing. */
  lemma StripUpTo(s: string, m: nat)
    requires m <= |s| && forall k :: m <= k < |s| ==> IsSpace(s[k])
    ensures Strip(s[..m]) == Strip(s)
  {
    StripTrimmed(s, 0, m);
    assert s[0..m] == s[..m];
  }

  /** The part of `a + [c] + b` from `i` in `a` to `m` in `b`. */
  lemma SliceAcross(a: string, c: char, b: string, i: nat, m: nat)
    requires i <= |a| && m <= |b|
    ensures (a + [c] + b)[i..|a| + 1 + m] == a[i..] + [c] + b[..m]
  {
    var s, r := a + [c] + b, a[i..] + [c] + b[..m];
    forall k | 0 <= k < |r|
      ensures s[i + k] == r[k]
    {
      if k < |a| - i {
        assert r[k] == a[i + k];
      } else if k > |a| - i {
        assert r[k] == b[k - (|a| - i) - 1];
      }
    }
  }

  /** A string with no whitespace at either end. */
  predicate Stripped(s: string) {
    s == [] || (!IsSpace(s[0]) && !IsSpace(s[|s| - 1]))
  }

  /** Stripping removes nothing from a string that has no surrounding whitespace, and only then. */
  lemma StripIdentity(s: string)
    ensures Strip(s) == s <==> Stripped(s)
  {
    if Stripped(s) {
      assert LeadingSpaces(s) == 0;
      assert TrailingSpaces(s) == 0;
    }
  }

  /** Occurrences of `c` in `s`. */
  function Count(s: string, c: char): (n: nat)
    ensures n <= |s|
    ensures n == 0 <==> c !in s
  {
    if s == [] then 0 else (if s[0] == c then 1 else 0) + Count(s[1..], c)
  }

  /**
   `s.split(sep)` for a one-character separator: the maximal separator-free pieces,
   one more than there are separators.
   */
  function Split(s: string, sep: char): (parts: seq<string>)
    ensures |parts| == Count(s, sep) + 1
    ensures forall k :: 0 <= k < |parts| ==> sep !in parts[k]
  {
    if s == [] then [[]]
    else
      var rest := Split(s[1..], sep);
      if s[0] == sep then [[]] + rest
      else [[s[0]] + rest[0]] + rest[1..]
  }

  /** `sep.join(parts)`. */
  function Join(parts: seq<string>, sep: char): (r: string)
    requires |parts| > 0
  {
    if |parts| == 1 then parts[0] else parts[0] + [sep] + Join(parts[1..], sep)
  }

  /** Splitting loses nothing: joining the pieces back with the separator gives the string. */
  lemma {:induction false} JoinSplit(s: string, sep: char)
    ensures Join(Split(s, sep), sep) == s
  {
    if s != [] {
      JoinSplit(s[1..], sep);
      var rest := Split(s[1..], sep);
      if s[0] == sep {
        assert Split(s, sep) == [[]] + rest;
        assert ([[]] + rest)[1..] == rest;
      } else {
        assert Split(s, sep) == [[s[0]] + rest[0]] + rest[1..];
        JoinOntoHead(s[0], rest, sep);
      }
    }
  }

  /** Prepending a character to the first piece prepends it to the joined string. */
  lemma JoinOntoHead(c: char, parts: seq<string>, sep: char)
    requires |parts| > 0
    ensures Join([[c] + parts[0]] + parts[1..], sep) == [c] + Join(parts, sep)
  {
    var grown := [[c] + parts[0]] + parts[1..];
    if |parts| > 1 {
      assert grown[1..] == parts[1..];
    }
  }

  /** Splitting `a + [sep] + b`, where neither side holds the separator, gives exactly `[a, b]`. */
  lemma {:induction false} SplitPair(a: string, b: string, sep: char)
    requires sep !in a && sep !in b
    ensures Split(a + [sep] + b, sep) == [a, b]
    decreases |a|
  {
    if a == [] {
      assert [sep] + b == a + [sep] + b;
      SplitNoSep(b, sep);
      assert ([sep] + b)[1..] == b;
    } else {
      assert (a + [sep] + b)[1..] == a[1..] + [sep] + b;
      SplitPair(a[1..], b, sep);
      assert [a[0]] + a[1..] == a;
    }
  }

  /** A string without the separator splits into itself. */
  lemma {:induction false} SplitNoSep(s: string, sep: char)
    requires sep !in s
    ensures Split(s, sep) == [s]
  {
    if s != [] {
      SplitNoSep(s[1..], sep);
      assert [s[0]] + s[1..] == s;
    }
  }
}
