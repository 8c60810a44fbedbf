/**
 What the favorites actions promise: add and remove change exactly one key, the import
 line format round-trips, an import is the ordered replay of its entry lines up to the
 first malformed one, and an edit keeps the edited entry's place, collapsing two entries
 into one when the new name is already taken.
 */
module FavoritesProperties {
  import opened Wrappers
  import opened Strings
  import opened OrderedMap
  import opened Favorites

  // ---- add and remove ----

  /**
   A confirmed add maps `name` to `url`, leaves every other key as it was, keeps the key
   order (a new name goes last) and is saved; an unconfirmed one changes nothing.
   */
  lemma AddFavoriteSpec(favs: FavoriteMap, name: Option<string>, url: Option<string>, k: string)
    ensures var o := AddFavorite(favs, name, url);
      && o.error == None
      && (o.saved <==> Truthy(name) && Truthy(url))
      && (!o.saved ==> o.favorites == favs)
      && (o.saved ==> Get(o.favorites, k) == if k == name.value then Some(url.value) else Get(favs, k))
      && (o.saved ==> Keys(o.favorites) == if HasKey(favs, name.value) then Keys(favs) else Keys(favs) + [name.value])
      && (DistinctKeys(favs) ==> DistinctKeys(o.favorites))
  {
    if Truthy(name) && Truthy(url) {
      PutGet(favs, name.value, url.value, k);
      PutKeys(favs, name.value, url.value);
    }
  }

  /**
   Removing the selected name deletes that key only: every other key keeps its value and
   its relative order, and the result is saved. Nothing selected changes nothing; a
   selected name that is not a key is a `KeyError` and nothing is saved.
   */
  lemma RemoveFavoriteSpec(favs: FavoriteMap, selected: Option<string>, k: string)
    requires DistinctKeys(favs)
    ensures var o := RemoveFavorite(favs, selected);
      && (selected.None? ==> o == Outcome(favs, false, None))
      && (selected.Some? && !HasKey(favs, selected.value) ==> o == Outcome(favs, false, Some(MissingName(selected.value))))
      && (selected.Some? && HasKey(favs, selected.value) ==>
            && o.saved && o.error == None
            && Get(o.favorites, k) == (if k == selected.value then None else Get(favs, k))
            && Keys(o.favorites) == RemoveAt(Keys(favs), IndexOf(favs, selected.value).value)
            && DistinctKeys(o.favorites))
  {
    if selected.Some? {
      DeleteGet(favs, selected.value, k);
      DeleteKeys(favs, selected.value);
    }
  }

  // ---- the import line format ----

  /** The id of a document is recovered from its editing URL, and only such URLs have one. */
  lemma DocUrlRoundTrip(id: string, url: string)
    ensures DocIdOf(DocUrl(id)) == Some(id)
    ensures DocIdOf(url) == Some(id) ==> DocUrl(id) == url
  {
    var u := DocUrl(id);
    assert u[..|DocUrlPrefix|] == DocUrlPrefix;
    assert u[|u| - |DocUrlSuffix|..] == DocUrlSuffix;
    assert u[|DocUrlPrefix|..|u| - |DocUrlSuffix|] == id;
    if DocIdOf(url) == Some(id) {
      assert url == url[..|DocUrlPrefix|] + url[|DocUrlPrefix|..|url| - |DocUrlSuffix|] + url[|url| - |DocUrlSuffix|..];
    }
  }

  /**
   A line is skipped exactly when it has no `|`, is an entry exactly when it has one, and
   is malformed exactly when it has more; an entry's name and id have no `|` and no
   surrounding whitespace.
   */
  lemma ParseLineCases(line: string)
    ensures ParseLine(line) == Skip <==> '|' !in line
    ensures ParseLine(line).Entry? <==> Count(line, '|') == 1
    ensures ParseLine(line) == Malformed <==> Count(line, '|') >= 2
    ensures ParseLine(line).Entry? ==>
      && '|' !in ParseLine(line).name && '|' !in ParseLine(line).id
      && Stripped(ParseLine(line).name) && Stripped(ParseLine(line).id)
  {
    StripKeeps(line, '|');
    StripKeepsCount(line, '|');
    var t := Strip(line);
    if '|' in t {
      var parts := Split(t, '|');
      if |parts| == 2 {
        StripKeeps(parts[0], '|');
        StripKeeps(parts[1], '|');
        StripIdentity(Strip(parts[0]));
        StripIdentity(Strip(parts[1]));
      }
    }
  }

  /**
   The meaning of an entry line: with exactly one `|`, the name is the stripped text
   before it and the id the stripped text after it.
   */
  lemma ParseOnePipe(a: string, b: string)
    requires '|' !in a && '|' !in b
    ensures ParseLine(a + "|" + b) == Entry(Strip(a), Strip(b))
  {
    var i, m := StripAround(a, '|', b);
    var front, back := a[i..], b[..m];
    PipePair(front, back);
    StripFrom(a, i);
    StripUpTo(b, m);
  }

  /** A stripped line with one `|` reads as the stripped text on either side of it. */
  lemma PipePair(front: string, back: string)
    requires '|' !in front && '|' !in back
    ensures ParseStripped(front + ['|'] + back) == Entry(Strip(front), Strip(back))
  {
    SplitPair(front, back, '|');
  }

  /** A `name|id` line with clean fields parses back to them. */
  lemma FormatThenParse(name: string, id: string)
    requires Stripped(name) && Stripped(id) && '|' !in name && '|' !in id
    ensures ParseLine(FormatLine(name, id)) == Entry(name, id)
  {
    ParseOnePipe(name, id);
    StripIdentity(name);
    StripIdentity(id);
  }

  /** Every entry line means the same as the canonical `name|id` line of its fields. */
  lemma ParseThenFormat(line: string)
    requires ParseLine(line).Entry?
    ensures ParseLine(FormatLine(ParseLine(line).name, ParseLine(line).id)) == ParseLine(line)
  {
    ParseLineCases(line);
    FormatThenParse(ParseLine(line).name, ParseLine(line).id);
  }

  // ---- import as a replay ----

  /** The assignments the entry lines make, in file order. */
  function Assignments(parsed: seq<Line>): (r: seq<(string, string)>) {
    if parsed == [] then []
    else
      (match parsed[0]
       case Entry(name, id) => [(name, DocUrl(id))]
       case _ => [])
      + Assignments(parsed[1..])
  }

  /** The position of the first malformed line, or the number of lines. */
  function FirstMalformed(parsed: seq<Line>): (stop: nat)
    ensures stop <= |parsed|
    ensures stop < |parsed| ==> parsed[stop] == Malformed
    ensures forall j :: 0 <= j < stop ==> parsed[j] != Malformed
  {
    if parsed == [] || parsed[0] == Malformed then 0
    else 1 + FirstMalformed(parsed[1..])
  }

  lemma {:induction false} ApplyIsReplay(favs: FavoriteMap, parsed: seq<Line>)
    ensures ApplyLines(favs, parsed)
         == Outcome(PutAll(favs, Assignments(parsed[..FirstMalformed(parsed)])),
                    FirstMalformed(parsed) == |parsed|,
                    if FirstMalformed(parsed) == |parsed| then None else Some(TooManyFields))
    decreases |parsed|
  {
    if parsed != [] && parsed[0] != Malformed {
      var stop := FirstMalformed(parsed);
      var rest := parsed[1..];
      assert parsed[..stop] == [parsed[0]] + rest[..stop - 1];
      assert Assignments(parsed[..stop]) == Assignments([parsed[0]]) + Assignments(rest[..stop - 1]);
      assert stop == 1 + FirstMalformed(rest);
      match parsed[0]
      case Skip =>
        assert Assignments([parsed[0]]) == [];
        assert Assignments(parsed[..stop]) == Assignments(rest[..stop - 1]);
        ApplyIsReplay(favs, rest);
      case Entry(name, id) =>
        assert Assignments([parsed[0]]) == [(name, DocUrl(id))];
        ApplyIsReplay(Put(favs, name, DocUrl(id)), rest);
        PutAllAppend(favs, [(name, DocUrl(id))], Assignments(rest[..stop - 1]));
        assert PutAll(favs, [(name, DocUrl(id))]) == Put(favs, name, DocUrl(id)) by {
          assert [(name, DocUrl(id))][..0] == [];
        }
    } else if parsed == [] {
      assert parsed[..0] == [];
    }
  }

  /**
   Importing is `d.update` with the assignments of the entry lines before the first
   malformed one; it is saved exactly when no line is malformed, and otherwise reports
   the unpacking error.
   */
  lemma ImportIsReplay(favs: FavoriteMap, lines: seq<string>)
    ensures var parsed := ParseAll(lines);
      var stop := FirstMalformed(parsed);
      ImportLines(favs, lines)
        == Outcome(PutAll(favs, Assignments(parsed[..stop])),
                   stop == |lines|,
                   if stop == |lines| then None else Some(TooManyFields))
  {
    ApplyIsReplay(favs, ParseAll(lines));
  }

  /**
   A later line for the same name wins: after an import, a name maps to the URL of its
   last applied assignment, or keeps its old value if no applied line names it.
   */
  lemma ImportLaterLineWins(favs: FavoriteMap, lines: seq<string>, name: string)
    ensures var parsed := ParseAll(lines);
      var applied := Assignments(parsed[..FirstMalformed(parsed)]);
      var after := ImportLines(favs, lines).favorites;
      && ((exists j :: 0 <= j < |applied| && applied[j].0 == name) ==>
            exists j :: 0 <= j < |applied| && applied[j].0 == name && Get(after, name) == Some(applied[j].1)
              && forall j' :: j < j' < |applied| ==> applied[j'].0 != name)
      && ((forall j :: 0 <= j < |applied| ==> applied[j].0 != name) ==> Get(after, name) == Get(favs, name))
  {
    ImportIsReplay(favs, lines);
    var parsed := ParseAll(lines);
    PutAllGet(favs, Assignments(parsed[..FirstMalformed(parsed)]), name);
  }

  /** An import never makes a key appear twice. */
  lemma ImportKeepsKeysDistinct(favs: FavoriteMap, file: Option<seq<string>>)
    requires DistinctKeys(favs)
    ensures DistinctKeys(ImportFavorite(favs, file).favorites)
    ensures file.None? ==> ImportFavorite(favs, file) == Outcome(favs, false, Some(NoFileSelected))
  {
    if file.Some? {
      ImportIsReplay(favs, file.value);
      var parsed := ParseAll(file.value);
      PutAllKeepsDistinct(favs, Assignments(parsed[..FirstMalformed(parsed)]));
    }
  }

  lemma {:induction false} PutAllKeepsDistinct(m: FavoriteMap, s: seq<(string, string)>)
    requires DistinctKeys(m)
    ensures DistinctKeys(PutAll(m, s))
    decreases |s|
  {
    if s != [] {
      PutAllKeepsDistinct(m, s[..|s| - 1]);
      PutKeys(PutAll(m, s[..|s| - 1]), s[|s| - 1].0, s[|s| - 1].1);
    }
  }

  /** The file lines of a list of `(name, id)` pairs. */
  function FormatLines(entries: seq<(string, string)>): (r: seq<string>) {
    seq(|entries|, i requires 0 <= i < |entries| => FormatLine(entries[i].0, entries[i].1))
  }

  /** The favorites a list of `(name, id)` pairs stands for. */
  function WithUrls(entries: seq<(string, string)>): (r: FavoriteMap) {
    seq(|entries|, i requires 0 <= i < |entries| => (entries[i].0, DocUrl(entries[i].1)))
  }

  /** The parsed form of those lines: one entry per pair. */
  function AsEntries(entries: seq<(string, string)>): (r: seq<Line>) {
    seq(|entries|, i requires 0 <= i < |entries| => Entry(entries[i].0, entries[i].1))
  }

  predicate CleanEntries(entries: seq<(string, string)>) {
    forall i :: 0 <= i < |entries| ==>
      Stripped(entries[i].0) && Stripped(entries[i].1) && '|' !in entries[i].0 && '|' !in entries[i].1
  }

  /**
   Writing distinct, clean `(name, id)` pairs as `name|id` lines and importing them into an
   empty list gives exactly those names, in that order, with their editing URLs, saved.
   */
  lemma ImportRoundTrip(entries: seq<(string, string)>)
    requires CleanEntries(entries) && DistinctKeys(entries)
    ensures ImportFavorite([], Some(FormatLines(entries))) == Outcome(WithUrls(entries), true, None)
  {
    var parsed := AsEntries(entries);
    FormatLinesParse(entries);
    assert ImportFavorite([], Some(FormatLines(entries))) == ApplyLines([], parsed);
    EntriesApply(entries);
    ApplyIsReplay([], parsed);
    assert parsed[..|parsed|] == parsed;
    assert ApplyLines([], parsed) == Outcome(PutAll([], WithUrls(entries)), true, None);
    WithUrlsKeepsDistinct(entries);
    PutAllDistinct(WithUrls(entries));
  }

  lemma WithUrlsKeepsDistinct(entries: seq<(string, string)>)
    requires DistinctKeys(entries)
    ensures DistinctKeys(WithUrls(entries))
  {
    assert forall i :: 0 <= i < |entries| ==> WithUrls(entries)[i].0 == entries[i].0;
  }

  lemma FormatLinesParse(entries: seq<(string, string)>)
    requires CleanEntries(entries)
    ensures ParseAll(FormatLines(entries)) == AsEntries(entries)
  {
    forall i | 0 <= i < |entries|
      ensures ParseAll(FormatLines(entries))[i] == AsEntries(entries)[i]
    {
      FormatThenParse(entries[i].0, entries[i].1);
    }
  }

  lemma {:induction false} EntriesApply(entries: seq<(string, string)>)
    ensures FirstMalformed(AsEntries(entries)) == |entries|
    ensures Assignments(AsEntries(entries)) == WithUrls(entries)
  {
    if entries != [] {
      EntriesApply(entries[1..]);
      assert AsEntries(entries)[1..] == AsEntries(entries[1..]);
      assert WithUrls(entries) == [(entries[0].0, DocUrl(entries[0].1))] + WithUrls(entries[1..]);
    }
  }

  // ---- edit ----

  /**
   With distinct keys, the rebuild loop is `d.update` with the original entries, the one at
   `position` replaced by the new pair.
   */
  lemma {:induction false} RebuildIsReplay(m: FavoriteMap, position: nat, newName: string, newUrl: string, n: nat)
    requires DistinctKeys(m) && position < |m| && n <= |m|
    ensures Rebuild(m, position, m[position].0, newName, newUrl, n) == PutAll([], m[position := (newName, newUrl)][..n])
  {
    var s := m[position := (newName, newUrl)];
    if n > 0 {
      RebuildIsReplay(m, position, newName, newUrl, n - 1);
      assert s[..n][..n - 1] == s[..n - 1];
      assert PutAll([], s[..n]) == Put(PutAll([], s[..n - 1]), s[n - 1].0, s[n - 1].1);
      if n - 1 != position {
        assert m[n - 1].0 != m[position].0;
        assert s[n - 1] == m[n - 1];
      }
    }
  }

  /** Replacing one entry by a pair whose key no other entry has keeps the keys distinct. */
  lemma UpdateKeepsDistinct(m: FavoriteMap, p: nat, e: (string, string))
    requires DistinctKeys(m) && p < |m|
    requires forall i :: 0 <= i < |m| && i != p ==> m[i].0 != e.0
    ensures DistinctKeys(m[p := e])
  {
  }

  /** Taking one entry out keeps the keys distinct. */
  lemma RemoveAtKeepsDistinct(m: FavoriteMap, p: nat)
    requires DistinctKeys(m) && p < |m|
    ensures DistinctKeys(RemoveAt(m, p))
  {
    var r := RemoveAt(m, p);
    assert forall i :: 0 <= i < |r| ==> r[i] == if i < p then m[i] else m[i + 1];
  }

  /** A confirmed edit of a present name is the replay of the entries with the edited one replaced. */
  lemma EditIsReplay(favs: FavoriteMap, oldName: string, newName: string, newUrl: string)
    requires DistinctKeys(favs) && HasKey(favs, oldName)
    requires newName != "" && newUrl != ""
    ensures var p := IndexOf(favs, oldName).value;
      EditFavorite(favs, Some(oldName), Some(newName), Some(newUrl)) == Outcome(PutAll([], favs[p := (newName, newUrl)]), true, None)
  {
    var p := IndexOf(favs, oldName).value;
    RebuildIsReplay(favs, p, newName, newUrl, |favs|);
    assert favs[p := (newName, newUrl)][..|favs|] == favs[p := (newName, newUrl)];
  }

  /**
   An edit whose new name is the old one or is not taken replaces the entry in place: same
   length, the new pair at the old position, every other entry untouched; it is saved.
   */
  lemma EditInPlace(favs: FavoriteMap, oldName: string, newName: string, newUrl: string)
    requires DistinctKeys(favs) && HasKey(favs, oldName)
    requires newName != "" && newUrl != ""
    requires newName == oldName || !HasKey(favs, newName)
    ensures var p := IndexOf(favs, oldName).value;
      EditFavorite(favs, Some(oldName), Some(newName), Some(newUrl)) == Outcome(favs[p := (newName, newUrl)], true, None)
  {
    var p := IndexOf(favs, oldName).value;
    UpdateKeepsDistinct(favs, p, (newName, newUrl));
    EditIsReplay(favs, oldName, newName, newUrl);
    PutAllDistinct(favs[p := (newName, newUrl)]);
  }

  /**
   An edit to a name taken by an EARLIER entry `j` merges the two: entry `j` keeps its
   place and takes the new URL, the edited entry disappears, and the list is one shorter.
   */
  lemma EditOntoEarlier(favs: FavoriteMap, oldName: string, newName: string, newUrl: string, j: nat)
    requires DistinctKeys(favs) && HasKey(favs, oldName)
    requires newName != "" && newUrl != ""
    requires j < IndexOf(favs, oldName).value && favs[j].0 == newName
    ensures var p := IndexOf(favs, oldName).value;
      EditFavorite(favs, Some(oldName), Some(newName), Some(newUrl)) == Outcome(RemoveAt(favs[j := (newName, newUrl)], p), true, None)
  {
    var p := IndexOf(favs, oldName).value;
    var s := favs[p := (newName, newUrl)];
    EditIsReplay(favs, oldName, newName, newUrl);
    RemoveUpdated(favs, p, (newName, newUrl));
    RemoveAtKeepsDistinct(favs, p);
    PutAllOneRepeat(s, j, p);
    RemoveUpdatedTwice(favs, j, p, (newName, newUrl));
  }

  /** Updating an entry and then removing it is removing it. */
  lemma RemoveUpdated(m: FavoriteMap, p: nat, e: (string, string))
    requires p < |m|
    ensures RemoveAt(m[p := e], p) == RemoveAt(m, p)
  {
    assert m[p := e][..p] == m[..p];
    assert m[p := e][p + 1..] == m[p + 1..];
  }

  /** Copying the entry at `p` to `j` and removing `p` does not depend on what was at `p`. */
  lemma RemoveUpdatedTwice(m: FavoriteMap, j: nat, p: nat, e: (string, string))
    requires j < p < |m|
    ensures RemoveAt(m[p := e][j := e], p) == RemoveAt(m[j := e], p)
  {
    assert m[p := e][j := e][..p] == m[j := e][..p];
    assert m[p := e][j := e][p + 1..] == m[j := e][p + 1..];
  }

  /** Removing a later entry commutes with updating an earlier one. */
  lemma RemoveLaterUpdated(m: FavoriteMap, p: nat, j: nat, e: (string, string))
    requires p < j < |m|
    ensures RemoveAt(m[p := e], j) == RemoveAt(m, j)[p := e]
  {
    assert m[p := e][..j] == m[..j][p := e];
    assert m[p := e][j + 1..] == m[j + 1..];
  }

  /**
   An edit to a name taken by a LATER entry `j` also merges the two, but the other way
   round: the merged entry sits at the edited entry's place and keeps entry `j`'s old URL,
   so the URL typed in the dialog is dropped.
   */
  lemma EditOntoLater(favs: FavoriteMap, oldName: string, newName: string, newUrl: string, j: nat)
    requires DistinctKeys(favs) && HasKey(favs, oldName)
    requires newName != "" && newUrl != ""
    requires IndexOf(favs, oldName).value < j < |favs| && favs[j].0 == newName
    ensures var p := IndexOf(favs, oldName).value;
      EditFavorite(favs, Some(oldName), Some(newName), Some(newUrl)) == Outcome(RemoveAt(favs[p := favs[j]], j), true, None)
  {
    var p := IndexOf(favs, oldName).value;
    var s := favs[p := (newName, newUrl)];
    EditIsReplay(favs, oldName, newName, newUrl);
    RemoveLaterUpdated(favs, p, j, (newName, newUrl));
    RemoveAtKeepsDistinct(favs, j);
    RemoveLaterKeepsDistinct(favs, p, j, (newName, newUrl));
    PutAllOneRepeat(s, p, j);
    assert s[p := s[j]] == favs[p := favs[j]];
  }

  /** Giving entry `p` the key of a later entry `j` and removing `j` keeps the keys distinct. */
  lemma RemoveLaterKeepsDistinct(m: FavoriteMap, p: nat, j: nat, e: (string, string))
    requires DistinctKeys(m) && p < j < |m| && e.0 == m[j].0
    ensures DistinctKeys(RemoveAt(m, j)[p := e])
  {
    var r := RemoveAt(m, j);
    RemoveAtKeepsDistinct(m, j);
    assert forall i :: 0 <= i < |r| ==> r[i] == if i < j then m[i] else m[i + 1];
    UpdateKeepsDistinct(r, p, e);
  }

  /**
   Nothing is saved and the map is untouched when nothing is selected, when the selected
   name is not a key (`KeyError`), or when the dialog is cancelled or left a field empty.
   */
  lemma EditRejected(favs: FavoriteMap, selected: Option<string>, newName: Option<string>, newUrl: Option<string>)
    ensures var o := EditFavorite(favs, selected, newName, newUrl);
      && (selected.None? ==> o == Outcome(favs, false, Some(NoSelection)))
      && (selected.Some? && !HasKey(favs, selected.value) ==> o == Outcome(favs, false, Some(MissingName(selected.value))))
      && (selected.Some? && HasKey(favs, selected.value) && !(Truthy(newName) && Truthy(newUrl)) ==> o == Outcome(favs, false, None))
      && (o.saved <==> selected.Some? && HasKey(favs, selected.value) && Truthy(newName) && Truthy(newUrl))
  {
  }

  /** An edit never makes a key appear twice. */
  lemma EditKeepsKeysDistinct(favs: FavoriteMap, selected: Option<string>, newName: Option<string>, newUrl: Option<string>)
    requires DistinctKeys(favs)
    ensures DistinctKeys(EditFavorite(favs, selected, newName, newUrl).favorites)
  {
    if selected.Some? && HasKey(favs, selected.value) && Truthy(newName) && Truthy(newUrl) {
      var p := IndexOf(favs, selected.value).value;
      RebuildIsReplay(favs, p, newName.value, newUrl.value, |favs|);
      PutAllKeepsDistinct([], favs[p := (newName.value, newUrl.value)][..|favs|]);
    }
  }
}
