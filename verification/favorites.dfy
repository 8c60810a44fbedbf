/**
 The favorites list of the UI: an insertion-ordered map from a document name to its URL,
 and the four ways the UI changes it (add, remove, import from a text file, edit).

 Dialogs and widgets are abstracted: what a dialog returns, which name the list box has
 selected, and the lines of the chosen file are arguments. `save_favorites` is the
 `saved` flag of the outcome, and an error message box is the `error` field.
 */
module Favorites {
  import opened Wrappers
  import opened Strings
  import opened OrderedMap

  /** name -> URL, in insertion order. */
  type FavoriteMap = seq<(string, string)>

  /**
   What the UI reports instead of changing the map. The import's message shows only the
   exception's own text, which names no line, so `TooManyFields` carries nothing.
   */
  datatype UiError =
    | NoSelection              // `edit_favorite` with nothing selected
    | NoFileSelected           // `import_favorite` with the file dialog cancelled
    | MissingName(name: string)  // the selected name is not a key: `KeyError`
    | TooManyFields            // the `ValueError` of unpacking a line with two or more `|`

  /** The map after the action, whether it was written to disk, and the error reported. */
  datatype Outcome = Outcome(favorites: FavoriteMap, saved: bool, error: Option<UiError>)

  /** Python truthiness of a dialog field: present and non-empty. */
  predicate Truthy(s: Option<string>) {
    s.Some? && s.value != ""
  }

  /** `add_favorite` (functions/ui.py:53-58). */
  function AddFavorite(favs: FavoriteMap, name: Option<string>, url: Option<string>): (r: Outcome) {
    if Truthy(name) && Truthy(url) then Outcome(Put(favs, name.value, url.value), true, None)
    else Outcome(favs, false, None)
  }

  /** `remove_favorite` (functions/ui.py:61-66): `selected` is the name the list box shows. */
  function RemoveFavorite(favs: FavoriteMap, selected: Option<string>): (r: Outcome) {
    match selected
    case None => Outcome(favs, false, None)
    case Some(name) =>
      if HasKey(favs, name) then Outcome(Delete(favs, name), true, None)
      else Outcome(favs, false, Some(MissingName(name)))
  }

  // ---- import ----

  const DocUrlPrefix: string := "https://docs.google.com/document/d/"
  const DocUrlSuffix: string := "/edit"

  /** The editing URL of the document with the given id (line 85). */
  function DocUrl(id: string): (r: string) {
    DocUrlPrefix + id + DocUrlSuffix
  }

  /** The document id inside an editing URL, if it is one. */
  function DocIdOf(url: string): (r: Option<string>) {
    if |url| >= |DocUrlPrefix| + |DocUrlSuffix|
       && url[..|DocUrlPrefix|] == DocUrlPrefix
       && url[|url| - |DocUrlSuffix|..] == DocUrlSuffix
    then Some(url[|DocUrlPrefix|..|url| - |DocUrlSuffix|])
    else None
  }

  /** How one line of the import file reads. */
  datatype Line =
    | Skip                            // no `|`: ignored
    | Entry(name: string, id: string) // exactly one `|`
    | Malformed                       // two or more: unpacking raises `ValueError`

  /** Lines 81-83: strip, then read the stripped line. */
  function ParseLine(line: string): (r: Line) {
    ParseStripped(Strip(line))
  }

  /** Lines 82-83 on a stripped line: look for `|`, split on it, strip both fields. */
  function ParseStripped(t: string): (r: Line) {
    if '|' !in t then Skip
    else
      var parts := Split(t, '|');
      if |parts| == 2 then Entry(Strip(parts[0]), Strip(parts[1])) else Malformed
  }

  /** The line format the import reads: `name|id`. */
  function FormatLine(name: string, id: string): (r: string) {
    name + "|" + id
  }

  /** Every line of the file, parsed. */
  function ParseAll(lines: seq<string>): (r: seq<Line>) {
    seq(|lines|, i requires 0 <= i < |lines| => ParseLine(lines[i]))
  }

  /**
   Lines 80-90 over the parsed lines: every entry assigns `name -> DocUrl(id)` in file
   order; the first malformed line stops the loop with the map as far as it got, unsaved.
   */
  function ApplyLines(favs: FavoriteMap, parsed: seq<Line>): (r: Outcome)
    decreases |parsed|
  {
    if parsed == [] then Outcome(favs, true, None)
    else
      match parsed[0]
      case Skip => ApplyLines(favs, parsed[1..])
      case Entry(name, id) => ApplyLines(Put(favs, name, DocUrl(id)), parsed[1..])
      case Malformed => Outcome(favs, false, Some(TooManyFields))
  }

  /** The import loop of lines 80-90: each line parsed, then applied. */
  function ImportLines(favs: FavoriteMap, lines: seq<string>): (r: Outcome) {
    ApplyLines(favs, ParseAll(lines))
  }

  /** `import_favorite` (functions/ui.py:70-91): `file` is None when no file was chosen. */
  function ImportFavorite(favs: FavoriteMap, file: Option<seq<string>>): (r: Outcome) {
    match file
    case None => Outcome(favs, false, Some(NoFileSelected))
    case Some(lines) => ImportLines(favs, lines)
  }

  // ---- edit ----

  /**
   Lines 113-118 over the first `n` entries: the entry at `position` is replaced by
   `newName -> newUrl`, every other entry whose key is not `oldName` is copied, each by
   dictionary assignment into the new map.
   */
  function Rebuild(m: FavoriteMap, position: nat, oldName: string, newName: string, newUrl: string, n: nat): (r: FavoriteMap)
    requires n <= |m|
  {
    if n == 0 then []
    else if n - 1 == position then Put(Rebuild(m, position, oldName, newName, newUrl, n - 1), newName, newUrl)
    else if m[n - 1].0 != oldName then Put(Rebuild(m, position, oldName, newName, newUrl, n - 1), m[n - 1].0, m[n - 1].1)
    else Rebuild(m, position, oldName, newName, newUrl, n - 1)
  }

  /**
   `edit_favorite` (functions/ui.py:95-124): `selected` is the name the list box shows,
   `newName` and `newUrl` what the dialog returns.
   */
  function EditFavorite(favs: FavoriteMap, selected: Option<string>, newName: Option<string>, newUrl: Option<string>): (r: Outcome) {
    match selected
    case None => Outcome(favs, false, Some(NoSelection))
    case Some(oldName) =>
      match IndexOf(favs, oldName)
      case None => Outcome(favs, false, Some(MissingName(oldName)))
      case Some(position) =>
        if Truthy(newName) && Truthy(newUrl)
        then Outcome(Rebuild(favs, position, oldName, newName.value, newUrl.value, |favs|), true, None)
        else Outcome(favs, false, None)
  }
}
