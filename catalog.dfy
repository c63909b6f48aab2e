/**
 * The language index (`i18n/_index.json`) and the per-language string files
 * (`i18n/<code>.json`), as values.
 */
module Catalog {
  import opened Wrappers

  /** One entry of the language index. */
  datatype LanguageEntry = LanguageEntry(code: string, name: string, native: string, dialect: string)

  /** The whole index, in file order. */
  type Index = seq<LanguageEntry>

  /**
   * `check_lang_exist`: a linear scan of the index that stops at the first
   * entry whose code equals `code` exactly (case-sensitive).
   */
  function LangExists(index: Index, code: string): (r: bool)
    ensures r <==> exists i :: 0 <= i < |index| && index[i].code == code
  {
    if index == [] then false
    else if index[0].code == code then true
    else
      var rest := LangExists(index[1..], code);
      assert forall i :: 1 <= i < |index| ==> index[i] == index[1..][i - 1];
      rest
  }

  /** A language file: its top-level document, and its "strings" member if it has one. */
  datatype LanguageDoc = LanguageDoc(document: map<string, string>, strings: Option<map<string, string>>)

  /** What `fetch_language_data` returns: the raw document or just its strings. */
  datatype Loaded = Raw(doc: LanguageDoc) | Strings(table: map<string, string>)

  /** The only error `fetch_language_data` lets escape: a file without "strings". */
  datatype LoadError = MissingStringsKey

  /** The language directory: code to file; an absent code is a missing file. */
  type LanguageFiles = map<string, LanguageDoc>

  /**
   * `fetch_language_data`: read `i18n/<code>.json`; a missing file falls back to
   * the default code, called again WITHOUT passing `useRaw` (so it is reset to
   * its default, true). The default file must exist, else the source recurses
   * forever.
   */
  function FetchLanguageData(files: LanguageFiles, defaultCode: string, code: string, useRaw: bool): (r: Result<Loaded, LoadError>)
    requires defaultCode in files
    ensures r.Failure? <==> code in files && !useRaw && files[code].strings.None?
    decreases if code in files then 0 else 1
  {
    if code in files then
      var doc := files[code];
      if useRaw then Success(Raw(doc))
      else match doc.strings
        case Some(s) => Success(Strings(s))
        case None => Failure(MissingStringsKey)
    else
      FetchLanguageData(files, defaultCode, defaultCode, true)
  }

  /**
   * A present file is returned as it is read: whole, or only its strings; a
   * file without strings asked for them raises (only a missing file is caught).
   */
  lemma FetchPresent(files: LanguageFiles, defaultCode: string, code: string, useRaw: bool)
    requires defaultCode in files && code in files
    ensures useRaw ==> FetchLanguageData(files, defaultCode, code, useRaw) == Success(Raw(files[code]))
    ensures !useRaw && files[code].strings.Some? ==>
      FetchLanguageData(files, defaultCode, code, useRaw) == Success(Strings(files[code].strings.value))
    ensures !useRaw && files[code].strings.None? ==>
      FetchLanguageData(files, defaultCode, code, useRaw) == Failure(MissingStringsKey)
  {
  }

  /**
   * A missing file yields the whole default document whatever `useRaw` was:
   * the fallback call drops the caller's `useRaw`.
   */
  lemma FetchMissingFallsBack(files: LanguageFiles, defaultCode: string, code: string, useRaw: bool)
    requires defaultCode in files && code !in files
    ensures FetchLanguageData(files, defaultCode, code, useRaw) == Success(Raw(files[defaultCode]))
  {
  }
}
