/** The context object every visitor of a run shares (`ParsedTheme['visitor']` in
    src/types.js): the untranslated text found in the templates and the translation
    keys used by `{{t}}` calls. Each visitor keeps a reference to it and updates the
    maps in place. */
module Contexts {
  import opened Ast
  import opened OrderedMaps

  /** One `{{t}}` call site: its location and the names of its hash parameters. */
  datatype LocationRecord = LocationRecord(parameters: seq<string>, loc: SourceLocation)

  /** What is known about one translation key: the union of the parameter names over all
      call sites, as an insertion-ordered set, and the call sites in visiting order. */
  datatype TranslatedString = TranslatedString(parameters: seq<string>, locations: seq<LocationRecord>)

  class Context {
    /** `textToTranslate`: trimmed text to the places it was found. */
    var textToTranslate: OMap<string, seq<SourceLocation>>
    /** `translatedStrings`: translation key to its parameters and call sites. */
    var translatedStrings: OMap<string, TranslatedString>

    ghost predicate Valid()
      reads this
    {
      textToTranslate.Valid() && translatedStrings.Valid()
    }

    /** The merged `createContext()` of the text extractor and the translation-key
        collector: both maps start empty. */
    constructor ()
      ensures Valid()
      ensures textToTranslate == Empty() && translatedStrings == Empty()
    {
      textToTranslate := Empty();
      translatedStrings := Empty();
    }
  }
}
