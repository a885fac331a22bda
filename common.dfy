/** Shared vocabulary of the i18n model: translation values, the errors the
    Python code raises, the configuration record, and Option/Result. */
module Common {

  datatype Option<+T> = None | Some(value: T)

  /** A raised exception becomes a Failure carrying the exception's kind. */
  datatype Result<+T> = Success(value: T) | Failure(error: Error)

  /** The exceptions of the translation core. */
  datatype Error =
    | KeyNotFound(name: string)          // KeyError from a store lookup or a dict subscript
    | TranslationNotFound(key: string)   // KeyError raised by t in strict mode
    | PluralMismatch(key: string)        // count given for a value that is not a dict
    | PluralFormMissing(key: string)     // no applicable plural form
    | MissingPlaceholder(name: string)   // KeyError from Template.substitute
    | InvalidPlaceholder                 // ValueError from Template.substitute
    | NotAString                         // TypeError: a non-string handed to Template
    | FileLoadError(detail: string)      // I18nFileLoadError

  /** A translation value as the loaders produce it: a string, a dict (plural
      forms, or a nested structure), a list, or any other scalar (a number, a
      boolean, None), which the core never looks into. */
  datatype Value =
    | Str(s: string)
    | Dict(entries: map<string, Value>)
    | List(items: seq<Value>)
    | Opaque

  /** The settings read from the configuration module. */
  datatype Config = Config(
    locale: string,
    fallback: string,
    pluralFew: int,
    delimiter: char,
    errorOnMissingTranslation: bool,
    errorOnMissingPlaceholder: bool,
    errorOnMissingPlural: bool,
    enableMemoization: bool)
}
