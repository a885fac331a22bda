# python-i18n translation core in Dafny

This project models the translation-resolution core of python-i18n. Given a key, a locale and keyword arguments, `t` returns a translated string or list. Three parts are modelled:

- **The store** (`translations.py`). It maps locale → key → value. `add` writes an entry. `has` treats an unknown locale as empty. `get` raises `KeyError` on a missing locale or key.
- **The resolver** (`translator.py`). `t` looks in the store and, on a miss, asks the resource loader to fill the store. It retries once at the fallback locale, then ends with `default`, a strict error, or the key itself. `translate` pluralises and formats a scalar, or each item of a list. `pluralize` walks the fixed ladder zero → one → few → other → many. `TranslationFormatter.format` is Python's `string.Template.substitute` in strict mode and `safe_substitute` in lenient mode.
- **The `Loader` base class** (`loaders/loader.py`). It keeps a per-instance memo of file contents in `load_file`. `load_resource` checks and extracts the root key.

Files and modules:

- `common.dfy` (`Common`): translation values (`Str`, `Dict`, `List`, `Opaque` for any other scalar), the exceptions as `Error` variants carried by `Result.Failure`, and the configuration record `Config`. `I18nFileLoadError` is `FileLoadError`.
- `translations.dfy` (`Translations`): the class `Store`, whose field `container` its methods update. The pure functions `Contains`, `Lookup`, `Insert` and `AddAll` specify it.
- `formatter.dfy` (`Formatter`): `Format` is `Render(Scan(template))`. `Scan` splits the template into the matches of Template's pattern, tried in the pattern's order: `dd` escaped, `d` + identifier, `d{identifier}`, and otherwise an invalid placeholder that takes only the `d`. Identifiers are `[_A-Za-z][_A-Za-z0-9]*` and the match is greedy. The delimiter `d` is one character, read from the configuration.
- `translator.dfy` (`Translator`): `Pluralize`, `TranslateValue`/`Translate`, `Missing`, the function `Resolve` (the result of `t` and the store after it, as a function of the store before it), and the method `T`, which runs on a `Store` and is proved equal to `Resolve`.
- `loader.dfy` (`Loader`): the class `Loader`, with the memo map and a ghost log of the files read. `LoadStep` and `ResourceResult` specify its methods.

The code and its docstring disagree on `add`. The docstring promises that an existing translation is not overwritten. The code, `container.setdefault(locale, {})[key] = value`, overwrites it. The model follows the code: `AddOverwrites` proves that the second value wins.

Other external pieces are parameters. The configuration is an immutable `Config`. `resource_loader.search_translation` is a function from (key, locale) to `Found`: the `add` calls it makes, in order, then an optional load error. `T` performs those calls with `Store.Add`. The file read of `_load_file_data` is a function from file name to an optional text; `None` stands for an `IOError`. `parse_file` is a function from text to a parsed dict or an error.

## Model

| member | source | states |
|---|---|---|
| `Translations.Lookup` | i18n/translations.py:20-22 | get succeeds exactly when has holds and then returns the stored value; otherwise a KeyError naming the missing locale, or else the missing key |
| `Translations.Contains` | i18n/translations.py:15-17 | has holds exactly when the locale is in the store and the key in its partition; an absent locale has no keys |
| `Translations.Insert` | i18n/translations.py:12 | setdefault(locale, {})[key] = value: the pair holds the new value, the partition gains only that key and keeps its other entries, no locale is lost and every other locale is untouched |
| `Translations.AddThenGet` | i18n/translations.py:8-12 | after add(key, v, locale), has(key, locale) holds and get(key, locale) returns v |
| `Translations.AddOverwrites` | i18n/translations.py:8-12 | a second add of the same pair replaces the first value (the code overwrites, contrary to its docstring) |
| `Translations.AddFrame` | i18n/translations.py:12 | add changes only the (locale, key) entry: the presence and value of every other pair, and every other locale's partition, are unchanged |
| `Translations.AddCreatesPartition` | i18n/translations.py:12 | add keeps every existing locale and adds its own; an unseen locale gets a partition holding just the new entry (setdefault) |
| `Translations.HasUnknownLocale` | i18n/translations.py:15-17 | has is false, and get a KeyError, for a locale never added |
| `Translations.AddAllKeeps` | i18n/translator.py:41 | a run of add calls (what the loader step does) never removes a pair from the store |
| `Translations.AddAllGrows` | i18n/translator.py:41 | the same for every pair at once |
| `Translations.AddAllOnlyFromEntries` | i18n/translator.py:41 | a pair present after a run of add calls was present before or was one of the added entries |
| `Translations.Store.constructor` | i18n/translations.py:5 | the container starts empty |
| `Translations.Store.Add` | i18n/translations.py:8-12 | the new container is Insert of the old one: setdefault(locale, {})[key] = value |
| `Translations.Store.Has` | i18n/translations.py:15-17 | returns whether key is in the locale's partition, an absent locale reading as empty |
| `Translations.Store.Get` | i18n/translations.py:20-22 | returns Lookup of the current container: the value, or the KeyError |
| `Formatter.IdLength` | i18n/translator.py:9-12 | the greedy identifier match: every character taken is an identifier character and the next one is not |
| `Formatter.MatchAt` | i18n/translator.py:9-12 | the match at a delimiter spells out exactly the text it consumes, and the alternatives are tried in the pattern's order: a second delimiter is an escape; a following identifier start gives a named placeholder taking the whole greedy identifier; otherwise `{identifier}` gives a braced one taking exactly the greedy identifier and its two braces; anything else is the invalid match, which takes only the delimiter |
| `Formatter.Scan` | i18n/translator.py:9-12 | every delimiter in the template starts a match, so none is left as plain text; there are at most as many tokens as characters |
| `Formatter.ScanRoundTrip` | i18n/translator.py:9-12 | scanning loses nothing: the tokens' source texts concatenate back to the template |
| `Formatter.RenderToken` | i18n/translator.py:17-25 | a supplied value replaces its placeholder, an escaped delimiter becomes one delimiter, plain text is kept; a replacement fails only in strict mode, exactly on an invalid placeholder (the ValueError, InvalidPlaceholder) or a name without a value (the KeyError, MissingPlaceholder naming it); in lenient mode such a match is left as its own text |
| `Formatter.Render` | i18n/translator.py:24-25 | rendering in lenient mode never fails |
| `Formatter.Format` | i18n/translator.py:17-25 | safe_substitute never raises; substitute raises exactly when the template holds an invalid placeholder or a placeholder without a value |
| `Formatter.RenderAppend` | i18n/translator.py:17-25 | the output is the replacements joined in template order: rendering two runs of tokens one after the other gives the two outputs one after the other |
| `Formatter.ScanPlain` | i18n/translator.py:9-12 | text without a delimiter scans to one plain-text token per character |
| `Formatter.RenderPlain` | i18n/translator.py:17-25 | plain-text tokens render back to the text itself, in either mode |
| `Formatter.FormatGreetingExample` | i18n/translator.py:17-25 | with delimiter % and name = "Ada", strict formatting of "Hi %{name}!" gives "Hi Ada!"; strict formatting without a value fails |
| `Formatter.FormatGreetingLenient` | i18n/translator.py:24-25 | lenient formatting of "Hi %{name}!" without a value returns the template unchanged |
| `Formatter.RenderStrictFailsIff` | i18n/translator.py:22-23 | rendering in strict mode fails if and only if some token is an invalid placeholder or names a missing value |
| `Formatter.RenderStrictAgrees` | i18n/translator.py:17-25 | when strict rendering succeeds, lenient rendering gives the same text |
| `Formatter.RenderDependsOnNamesOnly` | i18n/translator.py:17-25 | two value bags that agree on the names the tokens use render identically, in both modes |
| `Formatter.RenderLenientUnbound` | i18n/translator.py:24-25 | in lenient mode, with no value for any name and no escaped delimiter, rendering gives back the tokens' source text |
| `Formatter.FormatStrictMissing` | i18n/translator.py:22-23 | substitute raises on any placeholder name without a supplied value |
| `Formatter.FormatStrictAgrees` | i18n/translator.py:17-25 | whenever substitute succeeds, safe_substitute returns the same string |
| `Formatter.FormatIgnoresUnused` | i18n/translator.py:17-25 | a value whose name the template does not use changes nothing, in both modes |
| `Formatter.FormatLenientKeepsText` | i18n/translator.py:24-25 | in lenient mode a template without escapes whose placeholders all lack values comes back unchanged, placeholder text included |
| `Translator.Bag` | i18n/translator.py:65-71 | the substitution values format receives are the whole kwargs bag: count (as str(count)) and default present exactly when given, locale popped, every other value kept as it is |
| `Translator.Decimal` | i18n/translator.py:65-71 | str(count) as format receives it: a minus sign exactly for a negative count, then decimal digits without leading zeros that read back as the absolute value of the count |
| `Translator.Digits` | i18n/translator.py:65-71 | the digits of a natural number: at least one, all decimal, no leading zero, and they read back as the number |
| `Translator.FirstForm` | i18n/translator.py:85-98 | the chosen form name is the first name of the list that the dict defines: it is in the list and in the dict, and no earlier name is in the dict; with none chosen, no listed form is in the dict |
| `Translator.Pluralize` | i18n/translator.py:80-84 | a value that is not a dict is returned unchanged in lenient mode and fails with the plural mismatch in strict mode |
| `Translator.PluralizeFollowsLadder` | i18n/translator.py:85-105 | on a dict, pluralize returns the first form of the ladder for the count ([zero|one|few], other, many) that the dict defines; with none, the key in lenient mode and a failure in strict mode |
| `Translator.PluralizeSelects` | i18n/translator.py:85-93 | count 0 selects zero, count 1 selects one, any other count up to plural_few (negatives included) selects few, when that form exists |
| `Translator.ZeroAndOneSkipFew` | i18n/translator.py:85-100 | counts 0 and 1 without their own form never select few: other is taken, then many, then the key or the strict failure |
| `Translator.LadderExample` | i18n/translator.py:85-98 | with zero/one/few/other forms and plural_few 4: 0 gives zero, 1 gives one, 3 gives few, 100 gives other |
| `Translator.PluralizeAll` | i18n/translator.py:64-65 | pluralizing a list keeps its length and pluralizes each item; it fails exactly when some item fails |
| `Translator.FormatValue` | i18n/translator.py:71 | a string is formatted with the configured delimiter and strictness; any other value handed to Template is a TypeError |
| `Translator.FormatItems` | i18n/translator.py:67 | formatting a list keeps its length, formats each string item and passes every other item through; it fails exactly when some string item fails |
| `Translator.TranslateItems` | i18n/translator.py:63-67 | the list branch for strings and dicts keeps the length; without a count strings are formatted and dicts pass through; with a count every item is pluralized, then formatted when a string; it fails exactly when some item's pluralize or format fails |
| `Translator.LenientItemsSucceed` | i18n/translator.py:63-67 | with both strict switches off, a list of strings and dicts always translates |
| `Translator.TranslateValue` | i18n/translator.py:60-71 | a list with an item that is neither a string nor a dict is returned unchanged; a list of strings and dicts gives TranslateItems (its failure, or the translated list), so never a failure with both strict switches off; a scalar is pluralized when count is given, then formatted |
| `Translator.Translate` | i18n/translator.py:58-59 | translate fetches with get (a KeyError when the pair is absent) and translates the value found |
| `Translator.Missing` | i18n/translator.py:46-51 | with nothing found, a supplied default is returned verbatim and unformatted whatever the strict flag; otherwise the strict error; otherwise the key |
| `Translator.Effective` | i18n/translator.py:37 | kwargs.pop('locale', config.get('locale')): the explicit locale when given, the configured one otherwise |
| `Translator.Resolve` | i18n/translator.py:28-51 | a key already in the store is translated at once and the store is left alone; whatever path t takes, it never removes a translation from the store |
| `Translator.T` | i18n/translator.py:28-51 | the result and the new store are those of Resolve on the old store |
| `Translator.ResolveFallsBack` | i18n/translator.py:41-45 | still missing after the loader step and away from the fallback locale, t returns exactly t at the fallback locale on the loaded store |
| `Translator.ResolveAtFallback` | i18n/translator.py:41-51 | at the fallback locale there is no further recursion: the result is a translation, the loader's error or the not-found outcome |
| `Translator.ResolveNotFound` | i18n/translator.py:41-51 | a key found nowhere t looks ends in the not-found outcome, so a supplied default is returned verbatim |
| `Loader.ReadFile` | i18n/loaders/loader.py:23-29 | a read either returns the file's text or fails with I18nFileLoadError |
| `Loader.LoadStep` | i18n/loaders/loader.py:31-39 | the file is read unless memoisation is on and it is memoised, in which case the memo's content is returned; the memo never loses or changes an entry and gains at most this file, with the content returned; with memoisation off it is untouched |
| `Loader.GetData` | i18n/loaders/loader.py:46-54 | without a root the whole data is returned, otherwise data[root]; it fails exactly when check_data is false |
| `Loader.ExtractRoot` | i18n/loaders/loader.py:60-63 | load_resource fails with I18nFileLoadError exactly when check_data is false, and returns get_data otherwise |
| `Loader.ResourceResult` | i18n/loaders/loader.py:56-63 | a load_file or parse_file error propagates unchanged; on parsed data, the result is I18nFileLoadError exactly when check_data is false, and get_data otherwise |
| `Loader.Loader.constructor` | i18n/loaders/loader.py:19-21 | the memo starts empty and nothing has been read |
| `Loader.Loader.LoadFileData` | i18n/loaders/loader.py:23-29 | every call reads the file; the memo is untouched |
| `Loader.Loader.LoadFile` | i18n/loaders/loader.py:31-39 | result, new memo and reads performed are those of LoadStep on the old memo |
| `Loader.Loader.LoadResource` | i18n/loaders/loader.py:56-63 | load_file, then parse, then the root check: the result is ResourceResult on the old memo |
| `Loader.MemoHit` | i18n/loaders/loader.py:33-37 | with memoisation on, a memoised file is returned from the memo, without a read and whatever the file now holds |
| `Loader.LoadTwice` | i18n/loaders/loader.py:33-37 | the first load reads and stores the content; a second load returns it without reading |
| `Loader.LoadKeepsMemo` | i18n/loaders/loader.py:34-36 | a load never overwrites a memo entry and leaves every other file's entry as it was |
| `Loader.LoadDisabled` | i18n/loaders/loader.py:38-39 | with memoisation off every call reads and the memo is untouched |
| `Loader.LoadFailure` | i18n/loaders/loader.py:31-39 | a failed read surfaces as I18nFileLoadError and leaves the memo unchanged |

## Left out

- `resource_loader.search_translation` is not part of this model. It is a parameter: the add calls it makes and the error it may raise.
- The configuration module is not part of this model. Its settings come in as an immutable `Config`. Reading them at import time (the default arguments, the class attribute `delimiter`) is not modelled.
- `yaml_loader.py`, `json_loader.py` and `python_loader.py` are not modelled. They wrap external parsers, or import modules dynamically. `parse_file` is a parameter.
- File opening and text decoding in `_load_file_data` are a parameter: a function from file name to an optional text.
- Exception messages are not modelled. Each exception is an `Error` variant. The line and column that `substitute` reports for an invalid placeholder are not modelled either.
- Substitution values and `default` are strings. Python's `str()` of other values is modelled only for `count`, through `Decimal`. A `default` of another type is not modelled.
- `count` is an integer. Counts of other Python types are not modelled.
- Formatter: the delimiter is a single character matched exactly. Python compiles Template's pattern case-insensitively, so a letter delimiter would also match its other case. Multi-character delimiters and that case are not modelled.
- `Formatter.RenderLenientUnbound` and `Formatter.FormatLenientKeepsText` state lenient text preservation only for templates without an escaped delimiter. In general `dd` becomes `d`, which `RenderToken` states.
- Thread safety of the shared store and memo is not modelled. The core is sequential.
