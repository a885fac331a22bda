/** The resolution pipeline of translator.py: t, translate and pluralize, over
    the store of translations.py and the formatter. */
module Translator {
  import opened Common
  import opened Translations
  import opened Formatter

  /** The keyword arguments of t after `locale` has been popped: `count` and
      `default`, and every other substitution value. */
  datatype Kwargs = Kwargs(count: Option<int>, default: Option<string>, values: map<string, string>)

  function DigitChar(n: nat): (c: char)
    requires n < 10
    ensures '0' <= c <= '9' && c as int - '0' as int == n
  {
    "0123456789"[n]
  }

  /** The number a string of decimal digits denotes. */
  function DigitsValue(s: string): nat
  {
    if s == [] then 0
    else
      var c := s[|s| - 1];
      DigitsValue(s[..|s| - 1]) * 10 + (if '0' <= c <= '9' then c as int - '0' as int else 0)
  }

  /** The decimal digits of n, most significant first, without leading zeros. */
  function Digits(n: nat): (s: string)
    ensures |s| >= 1 && forall i :: 0 <= i < |s| ==> '0' <= s[i] <= '9'
    ensures s[0] == '0' ==> s == "0"
    ensures DigitsValue(s) == n
  {
    if n < 10 then [DigitChar(n)]
    else
      var s := Digits(n / 10) + [DigitChar(n % 10)];
      assert s[..|s| - 1] == Digits(n / 10);
      s
  }

  /** Python's str(n) for an integer: a minus sign exactly for a negative n,
      then the digits of |n|, which read back as |n|. */
  function Decimal(n: int): (r: string)
    ensures |r| >= 1 && (r[0] == '-' <==> n < 0)
    ensures n >= 0 ==> DigitsValue(r) == n && r == Digits(n)
    ensures n < 0 ==> DigitsValue(r[1..]) == -n && r[1..] == Digits(-n)
  {
    if n < 0 then "-" + Digits(-n) else Digits(n)
  }

  /** The whole kwargs bag as format receives it: count and default are
      substitution values too; locale is no longer in it. */
  function Bag(kw: Kwargs): (b: map<string, string>)
    ensures kw.count.Some? ==> "count" in b && b["count"] == Decimal(kw.count.value)
    ensures kw.count.None? ==> "count" !in b
    ensures kw.default.Some? ==> "default" in b && b["default"] == kw.default.value
    ensures kw.default.None? ==> "default" !in b
    ensures "locale" !in b
    ensures forall n :: n !in {"locale", "count", "default"} ==>
              (n in b <==> n in kw.values) && (n in b ==> b[n] == kw.values[n])
  {
    var others := kw.values - {"locale", "count", "default"};
    var withCount := if kw.count.Some? then others["count" := Decimal(kw.count.value)] else others;
    if kw.default.Some? then withCount["default" := kw.default.value] else withCount
  }

  /** The plural forms tried for a count, in the order pluralize tries them. */
  function Ladder(count: int, cfg: Config): seq<string>
  {
    if count == 0 then ["zero", "other", "many"]
    else if count == 1 then ["one", "other", "many"]
    else if count <= cfg.pluralFew then ["few", "other", "many"]
    else ["other", "many"]
  }

  /** The first name of the list that the dict defines. */
  function FirstForm(names: seq<string>, forms: map<string, Value>): (r: Option<string>)
    ensures r.Some? ==> r.value in names && r.value in forms
    ensures r.None? ==> forall i :: 0 <= i < |names| ==> names[i] !in forms
    // it is the first such name: every name before it is undefined
    ensures r.Some? ==> exists i :: 0 <= i < |names| && names[i] == r.value &&
                                    forall j :: 0 <= j < i ==> names[j] !in forms
  {
    if names == [] then None
    else if names[0] in forms then Some(names[0])
    else
      var r := FirstForm(names[1..], forms);
      if r.Some? then
        var i :| 0 <= i < |names[1..]| && names[1..][i] == r.value &&
                 forall j :: 0 <= j < i ==> names[1..][j] !in forms;
        assert names[i + 1] == r.value;
        assert forall j :: 0 <= j < i + 1 ==> names[j] !in forms by {
          assert forall j :: 1 <= j < i + 1 ==> names[j] == names[1..][j - 1];
        }
        r
      else r
  }

  /** pluralize(key, translation, count). */
  function Pluralize(key: string, v: Value, count: int, cfg: Config): (r: Result<Value>)
    ensures !v.Dict? ==> r == (if cfg.errorOnMissingPlural then Failure(PluralMismatch(key)) else Success(v))
  {
    if !v.Dict? then
      if cfg.errorOnMissingPlural then Failure(PluralMismatch(key)) else Success(v)
    else
      var forms := v.entries;
      if count == 0 && "zero" in forms then Success(forms["zero"])
      else if count == 1 && "one" in forms then Success(forms["one"])
      else if count != 0 && count != 1 && count <= cfg.pluralFew && "few" in forms then Success(forms["few"])
      else if "other" in forms then Success(forms["other"])
      else if "many" in forms then Success(forms["many"])
      else if cfg.errorOnMissingPlural then Failure(PluralFormMissing(key))
      else Success(Str(key))
  }

  /** pluralize on a dict picks the first form of the ladder the dict defines;
      with none, it returns the key, or fails in strict mode. */
  lemma PluralizeFollowsLadder(key: string, forms: map<string, Value>, count: int, cfg: Config)
    ensures var f := FirstForm(Ladder(count, cfg), forms);
            Pluralize(key, Dict(forms), count, cfg) ==
              if f.Some? then Success(forms[f.value])
              else if cfg.errorOnMissingPlural then Failure(PluralFormMissing(key))
              else Success(Str(key))
  {
    var names := Ladder(count, cfg);
    var first := if count == 0 then "zero" else if count == 1 then "one"
                 else if count <= cfg.pluralFew then "few" else "other";
    var tail := ["other", "many"];
    assert tail[1..] == ["many"] && tail[1..][1..] == [];
    assert FirstForm(tail, forms) ==
             if "other" in forms then Some("other") else if "many" in forms then Some("many") else None;
    if first != "other" {
      assert names == [first] + tail && names[1..] == tail;
    }
  }

  /** The form a count selects, when the dict defines it: zero for 0, one for 1,
      few for any other count up to the threshold, negative ones included. */
  lemma PluralizeSelects(key: string, forms: map<string, Value>, count: int, cfg: Config)
    ensures count == 0 && "zero" in forms ==> Pluralize(key, Dict(forms), count, cfg) == Success(forms["zero"])
    ensures count == 1 && "one" in forms ==> Pluralize(key, Dict(forms), count, cfg) == Success(forms["one"])
    ensures count != 0 && count != 1 && count <= cfg.pluralFew && "few" in forms ==>
              Pluralize(key, Dict(forms), count, cfg) == Success(forms["few"])
  {
    PluralizeFollowsLadder(key, forms, count, cfg);
  }

  /** Counts 0 and 1 never select few, even without zero or one: they fall
      through to other, which is tried before many. */
  lemma ZeroAndOneSkipFew(key: string, forms: map<string, Value>, count: int, cfg: Config)
    requires count == 0 || count == 1
    requires (count == 0 ==> "zero" !in forms) && (count == 1 ==> "one" !in forms)
    ensures "other" in forms ==> Pluralize(key, Dict(forms), count, cfg) == Success(forms["other"])
    ensures "other" !in forms && "many" in forms ==> Pluralize(key, Dict(forms), count, cfg) == Success(forms["many"])
    ensures "other" !in forms && "many" !in forms ==>
              Pluralize(key, Dict(forms), count, cfg) ==
                if cfg.errorOnMissingPlural then Failure(PluralFormMissing(key)) else Success(Str(key))
  {
    PluralizeFollowsLadder(key, forms, count, cfg);
    var names := Ladder(count, cfg);
    assert names == [if count == 0 then "zero" else "one", "other", "many"];
    assert names[1..] == ["other", "many"];
    assert names[1..][1..] == ["many"];
  }

  /** A string or a dict: the list items translate can format. */
  predicate Templatable(v: Value)
  {
    v.Str? || v.Dict?
  }

  /** [pluralize(key, data, count) for data in items]; the first failure ends it. */
  function PluralizeAll(key: string, items: seq<Value>, count: int, cfg: Config): (r: Result<seq<Value>>)
    ensures r.Success? ==> (|r.value| == |items| &&
              forall i :: 0 <= i < |items| ==> Pluralize(key, items[i], count, cfg) == Success(r.value[i]))
    ensures r.Failure? <==> exists i :: 0 <= i < |items| && Pluralize(key, items[i], count, cfg).Failure?
  {
    if items == [] then Success([])
    else
      var head := Pluralize(key, items[0], count, cfg);
      if head.Failure? then Failure(head.error)
      else
        var tail := PluralizeAll(key, items[1..], count, cfg);
        if tail.Failure? then
          var i :| 0 <= i < |items[1..]| && Pluralize(key, items[1..][i], count, cfg).Failure?;
          assert items[i + 1] == items[1..][i];
          Failure(tail.error)
        else
          assert forall i :: 1 <= i < |items| ==> items[i] == items[1..][i - 1];
          Success([head.value] + tail.value)
  }

  /** Format of one value: a string is a template; anything else handed to
      Template raises a TypeError. */
  function FormatValue(v: Value, values: map<string, string>, cfg: Config): (r: Result<Value>)
    ensures v.Str? ==> r == (var f := Format(v.s, cfg.delimiter, values, cfg.errorOnMissingPlaceholder);
                            if f.Success? then Success(Str(f.value)) else Failure(f.error))
    ensures !v.Str? ==> r == Failure(NotAString)
  {
    if v.Str? then
      var f := Format(v.s, cfg.delimiter, values, cfg.errorOnMissingPlaceholder);
      if f.Success? then Success(Str(f.value)) else Failure(f.error)
    else Failure(NotAString)
  }

  /** [format(data) if isinstance(data, str) else data for data in items]. */
  function FormatItems(items: seq<Value>, values: map<string, string>, cfg: Config): (r: Result<seq<Value>>)
    ensures r.Success? ==> (|r.value| == |items| &&
              forall i :: 0 <= i < |items| ==>
                if items[i].Str? then FormatValue(items[i], values, cfg) == Success(r.value[i])
                else r.value[i] == items[i])
    ensures r.Failure? <==> exists i :: 0 <= i < |items| && items[i].Str? && FormatValue(items[i], values, cfg).Failure?
  {
    if items == [] then Success([])
    else
      var head := if items[0].Str? then FormatValue(items[0], values, cfg) else Success(items[0]);
      if head.Failure? then Failure(head.error)
      else
        var tail := FormatItems(items[1..], values, cfg);
        if tail.Failure? then
          var i :| 0 <= i < |items[1..]| && items[1..][i].Str? && FormatValue(items[1..][i], values, cfg).Failure?;
          assert items[i + 1] == items[1..][i];
          Failure(tail.error)
        else
          var out := [head.value] + tail.value;
          assert forall i :: 1 <= i < |items| ==> items[i] == items[1..][i - 1] && out[i] == tail.value[i - 1];
          Success(out)
  }

  /** The list branch of translate for a list of strings and dicts: every item
      pluralized when a count is given, then every string formatted. */
  function TranslateItems(key: string, items: seq<Value>, kw: Kwargs, cfg: Config): (r: Result<seq<Value>>)
    ensures r.Success? ==> |r.value| == |items|
    // without a count, strings are formatted and dicts pass through
    ensures kw.count.None? && r.Success? ==>
              forall i :: 0 <= i < |items| ==>
                if items[i].Str? then FormatValue(items[i], Bag(kw), cfg) == Success(r.value[i])
                else r.value[i] == items[i]
    // with a count, every item is pluralized, then formatted when a string
    ensures kw.count.Some? && r.Success? ==>
              forall i :: 0 <= i < |items| ==>
                var p := Pluralize(key, items[i], kw.count.value, cfg);
                p.Success? &&
                if p.value.Str? then FormatValue(p.value, Bag(kw), cfg) == Success(r.value[i])
                else r.value[i] == p.value
    // it fails exactly when one item fails: its pluralize raises, or the
    // format of the string it gives raises
    ensures kw.count.None? ==>
              (r.Failure? <==> exists i :: 0 <= i < |items| && items[i].Str? &&
                                           FormatValue(items[i], Bag(kw), cfg).Failure?)
    ensures kw.count.Some? ==>
              (r.Failure? <==> exists i :: 0 <= i < |items| &&
                                 var p := Pluralize(key, items[i], kw.count.value, cfg);
                                 p.Failure? || (p.value.Str? && FormatValue(p.value, Bag(kw), cfg).Failure?))
  {
    if kw.count.None? then FormatItems(items, Bag(kw), cfg)
    else
      var plural := PluralizeAll(key, items, kw.count.value, cfg);
      if plural.Failure? then Failure(plural.error)
      else
        var formatted := FormatItems(plural.value, Bag(kw), cfg);
        if formatted.Failure? then
          var j :| 0 <= j < |plural.value| && plural.value[j].Str? && FormatValue(plural.value[j], Bag(kw), cfg).Failure?;
          assert Pluralize(key, items[j], kw.count.value, cfg) == Success(plural.value[j]);
          formatted
        else formatted
  }

  /** With both strict switches off, a list of strings and dicts always translates. */
  lemma {:induction false} LenientItemsSucceed(key: string, items: seq<Value>, kw: Kwargs, cfg: Config)
    requires forall i :: 0 <= i < |items| ==> Templatable(items[i])
    ensures !cfg.errorOnMissingPlural && !cfg.errorOnMissingPlaceholder ==> TranslateItems(key, items, kw, cfg).Success?
  {
    if cfg.errorOnMissingPlural || cfg.errorOnMissingPlaceholder {
      return;
    }
    var values := Bag(kw);
    forall x: Value | x.Str?
      ensures FormatValue(x, values, cfg).Success?
    {
      assert Format(x.s, cfg.delimiter, values, false).Success?;
    }
    if kw.count.Some? {
      forall i | 0 <= i < |items|
        ensures Pluralize(key, items[i], kw.count.value, cfg).Success?
      {
        if items[i].Dict? {
          PluralizeFollowsLadder(key, items[i].entries, kw.count.value, cfg);
        }
      }
    }
  }

  /** translate once the value has been fetched from the store. */
  function TranslateValue(key: string, v: Value, kw: Kwargs, cfg: Config): (r: Result<Value>)
    // a list with an item that is neither a string nor a dict comes back as it is
    ensures v.List? && !(forall i :: 0 <= i < |v.items| ==> Templatable(v.items[i])) ==> r == Success(v)
    // a list of strings and dicts goes through TranslateItems
    ensures v.List? && (forall i :: 0 <= i < |v.items| ==> Templatable(v.items[i])) ==>
              var t := TranslateItems(key, v.items, kw, cfg);
              r == if t.Failure? then Failure(t.error) else Success(List(t.value))
    // with both strict switches off, such a list always translates
    ensures (v.List? && (forall i :: 0 <= i < |v.items| ==> Templatable(v.items[i])) &&
             !cfg.errorOnMissingPlural && !cfg.errorOnMissingPlaceholder) ==> r.Success?
    // a scalar is pluralized when a count is given, then formatted
    ensures !v.List? && kw.count.None? ==> r == FormatValue(v, Bag(kw), cfg)
    ensures !v.List? && kw.count.Some? ==>
              var p := Pluralize(key, v, kw.count.value, cfg);
              r == if p.Failure? then Failure(p.error) else FormatValue(p.value, Bag(kw), cfg)
  {
    if v.List? then
      if forall i :: 0 <= i < |v.items| ==> Templatable(v.items[i]) then
        LenientItemsSucceed(key, v.items, kw, cfg);
        var t := TranslateItems(key, v.items, kw, cfg);
        if t.Failure? then Failure(t.error) else Success(List(t.value))
      else Success(v)
    else
      var plural := if kw.count.Some? then Pluralize(key, v, kw.count.value, cfg) else Success(v);
      if plural.Failure? then Failure(plural.error) else FormatValue(plural.value, Bag(kw), cfg)
  }

  /** translate(key, locale=locale, **kwargs): get, then TranslateValue. */
  function Translate(c: Container, key: string, locale: string, kw: Kwargs, cfg: Config): (r: Result<Value>)
    ensures !Contains(c, key, locale) ==> r.Failure? && r.error.KeyNotFound?
    ensures Contains(c, key, locale) ==> r == TranslateValue(key, c[locale][key], kw, cfg)
  {
    var got := Lookup(c, key, locale);
    if got.Failure? then Failure(got.error) else TranslateValue(key, got.value, kw, cfg)
  }

  /** The end of t when nothing was found: the default, verbatim and
      unformatted, wins over strict mode; then the strict error; then the key. */
  function Missing(key: string, kw: Kwargs, cfg: Config): (r: Result<Value>)
    ensures kw.default.Some? ==> r == Success(Str(kw.default.value))
    ensures kw.default.None? && cfg.errorOnMissingTranslation ==> r == Failure(TranslationNotFound(key))
    ensures kw.default.None? && !cfg.errorOnMissingTranslation ==> r == Success(Str(key))
  {
    if kw.default.Some? then Success(Str(kw.default.value))
    else if cfg.errorOnMissingTranslation then Failure(TranslationNotFound(key))
    else Success(Str(key))
  }

  /** What search_translation(key, locale) does: the add calls it makes, in
      order, and the load error it raises afterwards, if any. */
  datatype Found = Found(added: seq<Entry>, failure: Option<Error>)

  /** The locale t works in: the explicit one, or the configured one. */
  function Effective(locale: Option<string>, cfg: Config): (r: string)
    ensures locale.Some? ==> r == locale.value
    ensures locale.None? ==> r == cfg.locale
  {
    if locale.Some? then locale.value else cfg.locale
  }

  /** Recursion depth left: one fallback hop away from the fallback locale, none at it. */
  function Hops(locale: Option<string>, cfg: Config): nat
  {
    if Effective(locale, cfg) == cfg.fallback then 0 else 1
  }

  datatype Resolution = Resolution(result: Result<Value>, store: Container)

  /** t(key, locale=..., **kwargs) as a function of the store before the call:
      its result and the store after it. */
  function Resolve(c: Container, search: (string, string) -> Found, cfg: Config,
                   key: string, locale: Option<string>, kw: Kwargs): (r: Resolution)
    // a hit is translated at once and leaves the store alone
    ensures Contains(c, key, Effective(locale, cfg)) ==>
              r == Resolution(Translate(c, key, Effective(locale, cfg), kw, cfg), c)
    // t never removes a translation: the store only grows
    ensures forall k, l :: Contains(c, k, l) ==> Contains(r.store, k, l)
    decreases Hops(locale, cfg)
  {
    var loc := Effective(locale, cfg);
    if Contains(c, key, loc) then Resolution(Translate(c, key, loc, kw, cfg), c)
    else
      var found := search(key, loc);
      var loaded := AddAll(c, found.added);
      AddAllGrows(c, found.added);
      if found.failure.Some? then Resolution(Failure(found.failure.value), loaded)
      else if Contains(loaded, key, loc) then Resolution(Translate(loaded, key, loc, kw, cfg), loaded)
      else if loc != cfg.fallback then Resolve(loaded, search, cfg, key, Some(cfg.fallback), kw)
      else Resolution(Missing(key, kw, cfg), loaded)
  }

  /** t: the store is read, the loader may add to it, and one retry happens at
      the fallback locale. */
  method T(store: Store, search: (string, string) -> Found, cfg: Config,
           key: string, locale: Option<string>, kw: Kwargs) returns (r: Result<Value>)
    modifies store
    ensures Resolution(r, store.container) == Resolve(old(store.container), search, cfg, key, locale, kw)
    decreases Hops(locale, cfg)
  {
    var loc := if locale.Some? then locale.value else cfg.locale;
    var has := store.Has(key, loc);
    if has {
      var got := store.Get(key, loc);
      r := TranslateValue(key, got.value, kw, cfg);
      return;
    }
    var found := search(key, loc);
    for i := 0 to |found.added|
      invariant store.container == AddAll(old(store.container), found.added[..i])
    {
      var e := found.added[i];
      store.Add(e.key, e.value, e.locale);
      assert found.added[..i + 1][..i] == found.added[..i];
    }
    assert found.added[..|found.added|] == found.added;
    if found.failure.Some? {
      return Failure(found.failure.value);
    }
    has := store.Has(key, loc);
    if has {
      var got := store.Get(key, loc);
      r := TranslateValue(key, got.value, kw, cfg);
    } else if loc != cfg.fallback {
      r := T(store, search, cfg, key, Some(cfg.fallback), kw);
    } else {
      r := Missing(key, kw, cfg);
    }
  }

  /** Still missing after the loader, away from the fallback locale, t returns
      exactly what t at the fallback locale returns on the loaded store. */
  lemma ResolveFallsBack(c: Container, search: (string, string) -> Found, cfg: Config,
                         key: string, locale: Option<string>, kw: Kwargs)
    requires var loc := Effective(locale, cfg);
             var found := search(key, loc);
             !Contains(c, key, loc) && found.failure.None? &&
             !Contains(AddAll(c, found.added), key, loc) && loc != cfg.fallback
    ensures var loaded := AddAll(c, search(key, Effective(locale, cfg)).added);
            Resolve(c, search, cfg, key, locale, kw) == Resolve(loaded, search, cfg, key, Some(cfg.fallback), kw)
  {
  }

  /** At the fallback locale there is no further recursion: the answer is a
      translation, the loader's error, or the not-found outcome. */
  lemma ResolveAtFallback(c: Container, search: (string, string) -> Found, cfg: Config,
                          key: string, kw: Kwargs)
    ensures var r := Resolve(c, search, cfg, key, Some(cfg.fallback), kw);
            var found := search(key, cfg.fallback);
            var loaded := AddAll(c, found.added);
            r == if Contains(c, key, cfg.fallback) then Resolution(Translate(c, key, cfg.fallback, kw, cfg), c)
                 else if found.failure.Some? then Resolution(Failure(found.failure.value), loaded)
                 else if Contains(loaded, key, cfg.fallback) then Resolution(Translate(loaded, key, cfg.fallback, kw, cfg), loaded)
                 else Resolution(Missing(key, kw, cfg), loaded)
  {
  }

  /** The key absent everywhere t looks: the result is the not-found outcome,
      so a supplied default comes back verbatim whatever the strict flag. */
  lemma ResolveNotFound(c: Container, search: (string, string) -> Found, cfg: Config,
                        key: string, locale: Option<string>, kw: Kwargs)
    requires var loc := Effective(locale, cfg);
             var found := search(key, loc);
             var loaded := AddAll(c, found.added);
             var back := search(key, cfg.fallback);
             !Contains(c, key, loc) && found.failure.None? && !Contains(loaded, key, loc) &&
             (loc != cfg.fallback ==>
                !Contains(loaded, key, cfg.fallback) && back.failure.None? &&
                !Contains(AddAll(loaded, back.added), key, cfg.fallback))
    ensures Resolve(c, search, cfg, key, locale, kw).result == Missing(key, kw, cfg)
    ensures kw.default.Some? ==> Resolve(c, search, cfg, key, locale, kw).result == Success(Str(kw.default.value))
  {
    var loc := Effective(locale, cfg);
    if loc != cfg.fallback {
      var loaded := AddAll(c, search(key, loc).added);
      ResolveAtFallback(loaded, search, cfg, key, kw);
    }
  }

  /** The values of the ladder example: zero "none", one "a", few "some",
      other "many", with a threshold of 4. */
  lemma LadderExample(key: string, cfg: Config)
    requires cfg.pluralFew == 4
    ensures var forms := map["zero" := Str("none"), "one" := Str("a"), "few" := Str("some"), "other" := Str("many")];
            && Pluralize(key, Dict(forms), 0, cfg) == Success(Str("none"))
            && Pluralize(key, Dict(forms), 1, cfg) == Success(Str("a"))
            && Pluralize(key, Dict(forms), 3, cfg) == Success(Str("some"))
            && Pluralize(key, Dict(forms), 100, cfg) == Success(Str("many"))
  {
  }
}
