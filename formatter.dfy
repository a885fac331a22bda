/** TranslationFormatter.format: Python's string.Template with a configurable
    one-character delimiter d. The template is read left to right; at each d the
    alternatives are tried in the order of Template's pattern: `dd` (escaped),
    `d` + identifier (named), `d{identifier}` (braced), otherwise an invalid
    placeholder that consumes only the d. Identifiers are [_A-Za-z][_A-Za-z0-9]*. */
module Formatter {
  import opened Common

  predicate IsIdStart(c: char)
  {
    c == '_' || 'a' <= c <= 'z' || 'A' <= c <= 'Z'
  }

  predicate IsIdChar(c: char)
  {
    IsIdStart(c) || '0' <= c <= '9'
  }

  /** Length of the longest identifier-character prefix of s (the regex is greedy). */
  function IdLength(s: string): (n: nat)
    ensures n <= |s|
    ensures forall i :: 0 <= i < n ==> IsIdChar(s[i])
    ensures n < |s| ==> !IsIdChar(s[n])
  {
    if s == [] || !IsIdChar(s[0]) then 0 else 1 + IdLength(s[1..])
  }

  /** `{identifier}` at the head of s. */
  predicate BracedAt(s: string)
  {
    |s| > 1 && s[0] == '{' && IsIdStart(s[1]) &&
    1 + IdLength(s[1..]) < |s| && s[1 + IdLength(s[1..])] == '}'
  }

  /** One match of the pattern, or one character of plain text. */
  datatype Token =
    | Literal(c: char)
    | Escape
    | Named(name: string)
    | Braced(name: string)
    | Invalid

  /** The template text a token was read from. */
  function Source(t: Token, d: char): string
  {
    match t
    case Literal(c) => [c]
    case Escape => [d, d]
    case Named(name) => [d] + name
    case Braced(name) => [d, '{'] + name + ['}']
    case Invalid => [d]
  }

  /** The match found at a delimiter, and how many characters after the
      delimiter it takes. */
  datatype Step = Step(token: Token, used: nat)

  /** The pattern's alternatives, in order, applied to the text after a
      delimiter: escaped, named, braced, invalid. The match spells out exactly
      the text it consumed. */
  function MatchAt(rest: string, d: char): (m: Step)
    ensures m.used <= |rest|
    ensures Source(m.token, d) == [d] + rest[..m.used]
    ensures !m.token.Literal?
    // the alternatives are tried in the pattern's order
    ensures rest != [] && rest[0] == d ==> m.token == Escape
    ensures m.token.Named? <==> rest != [] && rest[0] != d && IsIdStart(rest[0])
    ensures m.token.Named? ==> m.used == IdLength(rest) > 0
    ensures m.token.Braced? ==> m.used == IdLength(rest[1..]) + 2
    ensures m.token.Braced? <==> !(rest != [] && (rest[0] == d || IsIdStart(rest[0]))) && BracedAt(rest)
    ensures m.token.Invalid? <==> !(rest != [] && (rest[0] == d || IsIdStart(rest[0]))) && !BracedAt(rest)
  {
    if rest != [] && rest[0] == d then Step(Escape, 1)
    else if rest != [] && IsIdStart(rest[0]) then
      var n := IdLength(rest);
      Step(Named(rest[..n]), n)
    else if BracedAt(rest) then
      var n := IdLength(rest[1..]);
      BracedText(rest);
      Step(Braced(rest[1..1 + n]), n + 2)
    else Step(Invalid, 0)
  }

  /** The text a braced match takes: the brace, the identifier, the brace. */
  lemma BracedText(rest: string)
    requires BracedAt(rest)
    ensures var n := IdLength(rest[1..]);
            n + 2 <= |rest| && rest[..n + 2] == ['{'] + rest[1..1 + n] + ['}']
  {
  }

  /** The template split into tokens, in the order re.sub finds them. */
  function Scan(s: string, d: char): (ts: seq<Token>)
    ensures |ts| <= |s|
    // every delimiter in the template starts a match: none is left as plain text
    ensures forall i :: 0 <= i < |ts| && ts[i].Literal? ==> ts[i].c != d
    decreases |s|
  {
    if s == [] then []
    else if s[0] != d then [Literal(s[0])] + Scan(s[1..], d)
    else
      var m := MatchAt(s[1..], d);
      [m.token] + Scan(s[1..][m.used..], d)
  }

  function SourceAll(ts: seq<Token>, d: char): string
  {
    if ts == [] then [] else Source(ts[0], d) + SourceAll(ts[1..], d)
  }

  lemma SourceAllCons(t: Token, ts: seq<Token>, d: char)
    ensures SourceAll([t] + ts, d) == Source(t, d) + SourceAll(ts, d)
  {
  }

  /** Scanning loses nothing: the tokens spell out the template again. */
  lemma {:induction false} ScanRoundTrip(s: string, d: char)
    ensures SourceAll(Scan(s, d), d) == s
    decreases |s|, 1
  {
    if s == [] {
    } else if s[0] != d {
      assert Scan(s, d) == [Literal(s[0])] + Scan(s[1..], d);
      ScanRoundTrip(s[1..], d);
      SourceAllCons(Literal(s[0]), Scan(s[1..], d), d);
      assert s == [s[0]] + s[1..];
    } else {
      ScanRoundTripAtDelimiter(s, d);
    }
  }

  lemma {:induction false} ScanRoundTripAtDelimiter(s: string, d: char)
    requires s != [] && s[0] == d
    ensures SourceAll(Scan(s, d), d) == s
    decreases |s|, 0
  {
    var m := MatchAt(s[1..], d);
    var after := s[1..][m.used..];
    assert Scan(s, d) == [m.token] + Scan(after, d);
    ScanRoundTrip(after, d);
    SourceAllCons(m.token, Scan(after, d), d);
    SplitAfterHead(s, m.used);
  }

  lemma SplitAfterHead(s: string, k: nat)
    requires 0 < |s| && k <= |s| - 1
    ensures [s[0]] + s[1..][..k] + s[1..][k..] == s
  {
  }

  /** A token that strict substitution rejects: an invalid placeholder, or a
      placeholder whose name has no value. */
  predicate Problem(t: Token, values: map<string, string>)
  {
    t.Invalid? || ((t.Named? || t.Braced?) && t.name !in values)
  }

  /** No token is a problem: strict substitution goes through. */
  predicate Clean(ts: seq<Token>, values: map<string, string>)
  {
    forall i :: 0 <= i < |ts| ==> !Problem(ts[i], values)
  }

  /** Names the tokens refer to. */
  function Names(ts: seq<Token>): set<string>
  {
    if ts == [] then {}
    else (if ts[0].Named? || ts[0].Braced? then {ts[0].name} else {}) + Names(ts[1..])
  }

  /** The replacement of one token: substitute's convert when strict,
      safe_substitute's when not. */
  function RenderToken(t: Token, d: char, values: map<string, string>, strict: bool): (r: Result<string>)
    ensures r.Failure? <==> strict && Problem(t, values)
    ensures !strict && Problem(t, values) ==> r == Success(Source(t, d))
    // a supplied value replaces its placeholder, `dd` becomes `d`, plain text stays
    ensures (t.Named? || t.Braced?) && t.name in values ==> r == Success(values[t.name])
    ensures t.Escape? ==> r == Success([d])
    ensures t.Literal? ==> r == Success([t.c])
    // substitute's KeyError for a name without a value, ValueError for an invalid placeholder
    ensures strict && (t.Named? || t.Braced?) && t.name !in values ==> r == Failure(MissingPlaceholder(t.name))
    ensures strict && t.Invalid? ==> r == Failure(InvalidPlaceholder)
  {
    match t
    case Literal(c) => Success([c])
    case Escape => Success([d])
    case Named(name) =>
      if name in values then Success(values[name])
      else if strict then Failure(MissingPlaceholder(name))
      else Success(Source(t, d))
    case Braced(name) =>
      if name in values then Success(values[name])
      else if strict then Failure(MissingPlaceholder(name))
      else Success(Source(t, d))
    case Invalid =>
      if strict then Failure(InvalidPlaceholder) else Success([d])
  }

  /** re.sub over the tokens; the first failing replacement ends the call. */
  function Render(ts: seq<Token>, d: char, values: map<string, string>, strict: bool): (r: Result<string>)
    ensures !strict ==> r.Success?
  {
    if ts == [] then Success([])
    else
      var head := RenderToken(ts[0], d, values, strict);
      if head.Failure? then Failure(head.error)
      else
        var tail := Render(ts[1..], d, values, strict);
        if tail.Failure? then tail else Success(head.value + tail.value)
  }

  /** TranslationFormatter(template).format(**values): substitute when strict,
      safe_substitute otherwise. */
  function Format(template: string, d: char, values: map<string, string>, strict: bool): (r: Result<string>)
    // safe_substitute never raises
    ensures !strict ==> r.Success?
    // substitute raises exactly on an invalid placeholder or one without a value
    ensures strict ==> (r.Failure? <==> !Clean(Scan(template, d), values))
  {
    if strict then RenderStrictFailsIff(Scan(template, d), d, values); Render(Scan(template, d), d, values, strict)
    else Render(Scan(template, d), d, values, strict)
  }

  /** The output joins the replacements in order: rendering two runs of tokens
      one after the other gives the two outputs one after the other. */
  lemma {:induction false} RenderAppend(a: seq<Token>, b: seq<Token>, d: char, values: map<string, string>, strict: bool)
    requires Render(a, d, values, strict).Success? && Render(b, d, values, strict).Success?
    ensures Render(a + b, d, values, strict) ==
              Success(Render(a, d, values, strict).value + Render(b, d, values, strict).value)
  {
    if a == [] {
      assert a + b == b;
      var y := Render(b, d, values, strict).value;
      assert Render(a, d, values, strict).value == [];
      assert [] + y == y;
    } else {
      RenderSplit(a, d, values, strict);
      RenderAppend(a[1..], b, d, values, strict);
      RenderCons(a[0], a[1..] + b, d, values, strict);
      HeadTailAppend(a, b);
      ConcatAssoc(RenderToken(a[0], d, values, strict).value,
                  Render(a[1..], d, values, strict).value, Render(b, d, values, strict).value);
    }
  }

  /** Sequence identities, stated once so that the proofs above stay small. */
  lemma HeadTailAppend<T>(a: seq<T>, b: seq<T>)
    requires a != []
    ensures [a[0]] + (a[1..] + b) == a + b
  {
  }

  lemma ConcatAssoc<T>(x: seq<T>, y: seq<T>, z: seq<T>)
    ensures x + (y + z) == (x + y) + z
  {
  }

  /** A successful rendering is the head's replacement followed by the tail's... */
  lemma RenderSplit(ts: seq<Token>, d: char, values: map<string, string>, strict: bool)
    requires ts != [] && Render(ts, d, values, strict).Success?
    ensures RenderToken(ts[0], d, values, strict).Success? && Render(ts[1..], d, values, strict).Success?
    ensures Render(ts, d, values, strict).value ==
              RenderToken(ts[0], d, values, strict).value + Render(ts[1..], d, values, strict).value
  {
  }

  /** ...and a successful head and tail render to their concatenation. */
  lemma RenderCons(t: Token, ts: seq<Token>, d: char, values: map<string, string>, strict: bool)
    requires RenderToken(t, d, values, strict).Success? && Render(ts, d, values, strict).Success?
    ensures Render([t] + ts, d, values, strict) ==
              Success(RenderToken(t, d, values, strict).value + Render(ts, d, values, strict).value)
  {
    assert ([t] + ts)[0] == t && ([t] + ts)[1..] == ts;
  }

  /** One Literal per character of p. */
  function Plain(p: string): (ts: seq<Token>)
    ensures |ts| == |p| && forall i :: 0 <= i < |p| ==> ts[i] == Literal(p[i])
  {
    if p == [] then [] else [Literal(p[0])] + Plain(p[1..])
  }

  /** Text that holds no delimiter scans to one Literal per character... */
  lemma {:induction false} ScanPlain(p: string, s: string, d: char)
    requires forall i :: 0 <= i < |p| ==> p[i] != d
    ensures Scan(p + s, d) == Plain(p) + Scan(s, d)
  {
    if p == [] {
      assert p + s == s;
    } else {
      var ps := p + s;
      assert p[0] != d && ps[0] == p[0] && ps[1..] == p[1..] + s;
      ScanPlainHead(ps, d);
      assert forall i :: 0 <= i < |p[1..]| ==> p[1..][i] == p[i + 1];
      ScanPlain(p[1..], s, d);
      assert Scan(ps, d) == [Literal(p[0])] + (Plain(p[1..]) + Scan(s, d));
    }
  }

  /** A character other than the delimiter is plain text. */
  lemma ScanPlainHead(s: string, d: char)
    requires s != [] && s[0] != d
    ensures Scan(s, d) == [Literal(s[0])] + Scan(s[1..], d)
  {
  }

  /** ...and those Literals render back to the text itself, in either mode. */
  lemma {:induction false} RenderPlain(p: string, d: char, values: map<string, string>, strict: bool)
    ensures Render(Plain(p), d, values, strict) == Success(p)
  {
    if p != [] {
      RenderPlain(p[1..], d, values, strict);
      assert p == [p[0]] + p[1..];
    }
  }

  /** The match after the delimiter of the worked template's placeholder. */
  lemma NameLength()
    ensures IdLength("name}!") == 4
  {
    assert IdLength("}!") == 0;
    assert IdLength("e}!") == 1;
    assert IdLength("me}!") == 2;
    assert IdLength("ame}!") == 3;
  }

  lemma MatchBracedName()
    ensures MatchAt("{name}!", '%') == Step(Braced("name"), 6)
  {
    var rest := "{name}!";
    assert rest[1..] == "name}!";
    NameLength();
    assert BracedAt(rest);
    assert rest[1..5] == "name";
  }

  /** The tokens of the placeholder part of the worked template. */
  lemma ScanBracedName()
    ensures Scan("%{name}!", '%') == [Braced("name"), Literal('!')]
  {
    MatchBracedName();
    assert "{name}!"[6..] == "!";
    assert Scan("!", '%') == [Literal('!')];
  }

  /** Rendering the placeholder part of the worked template. */
  lemma RenderBracedName(values: map<string, string>, strict: bool)
    ensures "name" in values ==> Render([Braced("name"), Literal('!')], '%', values, strict) == Success(values["name"] + "!")
    ensures "name" !in values && !strict ==> Render([Braced("name"), Literal('!')], '%', values, strict) == Success("%{name}!")
  {
    var named := [Braced("name"), Literal('!')];
    var bang := [Literal('!')];
    assert bang[1..] == [];
    assert Render(bang, '%', values, strict) == Success("!" + []);
    assert "!" + [] == "!";
    assert named[1..] == bang && named[0] == Braced("name");
    var head := RenderToken(Braced("name"), '%', values, strict);
    if head.Success? {
      assert Render(named, '%', values, strict) == Success(head.value + "!");
    }
    assert Source(Braced("name"), '%') + "!" == "%{name}!";
  }

  /** The tokens of the worked template "Hi %{name}!". */
  lemma ScanGreeting(template: string)
    requires template == "Hi %{name}!"
    ensures Scan(template, '%') == Plain("Hi ") + [Braced("name"), Literal('!')]
  {
    assert "Hi " + "%{name}!" == template;
    ScanPlain("Hi ", "%{name}!", '%');
    ScanBracedName();
  }

  /** The worked example: "Hi %{name}!" with name = "Ada" gives "Hi Ada!";
      strict mode without a value fails. */
  lemma FormatGreetingExample(template: string, ada: map<string, string>)
    requires template == "Hi %{name}!" && ada == map["name" := "Ada"]
    ensures Format(template, '%', ada, true) == Success("Hi Ada!")
    ensures Format(template, '%', map[], true).Failure?
  {
    ScanGreeting(template);
    var hello, named := "Hi ", [Braced("name"), Literal('!')];
    RenderPlain(hello, '%', ada, true);
    RenderBracedName(ada, true);
    RenderAppend(Plain(hello), named, '%', ada, true);
    assert hello + ("Ada" + "!") == "Hi Ada!";
    assert (Plain(hello) + named)[|hello|] == Braced("name");
  }

  /** Lenient mode without a value gives the worked template back unchanged. */
  lemma FormatGreetingLenient(template: string)
    requires template == "Hi %{name}!"
    ensures Format(template, '%', map[], false) == Success(template)
  {
    ScanGreeting(template);
    var hello, named := "Hi ", [Braced("name"), Literal('!')];
    RenderPlain(hello, '%', map[], false);
    RenderBracedName(map[], false);
    RenderAppend(Plain(hello), named, '%', map[], false);
    assert hello + "%{name}!" == template;
  }

  /** Strict rendering fails exactly when some token is a problem. */
  lemma {:induction false} RenderStrictFailsIff(ts: seq<Token>, d: char, values: map<string, string>)
    ensures Render(ts, d, values, true).Failure? <==> !Clean(ts, values)
  {
    if ts != [] {
      RenderStrictFailsIff(ts[1..], d, values);
      if exists i :: 0 <= i < |ts[1..]| && Problem(ts[1..][i], values) {
        var i :| 0 <= i < |ts[1..]| && Problem(ts[1..][i], values);
        assert Problem(ts[i + 1], values);
      }
      if exists i :: 0 <= i < |ts| && Problem(ts[i], values) {
        var i :| 0 <= i < |ts| && Problem(ts[i], values);
        if i > 0 {
          assert Problem(ts[1..][i - 1], values);
        }
      }
    }
  }

  /** When strict rendering succeeds, lenient rendering gives the same text. */
  lemma {:induction false} RenderStrictAgrees(ts: seq<Token>, d: char, values: map<string, string>)
    requires Render(ts, d, values, true).Success?
    ensures Render(ts, d, values, false) == Render(ts, d, values, true)
  {
    if ts != [] {
      RenderStrictAgrees(ts[1..], d, values);
    }
  }

  /** Only the values of names the tokens refer to matter. */
  lemma {:induction false} RenderDependsOnNamesOnly(ts: seq<Token>, d: char, v1: map<string, string>, v2: map<string, string>, strict: bool)
    requires forall n :: n in Names(ts) ==> (n in v1 <==> n in v2)
    requires forall n :: n in Names(ts) && n in v1 ==> v1[n] == v2[n]
    ensures Render(ts, d, v1, strict) == Render(ts, d, v2, strict)
  {
    if ts != [] {
      assert Names(ts[1..]) <= Names(ts);
      RenderDependsOnNamesOnly(ts[1..], d, v1, v2, strict);
    }
  }

  /** Lenient rendering with no value for any name gives back the source text,
      when the tokens hold no escaped delimiter. */
  lemma {:induction false} RenderLenientUnbound(ts: seq<Token>, d: char, values: map<string, string>)
    requires forall n :: n in Names(ts) ==> n !in values
    requires forall i :: 0 <= i < |ts| ==> !ts[i].Escape?
    ensures Render(ts, d, values, false) == Success(SourceAll(ts, d))
  {
    if ts != [] {
      assert Names(ts[1..]) <= Names(ts);
      RenderLenientUnbound(ts[1..], d, values);
    }
  }

  /** The identifiers a template refers to through `dname` or `d{name}`. */
  function Placeholders(template: string, d: char): set<string>
  {
    Names(Scan(template, d))
  }

  /** Strict mode fails on a placeholder name with no supplied value. */
  lemma FormatStrictMissing(template: string, d: char, values: map<string, string>, name: string)
    requires name in Placeholders(template, d) && name !in values
    ensures Format(template, d, values, true).Failure?
  {
    var ts := Scan(template, d);
    NameIndexExists(ts, name);
    var i :| 0 <= i < |ts| && (ts[i].Named? || ts[i].Braced?) && ts[i].name == name;
    assert Problem(ts[i], values);
    RenderStrictFailsIff(ts, d, values);
  }

  /** Where a referenced name occurs among the tokens. */
  lemma {:induction false} NameIndexExists(ts: seq<Token>, name: string)
    requires name in Names(ts)
    ensures exists i :: 0 <= i < |ts| && (ts[i].Named? || ts[i].Braced?) && ts[i].name == name
  {
    if !((ts[0].Named? || ts[0].Braced?) && ts[0].name == name) {
      NameIndexExists(ts[1..], name);
      var i :| 0 <= i < |ts[1..]| && (ts[1..][i].Named? || ts[1..][i].Braced?) && ts[1..][i].name == name;
      assert ts[i + 1] == ts[1..][i];
    }
  }

  /** Whenever substitute succeeds, safe_substitute returns the same string. */
  lemma FormatStrictAgrees(template: string, d: char, values: map<string, string>)
    requires Format(template, d, values, true).Success?
    ensures Format(template, d, values, false) == Format(template, d, values, true)
  {
    RenderStrictAgrees(Scan(template, d), d, values);
  }

  /** Values whose names the template does not use are ignored, in both modes. */
  lemma FormatIgnoresUnused(template: string, d: char, values: map<string, string>, name: string, v: string, strict: bool)
    requires name !in Placeholders(template, d)
    ensures Format(template, d, values[name := v], strict) == Format(template, d, values, strict)
  {
    RenderDependsOnNamesOnly(Scan(template, d), d, values[name := v], values, strict);
  }

  /** In lenient mode, a template without escaped delimiters whose placeholders
      all lack values comes back unchanged, placeholder text included. */
  lemma FormatLenientKeepsText(template: string, d: char, values: map<string, string>)
    requires forall n :: n in Placeholders(template, d) ==> n !in values
    requires forall i :: 0 <= i < |Scan(template, d)| ==> !Scan(template, d)[i].Escape?
    ensures Format(template, d, values, false) == Success(template)
  {
    RenderLenientUnbound(Scan(template, d), d, values);
    ScanRoundTrip(template, d);
  }
}
