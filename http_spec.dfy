/**
 * The pure side of `TwHttpServer`, which serves the TurboWarp extension script: the
 * language tag taken from the query string, the escaping of values written into
 * JavaScript string literals, the two template substitutions, the embedded block list
 * and the status of a script response.
 */
module HttpSpec {
  import opened Basics
  import opened Text
  import opened PluginHelpers

  const DefaultPath := "/tw/twbridge.js"
  const DefaultLang := "en"
  const MaxLangLength := 32
  const WsDefaultPrefix := "const WS_DEFAULT = \""
  const LangConstPrefix := "const TWB_DEFAULT_LANG = \""
  const BlockListPlaceholder := "__TWB_BLOCK_CHOICES__"

  /** The path the script is served under: the configured one unless it is missing or
      blank. */
  function ServedPath(path: Option<string>): (p: string)
    ensures !IsBlank(p)
    ensures path.Some? && !IsBlank(path.value) ==> p == path.value
  {
    if path.None? || IsBlank(path.value) then
      assert DefaultPath[0] == '/';
      DefaultPath
    else path.value
  }

  // ---------------------------------------------------------------------------------
  // Language tags

  predicate IsTagChar(c: char) {
    'a' <= c <= 'z' || '0' <= c <= '9'
  }

  /** A run of `[a-z0-9]` of `lo` to eight characters. */
  predicate IsSubtag(s: string, lo: nat) {
    lo <= |s| <= 8 && forall i :: 0 <= i < |s| ==> IsTagChar(s[i])
  }

  /** The whole string matches `[a-z0-9]{2,8}(?:-[a-z0-9]{1,8})*`: hyphen-separated
      subtags, the first of two to eight characters, the others of one to eight. */
  predicate LangTag(s: string) {
    var parts := SplitAll(s, '-');
    IsSubtag(parts[0], 2) && forall i :: 1 <= i < |parts| ==> IsSubtag(parts[i], 1)
  }

  /** `rawLang.trim().replace('_', '-').toLowerCase(Locale.ROOT)`. */
  function Normalized(rawLang: string): string {
    Lower(ReplaceChar(Trim(rawLang), '_', '-'))
  }

  /** `sanitizeLang`: the normalized tag when it is non-empty, at most 32 characters and
      well-formed, otherwise "en". */
  function SanitizeLang(rawLang: Option<string>): string {
    if rawLang.None? then DefaultLang
    else
      var normalized := Normalized(rawLang.value);
      if normalized == [] then DefaultLang
      else if |normalized| > MaxLangLength then DefaultLang
      else if !LangTag(normalized) then DefaultLang
      else normalized
  }

  lemma DefaultLangIsTag()
    ensures LangTag(DefaultLang)
  {
    SplitAllOfPiece(DefaultLang, '-');
  }

  /** Whatever comes in, the result is a well-formed tag of at most 32 characters:
      either "en" or the normalized input. */
  lemma SanitizeLangValid(rawLang: Option<string>)
    ensures var lang := SanitizeLang(rawLang);
            LangTag(lang) && |lang| <= MaxLangLength
            && (lang == DefaultLang || (rawLang.Some? && lang == Normalized(rawLang.value)))
  {
    DefaultLangIsTag();
  }

  /** The normalized input is kept exactly when it is a well-formed tag of at most 32
      characters. */
  lemma SanitizeLangKeeps(rawLang: string)
    ensures SanitizeLang(Some(rawLang)) == Normalized(rawLang)
            <==> LangTag(Normalized(rawLang)) && |Normalized(rawLang)| <= MaxLangLength
  {
    SanitizeLangValid(Some(rawLang));
    var n := Normalized(rawLang);
    if LangTag(n) && |n| <= MaxLangLength {
      LangTagChars(n);
    }
  }

  /** Every character of a split piece, other than the separator, sits in one of the
      pieces. */
  lemma {:induction false} SplitAllKeepsChars(s: string, sep: char, i: nat)
    requires i < |s| && s[i] != sep
    ensures exists k :: 0 <= k < |SplitAll(s, sep)| && s[i] in SplitAll(s, sep)[k]
  {
    var parts := SplitAll(s, sep);
    var rest := SplitAll(s[1..], sep);
    if i == 0 {
      assert parts[0] == [s[0]] + rest[0];
      assert s[0] in parts[0];
    } else {
      SplitAllKeepsChars(s[1..], sep, i - 1);
      var k :| 0 <= k < |rest| && s[i] in rest[k];
      if s[0] == sep {
        assert parts[k + 1] == rest[k];
      } else if k == 0 {
        assert parts[0] == [s[0]] + rest[0];
        assert s[i] in parts[0];
      } else {
        assert parts[k] == rest[k];
      }
    }
  }

  /** A well-formed tag is made of `[a-z0-9-]` and is not empty. */
  lemma LangTagChars(s: string)
    requires LangTag(s)
    ensures s != []
    ensures forall i :: 0 <= i < |s| ==> IsTagChar(s[i]) || s[i] == '-'
  {
    var parts := SplitAll(s, '-');
    forall i | 0 <= i < |s|
      ensures IsTagChar(s[i]) || s[i] == '-'
    {
      if s[i] != '-' {
        SplitAllKeepsChars(s, '-', i);
        var k :| 0 <= k < |parts| && s[i] in parts[k];
        var j :| 0 <= j < |parts[k]| && parts[k][j] == s[i];
        assert IsSubtag(parts[k], if k == 0 then 2 else 1);
      }
    }
  }

  /** A well-formed tag is its own normal form. */
  lemma NormalizedTag(s: string)
    requires LangTag(s)
    ensures Normalized(s) == s
  {
    LangTagChars(s);
    TrimNoop(s);
    assert ReplaceChar(s, '_', '-') == s;
    LowerFacts(s);
  }

  /** Sanitizing twice is sanitizing once, so the variant built from an extracted tag
      declares that very tag. */
  lemma SanitizeLangIdempotent(rawLang: Option<string>)
    ensures SanitizeLang(Some(SanitizeLang(rawLang))) == SanitizeLang(rawLang)
  {
    var lang := SanitizeLang(rawLang);
    SanitizeLangValid(rawLang);
    LangTagChars(lang);
    NormalizedTag(lang);
  }

  // ---------------------------------------------------------------------------------
  // JavaScript string literals

  /** `escapeForJs`: every backslash doubled, then every double quote preceded by a
      backslash. */
  function EscapeForJs(s: string): string {
    ReplaceAll(ReplaceAll(s, "\\", "\\\\"), "\"", "\\\"")
  }

  /** The escape of a single character. */
  function EscapeChar(c: char): string {
    if c == '\\' || c == '"' then ['\\', c] else [c]
  }

  /** Escaping character by character: the reference definition of `EscapeForJs`. */
  function Escaped(s: string): string {
    if s == [] then [] else EscapeChar(s[0]) + Escaped(s[1..])
  }

  /** `ReplaceAll` with a one-character target, as a map over the characters. */
  function SubstChar(s: string, c: char, rep: string): string {
    if s == [] then [] else (if s[0] == c then rep else [s[0]]) + SubstChar(s[1..], c, rep)
  }

  lemma {:induction false} ReplaceAllOneChar(s: string, c: char, rep: string)
    ensures ReplaceAll(s, [c], rep) == SubstChar(s, c, rep)
  {
    if s != [] {
      ReplaceAllOneChar(s[1..], c, rep);
      assert s[..1] == [s[0]];
    }
  }

  lemma SubstCharCons(x: char, s: string, c: char, rep: string)
    ensures SubstChar([x] + s, c, rep) == (if x == c then rep else [x]) + SubstChar(s, c, rep)
  {
    assert ([x] + s)[1..] == s;
  }

  lemma {:induction false} SubstCharAppend(a: string, b: string, c: char, rep: string)
    ensures SubstChar(a + b, c, rep) == SubstChar(a, c, rep) + SubstChar(b, c, rep)
  {
    if a == [] {
      assert a + b == b;
    } else {
      var x, tail := a[0], a[1..];
      assert a == [x] + tail;
      assert a + b == [x] + (tail + b);
      var head := if x == c then rep else [x];
      SubstCharCons(x, tail + b, c, rep);
      SubstCharCons(x, tail, c, rep);
      SubstCharAppend(tail, b, c, rep);
      assert head + (SubstChar(tail, c, rep) + SubstChar(b, c, rep))
          == (head + SubstChar(tail, c, rep)) + SubstChar(b, c, rep);
    }
  }

  /** The two whole-string replacements escape each character on its own. */
  lemma {:induction false} EscapeForJsCharwise(s: string)
    ensures EscapeForJs(s) == Escaped(s)
  {
    ReplaceAllOneChar(s, '\\', "\\\\");
    ReplaceAllOneChar(SubstChar(s, '\\', "\\\\"), '"', "\\\"");
    EscapedBySubst(s);
  }

  lemma {:induction false} EscapedBySubst(s: string)
    ensures SubstChar(SubstChar(s, '\\', "\\\\"), '"', "\\\"") == Escaped(s)
  {
    if s != [] {
      var first := if s[0] == '\\' then "\\\\" else [s[0]];
      assert SubstChar(s, '\\', "\\\\") == first + SubstChar(s[1..], '\\', "\\\\");
      SubstCharAppend(first, SubstChar(s[1..], '\\', "\\\\"), '"', "\\\"");
      EscapedBySubst(s[1..]);
      if s[0] == '\\' {
        assert SubstChar(first, '"', "\\\"") == "\\\\" by {
          assert first[1..] == "\\";
          assert first[1..][1..] == [];
        }
      } else {
        assert SubstChar(first, '"', "\\\"") == EscapeChar(s[0]) by {
          assert first[1..] == [];
        }
      }
    }
  }

  /** A string without backslashes or double quotes is its own escape. */
  lemma {:induction false} EscapedPlain(s: string)
    requires '\\' !in s && '"' !in s
    ensures Escaped(s) == s
  {
    if s != [] {
      assert s[0] in s;
      assert forall c :: c in s[1..] ==> c in s;
      EscapedPlain(s[1..]);
      assert [s[0]] + s[1..] == s;
    }
  }

  /** Reads the body of a JavaScript string literal up to its closing double quote:
      the value it denotes and the text after the quote. A backslash stands for the
      character after it (the only escapes written here are `\\` and `\"`). */
  function ReadLiteral(t: string): (r: Option<(string, string)>)
    ensures r.Some? ==> |r.value.1| < |t|
  {
    if t == [] then None
    else if t[0] == '"' then Some(("", t[1..]))
    else if t[0] == '\\' then
      if |t| < 2 then None
      else
        match ReadLiteral(t[2..])
        case None => None
        case Some(p) => Some(([t[1]] + p.0, p.1))
    else
      match ReadLiteral(t[1..])
      case None => None
      case Some(p) => Some(([t[0]] + p.0, p.1))
  }

  lemma {:induction false} ReadEscaped(s: string, rest: string)
    ensures ReadLiteral(Escaped(s) + "\"" + rest) == Some((s, rest))
  {
    var t := Escaped(s) + "\"" + rest;
    if s == [] {
      assert t == "\"" + rest;
      assert t[1..] == rest;
    } else {
      ReadEscaped(s[1..], rest);
      var tail := Escaped(s[1..]) + "\"" + rest;
      assert t == EscapeChar(s[0]) + tail;
      if s[0] == '\\' || s[0] == '"' {
        assert t[2..] == tail;
      } else {
        assert t[1..] == tail;
      }
      assert [s[0]] + s[1..] == s;
    }
  }

  /** The escaped text, put between double quotes, is a literal that closes exactly at
      the closing quote and denotes the original string: no quote inside it ends the
      literal early, and reading it undoes the escape. */
  lemma EscapeForJsRoundTrip(s: string, rest: string)
    ensures ReadLiteral(EscapeForJs(s) + "\"" + rest) == Some((s, rest))
  {
    EscapeForJsCharwise(s);
    ReadEscaped(s, rest);
  }

  // ---------------------------------------------------------------------------------
  // Template declarations and their first-match replacement

  /** The index of the first double quote at or after `k`. */
  function NextQuote(s: string, k: nat): (q: Option<nat>)
    requires k <= |s|
    ensures q.Some? ==> k <= q.value < |s| && s[q.value] == '"'
    decreases |s| - k
  {
    if k == |s| then None
    else if s[k] == '"' then Some(k)
    else NextQuote(s, k + 1)
  }

  /** Where a match of `<prefix>[^"]+";` (`[^"]*` when `allowEmpty`) that starts at `i`
      ends. The run of non-quote characters has to stop at the first quote after the
      prefix, so a match, when there is one, is unique. */
  function DeclEndAt(s: string, i: nat, prefix: string, allowEmpty: bool): (e: Option<nat>)
    ensures e.Some? ==> i + |prefix| + 2 <= e.value <= |s|
  {
    if !OccursAt(s, prefix, i) then None
    else
      var k := i + |prefix|;
      match NextQuote(s, k)
      case None => None
      case Some(q) =>
        if (allowEmpty || q > k) && q + 1 < |s| && s[q + 1] == ';' then Some(q + 2) else None
  }

  /** `Matcher.find` from `from`: the leftmost match and its end. */
  function FindDecl(s: string, from: nat, prefix: string, allowEmpty: bool): (m: Option<(nat, nat)>)
    requires from <= |s|
    ensures m.Some? ==> from <= m.value.0 <= m.value.1 <= |s|
    decreases |s| - from
  {
    match DeclEndAt(s, from, prefix, allowEmpty)
    case Some(e) => Some((from, e))
    case None => if from == |s| then None else FindDecl(s, from + 1, prefix, allowEmpty)
  }

  /** `FindDecl` finds the leftmost match, and finds none only when there is none. */
  lemma {:induction false} FindDeclLeftmost(s: string, from: nat, prefix: string, allowEmpty: bool)
    requires from <= |s|
    ensures var m := FindDecl(s, from, prefix, allowEmpty);
            && (m.Some? ==> DeclEndAt(s, m.value.0, prefix, allowEmpty) == Some(m.value.1))
            && (m.Some? ==> forall j :: from <= j < m.value.0 ==> DeclEndAt(s, j, prefix, allowEmpty).None?)
            && (m.None? ==> forall j :: from <= j <= |s| ==> DeclEndAt(s, j, prefix, allowEmpty).None?)
    decreases |s| - from
  {
    if DeclEndAt(s, from, prefix, allowEmpty).None? && from < |s| {
      FindDeclLeftmost(s, from + 1, prefix, allowEmpty);
    }
  }

  /** The first declaration replaced by `prefix`, `value` and `";`, taken literally;
      the text is unchanged when there is none. */
  function ReplaceFirstDecl(s: string, prefix: string, allowEmpty: bool, value: string): string {
    match FindDecl(s, 0, prefix, allowEmpty)
    case None => s
    case Some(m) => s[..m.0] + prefix + value + "\";" + s[m.1..]
  }

  /** After the replacement, the text before the first declaration is untouched, the
      declaration's literal denotes `v`, and everything after it, later declarations
      included, is untouched. */
  lemma DeclaredValue(s: string, prefix: string, allowEmpty: bool, v: string)
    requires FindDecl(s, 0, prefix, allowEmpty).Some?
    ensures var m := FindDecl(s, 0, prefix, allowEmpty).value;
            var r := ReplaceFirstDecl(s, prefix, allowEmpty, EscapeForJs(v));
            m.0 + |prefix| <= |r| && r[..m.0] == s[..m.0]
            && r[m.0..m.0 + |prefix|] == prefix
            && ReadLiteral(r[m.0 + |prefix|..]) == Some((v, ";" + s[m.1..]))
  {
    var m := FindDecl(s, 0, prefix, allowEmpty).value;
    assert m.0 <= m.1 <= |s|;
    ReadsBack(s[..m.0], prefix, v, s[m.1..]);
  }

  /** A declaration written out with an escaped value reads back as that value. */
  lemma ReadsBack(before: string, prefix: string, v: string, after: string)
    ensures var r := before + prefix + EscapeForJs(v) + "\";" + after;
            |before| + |prefix| <= |r| && r[..|before|] == before
            && r[|before|..|before| + |prefix|] == prefix
            && ReadLiteral(r[|before| + |prefix|..]) == Some((v, ";" + after))
  {
    var safe := EscapeForJs(v);
    var r := before + prefix + safe + "\";" + after;
    assert r == before + (prefix + (safe + "\"" + (";" + after)));
    assert r[|before| + |prefix|..] == safe + "\"" + (";" + after);
    EscapeForJsRoundTrip(v, ";" + after);
  }

  /** `loadTemplate`'s first step: with a non-blank `wsDefault`, the first
      `WS_DEFAULT` declaration is set to it. */
  function WithWsDefault(raw: string, wsDefault: Option<string>): string {
    if wsDefault.Some? && !IsBlank(wsDefault.value) then
      ReplaceFirstDecl(raw, WsDefaultPrefix, false, EscapeForJs(wsDefault.value))
    else raw
  }

  /** `loadTemplate`'s second step: every block-list placeholder replaced, when there is
      a list. */
  function FillBlockList(t: string, blockListJson: Option<string>): string {
    if blockListJson.Some? then ReplaceAll(t, BlockListPlaceholder, blockListJson.value) else t
  }

  /** `loadTemplate` on the text of the script resource. */
  function LoadTemplate(raw: string, wsDefault: Option<string>, blockListJson: Option<string>): string {
    FillBlockList(WithWsDefault(raw, wsDefault), blockListJson)
  }

  /** The `WS_DEFAULT` step: a missing or blank value, or a template without the
      declaration, leaves the text alone; otherwise only the first declaration changes
      and it now denotes `wsDefault`. */
  lemma WsDefaultStep(raw: string, wsDefault: Option<string>)
    ensures wsDefault.None? || IsBlank(wsDefault.value) || FindDecl(raw, 0, WsDefaultPrefix, false).None?
            ==> WithWsDefault(raw, wsDefault) == raw
    ensures wsDefault.Some? && !IsBlank(wsDefault.value) && FindDecl(raw, 0, WsDefaultPrefix, false).Some?
            ==> var m := FindDecl(raw, 0, WsDefaultPrefix, false).value;
                var r := WithWsDefault(raw, wsDefault);
                m.0 + |WsDefaultPrefix| <= |r| && r[..m.0] == raw[..m.0]
                && ReadLiteral(r[m.0 + |WsDefaultPrefix|..]) == Some((wsDefault.value, ";" + raw[m.1..]))
  {
    if wsDefault.Some? && !IsBlank(wsDefault.value) && FindDecl(raw, 0, WsDefaultPrefix, false).Some? {
      DeclaredValue(raw, WsDefaultPrefix, false, wsDefault.value);
    }
  }

  /** Pieces joined with a string between consecutive pieces. */
  function JoinOn(pieces: seq<string>, sep: string): string {
    if pieces == [] then ""
    else if |pieces| == 1 then pieces[0]
    else pieces[0] + sep + JoinOn(pieces[1..], sep)
  }

  /** No occurrence of `t` begins inside `p`, even with `t` written right after it. */
  predicate NoneStartsIn(p: string, t: string) {
    forall i: nat :: i < |p| ==> !OccursAt(p + t, t, i)
  }

  /** The scan does not match at the start of such a piece. */
  lemma FirstNotTarget(p: string, rest: string, t: string)
    requires t != [] && p != [] && NoneStartsIn(p, t)
    requires rest == [] || StartsWith(rest, t)
    requires |p + rest| >= |t|
    ensures (p + rest)[..|t|] != t
  {
    assert !OccursAt(p + t, t, 0);
    assert (p + t)[0..|t|] == (p + t)[..|t|];
    forall j | 0 <= j < |t|
      ensures (p + rest)[j] == (p + t)[j]
    {
      if j >= |p| {
        assert rest != [];
        assert rest[..|t|] == t;
        assert rest[j - |p|] == t[j - |p|];
      }
    }
    assert (p + rest)[..|t|] == (p + t)[..|t|];
  }

  lemma NoneStartsInTail(p: string, t: string)
    requires p != [] && NoneStartsIn(p, t)
    ensures NoneStartsIn(p[1..], t)
  {
    forall i: nat | i < |p[1..]|
      ensures !OccursAt(p[1..] + t, t, i)
    {
      assert !OccursAt(p + t, t, i + 1);
      if i + |t| <= |p[1..] + t| {
        assert (p[1..] + t)[i..i + |t|] == (p + t)[i + 1..i + 1 + |t|];
      }
    }
  }

  /** The scan copies a piece in which no occurrence begins and goes on after it. */
  lemma {:induction false} ReplaceAllSkips(p: string, rest: string, t: string, r: string)
    requires t != [] && NoneStartsIn(p, t)
    requires rest == [] || StartsWith(rest, t)
    ensures ReplaceAll(p + rest, t, r) == p + ReplaceAll(rest, t, r)
    decreases |p|
  {
    var s := p + rest;
    if p == [] {
      assert s == rest;
    } else if |s| < |t| {
      assert |rest| < |t|;
    } else {
      FirstNotTarget(p, rest, t);
      assert ReplaceAll(s, t, r) == [s[0]] + ReplaceAll(s[1..], t, r);
      NoneStartsInTail(p, t);
      ReplaceAllSkips(p[1..], rest, t, r);
      assert s[1..] == p[1..] + rest;
      assert [p[0]] + p[1..] == p;
    }
  }

  /** Every occurrence of `t` that joins the pieces is replaced, and nothing else. */
  lemma {:induction false} ReplaceAllJoin(pieces: seq<string>, t: string, r: string)
    requires t != [] && |pieces| >= 1
    requires forall k :: 0 <= k < |pieces| ==> NoneStartsIn(pieces[k], t)
    ensures ReplaceAll(JoinOn(pieces, t), t, r) == JoinOn(pieces, r)
  {
    if |pieces| == 1 {
      ReplaceAllSkips(pieces[0], [], t, r);
      assert pieces[0] + [] == pieces[0];
    } else {
      var tail := JoinOn(pieces[1..], t);
      ReplaceAllJoin(pieces[1..], t, r);
      assert (t + tail)[..|t|] == t;
      assert (t + tail)[|t|..] == tail;
      ReplaceAllSkips(pieces[0], t + tail, t, r);
      assert pieces[0] + t + tail == pieces[0] + (t + tail);
      assert pieces[0] + r + JoinOn(pieces[1..], r) == pieces[0] + (r + JoinOn(pieces[1..], r));
    }
  }

  /** The block-list step replaces every placeholder in the template with the list,
      and leaves the text between placeholders alone. */
  lemma FillBlockListEvery(pieces: seq<string>, blockListJson: string)
    requires |pieces| >= 1
    requires forall k :: 0 <= k < |pieces| ==> NoneStartsIn(pieces[k], BlockListPlaceholder)
    ensures FillBlockList(JoinOn(pieces, BlockListPlaceholder), Some(blockListJson))
            == JoinOn(pieces, blockListJson)
  {
    ReplaceAllJoin(pieces, BlockListPlaceholder, blockListJson);
  }

  // ---------------------------------------------------------------------------------
  // Script variants per language

  /** `buildVariant`'s text: the first `TWB_DEFAULT_LANG` declaration set to the
      sanitized tag. The bytes and their SHA-256 tag are not modelled. */
  function VariantText(template: string, requestedLang: string): string {
    ReplaceFirstDecl(template, LangConstPrefix, true, EscapeForJs(SanitizeLang(Some(requestedLang))))
  }

  /** A variant's language declaration denotes the sanitized tag; requesting the
      variant for an already sanitized tag declares that tag unchanged. */
  lemma VariantDeclaresLang(template: string, requestedLang: Option<string>)
    requires FindDecl(template, 0, LangConstPrefix, true).Some?
    ensures var m := FindDecl(template, 0, LangConstPrefix, true).value;
            var r := VariantText(template, SanitizeLang(requestedLang));
            m.0 + |LangConstPrefix| <= |r| && r[..m.0] == template[..m.0]
            && ReadLiteral(r[m.0 + |LangConstPrefix|..]) == Some((SanitizeLang(requestedLang), ";" + template[m.1..]))
  {
    SanitizeLangIdempotent(requestedLang);
    DeclaredValue(template, LangConstPrefix, true, SanitizeLang(requestedLang));
  }

  /** A sanitized tag needs no escaping. */
  lemma SanitizedNeedsNoEscape(rawLang: Option<string>)
    ensures EscapeForJs(SanitizeLang(rawLang)) == SanitizeLang(rawLang)
  {
    var lang := SanitizeLang(rawLang);
    SanitizeLangValid(rawLang);
    LangTagChars(lang);
    assert '\\' !in lang && '"' !in lang;
    EscapedPlain(lang);
    EscapeForJsCharwise(lang);
  }

  /** The replacement `buildVariant` hands to `replaceFirst` holds neither `\` nor `$`,
      so Java's replacement syntax inserts it literally. */
  lemma VariantReplacementLiteral(rawLang: Option<string>)
    ensures var rep := LangConstPrefix + EscapeForJs(SanitizeLang(rawLang)) + "\";";
            JavaReplacement(rep) == Some(rep)
  {
    var lang := SanitizeLang(rawLang);
    SanitizedNeedsNoEscape(rawLang);
    SanitizeLangValid(rawLang);
    LangTagChars(lang);
    var rep := LangConstPrefix + lang + "\";";
    assert forall i :: 0 <= i < |rep| ==> rep[i] != '\\' && rep[i] != '$' by {
      forall i | 0 <= i < |rep|
        ensures rep[i] != '\\' && rep[i] != '$'
      {
        if |LangConstPrefix| <= i < |LangConstPrefix| + |lang| {
          assert rep[i] == lang[i - |LangConstPrefix|];
        }
      }
    }
    JavaReplacementPlain(rep, []);
    assert rep + [] == rep;
  }

  // ---------------------------------------------------------------------------------
  // The `lang` query parameter

  /** The text before the first '=' of a query part, or all of it. */
  function KeyOf(part: string): string {
    var eq := IndexOf(part, '=');
    if eq >= 0 then part[..eq] else part
  }

  /** The text after the first '=' of a query part, or "" when there is none. */
  function ValueOf(part: string): string {
    var eq := IndexOf(part, '=');
    if eq >= 0 then part[eq + 1..] else ""
  }

  /** A non-empty part whose decoded key is "lang" in any case. */
  predicate IsLangPart(part: string, decode: string -> string) {
    part != [] && EqualsIgnoreCase("lang", decode(KeyOf(part)))
  }

  /** The index of the first `lang` part. */
  function FirstLangPart(parts: seq<string>, decode: string -> string): (k: Option<nat>)
    ensures k.Some? ==> k.value < |parts| && IsLangPart(parts[k.value], decode)
    ensures k.Some? ==> forall j :: 0 <= j < k.value ==> !IsLangPart(parts[j], decode)
    ensures k.None? ==> forall j :: 0 <= j < |parts| ==> !IsLangPart(parts[j], decode)
  {
    if parts == [] then None
    else if IsLangPart(parts[0], decode) then Some(0)
    else
      match FirstLangPart(parts[1..], decode)
      case None => None
      case Some(j) => Some(j + 1)
  }

  /** `extractLang` on the raw query string (`None` for a request without one), with
      `decode` standing for `decodeSafe`. */
  function LangOfQuery(query: Option<string>, decode: string -> string): string {
    if query.None? || query.value == [] then DefaultLang
    else
      var parts := JavaSplit(query.value, '&');
      match FirstLangPart(parts, decode)
      case None => DefaultLang
      case Some(k) => SanitizeLang(Some(decode(ValueOf(parts[k]))))
  }

  /** The extracted tag is always well-formed, and serving it again through
      `buildVariant`'s own sanitizing changes nothing. */
  lemma LangOfQueryValid(query: Option<string>, decode: string -> string)
    ensures var lang := LangOfQuery(query, decode);
            LangTag(lang) && |lang| <= MaxLangLength && SanitizeLang(Some(lang)) == lang
  {
    var lang := LangOfQuery(query, decode);
    if lang == DefaultLang {
      SanitizeLangValid(None);
      SanitizeLangIdempotent(None);
    } else {
      var parts := JavaSplit(query.value, '&');
      var k := FirstLangPart(parts, decode).value;
      SanitizeLangValid(Some(decode(ValueOf(parts[k]))));
      SanitizeLangIdempotent(Some(decode(ValueOf(parts[k]))));
    }
  }

  // ---------------------------------------------------------------------------------
  // The block list

  /** `BlockEntry(id, name)`. */
  datatype BlockEntry = BlockEntry(id: string, name: string)

  /** One entry of the block list: `["<name>","<id>"]`, both escaped. */
  function EntryJson(b: BlockEntry): string {
    "[\"" + EscapeForJs(b.name) + "\",\"" + EscapeForJs(b.id) + "\"]"
  }

  function EntriesJson(blocks: seq<BlockEntry>): (entries: seq<string>)
    ensures |entries| == |blocks|
  {
    seq(|blocks|, i requires 0 <= i < |blocks| => EntryJson(blocks[i]))
  }

  /** `buildBlockListJson`: the entries in list order between brackets, separated by
      commas. */
  function BlockListJson(blocks: seq<BlockEntry>): string {
    "[" + JoinWith(EntriesJson(blocks), ',') + "]"
  }

  /** Reads one `["<name>","<id>"]` entry and returns the text after it. */
  function ParseEntry(t: string): (r: Option<(BlockEntry, string)>)
    ensures r.Some? ==> |r.value.1| < |t|
  {
    if !StartsWith(t, "[\"") then None
    else
      match ReadLiteral(t[2..])
      case None => None
      case Some(first) =>
        if !StartsWith(first.1, ",\"") then None
        else
          match ReadLiteral(first.1[2..])
          case None => None
          case Some(second) =>
            if second.1 == [] || second.1[0] != ']' then None
            else Some((BlockEntry(second.0, first.0), second.1[1..]))
  }

  /** Reads comma-separated entries up to and including the closing bracket. */
  function ParseEntries(t: string): Option<seq<BlockEntry>>
    decreases |t|
  {
    match ParseEntry(t)
    case None => None
    case Some(p) =>
      if p.1 == "]" then Some([p.0])
      else if p.1 == [] || p.1[0] != ',' then None
      else
        match ParseEntries(p.1[1..])
        case None => None
        case Some(more) => Some([p.0] + more)
  }

  /** Reads a block list back. */
  function ParseBlockList(json: string): Option<seq<BlockEntry>> {
    if json == "[]" then Some([])
    else if json == [] || json[0] != '[' then None
    else ParseEntries(json[1..])
  }

  /** `ParseEntry` taken one step at a time. */
  lemma ParseEntrySteps(t: string, first: (string, string), second: (string, string))
    requires StartsWith(t, "[\"") && ReadLiteral(t[2..]) == Some(first)
    requires StartsWith(first.1, ",\"") && ReadLiteral(first.1[2..]) == Some(second)
    requires second.1 != [] && second.1[0] == ']'
    ensures ParseEntry(t) == Some((BlockEntry(second.0, first.0), second.1[1..]))
  {
  }

  lemma ParseEntryOf(b: BlockEntry, tail: string)
    ensures ParseEntry(EntryJson(b) + tail) == Some((b, tail))
  {
    var name := EscapeForJs(b.name);
    var id := EscapeForJs(b.id);
    var afterId := "]" + tail;
    var afterName := ",\"" + (id + "\"" + afterId);
    var t := EntryJson(b) + tail;
    assert t == "[\"" + (name + "\"" + afterName);
    assert t[2..] == name + "\"" + afterName;
    EscapeForJsRoundTrip(b.name, afterName);
    assert afterName[2..] == id + "\"" + afterId;
    EscapeForJsRoundTrip(b.id, afterId);
    ParseEntrySteps(t, (b.name, afterName), (b.id, afterId));
  }

  /** `ParseEntries` past one entry and its comma. */
  lemma ParseEntriesStep(t: string, p: (BlockEntry, string), more: seq<BlockEntry>)
    requires ParseEntry(t) == Some(p)
    requires p.1 != [] && p.1[0] == ',' && ParseEntries(p.1[1..]) == Some(more)
    ensures ParseEntries(t) == Some([p.0] + more)
  {
    assert p.1 != "]";
  }

  lemma {:induction false} ParseEntriesOf(blocks: seq<BlockEntry>)
    requires |blocks| >= 1
    ensures ParseEntries(JoinWith(EntriesJson(blocks), ',') + "]") == Some(blocks)
  {
    var entries := EntriesJson(blocks);
    assert entries[0] == EntryJson(blocks[0]);
    if |blocks| == 1 {
      ParseEntryOf(blocks[0], "]");
      assert blocks == [blocks[0]];
    } else {
      var rest := JoinWith(EntriesJson(blocks[1..]), ',');
      assert entries[1..] == EntriesJson(blocks[1..]);
      assert JoinWith(entries, ',') == entries[0] + [','] + rest;
      var tail := [','] + (rest + "]");
      assert JoinWith(entries, ',') + "]" == EntryJson(blocks[0]) + tail;
      ParseEntryOf(blocks[0], tail);
      assert tail[1..] == rest + "]";
      ParseEntriesOf(blocks[1..]);
      ParseEntriesStep(EntryJson(blocks[0]) + tail, (blocks[0], tail), blocks[1..]);
      assert [blocks[0]] + blocks[1..] == blocks;
    }
  }

  /** The block list reads back as the blocks it was built from, in order; an empty
      list is "[]". */
  lemma BlockListRoundTrip(blocks: seq<BlockEntry>)
    ensures ParseBlockList(BlockListJson(blocks)) == Some(blocks)
    ensures blocks == [] <==> BlockListJson(blocks) == "[]"
  {
    var json := BlockListJson(blocks);
    if blocks != [] {
      var entries := JoinWith(EntriesJson(blocks), ',');
      ParseEntriesOf(blocks);
      ParseEntryOf(blocks[0], entries[|EntryJson(blocks[0])|..] + "]");
      assert json[1..] == entries + "]";
      assert |json| > 2 by {
        JoinWithHead(EntriesJson(blocks), ',');
      }
    }
  }

  /** A join of several pieces starts with the first one. */
  lemma {:induction false} JoinWithHead(parts: seq<string>, sep: char)
    requires parts != []
    ensures |JoinWith(parts, sep)| >= |parts[0]|
  {
  }

  // ---------------------------------------------------------------------------------
  // Responses

  /** What `serveJs` sends: a status and whether the variant's bytes follow it. */
  datatype Response = Response(status: nat, withBody: bool)

  /** The status decision of `serveJs` for the request method `verb`, the `If-None-Match`
      header and the variant's entity tag. */
  function ServeStatus(verb: string, ifNoneMatch: Option<string>, etag: string): (r: Response)
    ensures r.status == 204 <==> verb == "OPTIONS"
    ensures r.status == 304 <==> verb == "GET" && ifNoneMatch == Some(etag)
    ensures r.status in {200, 204, 304}
    ensures r.withBody <==> r.status == 200 && verb != "HEAD"
  {
    if verb == "OPTIONS" then Response(204, false)
    else if ifNoneMatch == Some(etag) && verb == "GET" then Response(304, false)
    else Response(200, verb != "HEAD")
  }

  // ---------------------------------------------------------------------------------
  // `replaceFirst` as written

  /** How `Matcher.replaceFirst` reads its replacement string: a backslash makes the
      next character literal and a trailing backslash is an error; a `$` starts a group
      reference, which is taken here as an error too (only `$0` would not be one). */
  function JavaReplacement(rep: string): Option<string> {
    if rep == [] then Some([])
    else if rep[0] == '\\' then
      if |rep| < 2 then None
      else
        match JavaReplacement(rep[2..])
        case None => None
        case Some(r) => Some([rep[1]] + r)
    else if rep[0] == '$' then None
    else
      match JavaReplacement(rep[1..])
      case None => None
      case Some(r) => Some([rep[0]] + r)
  }

  /** The `WS_DEFAULT` step as written: the escaped value goes through `replaceFirst`'s
      replacement syntax; `None` when that throws. */
  function WithWsDefaultAsWritten(raw: string, wsDefault: Option<string>): Option<string> {
    if wsDefault.Some? && !IsBlank(wsDefault.value) then
      match FindDecl(raw, 0, WsDefaultPrefix, false)
      case None => Some(raw)
      case Some(m) =>
        match JavaReplacement(WsDefaultPrefix + EscapeForJs(wsDefault.value) + "\";")
        case None => None
        case Some(rep) => Some(raw[..m.0] + rep + raw[m.1..])
    else Some(raw)
  }

  /** A `wsDefault` holding a double quote: the replacement syntax eats the backslash
      that escaped the quote, so the declared literal ends at that quote and denotes
      only `a`, leaving `b";` as stray script text. */
  lemma QuoteInWsDefault()
    ensures var raw := WsDefaultPrefix + "x\";";
            var written := WithWsDefaultAsWritten(raw, Some("a\"b"));
            written == Some(WsDefaultPrefix + "a\"b\";")
            && ReadLiteral(written.value[|WsDefaultPrefix|..]) == Some(("a", "b\";"))
  {
    var raw := WsDefaultPrefix + "x\";";
    DeclarationFound(raw);
    assert !IsWhitespace("a\"b"[0]);
    QuoteReplacement();
    var text := WsDefaultPrefix + "a\"b\";";
    assert raw[..0] + text + raw[|raw|..] == text;
    assert WithWsDefaultAsWritten(raw, Some("a\"b")) == Some(text);
    assert text[|WsDefaultPrefix|..] == "a\"b\";";
    assert ReadLiteral("\"b\";") == Some(("", "b\";"));
    assert "a\"b\";"[1..] == "\"b\";";
    assert ['a'] + "" == "a";
  }

  lemma DeclarationFound(raw: string)
    requires raw == WsDefaultPrefix + "x\";"
    ensures FindDecl(raw, 0, WsDefaultPrefix, false) == Some((0, |raw|))
  {
    var k := |WsDefaultPrefix|;
    assert raw[0..k] == WsDefaultPrefix;
    assert raw[k] == 'x' && raw[k + 1] == '"' && raw[k + 2] == ';';
    assert NextQuote(raw, k) == Some(k + 1);
    assert DeclEndAt(raw, 0, WsDefaultPrefix, false) == Some(|raw|);
  }

  lemma QuoteReplacement()
    ensures JavaReplacement(WsDefaultPrefix + EscapeForJs("a\"b") + "\";") == Some(WsDefaultPrefix + "a\"b\";")
  {
    var safe := EscapeForJs("a\"b");
    assert safe == "a\\\"b" by {
      EscapeForJsCharwise("a\"b");
      assert Escaped("b") == "b";
      assert Escaped("\"b") == "\\\"b";
    }
    var escapedQuote := "\\\"b\";";
    assert JavaReplacement(escapedQuote) == Some("\"b\";") by {
      JavaReplacementPlain("b\";", []);
      assert "b\";" + [] == "b\";";
      assert escapedQuote[2..] == "b\";";
      assert escapedQuote[0] == '\\' && escapedQuote[1] == '"';
      assert [escapedQuote[1]] + "b\";" == "\"b\";";
    }
    assert JavaReplacement(safe + "\";") == Some("a\"b\";") by {
      JavaReplacementPlain("a", escapedQuote);
      assert safe + "\";" == "a" + escapedQuote;
      assert "a" + "\"b\";" == "a\"b\";";
    }
    JavaReplacementPlain(WsDefaultPrefix, safe + "\";");
    assert WsDefaultPrefix + safe + "\";" == WsDefaultPrefix + (safe + "\";");
  }

  /** Characters other than `\` and `$` pass through the replacement syntax. */
  lemma {:induction false} JavaReplacementPlain(p: string, rest: string)
    requires forall i :: 0 <= i < |p| ==> p[i] != '\\' && p[i] != '$'
    ensures JavaReplacement(rest).None? ==> JavaReplacement(p + rest).None?
    ensures JavaReplacement(rest).Some? ==> JavaReplacement(p + rest) == Some(p + JavaReplacement(rest).value)
  {
    if p != [] {
      JavaReplacementPlain(p[1..], rest);
      assert (p + rest)[0] == p[0];
      assert (p + rest)[1..] == p[1..] + rest;
      if JavaReplacement(rest).Some? {
        var r := JavaReplacement(rest).value;
        assert [p[0]] + (p[1..] + r) == p + r;
      }
    } else {
      assert p + rest == rest;
      if JavaReplacement(rest).Some? {
        assert p + JavaReplacement(rest).value == JavaReplacement(rest).value;
      }
    }
  }
}
