/**
 * The plugin's pure helpers: the agent registry key, the direction words the agent
 * commands accept, the choice of the host that browser clients connect to, the default
 * WebSocket URL, and the display names of block materials.
 */
module PluginHelpers {
  import opened Basics
  import opened Text

  /** `s.trim().toLowerCase(Locale.ROOT)`, the canonical form of owner names and
      direction words. */
  function TrimLower(s: string): string {
    Lower(Trim(s))
  }

  /** Canonicalising twice changes nothing more. */
  lemma TrimLowerIdempotent(s: string)
    ensures TrimLower(TrimLower(s)) == TrimLower(s)
  {
    LowerTrim(Trim(s));
    TrimIdempotent(s);
    LowerFacts(Trim(s));
  }

  // ---------------------------------------------------------------------------------
  // agentMapKey

  /** The owner half of the key: trimmed and lower-cased, null as empty. */
  function OwnerPart(ownerName: Option<string>): string {
    match ownerName
    case None => ""
    case Some(o) => TrimLower(o)
  }

  /** The agent half of the key: trimmed, case kept, null as empty. */
  function AgentPart(agentId: Option<string>): string {
    match agentId
    case None => ""
    case Some(a) => Trim(a)
  }

  /** `agentMapKey`: the key of one player's agent in the registry maps. */
  function AgentMapKey(ownerName: Option<string>, agentId: Option<string>): string {
    OwnerPart(ownerName) + "." + AgentPart(agentId)
  }

  /** Owner names that differ only in letter case or surrounding blanks address the
      same agent. */
  lemma AgentMapKeyIgnoresOwnerCase(o1: string, o2: string, agentId: Option<string>)
    requires EqualsIgnoreCase(Trim(o1), Trim(o2))
    ensures AgentMapKey(Some(o1), agentId) == AgentMapKey(Some(o2), agentId)
  {
  }

  /** Agent ids are case-sensitive: the agent half of the key is the trimmed id itself. */
  lemma AgentMapKeyKeepsIdCase(owner: Option<string>, a1: string, a2: string)
    requires Trim(a1) != Trim(a2)
    ensures AgentMapKey(owner, Some(a1)) != AgentMapKey(owner, Some(a2))
  {
    var k1 := AgentMapKey(owner, Some(a1));
    var k2 := AgentMapKey(owner, Some(a2));
    var n := |OwnerPart(owner)| + 1;
    assert k1[n..] == Trim(a1);
    assert k2[n..] == Trim(a2);
  }

  /** When owner names contain no dot the key determines both halves, so distinct
      (owner, agent) pairs never share an entry. */
  lemma AgentMapKeyInjective(o1: Option<string>, a1: Option<string>, o2: Option<string>, a2: Option<string>)
    requires '.' !in OwnerPart(o1) && '.' !in OwnerPart(o2)
    requires AgentMapKey(o1, a1) == AgentMapKey(o2, a2)
    ensures OwnerPart(o1) == OwnerPart(o2) && AgentPart(a1) == AgentPart(a2)
  {
    SplitAtFirstDot(OwnerPart(o1), AgentPart(a1), OwnerPart(o2), AgentPart(a2));
  }

  lemma SplitAtFirstDot(p1: string, t1: string, p2: string, t2: string)
    requires '.' !in p1 && '.' !in p2
    requires p1 + "." + t1 == p2 + "." + t2
    ensures p1 == p2 && t1 == t2
  {
    var k := p1 + "." + t1;
    IndexOfBefore(p1, '.', t1);
    IndexOfBefore(p2, '.', t2);
    assert p1 == k[..|p1|] == p2;
    assert t1 == k[|p1| + 1..] == t2;
  }

  /** `String.indexOf(char)`: -1 when absent. */
  function IndexOf(s: string, c: char): (k: int)
    ensures -1 <= k < |s|
    ensures k >= 0 ==> s[k] == c
    ensures forall j :: 0 <= j < |s| && (k < 0 || j < k) ==> s[j] != c
  {
    if s == [] then -1
    else if s[0] == c then 0
    else
      var k := IndexOf(s[1..], c);
      if k < 0 then -1 else k + 1
  }

  lemma {:induction false} IndexOfBefore(a: string, c: char, b: string)
    requires c !in a
    ensures IndexOf(a + [c] + b, c) == |a|
  {
    if a != [] {
      IndexOfBefore(a[1..], c, b);
      assert (a + [c] + b)[1..] == a[1..] + [c] + b;
    }
  }

  /** Without that condition the key is ambiguous: owner "a.b" with agent "c" and owner
      "a" with agent "b.c" share one entry. */
  lemma AgentMapKeyCollision()
    ensures AgentMapKey(Some("a.b"), Some("c")) == AgentMapKey(Some("a"), Some("b.c"))
  {
    var ownerLong, ownerShort, agentShort, agentLong := "a.b", "a", "c", "b.c";
    assert OwnerPart(Some(ownerLong)) == ownerLong by { CanonicalWord(ownerLong); }
    assert OwnerPart(Some(ownerShort)) == ownerShort by { CanonicalWord(ownerShort); }
    assert AgentPart(Some(agentShort)) == agentShort by { TrimNoop(agentShort); }
    assert AgentPart(Some(agentLong)) == agentLong by { TrimNoop(agentLong); }
    assert ownerLong + "." + agentShort == ownerShort + "." + agentLong;
  }

  /** A word of lower-case letters and dots is already canonical. */
  lemma CanonicalWord(w: string)
    requires forall i :: 0 <= i < |w| ==> 'a' <= w[i] <= 'z' || w[i] == '.'
    ensures TrimLower(w) == w
  {
    if w != [] {
      assert !IsTrimmable(w[0]) && !IsTrimmable(w[|w| - 1]);
    }
    TrimNoop(w);
    LowerFacts(w);
  }

  // ---------------------------------------------------------------------------------
  // Directions

  /** The direction words of the agent commands. */
  datatype Direction = Forward | Back | Right | Left | Up | Down {

    /** The word for this direction, as the commands spell it. */
    function Name(): string {
      match this
      case Forward => "forward"
      case Back => "back"
      case Right => "right"
      case Left => "left"
      case Up => "up"
      case Down => "down"
    }

    /** The four directions `move` accepts. */
    predicate IsHorizontal() {
      !Up? && !Down?
    }

    /** The two directions `rotate` accepts. */
    predicate IsTurn() {
      Left? || Right?
    }
  }

  /** The direction named by a word already trimmed and lower-cased, if any. */
  function DirectionNamed(word: string): (r: Option<Direction>)
    ensures r.Some? ==> r.value.Name() == word
    ensures r.None? ==> forall d: Direction :: d.Name() != word
  {
    if word == "forward" then Some(Forward)
    else if word == "back" then Some(Back)
    else if word == "right" then Some(Right)
    else if word == "left" then Some(Left)
    else if word == "up" then Some(Up)
    else if word == "down" then Some(Down)
    else None
  }

  /** `normalizeDirection`: the trimmed, lower-cased word when it is one of the four
      horizontal directions, otherwise null. */
  function NormalizeDirection(direction: Option<string>): (r: Option<Direction>)
    ensures r.Some? <==> direction.Some? && exists d: Direction :: d.IsHorizontal() && d.Name() == TrimLower(direction.value)
    ensures r.Some? ==> r.value.IsHorizontal() && r.value.Name() == TrimLower(direction.value)
  {
    if direction.None? then None
    else
      var d := DirectionNamed(TrimLower(direction.value));
      if d.Some? && d.value.IsHorizontal() then d else None
  }

  /** `normalizeTurnDirection`: "left" or "right" after trimming and lower-casing,
      otherwise null. */
  function NormalizeTurnDirection(direction: Option<string>): (r: Option<Direction>)
    ensures r.Some? <==> direction.Some? && exists d: Direction :: d.IsTurn() && d.Name() == TrimLower(direction.value)
    ensures r.Some? ==> r.value.IsTurn() && r.value.Name() == TrimLower(direction.value)
  {
    if direction.None? then None
    else
      var d := DirectionNamed(TrimLower(direction.value));
      if d.Some? && d.value.IsTurn() then d else None
  }

  /** The word `resolvePlaceOffset` accepts: "up", "down" or one of the horizontal
      directions, after trimming and lower-casing. */
  function PlaceDirection(direction: Option<string>): (r: Option<Direction>)
    ensures r.Some? <==> direction.Some? && exists d: Direction :: d.Name() == TrimLower(direction.value)
    ensures r.Some? ==> r.value.Name() == TrimLower(direction.value)
  {
    if direction.None? then None else DirectionNamed(TrimLower(direction.value))
  }

  /** Every direction's own word is accepted back, by the normaliser whose set it
      belongs to; the normalisers ignore case and surrounding blanks. */
  lemma DirectionRoundTrip(d: Direction)
    ensures PlaceDirection(Some(d.Name())) == Some(d)
    ensures NormalizeDirection(Some(d.Name())) == if d.IsHorizontal() then Some(d) else None
    ensures NormalizeTurnDirection(Some(d.Name())) == if d.IsTurn() then Some(d) else None
  {
    NameIsCanonical(d);
    NameNamesDirection(d);
  }

  lemma NameIsCanonical(d: Direction)
    ensures TrimLower(d.Name()) == d.Name()
  {
    CanonicalWord(d.Name());
  }

  lemma NameNamesDirection(d: Direction)
    ensures DirectionNamed(d.Name()) == Some(d)
  {
  }

  /** The normalisers ignore case and surrounding blanks. */
  lemma DirectionIgnoresCase(s: string)
    ensures PlaceDirection(Some(s)) == PlaceDirection(Some(TrimLower(s)))
    ensures NormalizeDirection(Some(s)) == NormalizeDirection(Some(TrimLower(s)))
    ensures NormalizeTurnDirection(Some(s)) == NormalizeTurnDirection(Some(TrimLower(s)))
  {
    var w := TrimLower(s);
    TrimLowerIdempotent(s);
    assert DirectionNamed(TrimLower(w)) == DirectionNamed(w);
  }

  // ---------------------------------------------------------------------------------
  // Hosts and the default WebSocket URL

  /** `isAnyAddress`: a wildcard bind address that a browser cannot connect to. */
  predicate IsAnyAddress(host: string) {
    IsWildcard(Trim(host))
  }

  /** The wildcard addresses, as written after trimming. */
  predicate IsWildcard(normalized: string) {
    normalized == "0.0.0.0" || normalized == "::" || normalized == "::0" || normalized == "*"
  }

  /** `firstNonBlank`: the first candidate that is present and not blank, as given. */
  method FirstNonBlank(candidates: seq<Option<string>>) returns (r: Option<string>)
    ensures r.None? <==> forall i :: 0 <= i < |candidates| ==> candidates[i].None? || IsBlank(candidates[i].value)
    ensures r.Some? ==> exists i :: (0 <= i < |candidates| && candidates[i] == r && !IsBlank(r.value)
      && forall j :: 0 <= j < i ==> candidates[j].None? || IsBlank(candidates[j].value))
  {
    var i := 0;
    while i < |candidates|
      invariant 0 <= i <= |candidates|
      invariant forall j :: 0 <= j < i ==> candidates[j].None? || IsBlank(candidates[j].value)
    {
      var c := candidates[i];
      if c.Some? && !IsBlank(c.value) {
        return c;
      }
      i := i + 1;
    }
    return None;
  }

  /** A candidate `chooseClientHost` would take. */
  predicate UsableHost(candidate: Option<string>) {
    candidate.Some? && !IsBlank(candidate.value) && !IsWildcard(Trim(candidate.value))
  }

  const LoopbackHost := "127.0.0.1"

  /** `chooseClientHost`: the first usable candidate, trimmed, or the loopback address
      when none is usable. The result is never a wildcard address. */
  method ChooseClientHost(candidates: seq<Option<string>>) returns (host: string)
    ensures !IsAnyAddress(host)
    ensures (forall i :: 0 <= i < |candidates| ==> !UsableHost(candidates[i])) ==> host == LoopbackHost
    ensures (exists i :: 0 <= i < |candidates| && UsableHost(candidates[i])) ==>
      exists i :: (0 <= i < |candidates| && UsableHost(candidates[i]) && host == Trim(candidates[i].value)
        && forall j :: 0 <= j < i ==> !UsableHost(candidates[j]))
  {
    var i := 0;
    while i < |candidates|
      invariant 0 <= i <= |candidates|
      invariant forall j :: 0 <= j < i ==> !UsableHost(candidates[j])
    {
      if UsableHost(candidates[i]) {
        UsableHostIsConcrete(candidates[i].value);
        return Trim(candidates[i].value);
      }
      i := i + 1;
    }
    LoopbackIsConcrete();
    return LoopbackHost;
  }

  /** Trimming a host that is not a wildcard yields a host Java's check also rejects
      as a wildcard. */
  lemma UsableHostIsConcrete(c: string)
    requires UsableHost(Some(c))
    ensures !IsAnyAddress(Trim(c))
  {
    TrimIdempotent(c);
  }

  lemma LoopbackIsConcrete()
    ensures !IsAnyAddress(LoopbackHost)
  {
    TrimNoop(LoopbackHost);
  }

  predicate Bracketed(h: string) {
    StartsWith(h, "[") && EndsWith(h, "]")
  }

  /** The configured host, or the loopback address when it is null or blank. */
  function EffectiveHost(host: Option<string>): (h: string)
    ensures host.Some? && !IsBlank(host.value) ==> h == host.value
  {
    if host.None? || IsBlank(host.value) then LoopbackHost else host.value
  }

  /** A host containing ':' (an IPv6 literal) in brackets, unless it already is. */
  function BracketHost(h: string): (r: string)
    ensures ':' in r ==> Bracketed(r)
    ensures r == h || r == "[" + h + "]"
    ensures r != h <==> ':' in h && !Bracketed(h)
  {
    if ':' in h && !Bracketed(h) then "[" + h + "]" else h
  }

  /** `buildWsDefaultUrl`. */
  function BuildWsDefaultUrl(host: Option<string>, port: int): (url: string)
    ensures StartsWith(url, "ws://")
  {
    "ws://" + BracketHost(EffectiveHost(host)) + ":" + IntToString(port)
  }

  /** `String.lastIndexOf(char)`: -1 when absent. */
  function LastIndexOf(s: string, c: char): (k: int)
    ensures -1 <= k < |s|
    ensures k >= 0 ==> s[k] == c
    ensures forall j :: k < j < |s| ==> s[j] != c
  {
    if s == [] then -1
    else if s[|s| - 1] == c then |s| - 1
    else LastIndexOf(s[..|s| - 1], c)
  }

  lemma {:induction false} LastIndexOfAfter(a: string, c: char, b: string)
    requires forall j :: 0 <= j < |b| ==> b[j] != c
    ensures LastIndexOf(a + [c] + b, c) == |a|
  {
    if b != [] {
      LastIndexOfAfter(a, c, b[..|b| - 1]);
      assert (a + [c] + b)[..|a + [c] + b| - 1] == a + [c] + b[..|b| - 1];
    }
  }

  /** The URL splits back into its parts at its last ':': the host as announced, in
      brackets whenever it contains ':', and the port in decimal, with a leading '-'
      when the port is negative. */
  lemma WsUrlParts(host: Option<string>, port: int)
    ensures var authority := BuildWsDefaultUrl(host, port)[5..];
            var k := LastIndexOf(authority, ':');
            && 0 <= k
            && authority[..k] == BracketHost(EffectiveHost(host))
            && (':' in authority[..k] ==> Bracketed(authority[..k]))
            && (port >= 0 ==> AllDigits(authority[k + 1..]) && DecimalValue(authority[k + 1..]) == port)
            && (port < 0 ==> |authority| > k + 1 && authority[k + 1] == '-'
                             && AllDigits(authority[k + 2..]) && DecimalValue(authority[k + 2..]) == -port)
  {
    var h := BracketHost(EffectiveHost(host));
    var authority := h + [':'] + IntToString(port);
    assert BuildWsDefaultUrl(host, port) == "ws://" + authority;
    assert BuildWsDefaultUrl(host, port)[5..] == authority;
    SplitSigned(h, port);
  }

  /** A host, ':' and a signed decimal split back at the last ':'. */
  lemma SplitSigned(h: string, n: int)
    ensures var authority := h + [':'] + IntToString(n);
            var k := LastIndexOf(authority, ':');
            && k == |h| && authority[..k] == h
            && (n >= 0 ==> AllDigits(authority[k + 1..]) && DecimalValue(authority[k + 1..]) == n)
            && (n < 0 ==> |authority| > k + 1 && authority[k + 1] == '-'
                          && AllDigits(authority[k + 2..]) && DecimalValue(authority[k + 2..]) == -n)
  {
    var tail := IntToString(n);
    SignedDecimal(n);
    SplitAtLastColon(h, tail);
    var authority := h + [':'] + tail;
    if n < 0 {
      assert authority[|h| + 2..] == tail[1..];
    }
  }

  /** `Integer.toString`: decimal digits, after a '-' when negative, and no ':'. */
  lemma SignedDecimal(n: int)
    ensures var t := IntToString(n);
            && (forall j :: 0 <= j < |t| ==> t[j] != ':')
            && (n >= 0 ==> AllDigits(t) && DecimalValue(t) == n)
            && (n < 0 ==> |t| > 0 && t[0] == '-' && AllDigits(t[1..]) && DecimalValue(t[1..]) == -n)
  {
    var magnitude := if n < 0 then -n else n;
    var digits := NatToString(magnitude);
    NatToStringRoundTrip(magnitude);
    if n < 0 {
      assert IntToString(n) == "-" + digits;
      assert IntToString(n)[1..] == digits;
    }
  }

  /** A host, ':' and a text without ':' split back at the last ':'. */
  lemma SplitAtLastColon(h: string, tail: string)
    requires forall j :: 0 <= j < |tail| ==> tail[j] != ':'
    ensures var authority := h + [':'] + tail;
            && LastIndexOf(authority, ':') == |h|
            && authority[..|h|] == h
            && authority[|h| + 1..] == tail
  {
    var authority := h + [':'] + tail;
    LastIndexOfAfter(h, ':', tail);
    assert authority[..|h|] == h;
    assert authority[|h| + 1..] == tail;
  }

  // ---------------------------------------------------------------------------------
  // humanizeMaterialName

  /** A part with its first character upper-cased. */
  function Capitalize(part: string): (r: string)
    ensures |r| == |part|
    ensures part != [] ==> r[0] == UpperChar(part[0]) && r[1..] == part[1..]
  {
    if part == [] then [] else [UpperChar(part[0])] + part[1..]
  }

  /** The capitalised non-blank parts, in order. */
  function CapitalizedWords(parts: seq<string>): (words: seq<string>)
    ensures |words| <= |parts|
    ensures forall i :: 0 <= i < |words| ==> words[i] != []
  {
    if parts == [] then []
    else
      var last := parts[|parts| - 1];
      CapitalizedWords(parts[..|parts| - 1]) + (if IsBlank(last) then [] else [Capitalize(last)])
  }

  /** What `humanizeMaterialName` returns: empty for a null or blank key, otherwise
      the capitalised non-blank `_`-separated parts joined by single spaces. */
  function Humanized(key: Option<string>): string {
    if key.None? || IsBlank(key.value) then ""
    else JoinWith(CapitalizedWords(JavaSplit(key.value, '_')), ' ')
  }

  /** `humanizeMaterialName`, building the name part by part. */
  method HumanizeMaterialName(key: Option<string>) returns (name: string)
    ensures name == Humanized(key)
  {
    if key.None? || IsBlank(key.value) {
      return "";
    }
    var parts := JavaSplit(key.value, '_');
    name := "";
    var i := 0;
    while i < |parts|
      invariant 0 <= i <= |parts|
      invariant name == JoinWith(CapitalizedWords(parts[..i]), ' ')
      invariant name == [] <==> CapitalizedWords(parts[..i]) == []
    {
      var part := parts[i];
      ghost var words := CapitalizedWords(parts[..i]);
      assert parts[..i + 1][..i] == parts[..i];
      assert CapitalizedWords(parts[..i + 1]) == words + (if IsBlank(part) then [] else [Capitalize(part)]);
      if !IsBlank(part) {
        ghost var capital := Capitalize(part);
        if name != [] {
          JoinWithSnoc(words, capital, ' ');
          name := name + [' '];
        } else {
          assert words + [capital] == [capital];
        }
        ghost var before := name;
        name := name + [UpperChar(part[0])];
        if |part| > 1 {
          name := name + part[1..];
        }
        assert name == before + capital;
        assert name == JoinWith(words + [capital], ' ');
      } else {
        assert words + [] == words;
      }
      i := i + 1;
    }
    assert parts[..|parts|] == parts;
  }

  /** The characters of a material key: lower-case ASCII letters and digits. */
  predicate IsKeyChar(c: char) {
    'a' <= c <= 'z' || '0' <= c <= '9'
  }

  /** A material key word: non-empty, made of key characters only. */
  predicate IsKeyWord(w: string) {
    w != [] && forall i :: 0 <= i < |w| ==> IsKeyChar(w[i])
  }

  /** A display name read back as a key: spaces to underscores, lower-cased. */
  function KeyOfName(name: string): string {
    Lower(ReplaceChar(name, ' ', '_'))
  }

  lemma KeyOfNameAppend(a: string, b: string)
    ensures KeyOfName(a + b) == KeyOfName(a) + KeyOfName(b)
  {
    assert ReplaceChar(a + b, ' ', '_') == ReplaceChar(a, ' ', '_') + ReplaceChar(b, ' ', '_');
    LowerAppend(ReplaceChar(a, ' ', '_'), ReplaceChar(b, ' ', '_'));
  }

  lemma KeyOfCapitalized(w: string)
    requires IsKeyWord(w)
    ensures KeyOfName(Capitalize(w)) == w
  {
    var k := KeyOfName(Capitalize(w));
    LowerAt(ReplaceChar(Capitalize(w), ' ', '_'));
    forall i | 0 <= i < |w|
      ensures k[i] == w[i]
    {
      assert IsKeyChar(w[i]);
    }
  }

  lemma {:induction false} CapitalizedKeyWords(ws: seq<string>)
    requires forall i :: 0 <= i < |ws| ==> IsKeyWord(ws[i])
    ensures |CapitalizedWords(ws)| == |ws|
    ensures forall i :: 0 <= i < |ws| ==> CapitalizedWords(ws)[i] == Capitalize(ws[i])
  {
    if ws != [] {
      var last := ws[|ws| - 1];
      CapitalizedKeyWords(ws[..|ws| - 1]);
      assert !IsBlank(last) by {
        assert IsKeyChar(last[0]);
      }
    }
  }

  lemma {:induction false} KeyOfJoinedWords(ws: seq<string>)
    requires ws != []
    requires forall i :: 0 <= i < |ws| ==> IsKeyWord(ws[i])
    ensures KeyOfName(JoinWith(CapitalizedWords(ws), ' ')) == JoinWith(ws, '_')
  {
    CapitalizedKeyWords(ws);
    var last := ws[|ws| - 1];
    var init := ws[..|ws| - 1];
    if init == [] {
      assert ws == [last];
      KeyOfCapitalized(last);
    } else {
      assert init + [last] == ws;
      KeyOfJoinedWords(init);
      CapitalizedKeyWords(init);
      var caps := CapitalizedWords(ws);
      assert caps == CapitalizedWords(init) + [Capitalize(last)];
      JoinWithSnoc(CapitalizedWords(init), Capitalize(last), ' ');
      JoinWithSnoc(init, last, '_');
      KeyOfNameAppend(JoinWith(CapitalizedWords(init), ' ') + [' '], Capitalize(last));
      KeyOfNameAppend(JoinWith(CapitalizedWords(init), ' '), [' ']);
      KeyOfCapitalized(last);
    }
  }

  /** A material key (lower-case words joined by single underscores) is humanised to
      its capitalised words joined by single spaces, and the display name reads back
      as the key. */
  lemma HumanizedKeyRoundTrip(ws: seq<string>)
    requires ws != []
    requires forall i :: 0 <= i < |ws| ==> IsKeyWord(ws[i])
    ensures var key := JoinWith(ws, '_');
            && Humanized(Some(key)) == JoinWith(CapitalizedWords(ws), ' ')
            && KeyOfName(Humanized(Some(key))) == key
  {
    var key := JoinWith(ws, '_');
    assert !IsBlank(key) by {
      JoinWithStartsWith(ws, '_');
      assert IsKeyChar(ws[0][0]);
      assert !IsWhitespace(key[0]);
    }
    assert Humanized(Some(key)) == JoinWith(CapitalizedWords(ws), ' ') by {
      KeyWordsSplit(ws);
    }
    KeyOfJoinedWords(ws);
  }

  /** Splitting a material key at its underscores gives its words back. */
  lemma KeyWordsSplit(ws: seq<string>)
    requires ws != []
    requires forall i :: 0 <= i < |ws| ==> IsKeyWord(ws[i])
    ensures JavaSplit(JoinWith(ws, '_'), '_') == ws
  {
    var key := JoinWith(ws, '_');
    forall i | 0 <= i < |ws|
      ensures '_' !in ws[i]
    {
      assert forall j :: 0 <= j < |ws[i]| ==> IsKeyChar(ws[i][j]);
    }
    JoinWithSplitAll(ws, '_');
    if '_' !in key {
      SplitAllOfPiece(key, '_');
    } else {
      assert ws[|ws| - 1] != "";
    }
  }

  lemma {:induction false} JoinWithStartsWith(parts: seq<string>, sep: char)
    requires parts != [] && parts[0] != []
    ensures |JoinWith(parts, sep)| > 0 && JoinWith(parts, sep)[0] == parts[0][0]
  {
  }
}
