/**
 The role prompt builder: single-pass placeholder substitution, and a byte budget
 that shortens or empties secondary sections and never touches an authority one.
 */
module PromptBudget {
  import opened Common
  import opened Utf8

  function Bytes(t: Text): nat {
    |Encode(t)|
  }

  // -------------------------------------------------------------- substitution

  predicate TokenChar(c: CodePoint) {
    65 <= c <= 90 || 48 <= c <= 57 || c == 95
  }

  function RunLength(t: Text): (n: nat)
    ensures n <= |t|
  {
    if t == [] || !TokenChar(t[0]) then 0 else 1 + RunLength(t[1..])
  }

  /** The length of the placeholder `{{NAME}}` that starts here; 0 when none does. */
  function PlaceholderLength(t: Text): (n: nat)
    ensures n <= |t|
  {
    if |t| < 5 || t[0] != 123 || t[1] != 123 then 0
    else
      var run := RunLength(t[2..]);
      if run >= 1 && 2 + run + 2 <= |t| && t[2 + run] == 125 && t[3 + run] == 125 then run + 4 else 0
  }

  /** `{{NAME}}`. */
  function Token(name: Text): Text {
    [123, 123] + name + [125, 125]
  }

  predicate NameChar(c: CodePoint) {
    'A' as int <= c <= 'Z' as int || '0' as int <= c <= '9' as int || c == '_' as int
  }

  predicate TokenName(name: Text) {
    name != [] && forall i :: 0 <= i < |name| ==> NameChar(name[i])
  }

  lemma {:induction false} RunOfName(name: Text, rest: Text)
    requires forall i :: 0 <= i < |name| ==> TokenChar(name[i])
    requires rest != [] ==> !TokenChar(rest[0])
    ensures RunLength(name + rest) == |name|
  {
    if name == [] {
      assert name + rest == rest;
    } else {
      assert (name + rest)[1..] == name[1..] + rest;
      RunOfName(name[1..], rest);
    }
  }

  lemma {:induction false} RunIsAName(t: Text)
    ensures forall i :: 0 <= i < RunLength(t) ==> TokenChar(t[i])
  {
    if t != [] && TokenChar(t[0]) {
      RunIsAName(t[1..]);
    }
  }

  /** A placeholder starts here exactly when the text goes on with two braces, a name and two braces. */
  lemma PlaceholderExactlyWhen(t: Text, name: Text)
    requires TokenName(name)
    ensures Token(name) <= t <==>
      PlaceholderLength(t) == |Token(name)| && t[..PlaceholderLength(t)] == Token(name)
  {
    if Token(name) <= t {
      var rest := t[|Token(name)|..];
      assert t == Token(name) + rest;
      assert t[2..] == name + ([125, 125] + rest);
      RunOfName(name, [125, 125] + rest);
    }
  }

  lemma PlaceholderHasAName(t: Text)
    requires PlaceholderLength(t) > 0
    ensures exists name :: TokenName(name) && t[..PlaceholderLength(t)] == Token(name)
  {
    var n := PlaceholderLength(t);
    var name := t[2..n - 2];
    RunIsAName(t[2..]);
    assert name == t[2..][..n - 4];
    assert TokenName(name) && t[..n] == Token(name);
  }

  /** One left-to-right pass; substituted text is never scanned again. */
  function RenderTemplate(template: Text, values: map<Text, Text>): Text
    decreases |template|
  {
    if template == [] then []
    else
      var n := PlaceholderLength(template);
      if n == 0 then [template[0]] + RenderTemplate(template[1..], values)
      else
        var token := template[..n];
        (if token in values then values[token] else token) + RenderTemplate(template[n..], values)
  }

  /** A part of a template: text without an opening brace, or a placeholder. */
  datatype Piece = Literal(text: Text) | Placeholder(name: Text)

  predicate WellFormedPiece(p: Piece) {
    match p
    case Literal(text) => 123 !in text
    case Placeholder(name) => TokenName(name)
  }

  function TemplateOf(pieces: seq<Piece>): Text {
    if pieces == [] then []
    else (match pieces[0] case Literal(text) => text case Placeholder(name) => Token(name)) + TemplateOf(pieces[1..])
  }

  function Filled(pieces: seq<Piece>, values: map<Text, Text>): Text {
    if pieces == [] then []
    else
      (match pieces[0]
       case Literal(text) => text
       case Placeholder(name) => if Token(name) in values then values[Token(name)] else Token(name))
      + Filled(pieces[1..], values)
  }

  lemma HeadAndRest(text: Text, more: Text)
    requires text != []
    ensures [text[0]] + (text[1..] + more) == text + more
  {
  }

  lemma {:induction false} LiteralIsKept(text: Text, rest: Text, values: map<Text, Text>)
    requires 123 !in text
    ensures RenderTemplate(text + rest, values) == text + RenderTemplate(rest, values)
  {
    if text == [] {
      assert text + rest == rest && text + RenderTemplate(rest, values) == RenderTemplate(rest, values);
    } else {
      assert text[0] in text && (text + rest)[1..] == text[1..] + rest;
      LiteralIsKept(text[1..], rest, values);
      HeadAndRest(text, RenderTemplate(rest, values));
    }
  }

  /** Rendering fills every placeholder once, whatever its value looks like, and keeps everything else. */
  lemma {:induction false} RenderingFillsPieces(pieces: seq<Piece>, values: map<Text, Text>)
    requires forall i :: 0 <= i < |pieces| ==> WellFormedPiece(pieces[i])
    ensures RenderTemplate(TemplateOf(pieces), values) == Filled(pieces, values)
  {
    if pieces != [] {
      var rest := TemplateOf(pieces[1..]);
      assert WellFormedPiece(pieces[0]);
      RenderingFillsPieces(pieces[1..], values);
      match pieces[0] {
        case Literal(text) => LiteralIsKept(text, rest, values);
        case Placeholder(name) =>
          PlaceholderExactlyWhen(Token(name) + rest, name);
          assert (Token(name) + rest)[|Token(name)|..] == rest;
      }
    }
  }

  // ------------------------------------------------------------------- sections

  datatype Section = Section(name: Text, text: Text, authority: bool, truncated: bool)

  datatype Payload = Payload(
    sections: seq<Section>,
    rendered: Text,
    totalBytes: nat,
    staticBytes: nat,
    dynamicBytes: nat,
    budgetOverrun: bool,
    omitted: seq<Text>)

  datatype PayloadError = NegativeBudget | DuplicateNames

  type Sections = map<Text, Section>

  predicate UniqueNames(sections: seq<Section>) {
    forall i, j :: 0 <= i < j < |sections| ==> sections[i].name != sections[j].name
  }

  function ByName(sections: seq<Section>): Sections {
    if sections == [] then map[]
    else
      var last := |sections| - 1;
      ByName(sections[..last])[sections[last].name := sections[last]]
  }

  /** With unique names, the dictionary holds each section under its own name, and nothing else. */
  lemma {:induction false} ByNameHolds(sections: seq<Section>)
    requires UniqueNames(sections)
    ensures forall i :: 0 <= i < |sections| ==>
      sections[i].name in ByName(sections) && ByName(sections)[sections[i].name] == sections[i]
    ensures forall n :: n in ByName(sections) ==> ByName(sections)[n] in sections && ByName(sections)[n].name == n
  {
    if sections != [] {
      ByNameHolds(sections[..|sections| - 1]);
    }
  }

  /** What each placeholder stands for; one without a section stands for its section's name. */
  function Values(placeholders: map<Text, Text>, current: Sections): map<Text, Text> {
    map p | p in placeholders :: if placeholders[p] in current then current[placeholders[p]].text else placeholders[p]
  }

  function Render(template: Text, placeholders: map<Text, Text>, current: Sections): Text {
    RenderTemplate(template, Values(placeholders, current))
  }

  function StaticRender(template: Text, placeholders: map<Text, Text>): Text {
    RenderTemplate(template, map p | p in placeholders :: [])
  }

  /** How often the section is injected into the request. */
  function Slots(template: Text, placeholders: map<Text, Text>, name: Text): nat
    decreases |template|
  {
    if template == [] then 0
    else
      var n := PlaceholderLength(template);
      if n == 0 then Slots(template[1..], placeholders, name)
      else
        Injects(template[..n], placeholders, name) + Slots(template[n..], placeholders, name)
  }

  /** The fixed scaffold is never larger than the request. */
  lemma {:induction false} StaticIsSmallest(template: Text, placeholders: map<Text, Text>, current: Sections)
    ensures Bytes(StaticRender(template, placeholders)) <= Bytes(Render(template, placeholders, current))
    decreases |template|
  {
    if template != [] {
      var n := PlaceholderLength(template);
      var empty: map<Text, Text> := map p | p in placeholders :: [];
      var values := Values(placeholders, current);
      if n == 0 {
        StaticIsSmallest(template[1..], placeholders, current);
      } else {
        StaticIsSmallest(template[n..], placeholders, current);
      }
      RenderedBytes(template, empty);
      RenderedBytes(template, values);
    }
  }

  /** What one placeholder expands to. */
  function Expansion(token: Text, values: map<Text, Text>): Text {
    if token in values then values[token] else token
  }

  lemma RenderedBytes(template: Text, values: map<Text, Text>)
    requires template != []
    ensures var n := PlaceholderLength(template);
            Bytes(RenderTemplate(template, values)) ==
            if n == 0 then Bytes([template[0]]) + Bytes(RenderTemplate(template[1..], values))
            else Bytes(Expansion(template[..n], values)) + Bytes(RenderTemplate(template[n..], values))
  {
    var n := PlaceholderLength(template);
    if n == 0 {
      EncodeAppends([template[0]], RenderTemplate(template[1..], values));
    } else {
      EncodeAppends(Expansion(template[..n], values), RenderTemplate(template[n..], values));
    }
  }

  /** What a part of the template becomes: its text, the section it stands for, or the bare name or token. */
  function Injected(p: Piece, placeholders: map<Text, Text>, current: Sections): Text {
    match p
    case Literal(text) => text
    case Placeholder(name) =>
      if Token(name) !in placeholders then Token(name)
      else if placeholders[Token(name)] in current then current[placeholders[Token(name)]].text
      else placeholders[Token(name)]
  }

  function InjectedAll(pieces: seq<Piece>, placeholders: map<Text, Text>, current: Sections): Text {
    if pieces == [] then []
    else Injected(pieces[0], placeholders, current) + InjectedAll(pieces[1..], placeholders, current)
  }

  lemma {:induction false} FilledIsInjected(pieces: seq<Piece>, placeholders: map<Text, Text>, current: Sections)
    ensures Filled(pieces, Values(placeholders, current)) == InjectedAll(pieces, placeholders, current)
  {
    if pieces != [] {
      FilledIsInjected(pieces[1..], placeholders, current);
    }
  }

  /** The request holds each section wherever the template has its placeholder. */
  lemma RequestHoldsSections(pieces: seq<Piece>, placeholders: map<Text, Text>, current: Sections)
    requires forall i :: 0 <= i < |pieces| ==> WellFormedPiece(pieces[i])
    ensures Render(TemplateOf(pieces), placeholders, current) == InjectedAll(pieces, placeholders, current)
  {
    RenderingFillsPieces(pieces, Values(placeholders, current));
    FilledIsInjected(pieces, placeholders, current);
  }

  /** Whether one placeholder injects the section. */
  function Injects(token: Text, placeholders: map<Text, Text>, name: Text): nat {
    if token in placeholders && placeholders[token] == name then 1 else 0
  }

  lemma ExpansionChanges(token: Text, placeholders: map<Text, Text>, current: Sections, name: Text, s: Section)
    requires name in current
    ensures Bytes(Expansion(token, Values(placeholders, current[name := s])))
         - Bytes(Expansion(token, Values(placeholders, current)))
         == if Injects(token, placeholders, name) == 1 then Bytes(s.text) - Bytes(current[name].text) else 0
  {
  }

  /** `gain` bytes, once per slot of the section. */
  function GainPerSlot(template: Text, placeholders: map<Text, Text>, name: Text, gain: int): int
    decreases |template|
  {
    if template == [] then 0
    else
      var n := PlaceholderLength(template);
      if n == 0 then GainPerSlot(template[1..], placeholders, name, gain)
      else
        (if Injects(template[..n], placeholders, name) == 1 then gain else 0)
        + GainPerSlot(template[n..], placeholders, name, gain)
  }

  /** A section that is rendered at all loses at least its own bytes. */
  lemma {:induction false} LossReachesOnce(template: Text, placeholders: map<Text, Text>, name: Text, gain: int)
    requires gain <= 0
    ensures GainPerSlot(template, placeholders, name, gain)
         <= if Slots(template, placeholders, name) >= 1 then gain else 0
    decreases |template|
  {
    if template != [] {
      var n := PlaceholderLength(template);
      LossReachesOnce(if n == 0 then template[1..] else template[n..], placeholders, name, gain);
    }
  }

  /** Replacing one section changes the request by its byte difference, once per slot. */
  lemma {:induction false} OneSectionChanges(template: Text, placeholders: map<Text, Text>, current: Sections,
                                             name: Text, s: Section)
    requires name in current
    ensures Bytes(Render(template, placeholders, current[name := s])) - Bytes(Render(template, placeholders, current))
         == GainPerSlot(template, placeholders, name, Bytes(s.text) - Bytes(current[name].text))
    decreases |template|
  {
    if template != [] {
      var n := PlaceholderLength(template);
      RenderedBytes(template, Values(placeholders, current));
      RenderedBytes(template, Values(placeholders, current[name := s]));
      if n == 0 {
        OneSectionChanges(template[1..], placeholders, current, name, s);
      } else {
        OneSectionChanges(template[n..], placeholders, current, name, s);
        ExpansionChanges(template[..n], placeholders, current, name, s);
      }
    }
  }

  // --------------------------------------------------------------- truncation

  function SecondaryDeclared(declared: seq<Text>, current: Sections): (names: seq<Text>)
    ensures forall n :: n in names <==> n in declared && n in current && !current[n].authority
  {
    if declared == [] then []
    else
      assert declared == [declared[0]] + declared[1..];
      (if declared[0] in current && !current[declared[0]].authority then [declared[0]] else [])
          + SecondaryDeclared(declared[1..], current)
  }

  function SecondaryRest(sections: seq<Section>, taken: seq<Text>): (names: seq<Text>)
    ensures forall n :: n in names <==> n !in taken && exists s :: s in sections && !s.authority && s.name == n
  {
    if sections == [] then []
    else
      assert sections == [sections[0]] + sections[1..];
      (if !sections[0].authority && sections[0].name !in taken then [sections[0].name] else [])
          + SecondaryRest(sections[1..], taken)
  }

  /** The truncation order: the declared secondary sections, then the remaining ones. */
  function SecondaryNames(sections: seq<Section>, declared: seq<Text>): seq<Text> {
    var first := SecondaryDeclared(declared, ByName(sections));
    first + SecondaryRest(sections, first)
  }

  /** `a` occurs, and no `b` occurs up to there. */
  ghost predicate FirstBefore(names: seq<Text>, a: Text, b: Text) {
    exists i :: 0 <= i < |names| && names[i] == a && forall j :: 0 <= j <= i ==> names[j] != b
  }

  lemma FirstBeforeInTwo(xs: seq<Text>, ys: seq<Text>, a: Text, b: Text)
    ensures FirstBefore(xs, a, b) ==> FirstBefore(xs + ys, a, b)
    ensures b !in xs && FirstBefore(ys, a, b) ==> FirstBefore(xs + ys, a, b)
  {
    if FirstBefore(xs, a, b) {
      var i :| 0 <= i < |xs| && xs[i] == a && forall j :: 0 <= j <= i ==> xs[j] != b;
      assert (xs + ys)[i] == a;
    }
    if b !in xs && FirstBefore(ys, a, b) {
      var i :| 0 <= i < |ys| && ys[i] == a && forall j :: 0 <= j <= i ==> ys[j] != b;
      assert (xs + ys)[|xs| + i] == a;
    }
  }

  lemma FirstOfAll(a: Text, names: seq<Text>, b: Text)
    requires a != b
    ensures FirstBefore([a] + names, a, b)
  {
    assert ([a] + names)[0] == a;
  }

  /** A later start of the same names keeps the order, unless it starts with `a` itself. */
  lemma FirstBeforeInRest(names: seq<Text>, a: Text, b: Text)
    requires FirstBefore(names, a, b)
    ensures names[0] != b && (names[0] == a || FirstBefore(names[1..], a, b))
  {
    var i :| 0 <= i < |names| && names[i] == a && forall j :: 0 <= j <= i ==> names[j] != b;
    if i > 0 {
      assert names[1..][i - 1] == a;
    }
  }

  lemma {:induction false} DeclaredKeepOrder(declared: seq<Text>, current: Sections, a: Text, b: Text)
    requires FirstBefore(declared, a, b) && a in current && !current[a].authority
    ensures FirstBefore(SecondaryDeclared(declared, current), a, b)
  {
    FirstBeforeInRest(declared, a, b);
    var rest := SecondaryDeclared(declared[1..], current);
    if declared[0] == a {
      FirstOfAll(a, rest, b);
    } else {
      DeclaredKeepOrder(declared[1..], current, a, b);
      FirstBeforeInTwo([declared[0]], rest, a, b);
      assert [] + rest == rest;
    }
  }

  lemma {:induction false} RestKeepsOrder(sections: seq<Section>, taken: seq<Text>, i: nat, b: Text)
    requires i < |sections| && forall k :: 0 <= k <= i ==> sections[k].name != b
    requires !sections[i].authority && sections[i].name !in taken
    ensures FirstBefore(SecondaryRest(sections, taken), sections[i].name, b)
  {
    var rest := SecondaryRest(sections[1..], taken);
    if i == 0 {
      FirstOfAll(sections[0].name, rest, b);
    } else {
      RestKeepsOrder(sections[1..], taken, i - 1, b);
      FirstBeforeInTwo([sections[0].name], rest, sections[i].name, b);
      assert [] + rest == rest;
    }
  }

  /**
   Section `i` is to be given up before section `j`: it is declared, and before any declaration of the
   other one, or neither is declared and it comes first.
   */
  ghost predicate Earlier(sections: seq<Section>, declared: seq<Text>, i: nat, j: nat)
    requires i < |sections| && j < |sections|
  {
    && !sections[i].authority && !sections[j].authority
    && (|| FirstBefore(declared, sections[i].name, sections[j].name)
        || (sections[i].name !in declared && sections[j].name !in declared && i < j))
  }

  lemma OrderIsKept(sections: seq<Section>, declared: seq<Text>, i: nat, j: nat)
    requires UniqueNames(sections) && i < |sections| && j < |sections| && Earlier(sections, declared, i, j)
    ensures FirstBefore(SecondaryNames(sections, declared), sections[i].name, sections[j].name)
  {
    var a, b := sections[i].name, sections[j].name;
    ByNameHolds(sections);
    var first := SecondaryDeclared(declared, ByName(sections));
    if FirstBefore(declared, a, b) {
      DeclaredKeepOrder(declared, ByName(sections), a, b);
    } else {
      RestKeepsOrder(sections, first, i, b);
    }
    FirstBeforeInTwo(first, SecondaryRest(sections, first), a, b);
  }

  lemma SecondaryNamesAreTheSecondarySections(sections: seq<Section>, declared: seq<Text>)
    requires UniqueNames(sections)
    ensures forall s :: s in sections ==> s.name in ByName(sections) && ByName(sections)[s.name] == s
    ensures forall n :: n in SecondaryNames(sections, declared) <==>
      n in ByName(sections) && !ByName(sections)[n].authority
  {
    ByNameHolds(sections);
  }

  /** Emptied, as the source records it: no text, flagged. */
  function Emptied(s: Section): Section {
    Section(s.name, [], s.authority, true)
  }

  /** A section shortened to `keep` bytes: the longest prefix that leaves room for the marker, then the marker. */
  function Shortened(s: Section, keep: nat, marker: Text): Section {
    Section(s.name, Utf8Prefix(s.text, Room(keep, marker)) + marker, s.authority, true)
  }

  function Room(keep: nat, marker: Text): nat {
    if keep > Bytes(marker) then keep - Bytes(marker) else 0
  }

  lemma ShortenedBytes(s: Section, keep: nat, marker: Text)
    requires keep >= Bytes(marker)
    ensures Bytes(Shortened(s, keep, marker).text) <= keep
  {
    var room := Room(keep, marker);
    EncodeAppends(Utf8Prefix(s.text, room), marker);
    var n :| PrefixAt(s.text, room, n, Utf8Prefix(s.text, room));
    if n == 0 {
      assert Replaced(s.text[..0]) == [];
    }
  }

  /** A section that is rendered at all, replaced by one that saves the whole excess, makes the request fit. */
  lemma SavingTheExcessFits(template: Text, placeholders: map<Text, Text>, current: Sections, name: Text, s: Section,
                            budget: nat)
    requires name in current && Slots(template, placeholders, name) >= 1
    requires Bytes(s.text) <= Bytes(current[name].text) - (Bytes(Render(template, placeholders, current)) - budget)
    requires Bytes(Render(template, placeholders, current)) > budget
    ensures Bytes(Render(template, placeholders, current[name := s])) <= budget
  {
    var gain := Bytes(s.text) - Bytes(current[name].text);
    OneSectionChanges(template, placeholders, current, name, s);
    LossReachesOnce(template, placeholders, name, gain);
  }

  // -------------------------------------------------------------- the two passes

  /** The request that is being bounded. */
  datatype Request = Request(template: Text, placeholders: map<Text, Text>, marker: Text, budget: nat) {
    function Size(current: Sections): nat {
      Bytes(Render(template, placeholders, current))
    }

    function SlotsOf(name: Text): nat {
      Slots(template, placeholders, name)
    }
  }

  /** The sections with every name of `names` emptied. */
  function WithEmptied(before: Sections, names: seq<Text>): Sections {
    map n | n in before :: if n in names then Emptied(before[n]) else before[n]
  }

  /** How many bytes of a section remain when it alone saves the excess. */
  function Keep(q: Request, base: Sections, name: Text): nat
    requires name in base
  {
    var count, excess := Bytes(base[name].text), q.Size(base) - q.budget;
    if count > excess then count - excess else 0
  }

  /** Section `name` of a too large `base` is shortened by the excess. */
  ghost predicate ShortenedAt(q: Request, base: Sections, name: Text, after: Sections) {
    && name in base && q.Size(base) > q.budget && Keep(q, base, name) < Bytes(base[name].text)
    && after == base[name := Shortened(base[name], Keep(q, base, name), q.marker)]
  }

  /** Of a shortened section a prefix remains and the marker, and one more character would be too much. */
  lemma ShortenedKeepsTheMost(q: Request, base: Sections, name: Text, after: Sections)
    requires ShortenedAt(q, base, name, after)
    ensures exists n :: LongestKept(q, base, name, after, n)
  {
    var n := LongestWithMarker(base[name], Keep(q, base, name), q.marker);
    assert LongestKept(q, base, name, after, n);
  }

  lemma LongestWithMarker(s: Section, keep: nat, marker: Text) returns (n: nat)
    ensures n <= |s.text| && Shortened(s, keep, marker).text == Replaced(s.text[..n]) + marker
    ensures n < |s.text| ==> Bytes(s.text[..n + 1]) + Bytes(marker) > keep
  {
    var room := Room(keep, marker);
    var kept := Utf8Prefix(s.text, room);
    assert IsLongestPrefix(s.text, room, kept);
    n :| PrefixAt(s.text, room, n, kept);
    assert Shortened(s, keep, marker).text == kept + marker;
  }

  ghost predicate LongestKept(q: Request, base: Sections, name: Text, after: Sections, n: nat) {
    && name in base && name in after
    && var t := base[name].text;
       && n <= |t| && after[name].text == Replaced(t[..n]) + q.marker
       && (n < |t| ==> Bytes(t[..n + 1]) + Bytes(q.marker) > Bytes(t) - (q.Size(base) - q.budget))
  }

  /**
   The shape of every truncation: the first `k` names of the order are emptied, the
   next one may be shortened when that makes the request fit, nothing else changes.
   */
  ghost predicate TruncatedAt(q: Request, before: Sections, order: seq<Text>, k: nat, after: Sections) {
    && k <= |order|
    && var base := WithEmptied(before, order[..k]);
       after == base || (k < |order| && ShortenedAt(q, base, order[k], after) && q.Size(after) <= q.budget)
  }

  /** Name `j` of the order was given up from a too large request, and because no shortened form of it could fit. */
  ghost predicate GivenUpForGood(q: Request, before: Sections, order: seq<Text>, j: nat)
    requires j < |order|
  {
    var base := WithEmptied(before, order[..j]);
    && q.Size(base) > q.budget
    && (order[j] in base && q.SlotsOf(order[j]) >= 1 ==>
         Bytes(base[order[j]].text) - (q.Size(base) - q.budget) < Bytes(q.marker))
  }

  /** The first `k` names of the order were all given up for good. */
  ghost predicate AllGivenUpForGood(q: Request, before: Sections, order: seq<Text>, k: nat)
    requires k <= |order|
  {
    k == 0 || (AllGivenUpForGood(q, before, order, k - 1) && GivenUpForGood(q, before, order, k - 1))
  }

  /** One turn of the first pass: shorten the section, and empty it if that does not fit. */
  method ShortenOrEmpty(q: Request, current: Sections, name: Text) returns (after: Sections, emptied: bool)
    requires name in current && current[name].name == name && q.Size(current) > q.budget
    ensures emptied ==> after == current[name := Emptied(current[name])]
    ensures !emptied ==> q.Size(after) <= q.budget && ShortenedAt(q, current, name, after)
    ensures emptied && q.SlotsOf(name) >= 1 ==>
      Bytes(current[name].text) - (q.Size(current) - q.budget) < Bytes(q.marker)
  {
    var section := current[name];
    var count := Bytes(section.text);
    var excess := q.Size(current) - q.budget;
    var keep := Keep(q, current, name);
    after := current;
    if keep < count {
      if q.SlotsOf(name) >= 1 && count - excess >= Bytes(q.marker) {
        ShortenedBytes(section, keep, q.marker);
        SavingTheExcessFits(q.template, q.placeholders, current, name, Shortened(section, keep, q.marker), q.budget);
      }
      after := current[name := Shortened(section, keep, q.marker)];
    }
    emptied := q.Size(after) > q.budget;
    if emptied {
      after := current[name := Emptied(section)];
    }
  }

  /** The names in order of first occurrence. */
  function Deduplicated(names: seq<Text>): (r: seq<Text>)
    ensures forall n :: n in r <==> n in names
    ensures forall i, j :: 0 <= i < j < |r| ==> r[i] != r[j]
  {
    if names == [] then []
    else
      var last := |names| - 1;
      assert names == names[..last] + [names[last]];
      var r := Deduplicated(names[..last]);
      if names[last] in r then r else r + [names[last]]
  }

  lemma {:induction false} DeduplicatedKeepOrder(names: seq<Text>, a: Text, b: Text)
    requires FirstBefore(names, a, b)
    ensures FirstBefore(Deduplicated(names), a, b)
    decreases |names|
  {
    var last := |names| - 1;
    var rest := names[..last];
    var i :| 0 <= i < |names| && names[i] == a && forall j :: 0 <= j <= i ==> names[j] != b;
    if i < last {
      assert rest[i] == a;
      DeduplicatedKeepOrder(rest, a, b);
      FirstBeforeInTwo(Deduplicated(rest), [names[last]], a, b);
    } else {
      var r := Deduplicated(names);
      assert a in names && a in r;
      var m :| 0 <= m < |r| && r[m] == a;
      forall j | 0 <= j <= m ensures r[j] != b {
        assert r[j] in names;
      }
    }
  }

  /**
   Both truncation passes.  `k` sections were emptied; when that is not the whole
   order, the request fits.  The second pass finds nothing left to empty.
   */
  method Truncate(q: Request, before: Sections, order: seq<Text>)
    returns (current: Sections, omitted: seq<Text>, k: nat)
    requires forall n :: n in order ==> n in before
    requires forall n :: n in before ==> before[n].name == n
    ensures TruncatedAt(q, before, order, k, current)
    ensures q.Size(current) > q.budget ==> k == |order|
    ensures omitted == order[..k]
    ensures AllGivenUpForGood(q, before, order, k)
  {
    current, omitted, k := before, [], 0;
    var i := 0;
    assert WithEmptied(before, order[..0]) == before;
    while i < |order| && q.Size(current) > q.budget
      invariant k <= i <= |order|
      invariant TruncatedAt(q, before, order, k, current)
      invariant q.Size(current) > q.budget ==> k == i
      invariant omitted == order[..k]
      invariant AllGivenUpForGood(q, before, order, k)
      decreases |order| - i
    {
      var name := order[i];
      assert name in order && name in before;
      NotYetFitting(q, before, order, i, current);
      var after, emptied := ShortenOrEmpty(q, current, name);
      OneTurn(q, before, order, i, after, emptied);
      if emptied {
        omitted := omitted + [name];
        k := k + 1;
      }
      current := after;
      i := i + 1;
    }
    if q.Size(current) > q.budget {
      assert order[..|order|] == order;
      var more;
      current, more := SecondPass(q, current, order);
      omitted := omitted + more;
    }
  }

  /** The second pass, backwards, over sections the first one left empty: it changes nothing and omits nothing. */
  method SecondPass(q: Request, current: Sections, order: seq<Text>) returns (after: Sections, omitted: seq<Text>)
    requires forall n :: n in order ==> n in current && current[n].text == []
    ensures after == current && omitted == []
  {
    after, omitted := current, [];
    var r := |order|;
    while r > 0 && q.Size(after) > q.budget
      invariant 0 <= r <= |order| && after == current && omitted == []
    {
      r := r - 1;
      if after[order[r]].text != [] {
        assert false;  // never a section left to empty
      }
    }
  }

  /** While the request is too large, nothing was shortened yet. */
  lemma NotYetFitting(q: Request, before: Sections, order: seq<Text>, k: nat, current: Sections)
    requires TruncatedAt(q, before, order, k, current) && q.Size(current) > q.budget
    ensures current == WithEmptied(before, order[..k])
  {
  }

  lemma OneMoreEmptied(before: Sections, order: seq<Text>, i: nat)
    requires i < |order| && order[i] in before
    ensures order[..i + 1] == order[..i] + [order[i]]
    ensures var base := WithEmptied(before, order[..i]);
            WithEmptied(before, order[..i + 1]) == base[order[i] := Emptied(base[order[i]])]
  {
    var longer := order[..i + 1];
    assert longer == order[..i] + [order[i]];
    assert forall n :: n in longer <==> n in order[..i] || n == order[i];
  }

  /** One turn moves the split by one, or shortens at it. */
  lemma OneTurn(q: Request, before: Sections, order: seq<Text>, i: nat, after: Sections, emptied: bool)
    requires i < |order| && order[i] in before && AllGivenUpForGood(q, before, order, i)
    requires var base := WithEmptied(before, order[..i]);
             if emptied then after == base[order[i] := Emptied(base[order[i]])]
             else ShortenedAt(q, base, order[i], after) && q.Size(after) <= q.budget
    requires q.Size(WithEmptied(before, order[..i])) > q.budget
    requires var base := WithEmptied(before, order[..i]);
             emptied && q.SlotsOf(order[i]) >= 1 ==>
                 Bytes(base[order[i]].text) - (q.Size(base) - q.budget) < Bytes(q.marker)
    ensures order[..i + 1] == order[..i] + [order[i]]
    ensures AllGivenUpForGood(q, before, order, if emptied then i + 1 else i)
    ensures TruncatedAt(q, before, order, if emptied then i + 1 else i, after)
  {
    OneMoreEmptied(before, order, i);
  }

  /** The sections in declaration order, as they were injected. */
  function InOrder(sections: seq<Section>, current: Sections): (final: seq<Section>)
    ensures |final| == |sections|
  {
    seq(|sections|, i requires 0 <= i < |sections| =>
      if sections[i].name in current then current[sections[i].name] else sections[i])
  }

  /** `current` still holds one section per name, with its name and authority. */
  ghost predicate SameSections(before: Sections, current: Sections) {
    && current.Keys == before.Keys
    && forall n :: n in before ==> current[n].name == before[n].name && current[n].authority == before[n].authority
  }

  lemma InOrderHoldsCurrent(sections: seq<Section>, current: Sections)
    requires UniqueNames(sections) && SameSections(ByName(sections), current)
    ensures ByName(InOrder(sections, current)) == current
  {
    var final := InOrder(sections, current);
    ByNameHolds(sections);
    forall i | 0 <= i < |final| ensures final[i] == current[sections[i].name] && final[i].name == sections[i].name {
    }
    ByNameHolds(final);
    assert forall n :: n in current ==> ByName(sections)[n] in sections;
    forall n | n in current ensures n in ByName(final) && ByName(final)[n] == current[n] {
      FoundByName(sections, final, n);
    }
    forall n | n in ByName(final) ensures n in current {
      var i :| 0 <= i < |final| && final[i] == ByName(final)[n];
    }
  }

  lemma FoundByName(sections: seq<Section>, final: seq<Section>, n: Text)
    requires UniqueNames(sections) && |final| == |sections|
    requires forall i :: 0 <= i < |final| ==> final[i].name == sections[i].name
    requires n in ByName(sections)
    ensures n in ByName(final)
    ensures exists i :: 0 <= i < |final| && sections[i].name == n && ByName(final)[n] == final[i]
  {
    ByNameHolds(sections);
    ByNameHolds(final);
    var i :| 0 <= i < |sections| && sections[i] == ByName(sections)[n];
    assert final[i].name == n;
  }

  /** Truncation never touches an authority section, and an overrun means every secondary one is empty. */
  lemma TruncationSparesAuthority(q: Request, before: Sections, order: seq<Text>, k: nat, current: Sections)
    requires TruncatedAt(q, before, order, k, current)
    requires forall n :: n in order <==> n in before && !before[n].authority
    requires forall n :: n in before ==> before[n].name == n
    ensures SameSections(before, current)
    ensures forall n :: n in before && before[n].authority ==> current[n] == before[n]
    ensures forall n :: n in before ==> current[n] == before[n] || current[n].truncated
    ensures k == |order| ==> forall n :: n in before && !before[n].authority ==> current[n] == Emptied(before[n])
  {
    forall n | n in order[..k] ensures n in order {
    }
    assert order[..|order|] == order;
  }

  /** The same, told on the sections of the payload. */
  lemma AuthorityIsKept(sections: seq<Section>, current: Sections, p: Payload)
    requires UniqueNames(sections) && |p.sections| == |sections| && SameSections(ByName(sections), current)
    requires forall i :: 0 <= i < |sections| ==>
      sections[i].name in current && p.sections[i] == current[sections[i].name]
    requires forall n :: n in current ==> var s := ByName(sections)[n];
      && (current[n] == s || (!s.authority && current[n].truncated))
      && (p.budgetOverrun && !s.authority ==> current[n] == Emptied(s))
    ensures AuthorityKept(sections, p)
  {
    ByNameHolds(sections);
  }

  /** Whatever was cut, everything earlier in the order was given up. */
  lemma CutFollowsOrder(q: Request, before: Sections, order: seq<Text>, k: nat, after: Sections, a: Text, b: Text)
    requires TruncatedAt(q, before, order, k, after) && FirstBefore(order, a, b)
    requires a in before && b in before && (b in after ==> after[b] != before[b])
    ensures a in after && after[a] == Emptied(before[a])
  {
    var i :| 0 <= i < |order| && order[i] == a && forall j :: 0 <= j <= i ==> order[j] != b;
    assert b in order[..k] || (k < |order| && order[k] == b);
    assert i < k;
    assert order[..k][i] == a;
    var base := WithEmptied(before, order[..k]);
    assert base[a] == Emptied(before[a]) && Bytes(base[a].text) == 0;
  }

  /** The truncation order, told on the sections themselves. */
  ghost predicate CutInOrder(sections: seq<Section>, declared: seq<Text>, p: Payload) {
    && |p.sections| == |sections|
    && forall i, j :: 0 <= i < |sections| && 0 <= j < |sections| && Earlier(sections, declared, i, j) &&
                      p.sections[j] != sections[j] ==>
         p.sections[i].text == [] && p.sections[i].truncated
  }

  lemma PayloadIsCutInOrder(q: Request, sections: seq<Section>, declared: seq<Text>, k: nat, p: Payload)
    requires UniqueNames(sections) && |p.sections| == |sections|
    requires forall i :: 0 <= i < |sections| ==> p.sections[i].name == sections[i].name
    requires TruncatedAt(q, ByName(sections), SecondaryNames(sections, declared), k, ByName(p.sections))
    ensures CutInOrder(sections, declared, p)
  {
    ByNameHolds(sections);
    ByNameHolds(p.sections);
    forall i, j | 0 <= i < |sections| && 0 <= j < |sections| && Earlier(sections, declared, i, j) &&
                  p.sections[j] != sections[j]
      ensures p.sections[i].text == [] && p.sections[i].truncated
    {
      OrderIsKept(sections, declared, i, j);
      CutFollowsOrder(q, ByName(sections), SecondaryNames(sections, declared), k, ByName(p.sections), sections[i].name,
                      sections[j].name);
    }
  }

  /** The payload of one role: the request, bounded if a budget is set, with its byte accounts. */
  method PayloadFromTemplate(template: Text, placeholders: map<Text, Text>, sections: seq<Section>,
                             declared: seq<Text>, budget: int, marker: Text)
    returns (r: Result<Payload, PayloadError>, ghost k: nat)
    ensures r == Failure(NegativeBudget) <==> budget < 0
    ensures r == Failure(DuplicateNames) <==> budget >= 0 && !UniqueNames(sections)
    ensures r.Success? ==>
      budget >= 0 && UniqueNames(sections) && Accounts(template, placeholders, sections, budget, r.value)
    ensures r.Success? ==> AuthorityKept(sections, r.value) && CutInOrder(sections, declared, r.value)
    ensures r.Success? && budget == 0 ==> r.value.sections == sections && r.value.omitted == []
    ensures r.Success? && budget > 0 ==>
      var q := Request(template, placeholders, marker, budget);
      Bounded(q, ByName(sections), SecondaryNames(sections, declared), k, r.value)
  {
    k := 0;
    if budget < 0 {
      return Failure(NegativeBudget), k;
    }
    if !UniqueNames(sections) {
      return Failure(DuplicateNames), k;
    }
    ByNameHolds(sections);
    SecondaryNamesAreTheSecondarySections(sections, declared);
    var before := ByName(sections);
    var current := before;
    var omitted: seq<Text> := [];
    if budget > 0 {
      var q, order := Request(template, placeholders, marker, budget), SecondaryNames(sections, declared);
      var emptied;
      current, omitted, emptied := Truncate(q, before, order);
      TruncationSparesAuthority(q, before, order, emptied, current);
      k := emptied;
    }
    AssembledPayload(template, placeholders, sections, current, budget, omitted);
    forall a, b | FirstBefore(omitted, a, b) ensures FirstBefore(Deduplicated(omitted), a, b) {
      DeduplicatedKeepOrder(omitted, a, b);
    }
    r := Success(Assemble(template, placeholders, sections, current, budget, omitted));
    AuthorityIsKept(sections, current, r.value);
    if budget > 0 {
      PayloadIsCutInOrder(Request(template, placeholders, marker, budget), sections, declared, k, r.value);
    }
  }

  /** The payload of the bounded sections. */
  function Assemble(template: Text, placeholders: map<Text, Text>, sections: seq<Section>, current: Sections,
                    budget: nat, omitted: seq<Text>): Payload {
    var rendered := Render(template, placeholders, current);
    var total, scaffold := Bytes(rendered), Bytes(StaticRender(template, placeholders));
    var dynamic := if total > scaffold then total - scaffold else 0;
    var overrun := budget > 0 && total > budget;
    Payload(InOrder(sections, current), rendered, total, scaffold, dynamic, overrun, Deduplicated(omitted))
  }

  lemma AssembledPayload(template: Text, placeholders: map<Text, Text>, sections: seq<Section>, current: Sections,
                         budget: nat, omitted: seq<Text>)
    requires UniqueNames(sections) && SameSections(ByName(sections), current)
    ensures var p := Assemble(template, placeholders, sections, current, budget, omitted);
            && ByName(p.sections) == current
            && (forall i :: 0 <= i < |sections| ==>
                 sections[i].name in current && p.sections[i] == current[sections[i].name])
            && Accounts(template, placeholders, sections, budget, p)
  {
    ByNameHolds(sections);
    InOrderHoldsCurrent(sections, current);
    StaticIsSmallest(template, placeholders, current);
  }

  /** What bounding did: the split of the truncation order, the omitted names, and why each one was given up. */
  ghost predicate Bounded(q: Request, before: Sections, order: seq<Text>, k: nat, p: Payload) {
    && TruncatedAt(q, before, order, k, ByName(p.sections))
    && (forall n :: n in p.omitted <==> n in order[..k]) && Distinct(p.omitted)
    && (forall a, b :: FirstBefore(order[..k], a, b) ==> FirstBefore(p.omitted, a, b))
    && AllGivenUpForGood(q, before, order, k)
  }

  /**
   Authority sections come out identical, a changed section is flagged, and only a request without
   secondary text may exceed the budget.
   */
  ghost predicate AuthorityKept(sections: seq<Section>, p: Payload) {
    && |p.sections| == |sections|
    && (forall i :: 0 <= i < |sections| && sections[i].authority ==> p.sections[i] == sections[i])
    && (forall i :: 0 <= i < |sections| && p.sections[i] != sections[i] ==> p.sections[i].truncated)
    && (p.budgetOverrun ==> forall i :: 0 <= i < |sections| && !sections[i].authority ==>
         p.sections[i].text == [] && p.sections[i].truncated)
  }

  /** The byte accounts of a payload: static plus dynamic is the total, and the total is what the request weighs. */
  ghost predicate Accounts(template: Text, placeholders: map<Text, Text>, sections: seq<Section>, budget: int,
                           p: Payload) {
    && |p.sections| == |sections|
    && (forall i :: 0 <= i < |sections| ==>
         p.sections[i].name == sections[i].name && p.sections[i].authority == sections[i].authority)
    && p.rendered == Render(template, placeholders, ByName(p.sections))
    && p.totalBytes == Bytes(p.rendered)
    && p.staticBytes + p.dynamicBytes == p.totalBytes
    && p.staticBytes == Bytes(StaticRender(template, placeholders))
    && (p.budgetOverrun <==> 0 < budget < p.totalBytes)
  }
}
