/** The reader of CrashMail configurations: splitting a line into tokens, and the line
    machine that turns AKA, DOMAIN, AREA and EXPORT lines into areas with links. */
module FtnConfig {
  import opened CText
  import opened FtnAddress

  const LINE_LEN := 4096
  const MAX_TOKENS := 64
  const DOMAIN_LEN := 64
  const TAG_LEN := 128
  const MSGBASE_LEN := 32
  const PATH_MAX := 4096

  // ---------- Tokens ----------

  /** Where an unquoted token ends. */
  function TokenEnd(s: string): (e: nat)
    ensures e <= |s|
  {
    if s == "" || IsSpace(s[0]) || s[0] == ';' then 0 else 1 + TokenEnd(s[1..])
  }

  function Prepend(t: string, more: Option<seq<string>>): Option<seq<string>> {
    if more.Some? then Some([t] + more.value) else None
  }

  /** The tokens from `line` on, `count` being there already; None for too many or for a
      quote that is not closed. */
  function Tokens(line: string, count: nat): Option<seq<string>>
    decreases |line|, 1
  {
    TokensFrom(line[SpaceRun(line)..], count)
  }

  /** `s` starts with no white space. */
  function TokensFrom(s: string, count: nat): Option<seq<string>>
    decreases |s|, 0
  {
    if s == "" || s[0] == ';' then Some([])
    else if count == MAX_TOKENS then None
    else if s[0] == '"' then
      var e := IndexOf(s[1..], '"');
      if e == |s| - 1 then None else Prepend(s[1..][..e], Tokens(s[1..][e + 1..], count + 1))
    else
      var e := TokenEnd(s);
      if e == |s| || s[e] == ';' then Some([s[..e]]) else Prepend(s[..e], Tokens(s[e + 1..], count + 1))
  }

  lemma TokensUnfold(line: string, count: nat)
    ensures Tokens(line, count) == TokensFrom(line[SpaceRun(line)..], count)
  {
    hide TokensFrom, SpaceRun;
  }

  lemma TokensFromUnfold(s: string, count: nat)
    ensures s == "" || s[0] == ';' ==> TokensFrom(s, count) == Some([])
    ensures s != "" && s[0] != ';' ==>
              TokensFrom(s, count) ==
              if count == MAX_TOKENS then None
              else if s[0] == '"' then
                var e := IndexOf(s[1..], '"');
                if e == |s| - 1 then None else Prepend(s[1..][..e], Tokens(s[1..][e + 1..], count + 1))
              else
                var e := TokenEnd(s);
                if e == |s| || s[e] == ';' then Some([s[..e]]) else Prepend(s[..e], Tokens(s[e + 1..], count + 1))
  {
    hide IndexOf, TokenEnd, Tokens, Prepend;
  }

  method TokenizeLine(line: string) returns (tokens: Option<seq<string>>)
    ensures tokens == Tokens(line, 0)
  {
    hide TokenEnd, IndexOf, SpaceRun, Tokens, TokensFrom, Prepend, AllOf;
    var p := line;
    var found: seq<string> := [];
    Onto([], Tokens(line, 0));
    while true
      invariant |found| <= MAX_TOKENS
      invariant Tokens(line, 0) == AllOf(found, Tokens(p, |found|))
      decreases |p|
    {
      Onto(found, Some([]));
      ghost var at := found;
      TokensUnfold(p, |found|);
      p := p[SpaceRun(p)..];
      TokensFromUnfold(p, |found|);
      if p == "" || p[0] == ';' {
        return Some(found);
      }
      NoneOnto(found);
      if |found| == MAX_TOKENS {
        return None;
      }
      if p[0] == '"' {
        var e := IndexOf(p[1..], '"');
        if e == |p| - 1 {
          return None;
        }
        found := found + [p[1..][..e]];
        p := p[1..][e + 1..];
        OneMore(at, found[|at|], Tokens(p, |found|));
      } else {
        var e := TokenEnd(p);
        found := found + [p[..e]];
        if e == |p| || p[e] == ';' {
          OneMore(at, found[|at|], Some([]));
          Onto(found, Some([]));
          LastOne(found[|at|]);
          return Some(found);
        }
        p := p[e + 1..];
        OneMore(at, found[|at|], Tokens(p, |found|));
      }
    }
  }

  function AllOf(found: seq<string>, more: Option<seq<string>>): Option<seq<string>> {
    if more.Some? then Some(found + more.value) else None
  }

  lemma Onto(found: seq<string>, more: Option<seq<string>>)
    ensures AllOf([], more) == more && AllOf(found, Some([])) == Some(found)
  {
    assert more.Some? ==> [] + more.value == more.value;
    assert found + [] == found;
  }

  lemma NoneOnto(found: seq<string>)
    ensures AllOf(found, None) == None
  {
  }

  lemma LastOne(t: string)
    ensures Prepend(t, Some([])) == Some([t])
  {
    assert [t] + [] == [t];
  }

  lemma OneMore(found: seq<string>, t: string, more: Option<seq<string>>)
    ensures AllOf(found, Prepend(t, more)) == AllOf(found + [t], more)
  {
    assert more.Some? ==> found + ([t] + more.value) == found + [t] + more.value;
  }

  /** Tokens written in quotes, each with a space behind it. */
  function Quoted(tokens: seq<string>): string {
    if tokens == [] then "" else "\"" + tokens[0] + "\" " + Quoted(tokens[1..])
  }

  lemma QuotedStep(t: string, more: string, count: nat)
    requires '"' !in t && count < MAX_TOKENS
    ensures Tokens(['"'] + t + ['"'] + more, count) == Prepend(t, Tokens(more, count + 1))
  {
    hide IndexOf, TokenEnd;
    var s := ['"'] + t + ['"'] + more;
    assert s[1..] == t + ['"'] + more;
    IndexOfAppend(t, '"', more);
    assert SpaceRun(s) == 0 && s[0..] == s;
    assert s[1..][..|t|] == t && s[1..][|t| + 1..] == more;
  }

  /** Up to 64 tokens without a quote in them, written in quotes, are read again -
      whatever blanks and semicolons they hold. */
  lemma {:induction false} TokensOfQuoted(tokens: seq<string>, count: nat)
    requires count + |tokens| <= MAX_TOKENS
    requires forall i :: 0 <= i < |tokens| ==> '"' !in tokens[i]
    ensures Tokens(Quoted(tokens), count) == Some(tokens)
    decreases |tokens|
  {
    hide IndexOf, TokenEnd, Tokens;
    if tokens == [] {
      NoTokens(count);
    } else {
      var t, more := tokens[0], Quoted(tokens[1..]);
      assert Quoted(tokens) == ['"'] + t + ['"'] + (" " + more);
      QuotedStep(t, " " + more, count);
      SpaceFirst(more, count + 1);
      TokensOfQuoted(tokens[1..], count + 1);
      assert tokens == [t] + tokens[1..];
    }
  }

  lemma NoTokens(count: nat)
    ensures Tokens("", count) == Some([])
  {
  }

  lemma SpaceFirst(s: string, count: nat)
    ensures Tokens(" " + s, count) == Tokens(s, count)
  {
    hide TokensFrom, SpaceRun;
    SpaceInFront(s);
  }

  // ---------- The configuration ----------

  datatype AreaType = Echomail | Netmail | LocalArea
  datatype Link = Link(address: Address, modifier: Option<char>)
  datatype Aka = Aka(address: Address, domain: string)
  datatype Area = Area(kind: AreaType, tag: string, domain: string, messagebase: string, path: string,
                       aka: Address, links: seq<Link>)

  /** What the last AKA or area line was: DOMAIN belongs to the last AKA, EXPORT to the
      last area. */
  datatype Block = NoBlock | InAka | InArea
  datatype State = State(akas: seq<Aka>, areas: seq<Area>, block: Block)

  datatype Kind = AkaLine | DomainLine | AreaLine(kind: AreaType) | ExportLine | OtherLine

  function KindOf(tokens: seq<string>): Kind
    requires tokens != []
  {
    var word := Lower(tokens[0]);
    if word == "aka" then AkaLine
    else if word == "domain" then DomainLine
    else if word == "area" then AreaLine(Echomail)
    else if word == "netmail" then AreaLine(Netmail)
    else if word == "localarea" then AreaLine(LocalArea)
    else if word == "export" then ExportLine
    else OtherLine
  }

  function ParseLink(text: string): Option<Link> {
    if text == "" then None
    else
      var marked := text[0] == '!' || text[0] == '@' || text[0] == '%';
      match ParseAddress(if marked then text[1..] else text)
      case None => None
      case Some(a) => Some(Link(a, if marked then Some(text[0]) else None))
  }

  function ParseLinks(texts: seq<string>): Option<seq<Link>> {
    if texts == [] then Some([])
    else
      match ParseLink(texts[0])
      case None => None
      case Some(l) =>
        match ParseLinks(texts[1..])
        case None => None
        case Some(more) => Some([l] + more)
  }

  /** The area that an AREA, NETMAIL or LOCALAREA line announces. */
  function ParseArea(kind: AreaType, tokens: seq<string>): Option<Area> {
    if |tokens| < 3 || |tokens[1]| >= TAG_LEN || ParseAddress(tokens[2]).None? then None
    else
      var base, path := if |tokens| >= 4 then tokens[3] else "", if |tokens| >= 5 then tokens[4] else "";
      if |base| >= MSGBASE_LEN || |path| >= PATH_MAX then None
      else Some(Area(kind, tokens[1], "", base, path, ParseAddress(tokens[2]).value, []))
  }

  function ParseAka(tokens: seq<string>): Option<Aka> {
    if |tokens| < 2 || ParseAddress(tokens[1]).None? then None else Some(Aka(ParseAddress(tokens[1]).value, ""))
  }

  predicate GoodDomain(tokens: seq<string>) {
    |tokens| >= 2 && |tokens[1]| < DOMAIN_LEN
  }

  function SetLast<T>(s: seq<T>, x: T): seq<T>
    requires s != []
  {
    s[..|s| - 1] + [x]
  }

  predicate Consistent(st: State) {
    (st.block == InAka ==> st.akas != []) && (st.block == InArea ==> st.areas != [])
  }

  /** One line of the loader's loop. */
  function Step(st: State, tokens: seq<string>): (next: Option<State>)
    requires Consistent(st)
    ensures next.Some? ==> Consistent(next.value)
  {
    if tokens == [] then Some(st)
    else
      match KindOf(tokens)
      case AkaLine =>
        (match ParseAka(tokens)
         case None => None
         case Some(aka) => Some(State(st.akas + [aka], st.areas, InAka)))
      case DomainLine =>
        if st.block != InAka || !GoodDomain(tokens) then None
        else Some(st.(akas := SetLast(st.akas, st.akas[|st.akas| - 1].(domain := tokens[1]))))
      case AreaLine(kind) =>
        (match ParseArea(kind, tokens)
         case None => None
         case Some(area) => Some(State(st.akas, st.areas + [area], InArea)))
      case ExportLine =>
        if st.block != InArea || st.areas[|st.areas| - 1].kind != Echomail then None
        else
          (match ParseLinks(tokens[1..])
           case None => None
           case Some(links) =>
             var area := st.areas[|st.areas| - 1];
             Some(st.(areas := SetLast(st.areas, area.(links := area.links + links)))))
      case OtherLine => Some(st)
  }

  /** The tokens of every line; None when a line is too long or malformed. */
  function LinesTokens(lines: seq<string>): Option<seq<seq<string>>> {
    if lines == [] then Some([])
    else if |lines[0]| >= LINE_LEN - 1 || Tokens(lines[0], 0).None? then None
    else
      match LinesTokens(lines[1..])
      case None => None
      case Some(more) => Some([Tokens(lines[0], 0).value] + more)
  }

  function Steps(st: State, lines: seq<seq<string>>): (end: Option<State>)
    requires Consistent(st)
    ensures end.Some? ==> Consistent(end.value)
    decreases |lines|
  {
    if lines == [] then Some(st)
    else
      match Step(st, lines[0])
      case None => None
      case Some(next) => Steps(next, lines[1..])
  }

  /** find_aka(): the domain of the first AKA with the address. */
  function DomainOf(akas: seq<Aka>, address: Address): Option<string> {
    if akas == [] then None
    else if akas[0].address == address then Some(akas[0].domain)
    else DomainOf(akas[1..], address)
  }

  /** resolve_area_domains(). */
  function Resolved(akas: seq<Aka>, areas: seq<Area>): Option<seq<Area>> {
    if areas == [] then Some([])
    else
      var d := DomainOf(akas, areas[0].aka);
      if d.None? || d.value == "" then None
      else
        match Resolved(akas, areas[1..])
        case None => None
        case Some(more) => Some([areas[0].(domain := d.value)] + more)
  }

  const START := State([], [], NoBlock)

  /** What the lines make of `st`. */
  function Ahead(st: State, lines: seq<string>): Option<State>
    requires Consistent(st)
  {
    match LinesTokens(lines)
    case None => None
    case Some(ts) => Steps(st, ts)
  }

  lemma AheadStep(st: State, lines: seq<string>, i: nat)
    requires Consistent(st) && i < |lines|
    ensures Ahead(st, lines[i..]) ==
            if |lines[i]| >= LINE_LEN - 1 || Tokens(lines[i], 0).None? then None
            else
              var next := Step(st, Tokens(lines[i], 0).value);
              if next.None? then None else Ahead(next.value, lines[i + 1..])
  {
    hide Step, Tokens;
    assert lines[i..][1..] == lines[i + 1..];
    var more := LinesTokens(lines[i + 1..]);
    if more.Some? && Tokens(lines[i], 0).Some? {
      assert ([Tokens(lines[i], 0).value] + more.value)[1..] == more.value;
    }
  }

  lemma AheadEnd(st: State)
    requires Consistent(st)
    ensures Ahead(st, []) == Some(st)
  {
  }

  /** append_link() for every token behind EXPORT. */
  method AppendLinks(area: Area, tokens: seq<string>) returns (r: Option<Area>)
    requires tokens != []
    ensures r == match ParseLinks(tokens[1..])
                 case None => None
                 case Some(links) => Some(area.(links := area.links + links))
  {
    hide ParseLink;
    var links := area.links;
    var i := 1;
    LinksOnto(area.links, ParseLinks(tokens[1..]));
    while i < |tokens|
      invariant 1 <= i <= |tokens|
      invariant OntoLinks(links, ParseLinks(tokens[i..])) == OntoLinks(area.links, ParseLinks(tokens[1..]))
    {
      assert tokens[i..][1..] == tokens[i + 1..];
      var link := ParseLink(tokens[i]);
      if link.None? {
        return None;
      }
      LinkOnto(links, link.value, ParseLinks(tokens[i + 1..]));
      links := links + [link.value];
      i := i + 1;
    }
    LinksOnto(links, Some([]));
    r := Some(area.(links := links));
  }

  function OntoLinks(links: seq<Link>, more: Option<seq<Link>>): Option<seq<Link>> {
    if more.Some? then Some(links + more.value) else None
  }

  lemma LinksOnto(links: seq<Link>, more: Option<seq<Link>>)
    ensures OntoLinks(links, Some([])) == Some(links)
  {
    assert links + [] == links;
  }

  lemma LinkOnto(links: seq<Link>, l: Link, more: Option<seq<Link>>)
    ensures more.Some? ==> OntoLinks(links, Some([l] + more.value)) == OntoLinks(links + [l], more)
  {
    assert more.Some? ==> links + ([l] + more.value) == links + [l] + more.value;
  }

  /** One line, by the branches of the loader. */
  method DoLine(parsed: State, tokens: seq<string>) returns (next: Option<State>)
    requires Consistent(parsed)
    ensures next == Step(parsed, tokens)
  {
    hide ParseLinks, ParseAddress, Lower;
    if |tokens| == 0 {
      return Some(parsed);
    }
    var akas, areas := parsed.akas, parsed.areas;
    match KindOf(tokens) {
      case AkaLine =>
        var aka := ParseAka(tokens);
        if aka.None? {
          return None;
        }
        next := Some(State(akas + [aka.value], areas, InAka));
      case DomainLine =>
        if |tokens| < 2 || parsed.block != InAka || |tokens[1]| >= DOMAIN_LEN {
          return None;
        }
        var last := |akas| - 1;
        akas := akas[last := akas[last].(domain := tokens[1])];
        assert akas == SetLast(parsed.akas, parsed.akas[last].(domain := tokens[1]));
        next := Some(parsed.(akas := akas));
      case AreaLine(kind) =>
        var area := ParseArea(kind, tokens);
        if area.None? {
          return None;
        }
        next := Some(State(akas, areas + [area.value], InArea));
      case ExportLine =>
        var last := |areas| - 1;
        if parsed.block != InArea || areas[last].kind != Echomail {
          return None;
        }
        var area := AppendLinks(areas[last], tokens);
        if area.None? {
          return None;
        }
        areas := areas[last := area.value];
        assert areas == SetLast(parsed.areas, area.value);
        next := Some(parsed.(areas := areas));
      case OtherLine =>
        next := Some(parsed);
    }
  }

  method FindAka(akas: seq<Aka>, address: Address) returns (domain: Option<string>)
    ensures domain == DomainOf(akas, address)
  {
    var i := 0;
    assert akas[0..] == akas;
    while i < |akas|
      invariant 0 <= i <= |akas| && DomainOf(akas[i..], address) == DomainOf(akas, address)
    {
      if akas[i].address == address {
        return Some(akas[i].domain);
      }
      assert akas[i..][1..] == akas[i + 1..];
      i := i + 1;
    }
    domain := None;
  }

  method ResolveAreaDomains(akas: seq<Aka>, areas: seq<Area>) returns (r: Option<seq<Area>>)
    ensures r == Resolved(akas, areas)
  {
    var done: seq<Area> := [];
    var i := 0;
    OntoAreas(done, Resolved(akas, areas));
    assert areas[0..] == areas;
    while i < |areas|
      invariant 0 <= i <= |areas|
      invariant AllAreas(done, Resolved(akas, areas[i..])) == Resolved(akas, areas)
    {
      assert areas[i..][1..] == areas[i + 1..];
      var d := FindAka(akas, areas[i].aka);
      if d.None? || d.value == "" {
        return None;
      }
      AreaOnto(done, areas[i].(domain := d.value), Resolved(akas, areas[i + 1..]));
      done := done + [areas[i].(domain := d.value)];
      i := i + 1;
    }
    OntoAreas(done, Some([]));
    r := Some(done);
  }

  function AllAreas(done: seq<Area>, more: Option<seq<Area>>): Option<seq<Area>> {
    if more.Some? then Some(done + more.value) else None
  }

  lemma OntoAreas(done: seq<Area>, more: Option<seq<Area>>)
    ensures AllAreas([], more) == more && AllAreas(done, Some([])) == Some(done)
  {
    assert more.Some? ==> [] + more.value == more.value;
    assert done + [] == done;
  }

  lemma AreaOnto(done: seq<Area>, a: Area, more: Option<seq<Area>>)
    ensures more.Some? ==> AllAreas(done, Some([a] + more.value)) == AllAreas(done + [a], more)
  {
    assert more.Some? ==> done + ([a] + more.value) == done + [a] + more.value;
  }

  /** The whole loader: AKAs and areas, or None. */
  function Loaded(lines: seq<string>): Option<(seq<Aka>, seq<Area>)> {
    match Ahead(START, lines)
    case None => None
    case Some(st) =>
      match Resolved(st.akas, st.areas)
      case None => None
      case Some(areas) => Some((st.akas, areas))
  }

  /** The configuration a caller holds. */
  class Config {
    var akas: seq<Aka>
    var areas: seq<Area>

    constructor ()
      ensures akas == [] && areas == []
    {
      akas, areas := [], [];
    }

    /** ftn_config_load_crashmail() on the lines of the file: the configuration is replaced
        as a whole, or not touched. */
    method LoadCrashmail(lines: seq<string>) returns (ok: bool)
      modifies this
      ensures match Loaded(lines)
              case None => !ok && akas == old(akas) && areas == old(areas)
              case Some(c) => ok && akas == c.0 && areas == c.1
    {
      hide Step, Tokens, Ahead, Resolved;
      var parsed := START;
      var lineno := 0;
      assert lines[0..] == lines;
      while lineno < |lines|
        invariant 0 <= lineno <= |lines| && Consistent(parsed) && akas == old(akas) && areas == old(areas)
        invariant Ahead(START, lines) == Ahead(parsed, lines[lineno..])
      {
        AheadStep(parsed, lines, lineno);
        if |lines[lineno]| >= LINE_LEN - 1 {
          return false;
        }
        var tokens := TokenizeLine(lines[lineno]);
        if tokens.None? {
          return false;
        }
        var next := DoLine(parsed, tokens.value);
        if next.None? {
          return false;
        }
        parsed := next.value;
        lineno := lineno + 1;
      }
      assert lines[lineno..] == [];
      AheadEnd(parsed);
      var resolved := ResolveAreaDomains(parsed.akas, parsed.areas);
      if resolved.None? {
        return false;
      }
      akas, areas, ok := parsed.akas, resolved.value, true;
    }
  }
}
