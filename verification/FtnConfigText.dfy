/** Configurations as they are written: every way to write a line of tokens, every
    configuration in lines, and that the loader gives back just these. */
module FtnConfigText {
  import opened CText
  import opened FtnAddress
  import opened FtnConfig

  // ---------- Lines ----------

  /** A token as written: in quotes or bare, with the white space behind it. */
  datatype Word = Word(text: string, quoted: bool, gap: string)

  predicate Spaces(s: string) {
    forall i :: 0 <= i < |s| ==> s[i] as int in {9, 10, 11, 12, 13, 32}
  }

  predicate GoodWord(w: Word) {
    && w.gap != "" && Spaces(w.gap)
    && if w.quoted then '"' !in w.text
       else w.text != "" && w.text[0] != '"' &&
            forall i :: 0 <= i < |w.text| ==> w.text[i] as int !in {9, 10, 11, 12, 13, 32} && w.text[i] != ';'
  }

  predicate GoodWords(words: seq<Word>) {
    forall i :: 0 <= i < |words| ==> GoodWord(words[i])
  }

  function WordText(w: Word): string {
    (if w.quoted then "\"" + w.text + "\"" else w.text) + w.gap
  }

  function LineText(words: seq<Word>): string {
    if words == [] then "" else WordText(words[0]) + LineText(words[1..])
  }

  function Texts(words: seq<Word>): seq<string> {
    if words == [] then [] else [words[0].text] + Texts(words[1..])
  }

  lemma {:induction false} SpacesSkipped(gap: string, rest: string)
    requires Spaces(gap)
    ensures LeftTrimmed(gap + rest) == LeftTrimmed(rest)
  {
    if gap == "" {
      assert gap + rest == rest;
    } else {
      var s := gap + rest;
      assert s[1..] == gap[1..] + rest;
      SpacesSkipped(gap[1..], rest);
      assert s[SpaceRun(s)..] == s[1..][SpaceRun(s[1..])..];
    }
  }

  lemma GapSkipped(gap: string, rest: string, count: nat)
    requires Spaces(gap)
    ensures Tokens(gap + rest, count) == Tokens(rest, count)
  {
    hide TokensFrom, SpaceRun;
    SpacesSkipped(gap, rest);
    TokensUnfold(gap + rest, count);
    TokensUnfold(rest, count);
  }

  lemma {:induction false} BareEnds(text: string, rest: string)
    requires forall i :: 0 <= i < |text| ==> text[i] as int !in {9, 10, 11, 12, 13, 32} && text[i] != ';'
    requires rest != "" && rest[0] as int in {9, 10, 11, 12, 13, 32}
    ensures TokenEnd(text + rest) == |text|
  {
    if text == "" {
      assert text + rest == rest;
    } else {
      assert (text + rest)[1..] == text[1..] + rest;
      BareEnds(text[1..], rest);
    }
  }

  lemma BareWord(w: Word, rest: string, count: nat)
    requires GoodWord(w) && !w.quoted && count < 64
    ensures Tokens(w.text + (w.gap + rest), count) == Prepend(w.text, Tokens(w.gap[1..] + rest, count + 1))
  {
    hide TokenEnd, TokensFrom, Tokens, Prepend;
    var behind := w.gap + rest;
    var s := w.text + behind;
    BareEnds(w.text, behind);
    TokensUnfold(s, count);
    assert s[0] == w.text[0] && !IsSpace(s[0]) && SpaceRun(s) == 0 && s[0..] == s;
    TokensFromUnfold(s, count);
    assert s[|w.text|] == behind[0] != ';';
    assert s[..|w.text|] == w.text && s[|w.text| + 1..] == w.gap[1..] + rest;
  }

  lemma QuotedWord(w: Word, rest: string, count: nat)
    requires GoodWord(w) && w.quoted && count < 64
    ensures Tokens("\"" + w.text + "\"" + (w.gap + rest), count) == Prepend(w.text, Tokens(w.gap + rest, count + 1))
  {
    hide Tokens, Prepend;
    QuotedStep(w.text, w.gap + rest, count);
  }

  /** Every way to write up to 64 tokens, a comment behind them or not, gives them back; a
      65th is refused. */
  lemma {:induction false} TokensOfWords(words: seq<Word>, comment: string, count: nat)
    requires GoodWords(words) && (comment == "" || comment[0] == ';') && count <= 64
    ensures Tokens(LineText(words) + comment, count) == if count + |words| <= 64 then Some(Texts(words)) else None
    decreases |words|
  {
    hide Tokens, GoodWord, WordText;
    if words == [] {
      assert "" + comment == comment;
      NoMore(comment, count);
    } else {
      var w, rest := words[0], LineText(words[1..]) + comment;
      assert LineText(words) + comment == WordText(w) + rest;
      if count < 64 {
        TokensOfWords(words[1..], comment, count + 1);
        FirstWord(w, rest, count);
      } else {
        TooMany(w, rest);
      }
    }
  }

  lemma FirstWord(w: Word, rest: string, count: nat)
    requires GoodWord(w) && count < 64
    ensures Tokens(WordText(w) + rest, count) == Prepend(w.text, Tokens(rest, count + 1))
  {
    hide Tokens, Prepend;
    if w.quoted {
      assert WordText(w) + rest == "\"" + w.text + "\"" + (w.gap + rest);
      QuotedWord(w, rest, count);
      GapSkipped(w.gap, rest, count + 1);
    } else {
      assert WordText(w) + rest == w.text + (w.gap + rest);
      BareWord(w, rest, count);
      GapSkipped(w.gap[1..], rest, count + 1);
    }
  }

  lemma NoMore(comment: string, count: nat)
    requires comment == "" || comment[0] == ';'
    ensures Tokens(comment, count) == Some([])
  {
    hide Tokens;
    TokensUnfold(comment, count);
    assert SpaceRun(comment) == 0 && comment[0..] == comment;
    TokensFromUnfold(comment, count);
  }

  /** A bare token that the end of the line or a comment ends. */
  lemma LastBare(text: string, comment: string, count: nat)
    requires text != "" && text[0] != '"' && (comment == "" || comment[0] == ';') && count < 64
    requires forall i :: 0 <= i < |text| ==> text[i] as int !in {9, 10, 11, 12, 13, 32} && text[i] != ';'
    ensures Tokens(text + comment, count) == Some([text])
  {
    hide Tokens, TokenEnd;
    var s := text + comment;
    LastBareEnds(text, comment);
    TokensUnfold(s, count);
    assert s[0] == text[0] && !IsSpace(s[0]) && SpaceRun(s) == 0 && s[0..] == s;
    TokensFromUnfold(s, count);
    assert s[..|text|] == text && (comment != "" ==> s[|text|] == comment[0]);
  }

  lemma {:induction false} LastBareEnds(text: string, comment: string)
    requires forall i :: 0 <= i < |text| ==> text[i] as int !in {9, 10, 11, 12, 13, 32} && text[i] != ';'
    requires comment == "" || comment[0] == ';'
    ensures TokenEnd(text + comment) == |text|
  {
    if text == "" {
      assert text + comment == comment;
    } else {
      assert (text + comment)[1..] == text[1..] + comment;
      LastBareEnds(text[1..], comment);
    }
  }

  lemma TooMany(w: Word, rest: string)
    requires GoodWord(w)
    ensures Tokens(WordText(w) + rest, 64) == None
  {
    hide Tokens;
    var s := WordText(w) + rest;
    TokensUnfold(s, 64);
    assert s[0] == WordText(w)[0] && !IsSpace(s[0]) && s[0] != ';';
    assert SpaceRun(s) == 0 && s[0..] == s;
    TokensFromUnfold(s, 64);
  }

  // ---------- Keywords ----------

  /** Which line a line is, by its first word. */
  lemma KindIff(tokens: seq<string>)
    requires tokens != []
    ensures KindOf(tokens) == AkaLine <==> SameWord(tokens[0], "aka")
    ensures KindOf(tokens) == DomainLine <==> SameWord(tokens[0], "domain")
    ensures KindOf(tokens) == AreaLine(Echomail) <==> SameWord(tokens[0], "area")
    ensures KindOf(tokens) == AreaLine(Netmail) <==> SameWord(tokens[0], "netmail")
    ensures KindOf(tokens) == AreaLine(LocalArea) <==> SameWord(tokens[0], "localarea")
    ensures KindOf(tokens) == ExportLine <==> SameWord(tokens[0], "export")
  {
    hide SameWord, Lower;
    KeywordIs(tokens[0], "aka");
    KeywordIs(tokens[0], "domain");
    KeywordIs(tokens[0], "area");
    KeywordIs(tokens[0], "netmail");
    KeywordIs(tokens[0], "localarea");
    KeywordIs(tokens[0], "export");
  }

  lemma Capitals()
    ensures SameWord("AKA", "aka") && SameWord("DOMAIN", "domain") && SameWord("EXPORT", "export")
    ensures SameWord("AREA", "area") && SameWord("NETMAIL", "netmail") && SameWord("LOCALAREA", "localarea")
  {
  }

  // ---------- Configurations ----------

  predicate GoodLink(l: Link) {
    AddressInRange(l.address) && (l.modifier == None || l.modifier in {Some('!'), Some('@'), Some('%')})
  }

  function LinkText(l: Link): string {
    (if l.modifier.Some? then [l.modifier.value] else "") + FormatAddress(l.address)
  }

  predicate GoodAka(a: Aka) {
    AddressInRange(a.address) && |a.domain| <= 63
  }

  predicate GoodArea(a: Area) {
    && AddressInRange(a.aka) && |a.tag| <= 127 && |a.messagebase| <= 31 && |a.path| <= 4095
    && (a.links != [] ==> a.kind == Echomail) && forall i :: 0 <= i < |a.links| ==> GoodLink(a.links[i])
  }

  function Keyword(kind: AreaType): string {
    match kind
    case Echomail => "AREA"
    case Netmail => "NETMAIL"
    case LocalArea => "LOCALAREA"
  }

  function AkaLines(akas: seq<Aka>): seq<seq<string>> {
    if akas == [] then []
    else [["AKA", FormatAddress(akas[0].address)], ["DOMAIN", akas[0].domain]] + AkaLines(akas[1..])
  }

  function ExportLines(links: seq<Link>): seq<seq<string>> {
    if links == [] then [] else [["EXPORT", LinkText(links[0])]] + ExportLines(links[1..])
  }

  function AreaTokens(a: Area): seq<string> {
    [Keyword(a.kind), a.tag, FormatAddress(a.aka), a.messagebase, a.path]
  }

  function AreaLines(areas: seq<Area>): seq<seq<string>> {
    if areas == [] then []
    else [AreaTokens(areas[0])] + ExportLines(areas[0].links) + AreaLines(areas[1..])
  }

  /** An area as it is before its domain is looked up. */
  function Bare(areas: seq<Area>): seq<Area> {
    if areas == [] then [] else [areas[0].(domain := "")] + Bare(areas[1..])
  }

  lemma {:induction false} StepsConcat(st: State, a: seq<seq<string>>, b: seq<seq<string>>)
    requires Consistent(st)
    ensures Steps(st, a + b) == if Steps(st, a).None? then None else Steps(Steps(st, a).value, b)
    decreases |a|
  {
    hide Step;
    if a == [] {
      assert a + b == b;
    } else {
      assert (a + b)[1..] == a[1..] + b;
      var next := Step(st, a[0]);
      if next.Some? {
        StepsConcat(next.value, a[1..], b);
      }
    }
  }

  lemma OneStep(st: State, line: seq<string>)
    requires Consistent(st)
    ensures Steps(st, [line]) == Step(st, line)
  {
    hide Step;
    assert [line][1..] == [];
    var next := Step(st, line);
    if next.Some? {
      NoSteps(next.value);
    }
  }

  lemma NoSteps(st: State)
    requires Consistent(st)
    ensures Steps(st, []) == Some(st)
  {
  }

  lemma LinkReads(l: Link)
    requires GoodLink(l)
    ensures ParseLink(LinkText(l)) == Some(l)
  {
    hide ParseAddress;
    AddressRoundTripIff(l.address);
    FormatBegins(l.address);
    hide FormatAddress;
    if l.modifier.Some? {
      assert LinkText(l)[1..] == FormatAddress(l.address);
    } else {
      assert "" + FormatAddress(l.address) == FormatAddress(l.address);
    }
  }

  lemma FormatBegins(a: Address)
    requires AddressInRange(a)
    ensures FormatAddress(a) != "" && IsDigit(FormatAddress(a)[0])
  {
    assert Signed(a.zone) == Decimal(a.zone) && AllDigits(Decimal(a.zone));
    hide Decimal, Signed;
  }

  /** `st` with another last area. */
  function WithLast(st: State, area: Area): State
    requires st.areas != []
  {
    st.(areas := st.areas[..|st.areas| - 1] + [area])
  }

  function LastArea(st: State): Area
    requires st.areas != []
  {
    st.areas[|st.areas| - 1]
  }

  lemma WithLastTwice(st: State, a: Area, b: Area)
    requires st.areas != []
    ensures WithLast(WithLast(st, a), b) == WithLast(st, b) && LastArea(WithLast(st, a)) == a
    ensures WithLast(st, LastArea(st)) == st
    ensures Consistent(st) ==> Consistent(WithLast(st, a)) && WithLast(st, a).block == st.block
  {
    var all := st.areas[..|st.areas| - 1] + [a];
    assert all[..|all| - 1] == st.areas[..|st.areas| - 1];
  }

  lemma ExportStep(st: State, l: Link)
    requires Consistent(st) && st.block == InArea && LastArea(st).kind == Echomail && GoodLink(l)
    ensures Step(st, ["EXPORT", LinkText(l)]) == Some(WithLast(st, LastArea(st).(links := LastArea(st).links + [l])))
  {
    hide SameWord, KindOf, ParseLink, LinkText;
    var tokens := ["EXPORT", LinkText(l)];
    KindIff(tokens);
    Capitals();
    LinkReads(l);
    OneLink(l);
    assert tokens[1..] == [LinkText(l)];
  }

  lemma OneLink(l: Link)
    requires ParseLink(LinkText(l)) == Some(l)
    ensures ParseLinks([LinkText(l)]) == Some([l])
  {
    hide ParseLink, LinkText;
    var texts := [LinkText(l)];
    assert texts[1..] == [] && ParseLinks(texts[1..]) == Some([]);
    assert [l] + [] == [l];
  }

  lemma {:induction false} ExportsRead(st: State, links: seq<Link>)
    requires Consistent(st) && st.block == InArea && forall i :: 0 <= i < |links| ==> GoodLink(links[i])
    requires links != [] ==> LastArea(st).kind == Echomail
    ensures Steps(st, ExportLines(links)) == Some(WithLast(st, LastArea(st).(links := LastArea(st).links + links)))
    decreases |links|
  {
    var area := LastArea(st);
    if links == [] {
      hide WithLast, LastArea;
      assert area.links + [] == area.links;
      WithLastTwice(st, area, area);
      NoSteps(st);
    } else {
      var line, more := ["EXPORT", LinkText(links[0])], links[1..];
      var one := area.(links := area.links + [links[0]]);
      var all := area.(links := area.links + links);
      ExportStep(st, links[0]);
      WithLastTwice(st, one, all);
      hide Step, Steps, GoodLink, WithLast, LastArea, Consistent, LinkText;
      ExportsRead(WithLast(st, one), more);
      LinksTogether(area.links, links);
      OneStep(st, line);
      StepsConcat(st, [line], ExportLines(more));
    }
  }

  lemma LinksTogether(have: seq<Link>, links: seq<Link>)
    requires links != []
    ensures have + [links[0]] + links[1..] == have + links
  {
  }

  lemma AreaStep(st: State, a: Area)
    requires Consistent(st) && GoodArea(a)
    ensures Step(st, AreaTokens(a)) == Some(State(st.akas, st.areas + [a.(domain := "", links := [])], InArea))
  {
    hide SameWord, KindOf, FormatAddress, ParseAddress;
    KindIff(AreaTokens(a));
    Capitals();
    AddressRoundTripIff(a.aka);
    assert KindOf(AreaTokens(a)) == AreaLine(a.kind);
  }

  lemma OneAreaReads(st: State, a: Area)
    requires Consistent(st) && GoodArea(a)
    ensures Steps(st, [AreaTokens(a)] + ExportLines(a.links)) ==
            Some(State(st.akas, st.areas + [a.(domain := "")], InArea))
  {
    var st1 := State(st.akas, st.areas + [a.(domain := "", links := [])], InArea);
    AreaStep(st, a);
    OneStep(st, AreaTokens(a));
    ExportsRead(st1, a.links);
    StepsConcat(st, [AreaTokens(a)], ExportLines(a.links));
    hide Step, Steps, AreaTokens, ExportLines;
    assert [] + a.links == a.links && st1.areas[..|st.areas|] == st.areas;
  }

  lemma {:induction false} AreasRead(st: State, areas: seq<Area>)
    requires Consistent(st) && forall i :: 0 <= i < |areas| ==> GoodArea(areas[i])
    ensures var r := Steps(st, AreaLines(areas));
            r.Some? && r.value.akas == st.akas && r.value.areas == st.areas + Bare(areas)
    decreases |areas|
  {
    hide Step, AreaTokens, ExportLines, GoodArea;
    if areas == [] {
      assert st.areas + [] == st.areas;
      NoSteps(st);
    } else {
      var a, more := areas[0], areas[1..];
      var next := State(st.akas, st.areas + [a.(domain := "")], InArea);
      OneAreaReads(st, a);
      AreasRead(next, more);
      StepsConcat(st, [AreaTokens(a)] + ExportLines(a.links), AreaLines(more));
      AreasTogether(st.areas, a.(domain := ""), Bare(more));
    }
  }

  lemma AreasTogether(have: seq<Area>, a: Area, more: seq<Area>)
    ensures have + [a] + more == have + ([a] + more)
  {
  }

  lemma AkaSteps(st: State, a: Aka)
    requires Consistent(st) && GoodAka(a)
    ensures Steps(st, [["AKA", FormatAddress(a.address)], ["DOMAIN", a.domain]]) ==
              Some(State(st.akas + [a], st.areas, InAka))
  {
    hide SameWord, KindOf, FormatAddress, ParseAddress;
    var first, second := ["AKA", FormatAddress(a.address)], ["DOMAIN", a.domain];
    KindIff(first);
    Capitals();
    KindIff(second);
    AddressRoundTripIff(a.address);
    var st1 := State(st.akas + [Aka(a.address, "")], st.areas, InAka);
    assert Step(st, first) == Some(st1);
    assert st1.akas[..|st.akas|] == st.akas;
    assert Step(st1, second) == Some(State(st.akas + [a], st.areas, InAka));
    OneStep(st, first);
    OneStep(st1, second);
    StepsConcat(st, [first], [second]);
    assert [first] + [second] == [first, second];
  }

  lemma {:induction false} AkasRead(st: State, akas: seq<Aka>)
    requires Consistent(st) && forall i :: 0 <= i < |akas| ==> GoodAka(akas[i])
    ensures var r := Steps(st, AkaLines(akas)); r.Some? && r.value.akas == st.akas + akas && r.value.areas == st.areas
    decreases |akas|
  {
    hide Step, GoodAka, FormatAddress;
    if akas == [] {
      assert st.akas + [] == st.akas;
      NoSteps(st);
    } else {
      var a, more := akas[0], akas[1..];
      AkaSteps(st, a);
      AkasRead(State(st.akas + [a], st.areas, InAka), more);
      StepsConcat(st, [["AKA", FormatAddress(a.address)], ["DOMAIN", a.domain]], AkaLines(more));
      AkasTogether(st.akas, akas);
    }
  }

  lemma AkasTogether(have: seq<Aka>, akas: seq<Aka>)
    requires akas != []
    ensures have + [akas[0]] + akas[1..] == have + akas
  {
  }

  /** The area belongs to an AKA of the configuration, whose domain it has. */
  predicate DomainRight(akas: seq<Aka>, a: Area) {
    exists k :: 0 <= k < |akas| && akas[k].address == a.aka && akas[k].domain == a.domain != "" &&
                forall j :: 0 <= j < k ==> akas[j].address != a.aka
  }

  lemma {:induction false} DomainFound(akas: seq<Aka>, address: Address, k: nat)
    requires k < |akas| && akas[k].address == address && forall j :: 0 <= j < k ==> akas[j].address != address
    ensures DomainOf(akas, address) == Some(akas[k].domain)
  {
    if k > 0 {
      DomainFound(akas[1..], address, k - 1);
    }
  }

  lemma {:induction false} DomainsResolved(akas: seq<Aka>, areas: seq<Area>)
    requires forall i :: 0 <= i < |areas| ==> DomainRight(akas, areas[i])
    ensures Resolved(akas, Bare(areas)) == Some(areas)
  {
    hide DomainOf;
    if areas != [] {
      var a := areas[0];
      assert DomainRight(akas, a);
      var k :| 0 <= k < |akas| && akas[k].address == a.aka && akas[k].domain == a.domain != "" &&
               forall j :: 0 <= j < k ==> akas[j].address != a.aka;
      DomainFound(akas, a.aka, k);
      DomainsResolved(akas, areas[1..]);
      assert Bare(areas)[1..] == Bare(areas[1..]);
      assert [a] + areas[1..] == areas;
    }
  }

  /** `lines` write the token lines `ts`, each line in any way. */
  predicate Writes(lines: seq<string>, ts: seq<seq<string>>) {
    |lines| == |ts| && forall i :: 0 <= i < |lines| ==> WritesOne(lines[i], ts[i])
  }

  predicate WritesOne(line: string, tokens: seq<string>) {
    |line| <= 4094 && Tokens(line, 0) == Some(tokens)
  }

  lemma {:induction false} WrittenLines(lines: seq<string>, ts: seq<seq<string>>)
    requires Writes(lines, ts)
    ensures LinesTokens(lines) == Some(ts)
  {
    hide Tokens;
    if lines != [] {
      assert WritesOne(lines[0], ts[0]);
      forall i | 0 <= i < |lines[1..]| ensures WritesOne(lines[1..][i], ts[1..][i]) {
        assert WritesOne(lines[i + 1], ts[i + 1]);
      }
      WrittenLines(lines[1..], ts[1..]);
      assert [ts[0]] + ts[1..] == ts;
    }
  }

  /** A configuration written in lines is the one the loader gives back. */
  lemma ConfigReads(akas: seq<Aka>, areas: seq<Area>, lines: seq<string>)
    requires forall i :: 0 <= i < |akas| ==> GoodAka(akas[i])
    requires forall i :: 0 <= i < |areas| ==> GoodArea(areas[i]) && DomainRight(akas, areas[i])
    requires Writes(lines, AkaLines(akas) + AreaLines(areas))
    ensures Loaded(lines) == Some((akas, areas))
  {
    hide Steps, Resolved, LinesTokens, GoodAka, GoodArea, DomainRight, Writes, AkaLines, AreaLines, Bare;
    WrittenLines(lines, AkaLines(akas) + AreaLines(areas));
    AkasRead(START, akas);
    var st := Steps(START, AkaLines(akas)).value;
    AreasRead(st, areas);
    StepsConcat(START, AkaLines(akas), AreaLines(areas));
    assert [] + akas == akas && [] + Bare(areas) == Bare(areas);
    DomainsResolved(akas, areas);
  }

  // ---------- What is refused ----------

  /** The sizes the loader puts on an area line, and what may be left out of it. */
  lemma AreaLineIff(kind: AreaType, tokens: seq<string>)
    ensures ParseArea(kind, tokens).Some? <==>
            && |tokens| >= 3 && |tokens[1]| <= 127 && ParseAddress(tokens[2]).Some?
            && (|tokens| >= 4 ==> |tokens[3]| <= 31) && (|tokens| >= 5 ==> |tokens[4]| <= 4095)
    ensures ParseArea(kind, tokens).Some? ==>
              var a := ParseArea(kind, tokens).value;
              && a.kind == kind && a.tag == tokens[1] && Some(a.aka) == ParseAddress(tokens[2])
              && a.messagebase == (if |tokens| >= 4 then tokens[3] else "")
              && a.path == (if |tokens| >= 5 then tokens[4] else "") && a.links == []
  {
    hide ParseAddress;
  }

  lemma AkaLineIff(tokens: seq<string>)
    ensures ParseAka(tokens).Some? <==> |tokens| >= 2 && ParseAddress(tokens[1]).Some?
    ensures GoodDomain(tokens) <==> |tokens| >= 2 && |tokens[1]| <= 63
  {
    hide ParseAddress;
  }

  /** A line of 4095 bytes or more ends the load. */
  lemma LongLineRefused(lines: seq<string>, i: nat)
    requires i < |lines| && |lines[i]| >= 4095
    ensures Loaded(lines) == None
  {
    LongLineAnywhere(lines, i);
  }

  lemma {:induction false} LongLineAnywhere(lines: seq<string>, i: nat)
    requires i < |lines| && |lines[i]| >= 4095
    ensures LinesTokens(lines) == None
  {
    hide Tokens;
    if i > 0 {
      LongLineAnywhere(lines[1..], i - 1);
    }
  }
}
