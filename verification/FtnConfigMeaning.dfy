/** What a CrashMail configuration means, read off its lines without running the loader:
    which lines belong to which AKA and area, and exactly when it is accepted. */
module FtnConfigMeaning {
  import opened CText
  import opened FtnAddress
  import opened FtnConfig

  type Lines = seq<seq<string>>

  // ---------- Blocks ----------

  /** The block a line stands in: its last AKA or area line above. */
  datatype Context = Nowhere | UnderAka | UnderArea(kind: AreaType)

  function Under(context: Context, tokens: seq<string>): Context {
    if tokens == [] then context
    else match KindOf(tokens)
      case AkaLine => UnderAka
      case AreaLine(kind) => UnderArea(kind)
      case _ => context
  }

  function ContextOf(context: Context, ts: Lines, i: nat): Context
    requires i <= |ts|
  {
    if i == 0 then context else Under(ContextOf(context, ts, i - 1), ts[i - 1])
  }

  /** A line that is accepted where it stands. */
  predicate LineValid(context: Context, tokens: seq<string>) {
    tokens == [] ||
    match KindOf(tokens)
    case AkaLine => ParseAka(tokens).Some?
    case DomainLine => context == UnderAka && GoodDomain(tokens)
    case AreaLine(kind) => ParseArea(kind, tokens).Some?
    case ExportLine => context == UnderArea(Echomail) && ParseLinks(tokens[1..]).Some?
    case OtherLine => true
  }

  predicate AllValid(context: Context, ts: Lines) {
    forall i :: 0 <= i < |ts| ==> LineValid(ContextOf(context, ts, i), ts[i])
  }

  /** All links of the EXPORT lines up to the next AKA or area line. */
  function LinksBehind(ts: Lines): seq<Link> {
    if ts == [] then []
    else if ts[0] == [] then LinksBehind(ts[1..])
    else match KindOf(ts[0])
      case AkaLine => []
      case AreaLine(_) => []
      case ExportLine => (var l := ParseLinks(ts[0][1..]); if l.Some? then l.value else []) + LinksBehind(ts[1..])
      case _ => LinksBehind(ts[1..])
  }

  /** The last DOMAIN up to the next AKA or area line; `d` without one. */
  function DomainBehind(ts: Lines, d: string): string {
    if ts == [] then d
    else if ts[0] == [] then DomainBehind(ts[1..], d)
    else match KindOf(ts[0])
      case AkaLine => d
      case AreaLine(_) => d
      case DomainLine => DomainBehind(ts[1..], if |ts[0]| >= 2 then ts[0][1] else d)
      case _ => DomainBehind(ts[1..], d)
  }

  function Akas(ts: Lines): seq<Aka> {
    if ts == [] then []
    else
      (if ts[0] == [] || KindOf(ts[0]) != AkaLine || ParseAka(ts[0]).None? then []
       else var aka := ParseAka(ts[0]).value; [aka.(domain := DomainBehind(ts[1..], ""))]) + Akas(ts[1..])
  }

  function Areas(ts: Lines): seq<Area> {
    if ts == [] then []
    else
      (if ts[0] == [] || !KindOf(ts[0]).AreaLine? || ParseArea(KindOf(ts[0]).kind, ts[0]).None? then []
       else [ParseArea(KindOf(ts[0]).kind, ts[0]).value.(links := LinksBehind(ts[1..]))]) + Areas(ts[1..])
  }

  // ---------- The loader agrees ----------

  function ContextIn(st: State): Context
    requires Consistent(st)
  {
    match st.block
    case NoBlock => Nowhere
    case InAka => UnderAka
    case InArea => UnderArea(st.areas[|st.areas| - 1].kind)
  }

  lemma {:induction false} ContextCons(context: Context, ts: Lines, i: nat)
    requires i < |ts|
    ensures ContextOf(context, ts, i + 1) == ContextOf(Under(context, ts[0]), ts[1..], i)
  {
    hide Under;
    if i > 0 {
      ContextCons(context, ts, i - 1);
    }
  }

  lemma AllValidCons(context: Context, ts: Lines)
    requires ts != []
    ensures AllValid(context, ts) <==> LineValid(context, ts[0]) && AllValid(Under(context, ts[0]), ts[1..])
  {
    hide LineValid, Under;
    var c, more := Under(context, ts[0]), ts[1..];
    forall i | 0 <= i < |more| ensures ContextOf(context, ts, i + 1) == ContextOf(c, more, i) && ts[i + 1] == more[i] {
      ContextCons(context, ts, i);
    }
    if LineValid(context, ts[0]) && AllValid(c, more) {
      forall i | 0 <= i < |ts| ensures LineValid(ContextOf(context, ts, i), ts[i]) {
        if i > 0 {
          assert LineValid(ContextOf(c, more, i - 1), more[i - 1]);
        }
      }
    }
    if AllValid(context, ts) {
      assert LineValid(ContextOf(context, ts, 0), ts[0]);
      forall i | 0 <= i < |more| ensures LineValid(ContextOf(c, more, i), more[i]) {
        assert LineValid(ContextOf(context, ts, i + 1), ts[i + 1]);
      }
    }
  }

  /** A line is accepted where it is valid. */
  lemma StepIff(st: State, tokens: seq<string>)
    requires Consistent(st)
    ensures Step(st, tokens).Some? <==> LineValid(ContextIn(st), tokens)
    ensures Step(st, tokens).Some? ==> ContextIn(Step(st, tokens).value) == Under(ContextIn(st), tokens)
  {
    hide ParseLinks, ParseArea, ParseAka, KindOf;
    AkaStartsEmpty(tokens);
  }

  /** What `ts` adds to `st`: to its open block and behind it. */
  function OpenAkas(st: State, ts: Lines): seq<Aka>
    requires Consistent(st)
  {
    if st.block == InAka then
      var last := st.akas[|st.akas| - 1];
      SetLast(st.akas, last.(domain := DomainBehind(ts, last.domain)))
    else st.akas
  }

  function OpenAreas(st: State, ts: Lines): seq<Area>
    requires Consistent(st)
  {
    if st.block == InArea then
      var last := st.areas[|st.areas| - 1];
      SetLast(st.areas, last.(links := last.links + LinksBehind(ts)))
    else st.areas
  }

  lemma SetSame<T>(s: seq<T>)
    ensures s != [] ==> SetLast(s, s[|s| - 1]) == s
  {
  }

  lemma AkasCons(ts: Lines)
    requires ts != []
    ensures (ts[0] == [] || KindOf(ts[0]) != AkaLine) ==> Akas(ts) == Akas(ts[1..])
    ensures (ts[0] != [] && KindOf(ts[0]) == AkaLine && ParseAka(ts[0]).Some?) ==>
              Akas(ts) == [ParseAka(ts[0]).value.(domain := DomainBehind(ts[1..], ""))] + Akas(ts[1..])
  {
    hide ParseAka, KindOf, DomainBehind;
    assert [] + Akas(ts[1..]) == Akas(ts[1..]);
  }

  lemma StepOpenAkas(st: State, ts: Lines)
    requires Consistent(st) && ts != [] && Step(st, ts[0]).Some?
    ensures (ts[0] == [] || KindOf(ts[0]) != AkaLine) ==> OpenAkas(Step(st, ts[0]).value, ts[1..]) == OpenAkas(st, ts)
    ensures (ts[0] != [] && KindOf(ts[0]) == AkaLine) ==>
              && ParseAka(ts[0]).Some?
              && OpenAkas(Step(st, ts[0]).value, ts[1..]) ==
                   st.akas + [ParseAka(ts[0]).value.(domain := DomainBehind(ts[1..], ""))]
              && OpenAkas(st, ts) == st.akas
  {
    hide ParseLinks, ParseArea, ParseAka, KindOf;
    AkaStartsEmpty(ts[0]);
    SetSame(st.akas);
  }

  lemma StepAkas(st: State, ts: Lines)
    requires Consistent(st) && ts != [] && Step(st, ts[0]).Some?
    ensures OpenAkas(Step(st, ts[0]).value, ts[1..]) + Akas(ts[1..]) == OpenAkas(st, ts) + Akas(ts)
  {
    hide ParseAka, KindOf, Step, OpenAkas, Akas, DomainBehind;
    AkasCons(ts);
    StepOpenAkas(st, ts);
    if ts[0] != [] && KindOf(ts[0]) == AkaLine {
      Regroup(st.akas, [ParseAka(ts[0]).value.(domain := DomainBehind(ts[1..], ""))], Akas(ts[1..]));
    }
  }

  lemma Regroup<T>(a: seq<T>, b: seq<T>, c: seq<T>)
    ensures a + b + c == a + (b + c)
  {
  }

  lemma AkaStartsEmpty(tokens: seq<string>)
    ensures ParseAka(tokens).Some? ==> ParseAka(tokens).value.domain == ""
    ensures forall kind :: ParseArea(kind, tokens).Some? ==>
              ParseArea(kind, tokens).value.links == [] && ParseArea(kind, tokens).value.kind == kind
  {
    hide ParseAddress;
  }

  lemma AreasCons(ts: Lines)
    requires ts != []
    ensures (ts[0] == [] || !KindOf(ts[0]).AreaLine?) ==> Areas(ts) == Areas(ts[1..])
    ensures (ts[0] != [] && KindOf(ts[0]).AreaLine? && ParseArea(KindOf(ts[0]).kind, ts[0]).Some?) ==>
              Areas(ts) == [ParseArea(KindOf(ts[0]).kind, ts[0]).value.(links := LinksBehind(ts[1..]))] + Areas(ts[1..])
  {
    hide ParseArea, KindOf, LinksBehind;
    assert [] + Areas(ts[1..]) == Areas(ts[1..]);
  }

  lemma StepOpenAreas(st: State, ts: Lines)
    requires Consistent(st) && ts != [] && Step(st, ts[0]).Some?
    ensures (ts[0] == [] || !KindOf(ts[0]).AreaLine?) ==> OpenAreas(Step(st, ts[0]).value, ts[1..]) == OpenAreas(st, ts)
    ensures (ts[0] != [] && KindOf(ts[0]).AreaLine?) ==>
              && ParseArea(KindOf(ts[0]).kind, ts[0]).Some?
              && OpenAreas(Step(st, ts[0]).value, ts[1..]) ==
                 st.areas + [ParseArea(KindOf(ts[0]).kind, ts[0]).value.(links := LinksBehind(ts[1..]))]
              && OpenAreas(st, ts) == st.areas
  {
    hide ParseLinks, ParseArea, ParseAka, KindOf;
    AkaStartsEmpty(ts[0]);
    SetSame(st.areas);
    if st.block == InArea {
      var links := st.areas[|st.areas| - 1].links;
      assert links + [] == links;
      if ts[0] != [] && KindOf(ts[0]) == ExportLine {
        Regroup(links, ParseLinks(ts[0][1..]).value, LinksBehind(ts[1..]));
      }
    }
    assert [] + LinksBehind(ts[1..]) == LinksBehind(ts[1..]);
  }

  lemma StepAreas(st: State, ts: Lines)
    requires Consistent(st) && ts != [] && Step(st, ts[0]).Some?
    ensures OpenAreas(Step(st, ts[0]).value, ts[1..]) + Areas(ts[1..]) == OpenAreas(st, ts) + Areas(ts)
  {
    hide ParseArea, KindOf, Step, OpenAreas, Areas, LinksBehind;
    AreasCons(ts);
    StepOpenAreas(st, ts);
    if ts[0] != [] && KindOf(ts[0]).AreaLine? {
      Regroup(st.areas, [ParseArea(KindOf(ts[0]).kind, ts[0]).value.(links := LinksBehind(ts[1..]))], Areas(ts[1..]));
    }
  }

  lemma NothingAdded(st: State, ts: Lines)
    requires Consistent(st) && LinksBehind(ts) == []
    ensures OpenAreas(st, ts) == st.areas
  {
    if st.block == InArea {
      var last := st.areas[|st.areas| - 1];
      assert last.links + [] == last.links;
      assert SetLast(st.areas, last) == st.areas;
    }
  }

  lemma {:induction false} StepsMean(st: State, ts: Lines)
    requires Consistent(st)
    ensures Steps(st, ts).Some? <==> AllValid(ContextIn(st), ts)
    ensures Steps(st, ts).Some? ==>
              && Steps(st, ts).value.akas == OpenAkas(st, ts) + Akas(ts)
              && Steps(st, ts).value.areas == OpenAreas(st, ts) + Areas(ts)
    decreases |ts|
  {
    hide Step, LineValid, Under;
    if ts == [] {
      NothingAdded(st, ts);
      assert st.block == InAka ==> SetLast(st.akas, st.akas[|st.akas| - 1]) == st.akas;
      assert st.akas + [] == st.akas && st.areas + [] == st.areas;
    } else {
      AllValidCons(ContextIn(st), ts);
      StepIff(st, ts[0]);
      if Step(st, ts[0]).Some? {
        StepsMean(Step(st, ts[0]).value, ts[1..]);
        StepAkas(st, ts);
        StepAreas(st, ts);
      }
    }
  }

  // ---------- The configuration ----------

  /** Every area's AKA is listed, and its first entry has a domain. */
  predicate Known(akas: seq<Aka>, areas: seq<Area>) {
    forall i :: 0 <= i < |areas| ==> DomainOf(akas, areas[i].aka).Some? && DomainOf(akas, areas[i].aka).value != ""
  }

  function WithDomains(akas: seq<Aka>, areas: seq<Area>): (r: seq<Area>)
    requires Known(akas, areas)
    ensures |r| == |areas|
    ensures forall i :: 0 <= i < |areas| ==> r[i] == areas[i].(domain := DomainOf(akas, areas[i].aka).value)
  {
    seq(|areas|, i requires 0 <= i < |areas| => areas[i].(domain := DomainOf(akas, areas[i].aka).value))
  }

  lemma KnownCons(akas: seq<Aka>, areas: seq<Area>)
    requires areas != []
    ensures Known(akas, areas) <==>
            Known(akas, areas[1..]) && DomainOf(akas, areas[0].aka).Some? && DomainOf(akas, areas[0].aka).value != ""
  {
    hide DomainOf;
    assert areas == [areas[0]] + areas[1..];
    assert forall i :: 0 <= i < |areas| - 1 ==> areas[1..][i] == areas[i + 1];
    if Known(akas, areas[1..]) && DomainOf(akas, areas[0].aka).Some? && DomainOf(akas, areas[0].aka).value != "" {
      forall i | 0 <= i < |areas|
        ensures DomainOf(akas, areas[i].aka).Some? && DomainOf(akas, areas[i].aka).value != "" {
        assert i > 0 ==> areas[i] == areas[1..][i - 1];
      }
    }
  }

  lemma {:induction false} ResolvedIff(akas: seq<Aka>, areas: seq<Area>)
    ensures Resolved(akas, areas) == if Known(akas, areas) then Some(WithDomains(akas, areas)) else None
  {
    hide DomainOf;
    if areas != [] {
      KnownCons(akas, areas);
      ResolvedIff(akas, areas[1..]);
      if Known(akas, areas) {
        hide Known;
        var d := DomainOf(akas, areas[0].aka).value;
        assert WithDomains(akas, areas) == [areas[0].(domain := d)] + WithDomains(akas, areas[1..]);
      }
    }
  }

  /** A configuration is loaded if and only if its lines split into tokens, each is valid
      under the last AKA or area line above it, and every area's AKA has a domain; then
      the AKAs and areas are the ones its blocks describe. */
  lemma LoadedIff(lines: seq<string>)
    ensures Loaded(lines) ==
            var ts := LinesTokens(lines);
            if ts.Some? && AllValid(Nowhere, ts.value) && Known(Akas(ts.value), Areas(ts.value))
            then Some((Akas(ts.value), WithDomains(Akas(ts.value), Areas(ts.value)))) else None
  {
    hide Steps, LinesTokens, AllValid, Akas, Areas, Known, Resolved;
    var ts := LinesTokens(lines);
    if ts.Some? {
      StepsMean(START, ts.value);
      assert [] + Akas(ts.value) == Akas(ts.value) && [] + Areas(ts.value) == Areas(ts.value);
      ResolvedIff(Akas(ts.value), Areas(ts.value));
    }
  }

  lemma {:induction false} NoLinksElsewhere(context: Context, ts: Lines)
    requires AllValid(context, ts) && context != UnderArea(Echomail)
    ensures LinksBehind(ts) == []
    decreases |ts|
  {
    hide ParseLinks, Lower, AllValid;
    if ts != [] {
      AllValidCons(context, ts);
      if Under(context, ts[0]) == context {
        NoLinksElsewhere(context, ts[1..]);
      }
    }
  }

  /** Only echomail areas have links. */
  lemma {:induction false} LinksOnlyUnderEchomail(context: Context, ts: Lines, k: nat)
    requires AllValid(context, ts) && k < |Areas(ts)| && Areas(ts)[k].links != []
    ensures Areas(ts)[k].kind == Echomail
    decreases |ts|
  {
    hide ParseLinks, ParseArea, Lower, AllValid, LinksBehind;
    AllValidCons(context, ts);
    var more := Under(context, ts[0]);
    var n := |Areas(ts)| - |Areas(ts[1..])|;
    if k >= n {
      assert Areas(ts)[k] == Areas(ts[1..])[k - n];
      LinksOnlyUnderEchomail(more, ts[1..], k - n);
    } else {
      AkaStartsEmpty(ts[0]);
      if more != UnderArea(Echomail) {
        NoLinksElsewhere(more, ts[1..]);
      }
    }
  }
}
