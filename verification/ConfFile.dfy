/** The list of conferences, one line each, and the numbering of a new text in it:
    parse_conf_line() and rewrite_conf_last_text(). */
module ConfFile {
  import opened CText
  import opened FtnScan

  const NAME_LEN := 79

  datatype Conf = Conf(num: int, lastText: int, creator: int, time: int, kind: int, life: int, comConf: int,
                       name: string)

  function Numbers(c: Conf): seq<int> {
    [c.num, c.lastText, c.creator, c.time, c.kind, c.life, c.comConf]
  }

  /** "%d:%ld:..." */
  function NumbersText(ns: seq<int>): string {
    if ns == [] then "" else Signed(ns[0]) + ":" + NumbersText(ns[1..])
  }

  function Printed(c: Conf): string {
    NumbersText(Numbers(c)) + c.name + "\n"
  }

  // ---------- One line ----------

  datatype Fields = Fields(numbers: seq<int>, rest: string)

  /** `ns` in front of what was read behind them. */
  function AllNumbers(ns: seq<int>, more: Option<Fields>): Option<Fields> {
    if more.Some? then Some(Fields(ns + more.value.numbers, more.value.rest)) else None
  }

  /** `k` numbers, a colon behind each. */
  function ReadNumbers(s: string, k: nat): (r: Option<Fields>)
    ensures r.Some? ==> |r.value.numbers| == k
  {
    if k == 0 then Some(Fields([], s))
    else
      var i := IndexOf(s, ':');
      if i == |s| then None else AllNumbers([Strtol(s[..i])], ReadNumbers(s[i + 1..], k - 1))
  }

  lemma ReadNumbersUnfold(s: string, k: nat)
    ensures k == 0 ==> ReadNumbers(s, k) == Some(Fields([], s))
    ensures var i := IndexOf(s, ':');
            k > 0 ==> ReadNumbers(s, k) ==
                      if i == |s| then None else AllNumbers([Strtol(s[..i])], ReadNumbers(s[i + 1..], k - 1))
  {
    hide IndexOf, Strtol, AllNumbers;
  }

  /** strcspn(s, "\r\n"). */
  function LineBreak(s: string): (n: nat)
    ensures n <= |s| && (n < |s| ==> s[n] == '\r' || s[n] == '\n')
    ensures forall i :: 0 <= i < n ==> s[i] != '\r' && s[i] != '\n'
  {
    if s == "" || s[0] == '\r' || s[0] == '\n' then 0 else 1 + LineBreak(s[1..])
  }

  function Name(s: string): string {
    var name := s[..LineBreak(s)];
    if |name| < NAME_LEN then name else name[..NAME_LEN - 1]
  }

  function ConfOf(ns: seq<int>, name: string): Conf
    requires |ns| == 7
  {
    Conf(ns[0], ns[1], ns[2], ns[3], ns[4], ns[5], ns[6], name)
  }

  function ParseLine(line: string): Option<Conf> {
    match ReadNumbers(line, 7)
    case None => None
    case Some(f) => Some(ConfOf(f.numbers, Name(f.rest)))
  }

  method ParseConfLine(line: string) returns (c: Option<Conf>)
    ensures c == ParseLine(line)
  {
    hide Strtol, Name, IndexOf, ReadNumbers, AllNumbers;
    var p, numbers := line, [];
    var i := 0;
    OntoNumbers(numbers, ReadNumbers(line, 7));
    while i < 7
      invariant 0 <= i <= 7 && |numbers| == i
      invariant AllNumbers(numbers, ReadNumbers(p, 7 - i)) == ReadNumbers(line, 7)
    {
      ReadNumbersUnfold(p, 7 - i);
      var colon := IndexOf(p, ':');
      if colon == |p| {
        NothingOnto(numbers);
        return None;
      }
      NumberOnto(numbers, Strtol(p[..colon]), ReadNumbers(p[colon + 1..], 6 - i));
      numbers, p := numbers + [Strtol(p[..colon])], p[colon + 1..];
      i := i + 1;
    }
    ReadNumbersUnfold(p, 0);
    OntoNumbers(numbers, Some(Fields([], p)));
    c := Some(ConfOf(numbers, Name(p)));
  }

  lemma OntoNumbers(ns: seq<int>, more: Option<Fields>)
    ensures AllNumbers([], more) == more
    ensures more.Some? && more.value.numbers == [] ==> AllNumbers(ns, more) == Some(Fields(ns, more.value.rest))
  {
    assert more.Some? ==> [] + more.value.numbers == more.value.numbers;
    assert ns + [] == ns;
  }

  lemma NothingOnto(ns: seq<int>)
    ensures AllNumbers(ns, None) == None
  {
  }

  lemma NumberOnto(ns: seq<int>, n: int, more: Option<Fields>)
    ensures AllNumbers(ns, AllNumbers([n], more)) == AllNumbers(ns + [n], more)
  {
    assert more.Some? ==> ns + ([n] + more.value.numbers) == ns + [n] + more.value.numbers;
  }

  lemma {:induction false} NumbersRead(ns: seq<int>, rest: string)
    ensures ReadNumbers(NumbersText(ns) + rest, |ns|) == Some(Fields(ns, rest))
  {
    hide Signed, Strtol, StrtolLen, IndexOf, ReadNumbers;
    ReadNumbersUnfold(NumbersText(ns) + rest, |ns|);
    if ns == [] {
      assert "" + rest == rest;
    } else {
      FirstNumber(ns, rest);
      NumbersRead(ns[1..], rest);
      assert ns == [ns[0]] + ns[1..];
    }
  }

  lemma FirstNumber(ns: seq<int>, rest: string)
    requires ns != []
    ensures var s := NumbersText(ns) + rest;
            var i := IndexOf(s, ':');
            i < |s| && Strtol(s[..i]) == ns[0] && s[i + 1..] == NumbersText(ns[1..]) + rest
  {
    var head, more := Signed(ns[0]), NumbersText(ns[1..]) + rest;
    assert NumbersText(ns) + rest == head + [':'] + more by {
      hide Signed;
    }
    NumberAhead(ns[0], more);
  }

  lemma NumberAhead(n: int, more: string)
    ensures var s := Signed(n) + [':'] + more;
            var i := IndexOf(s, ':');
            i < |s| && Strtol(s[..i]) == n && s[i + 1..] == more
  {
    hide Signed, Strtol, StrtolLen, IndexOf;
    var head := Signed(n);
    var s := head + [':'] + more;
    assert s[..|head|] == head + "" && s[|head| + 1..] == more;
    IndexOfAppend(head, ':', more);
    StrtolOfSigned(n, "");
  }

  predicate GoodName(name: string) {
    |name| <= 78 && '\r' !in name && '\n' !in name
  }

  /** The name is the first 78 bytes of the rest of the line. */
  lemma NameRead(name: string, rest: string)
    requires '\r' !in name && '\n' !in name && (rest == "" || rest[0] == '\r' || rest[0] == '\n')
    ensures Name(name + rest) == Upto(name, 78)
  {
    var s := name + rest;
    assert forall i :: 0 <= i < |name| ==> s[i] == name[i];
    assert rest != "" ==> s[|name|] == rest[0];
    assert LineBreak(s) == |name| && s[..|name|] == name;
  }

  lemma NameIff(name: string)
    ensures Name(name + "\n") == name <==> GoodName(name)
  {
    if GoodName(name) {
      NameRead(name, "\n");
    } else if |name| <= 78 {
      var s := name + "\n";
      var i :| 0 <= i < |name| && (name[i] == '\r' || name[i] == '\n');
      assert s[i] == name[i] && LineBreak(s) <= i;
    }
  }

  /** A printed line is read back with all its numbers; with its name if and only if that
      is one line of at most 78 bytes. */
  lemma LineRoundTripIff(c: Conf)
    ensures var r := ParseLine(Printed(c));
            r == Some(c.(name := Name(c.name + "\n"))) && (r == Some(c) <==> GoodName(c.name))
  {
    hide ReadNumbers, NumbersText, Name;
    assert Printed(c) == NumbersText(Numbers(c)) + (c.name + "\n");
    NumbersRead(Numbers(c), c.name + "\n");
    NameIff(c.name);
  }

  // ---------- The file ----------

  /** The rewritten lines from `file` on and the number given out last. */
  datatype Rewritten = Rewritten(text: string, newest: Option<int>)

  function Rewrite(file: string, confid: int): Rewritten
    decreases |file|
  {
    if file == "" then Rewritten("", None)
    else
      var n := ChunkLength(Scanner, file);
      var more := Rewrite(file[n..], confid);
      var c := ParseLine(file[..n]);
      if c.Some? && c.value.num == confid then
        var bumped := c.value.(lastText := c.value.lastText + 1);
        Rewritten(Printed(bumped) + more.text, if more.newest.Some? then more.newest else Some(bumped.lastText))
      else Rewritten(file[..n] + more.text, more.newest)
  }

  /** rewrite_conf_last_text(): the new file and the number given out; None, with the file
      kept, when the conference is not listed. */
  method RewriteConfLastText(file: string, confid: int) returns (r: Option<(string, int)>)
    ensures var w := Rewrite(file, confid);
            r == if w.newest.None? then None else Some((w.text, w.newest.value))
  {
    hide ParseLine, Printed, ChunkLength;
    var out, newTextnum, found := "", 0, false;
    var rest := file;
    while rest != ""
      invariant out + Rewrite(rest, confid).text == Rewrite(file, confid).text
      invariant Later(Rewrite(rest, confid).newest, found, newTextnum) == Rewrite(file, confid).newest
      decreases |rest|
    {
      var n := ChunkLength(Scanner, rest);
      var line := rest[..n];
      var ce := ParseConfLine(line);
      ghost var more := Rewrite(rest[n..], confid).text;
      if ce.Some? && ce.value.num == confid {
        var bumped := ce.value.(lastText := ce.value.lastText + 1);
        newTextnum, found := bumped.lastText, true;
        ConcatAssociative(out, Printed(bumped), more);
        out := out + Printed(bumped);
      } else {
        ConcatAssociative(out, line, more);
        out := out + line;
      }
      rest := rest[n..];
    }
    assert out + "" == out;
    r := if found then Some((out, newTextnum)) else None;
  }

  function Later(newest: Option<int>, found: bool, number: int): Option<int> {
    if newest.Some? then newest else if found then Some(number) else None
  }

  function FileOf(confs: seq<Conf>): string {
    if confs == [] then "" else Printed(confs[0]) + FileOf(confs[1..])
  }

  /** A conference whose line the reader takes whole. */
  predicate GoodConf(c: Conf) {
    GoodName(c.name) && |Printed(c)| <= 158
  }

  function BumpedConf(c: Conf, confid: int): Conf {
    if c.num == confid then c.(lastText := c.lastText + 1) else c
  }

  function Bumped(confs: seq<Conf>, confid: int): (b: seq<Conf>)
    ensures |b| == |confs|
    ensures forall i :: 0 <= i < |confs| ==> b[i] == BumpedConf(confs[i], confid)
  {
    if confs == [] then [] else [BumpedConf(confs[0], confid)] + Bumped(confs[1..], confid)
  }

  lemma LineIsChunk(c: Conf, rest: string)
    requires GoodConf(c)
    ensures var s := Printed(c) + rest;
            ChunkLength(Scanner, s) == |Printed(c)| && s[..|Printed(c)|] == Printed(c) && s[|Printed(c)|..] == rest
  {
    hide NumbersText;
    var p, s := Printed(c), Printed(c) + rest;
    NumbersOneLine(Numbers(c));
    assert forall i :: 0 <= i < |p| - 1 ==> s[i] == p[i] != '\n';
    assert s[|p| - 1] == '\n';
    assert LineEnd(s, 0) == |p| - 1;
  }

  lemma {:induction false} NumbersOneLine(ns: seq<int>)
    ensures '\n' !in NumbersText(ns)
  {
    hide Signed;
    if ns != [] {
      NumbersOneLine(ns[1..]);
    }
  }

  /** The number given out last among those of `confs`. */
  ghost predicate GivenOut(confs: seq<Conf>, confid: int, newest: Option<int>) {
    && (newest.None? <==> forall i :: 0 <= i < |confs| ==> confs[i].num != confid)
    && (newest.Some? ==>
          exists i :: 0 <= i < |confs| && confs[i].num == confid && newest.value == confs[i].lastText + 1)
  }

  lemma {:induction false} RewriteBumps(confs: seq<Conf>, confid: int)
    requires forall i :: 0 <= i < |confs| ==> GoodConf(confs[i])
    ensures var w := Rewrite(FileOf(confs), confid);
            w.text == FileOf(Bumped(confs, confid)) && GivenOut(confs, confid, w.newest)
  {
    hide Rewrite, GoodConf, GivenOut, Bumped, Printed, BumpedConf;
    if confs == [] {
      NoneGivenOut(confid);
      assert Bumped([], confid) == [];
    } else {
      var c, more := confs[0], confs[1..];
      RewriteBumps(more, confid);
      FirstLine(c, more, confid);
      FirstGivenOut(confs, confid, Rewrite(FileOf(more), confid).newest);
      FileOfBumped(confs, confid);
    }
  }

  lemma FileOfBumped(confs: seq<Conf>, confid: int)
    requires confs != []
    ensures FileOf(confs) == Printed(confs[0]) + FileOf(confs[1..])
    ensures FileOf(Bumped(confs, confid)) == Printed(BumpedConf(confs[0], confid)) + FileOf(Bumped(confs[1..], confid))
  {
    hide Printed, BumpedConf;
    assert Bumped(confs, confid)[1..] == Bumped(confs[1..], confid);
  }

  lemma NoneGivenOut(confid: int)
    ensures Rewrite("", confid) == Rewritten("", None) && GivenOut([], confid, None)
  {
  }

  lemma FirstLine(c: Conf, confs: seq<Conf>, confid: int)
    requires GoodConf(c)
    ensures var w, v := Rewrite(Printed(c) + FileOf(confs), confid), Rewrite(FileOf(confs), confid);
            && w.text == Printed(BumpedConf(c, confid)) + v.text
            && w.newest == if c.num == confid && v.newest.None? then Some(c.lastText + 1) else v.newest
  {
    hide Printed, ParseLine, ChunkLength, GoodConf, FileOf;
    LineIsChunk(c, FileOf(confs));
    LineRoundTripIff(c);
    GoodLine(c);
  }

  lemma FirstGivenOut(confs: seq<Conf>, confid: int, newest: Option<int>)
    requires confs != [] && GivenOut(confs[1..], confid, newest)
    ensures var c := confs[0];
            GivenOut(confs, confid, if c.num == confid && newest.None? then Some(c.lastText + 1) else newest)
  {
    var more := confs[1..];
    assert forall i :: 0 <= i < |more| ==> more[i] == confs[i + 1];
    if newest.Some? {
      var i :| 0 <= i < |more| && more[i].num == confid && newest.value == more[i].lastText + 1;
      assert confs[i + 1].num == confid;
    }
  }

  lemma GoodLine(c: Conf)
    requires GoodConf(c)
    ensures GoodName(c.name) && Printed(c) != ""
  {
  }

  /** In a list where every conference has its own number, exactly the entry of `confid`
      changes, by one, and the number given out is its new last text. */
  lemma OneNumberGivenOut(confs: seq<Conf>, confid: int, k: nat)
    requires forall i :: 0 <= i < |confs| ==> GoodConf(confs[i])
    requires forall i, j :: 0 <= i < j < |confs| ==> confs[i].num != confs[j].num
    requires k < |confs| && confs[k].num == confid
    ensures var bumped := confs[k].(lastText := confs[k].lastText + 1);
            Rewrite(FileOf(confs), confid) == Rewritten(FileOf(confs[k := bumped]), Some(bumped.lastText))
  {
    hide Rewrite, FileOf, GoodConf;
    RewriteBumps(confs, confid);
    var bumped := confs[k].(lastText := confs[k].lastText + 1);
    forall i | 0 <= i < |confs| && i != k ensures confs[i].num != confid {
      if i < k {
        assert confs[i].num != confs[k].num;
      } else {
        assert confs[k].num != confs[i].num;
      }
    }
    assert Bumped(confs, confid) == confs[k := bumped];
  }
}
