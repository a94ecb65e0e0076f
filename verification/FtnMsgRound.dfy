/** The .MSG round trip: exactly when read_fido_msg() gives back what
    write_fido_msg_out() wrote. */
module FtnMsgRound {
  import opened CText
  import opened FtnMsg
  import opened FtnMsgOut
  import Utf8

  // ---------- Header fields ----------

  lemma TextOfField(s: string, len: nat)
    requires CString(s) && len > 0
    ensures FieldText(Utf8.Field(s, len)) == TrimSpace(s[..Utf8.FieldLen(s, len)])
  {
    hide TrimSpace, IndexOf;
    var n := Utf8.FieldLen(s, len);
    var f := Utf8.Field(s, len);
    assert f[n] == '\0';
    TextIs(f, s[..n]);
  }

  lemma {:induction false} TrimNothingIff(s: string)
    ensures |TrimSpace(s)| == |s| <==> s == "" || !IsSpace(s[|s| - 1])
  {
  }

  /** A field comes back as written if and only if it fits with a NUL and does not end in
      white space; on valid UTF-8 it comes back as its longest run of whole characters
      that fits, without white space at the end. */
  lemma FieldRoundTripIff(s: string, len: nat)
    requires CString(s) && len > 0
    ensures FieldText(Utf8.Field(s, len)) == s <==> |s| < len && (s == "" || !IsSpace(s[|s| - 1]))
    ensures Utf8.Valid(s) ==> FieldText(Utf8.Field(s, len)) == TrimSpace(s[..Utf8.Whole(s, len - 1)])
  {
    hide TrimSpace, FieldText, Utf8.Field, Utf8.Valid, Utf8.Whole, Utf8.SafeEnd;
    TextOfField(s, len);
    TrimNothingIff(s);
    assert |s| < len ==> s[..Utf8.FieldLen(s, len)] == s;
    if Utf8.Valid(s) {
      Utf8.SameCut(s, len);
    }
  }

  // ---------- Lines ----------

  predicate Unbroken(s: string) {
    '\0' !in s && '\r' !in s && '\n' !in s
  }

  /** A line as the line buffer holds it. */
  function Cut(s: string): string {
    if |s| < LINE_SIZE then s else s[..LINE_SIZE - 1]
  }

  function Cuts(lines: seq<string>): (c: seq<string>)
    ensures |c| == |lines|
  {
    if lines == [] then [] else [Cut(lines[0])] + Cuts(lines[1..])
  }

  lemma {:induction false} LineRead(line: string, p: string, rest: string)
    requires Unbroken(p) && |line| < LINE_SIZE
    ensures Lines(p + "\r" + rest, line) == [Cut(line + p)] + Lines(rest, "")
    decreases |p|
  {
    hide Lines, Cut;
    var t := p + "\r" + rest;
    LinesUnfold(t, line);
    CutKept(line, p);
    if p == "" {
      assert t[1..] == rest;
    } else {
      assert t[0] == p[0] && t[1..] == p[1..] + "\r" + rest;
      LineRead(Kept(line, p[0]), p[1..], rest);
    }
  }

  lemma LinesUnfold(buf: string, line: string)
    requires buf != "" && buf[0] != '\0'
    ensures Lines(buf, line) ==
            if EndsHere(buf[0]) then [line] + Lines(buf[1..], "") else Lines(buf[1..], Kept(line, buf[0]))
  {
  }

  /** The line buffer keeps what the cut keeps, byte by byte. */
  lemma CutKept(line: string, p: string)
    requires |line| < LINE_SIZE
    ensures p == "" ==> Cut(line + p) == line
    ensures p != "" ==> Cut(Kept(line, p[0]) + p[1..]) == Cut(line + p) && |Kept(line, p[0])| < LINE_SIZE
  {
    if p == "" {
      assert line + p == line;
    } else if |line| + 1 < LINE_SIZE {
      assert line + [p[0]] + p[1..] == line + p;
    } else {
      assert Cut(line + p) == line == Cut(line + p[1..]);
    }
  }

  predicate AllUnbroken(lines: seq<string>) {
    forall i :: 0 <= i < |lines| ==> Unbroken(lines[i])
  }

  lemma {:induction false} LinesRead(lines: seq<string>, rest: string)
    requires AllUnbroken(lines)
    ensures Lines(Returned(lines) + rest, "") == Cuts(lines) + Lines(rest, "")
  {
    hide Lines, Cut;
    if lines == [] {
      assert "" + rest == rest && [] + Lines(rest, "") == Lines(rest, "");
    } else {
      var more := Returned(lines[1..]) + rest;
      ConcatAssociative(lines[0] + "\r", Returned(lines[1..]), rest);
      LineRead("", lines[0], more);
      assert "" + lines[0] == lines[0];
      LinesRead(lines[1..], rest);
    }
  }

  /** The lines of a text: one more than it has line ends. */
  function Split(body: string): (pieces: seq<string>)
    ensures |pieces| > 0
  {
    if body == "" then [""]
    else if body[0] == '\n' then [""] + Split(body[1..])
    else
      var r := Split(body[1..]);
      [[body[0]] + r[0]] + r[1..]
  }

  lemma SplitUnfold(body: string)
    requires body != ""
    ensures var r := Split(body[1..]);
            Split(body) == if body[0] == '\n' then [""] + r else [[body[0]] + r[0]] + r[1..]
  {
  }

  lemma {:induction false} SplitGivesBody(body: string)
    ensures Raw(Split(body)) == body + "\n"
    ensures Returned(Split(body)) == Carriage(body) + "\r"
  {
    if body == "" {
      assert Split(body)[1..] == [];
    } else {
      hide Raw, Returned, Carriage, Split;
      SplitUnfold(body);
      CarriageStep(body);
      SplitGivesBody(body[1..]);
      FirstByte(body[0], body[1..], Split(body[1..]));
      assert body == [body[0]] + body[1..];
    }
  }

  /** The first byte in front of the pieces `r` of the rest. */
  lemma FirstByte(c: char, rest: string, r: seq<string>)
    requires |r| > 0 && Raw(r) == rest + "\n" && Returned(r) == Carriage(rest) + "\r"
    ensures var pieces := if c == '\n' then [""] + r else [[c] + r[0]] + r[1..];
            && Raw(pieces) == [c] + rest + "\n"
            && Returned(pieces) == [if c == '\n' then '\r' else c] + Carriage(rest) + "\r"
  {
    hide Raw, Returned, Carriage;
    if c == '\n' {
      Prefixed("", r);
    } else {
      assert r == [r[0]] + r[1..];
      Longer(c, r[0], r[1..]);
    }
  }

  lemma {:induction false} SplitUnbroken(body: string)
    requires '\r' !in body && CString(body)
    ensures AllUnbroken(Split(body))
  {
    if body != "" {
      SplitUnbroken(body[1..]);
    }
  }

  lemma CarriageStep(body: string)
    requires body != ""
    ensures Carriage(body) == [if body[0] == '\n' then '\r' else body[0]] + Carriage(body[1..])
  {
  }

  lemma Prefixed(line: string, more: seq<string>)
    ensures Raw([line] + more) == line + "\n" + Raw(more) && Returned([line] + more) == line + "\r" + Returned(more)
  {
    assert ([line] + more)[1..] == more;
  }

  lemma Longer(c: char, line: string, more: seq<string>)
    ensures Raw([[c] + line] + more) == [c] + Raw([line] + more)
    ensures Returned([[c] + line] + more) == [c] + Returned([line] + more)
  {
    hide Raw, Returned;
    Prefixed([c] + line, more);
    Prefixed(line, more);
    assert [c] + line + "\n" + Raw(more) == [c] + (line + "\n" + Raw(more));
    assert [c] + line + "\r" + Returned(more) == [c] + (line + "\r" + Returned(more));
  }

  /** All lines of the file, kludges first. */
  function FileLines(m: Message): seq<string> {
    Kludged(m) + [""] + Split(m.body) + ["", m.tear, m.origin]
  }

  predicate Printable(m: Message) {
    && CString(m.from) && CString(m.to) && CString(m.subject) && CString(m.date) && CString(m.body)
    && CString(m.msgid) && CString(m.reply) && Unbroken(m.tzutc) && Unbroken(m.tear) && Unbroken(m.origin)
  }

  lemma KludgeUnbroken(name: string, value: string)
    requires Unbroken(name) && Unbroken(value)
    ensures Unbroken(KludgeLine(name, value))
  {
  }

  lemma FileLinesRead(m: Message)
    requires Printable(m) && Unbroken(m.msgid) && Unbroken(m.reply) && '\r' !in m.body
    ensures Lines(BodyBytes(m), "") == Cuts(FileLines(m))
  {
    hide Lines, Returned, Cuts, KludgeLine, Split, Unbroken, Carriage;
    var top, tail := Kludged(m) + [""], ["", m.tear, m.origin];
    assert Unbroken("") && Unbroken("MSGID") && Unbroken("REPLY") && Unbroken("PID") && Unbroken("CHRS") &&
           Unbroken("TZUTC")
        && Unbroken("SklaffKOM ftntoss") && Unbroken("UTF-8 4") by {
      Words();
    }
    KludgeUnbroken("MSGID", m.msgid);
    KludgeUnbroken("REPLY", m.reply);
    KludgeUnbroken("PID", "SklaffKOM ftntoss");
    KludgeUnbroken("CHRS", "UTF-8 4");
    KludgeUnbroken("TZUTC", m.tzutc);
    SplitGivesBody(m.body);
    SplitUnbroken(m.body);
    ReturnedConcat(top, Split(m.body));
    ReturnedConcat(top + Split(m.body), tail);
    assert AllUnbroken(FileLines(m));
    LinesRead(FileLines(m), "\0");
    assert Lines("\0", "") == [] by {
      LastLine("\0", "");
    }
    assert Cuts(FileLines(m)) + [] == Cuts(FileLines(m));
  }

  lemma Words()
    ensures Unbroken("") && Unbroken("MSGID") && Unbroken("REPLY") && Unbroken("PID") && Unbroken("CHRS") &&
              Unbroken("TZUTC")
    ensures Unbroken("SklaffKOM ftntoss") && Unbroken("UTF-8 4")
  {
    FixedText("MSGID");
    FixedText("REPLY");
    FixedText("PID");
    FixedText("CHRS");
    FixedText("TZUTC");
    FixedText("SklaffKOM ftntoss");
    FixedText("UTF-8 4");
  }

  lemma FixedText(s: string)
    requires forall i :: 0 <= i < |s| ==> s[i] >= ' '
    ensures Unbroken(s)
  {
  }

  // ---------- The clean text ----------

  predicate NoColors(s: string) {
    forall i :: 0 <= i < |s| ==> !IsColor(s[i..])
  }

  /** A line that is shown as it is. */
  predicate Plain(line: string) {
    |line| <= 4095 && !Hidden(line) && NoColors(line)
  }

  lemma {:induction false} StrippedSameIff(s: string)
    ensures if NoColors(s) then Stripped(s) == s else |Stripped(s)| < |s|
  {
    hide IsColor;
    if s != "" {
      assert s[0..] == s;
      if IsColor(s) {
        ColorHasThree(s);
      } else {
        StrippedSameIff(s[1..]);
        assert forall i :: 0 <= i < |s| - 1 ==> s[1..][i..] == s[i + 1..];
        if NoColors(s[1..]) {
          forall i | 0 <= i < |s| ensures !IsColor(s[i..]) {
            assert i > 0 ==> s[1..][i - 1..] == s[i..];
          }
        }
      }
    }
  }

  lemma ColorHasThree(s: string)
    requires IsColor(s)
    ensures |s| >= 3 && |Stripped(s)| < |s|
  {
  }

  lemma CleanLineIff(line: string)
    ensures if Plain(line) then CleanLine(Cut(line)) == line + "\n" else |CleanLine(Cut(line))| < |line| + 1
  {
    hide Stripped, Hidden, NoColors;
    StrippedSameIff(Cut(line));
  }

  predicate AllPlain(lines: seq<string>) {
    forall i :: 0 <= i < |lines| ==> Plain(lines[i])
  }

  /** Lines are shown as they are if and only if each of them is. */
  lemma {:induction false} CleanIff(lines: seq<string>)
    ensures if AllPlain(lines) then Clean(Cuts(lines)) == Raw(lines) else |Clean(Cuts(lines))| < |Raw(lines)|
  {
    hide CleanLine, Cut, Plain;
    if lines != [] {
      CleanLineIff(lines[0]);
      CleanIff(lines[1..]);
      assert AllPlain(lines) <==> Plain(lines[0]) && AllPlain(lines[1..]) by {
        assert lines == [lines[0]] + lines[1..];
      }
    }
  }

  lemma {:induction false} CleanConcat(a: seq<string>, b: seq<string>)
    ensures Clean(a + b) == Clean(a) + Clean(b) && Cuts(a + b) == Cuts(a) + Cuts(b) && Raw(a + b) == Raw(a) + Raw(b)
  {
    hide CleanLine, Cut;
    if a == [] {
      assert a + b == b;
    } else {
      assert (a + b)[1..] == a[1..] + b;
      CleanConcat(a[1..], b);
      ConcatAssociative(CleanLine(a[0]), Clean(a[1..]), Clean(b));
      ConcatAssociative(a[0] + "\n", Raw(a[1..]), Raw(b));
    }
  }

  lemma {:induction false} KludgesNotShown(lines: seq<string>)
    requires forall i :: 0 <= i < |lines| ==> lines[i] != "" && lines[i][0] == SOH
    ensures Clean(Cuts(lines)) == ""
  {
    if lines != [] {
      KludgesNotShown(lines[1..]);
    }
  }

  lemma {:induction false} CleanHasNoReturn(buf: string, line: string)
    requires '\r' !in line
    ensures '\r' !in Clean(Lines(buf, line))
  {
    hide CleanLine;
    if buf == "" || buf[0] == '\0' {
      LastLine(buf, line);
      if line != "" {
        LastOne(line, NO_KLUDGES);
        LineHasNoReturn(line);
      }
    } else if EndsHere(buf[0]) {
      CleanHasNoReturn(buf[1..], "");
      LineHasNoReturn(line);
      OneMoreClean(line, Lines(buf[1..], ""));
    } else {
      CleanHasNoReturn(buf[1..], Kept(line, buf[0]));
    }
  }

  lemma OneMoreClean(line: string, more: seq<string>)
    ensures Clean([line] + more) == CleanLine(line) + Clean(more)
  {
    assert ([line] + more)[1..] == more;
  }

  lemma {:induction false} LineHasNoReturn(line: string)
    requires '\r' !in line
    ensures '\r' !in CleanLine(line)
  {
    StrippedHasNoReturn(line);
  }

  lemma {:induction false} StrippedHasNoReturn(line: string)
    requires '\r' !in line
    ensures '\r' !in Stripped(line)
  {
    hide IsColor;
    if line != "" {
      if IsColor(line) {
        ColorHasThree(line);
        StrippedHasNoReturn(line[3..]);
      } else {
        StrippedHasNoReturn(line[1..]);
      }
    }
  }

  /** The clean text of a message as it was written: an empty line, the body, an empty
      line and the two signing lines. */
  function Written(m: Message): string {
    "\n" + (m.body + "\n") + ("\n" + m.tear + "\n" + m.origin + "\n")
  }

  /** The body comes back unchanged if and only if it holds no carriage return and each of
      its lines has at most 4095 bytes, no prefix of a control line and no colour code. */
  lemma BodyRoundTripIff(m: Message)
    requires Printable(m) && Unbroken(m.msgid) && Unbroken(m.reply) && Plain(m.tear) && Plain(m.origin)
    ensures Clean(Lines(BodyBytes(m), "")) == Written(m) <==> '\r' !in m.body && AllPlain(Split(m.body))
  {
    hide Lines, BodyBytes, Clean, Cuts, Raw, Split, Plain;
    if '\r' in m.body {
      CleanHasNoReturn(BodyBytes(m), "");
      assert '\r' in Written(m);
    } else {
      FileLinesRead(m);
      var kludges, shown := Kludged(m), [""] + Split(m.body) + ["", m.tear, m.origin];
      assert FileLines(m) == kludges + shown;
      CleanConcat(kludges, shown);
      CleanConcat(Cuts(kludges), Cuts(shown));
      KludgesNotShown(kludges);
      CleanIff(shown);
      RawOfShown(m);
      assert AllPlain(shown) <==> AllPlain(Split(m.body)) by {
        PlainAround(m);
      }
      assert "" + Clean(Cuts(shown)) == Clean(Cuts(shown));
    }
  }

  lemma RawOfShown(m: Message)
    ensures Raw([""] + Split(m.body) + ["", m.tear, m.origin]) == Written(m)
  {
    hide Split, Raw, Cuts, Clean;
    var tail := ["", m.tear, m.origin];
    CleanConcat([""] + Split(m.body), tail);
    CleanConcat([""], Split(m.body));
    SplitGivesBody(m.body);
    Prefixed("", []);
    Prefixed("", [m.tear, m.origin]);
    Prefixed(m.tear, [m.origin]);
    Prefixed(m.origin, []);
    NoLines(NO_KLUDGES);
    assert [""] + [] == [""] && [""] + [m.tear, m.origin] == tail && [m.tear] + [m.origin] == [m.tear, m.origin] &&
           [m.origin] + [] == [m.origin];
    assert "" + "\n" + "" == "\n";
    assert "" + "\n" + (m.tear + "\n" + (m.origin + "\n" + "")) == "\n" + m.tear + "\n" + m.origin + "\n";
  }

  lemma PlainAround(m: Message)
    requires Plain(m.tear) && Plain(m.origin)
    ensures AllPlain([""] + Split(m.body) + ["", m.tear, m.origin]) <==> AllPlain(Split(m.body))
  {
    hide Plain, Split;
    assert Plain("") by {
      EmptyIsPlain();
    }
    var all, pieces := [""] + Split(m.body) + ["", m.tear, m.origin], Split(m.body);
    assert forall i :: 0 <= i < |pieces| ==> all[i + 1] == pieces[i];
    assert forall i :: 0 < i <= |pieces| ==> all[i] == pieces[i - 1];
    assert forall i :: |pieces| < i < |all| ==> all[i] == ["", m.tear, m.origin][i - |pieces| - 1];
  }

  lemma EmptyIsPlain()
    ensures Plain("")
  {
  }

  // ---------- The kludges ----------

  predicate NoKludge(line: string) {
    line == "" || line[0] != SOH
  }

  predicate NoKludges(lines: seq<string>) {
    forall i :: 0 <= i < |lines| ==> NoKludge(lines[i])
  }

  lemma {:induction false} TextAddsNone(lines: seq<string>, k: Kludges)
    requires NoKludges(lines)
    ensures KludgesOf(Cuts(lines), k) == k
  {
    if lines != [] {
      assert NoKludge(lines[0]);
      TextAddsNone(lines[1..], k);
    }
  }

  lemma {:induction false} KludgesOfConcat(a: seq<string>, b: seq<string>, k: Kludges)
    ensures KludgesOf(a + b, k) == KludgesOf(b, KludgesOf(a, k))
  {
    hide ParseKludge;
    if a == [] {
      assert a + b == b;
    } else {
      assert (a + b)[1..] == a[1..] + b;
      KludgesOfConcat(a[1..], b, ParseKludge(k, a[0]));
    }
  }

  /** The line buffer holds all that the value of a kludge keeps. */
  lemma ValueOfCut(name: string, value: string, size: nat)
    requires |name| <= 6 && 0 < size <= 256
    ensures var p := Cut(KludgeLine(name, value))[1..];
            name + ":" <= p && Value(p[|name| + 1..], size) == Value(" " + value, size)
  {
    hide BlankEnd;
    var line := KludgeLine(name, value);
    assert line == [SOH] + (name + ":" + (" " + value));
    assert line[1..] == name + ":" + (" " + value);
    var p := Cut(line)[1..];
    if |line| < LINE_SIZE {
      assert p[|name| + 1..] == " " + value;
    } else {
      assert p == line[1..][..LINE_SIZE - 2];
      assert p[|name| + 1..] == (" " + value)[..LINE_SIZE - 3 - |name|];
      assert (" " + value)[..size - 1] == (" " + value)[..LINE_SIZE - 3 - |name|][..size - 1];
    }
  }

  lemma PrefixChars(p: string)
    requires |p| >= 2
    ensures "CHRS:" <= p ==> p[0] == 'C'
    ensures "MSGID:" <= p ==> p[0] == 'M'
    ensures "REPLY:" <= p ==> p[0] == 'R'
    ensures "TID:" <= p ==> p[0] == 'T' && p[1] == 'I'
    ensures "TZUTC:" <= p ==> p[0] == 'T' && p[1] == 'Z'
  {
  }

  lemma OneKludge(name: string, value: string, k: Kludges)
    requires name in {"MSGID", "REPLY", "CHRS", "TZUTC", "PID"}
    ensures ParseKludge(k, Cut(KludgeLine(name, value))) ==
            if name == "MSGID" then k.(msgid := Value(" " + value, 256))
            else if name == "REPLY" then k.(reply := Value(" " + value, 256))
            else if name == "CHRS" then k.(chrs := Value(" " + value, 128))
            else if name == "TZUTC" then k.(tzutc := Value(" " + value, 64))
            else k
  {
    hide Value;
    var line := Cut(KludgeLine(name, value));
    assert line[0] == SOH;
    ValueOfCut(name, value, 256);
    ValueOfCut(name, value, 128);
    ValueOfCut(name, value, 64);
    var p := line[1..];
    assert name + ":" <= p && p[0] == name[0] && p[1] == name[1];
    PrefixChars(p);
    assert name == "CHRS" ==> name + ":" == "CHRS:";
    assert name == "MSGID" ==> name + ":" == "MSGID:";
    assert name == "REPLY" ==> name + ":" == "REPLY:";
    assert name == "TZUTC" ==> name + ":" == "TZUTC:";
  }

  /** What the kludges written for a message hold. */
  function OwnKludges(m: Message): Kludges {
    Kludges(Value(" UTF-8 4", 128), Value(" " + m.msgid, 256),
            if m.reply == "" then "" else Value(" " + m.reply, 256), "", Value(" " + m.tzutc, 64))
  }

  /** A body with every carriage return taken for a line end, as the reader takes it. */
  function Newlines(body: string): (b: string)
    ensures '\r' !in b && ('\r' !in body ==> b == body) && (CString(body) ==> CString(b))
  {
    if body == "" then "" else [if body[0] == '\r' then '\n' else body[0]] + Newlines(body[1..])
  }

  lemma {:induction false} SameCarriage(body: string)
    ensures Carriage(Newlines(body)) == Carriage(body)
  {
    if body != "" {
      SameCarriage(body[1..]);
    }
  }

  /** What the reader finds in the kludges of a message: its own, and what the lines of
      its body put in their place. */
  lemma KludgesRead(m: Message)
    requires Printable(m) && Unbroken(m.msgid) && Unbroken(m.reply) && NoKludge(m.tear) && NoKludge(m.origin)
    ensures KludgesOf(Lines(BodyBytes(m), ""), NO_KLUDGES) == KludgesOf(Cuts(Split(Newlines(m.body))), OwnKludges(m))
  {
    hide Lines, BodyBytes, Split, ParseKludge, KludgeLine, Cut, NoKludge, Newlines, OwnKludges, Carriage, KludgesOf,
         Cuts, Clean, Raw;
    var flat := m.(body := Newlines(m.body));
    FlatBytes(m);
    FileLinesRead(flat);
    var body, tail := Split(flat.body), ["", m.tear, m.origin];
    assert FileLines(flat) == Kludged(m) + ([""] + (body + tail));
    KludgesInTurn(Kludged(m), [""], body, tail);
    KludgedRead(m);
    assert NoKludge("") by {
      EmptyIsNoKludge();
    }
    TextAddsNone([""], OwnKludges(m));
    TextAddsNone(tail, KludgesOf(Cuts(body), OwnKludges(m)));
  }

  lemma FlatBytes(m: Message)
    ensures BodyBytes(m.(body := Newlines(m.body))) == BodyBytes(m)
  {
    hide Returned, Carriage, KludgeLine, Newlines;
    SameCarriage(m.body);
  }

  lemma KludgesInTurn(a: seq<string>, b: seq<string>, c: seq<string>, d: seq<string>)
    ensures forall k :: KludgesOf(Cuts(a + (b + (c + d))), k) ==
                        KludgesOf(Cuts(d), KludgesOf(Cuts(c), KludgesOf(Cuts(b), KludgesOf(Cuts(a), k))))
  {
    hide Cuts, KludgesOf, Clean, Raw;
    CleanConcat(a, b + (c + d));
    CleanConcat(b, c + d);
    CleanConcat(c, d);
    forall k ensures KludgesOf(Cuts(a + (b + (c + d))), k) ==
                     KludgesOf(Cuts(d), KludgesOf(Cuts(c), KludgesOf(Cuts(b), KludgesOf(Cuts(a), k)))) {
      var ka := KludgesOf(Cuts(a), k);
      var kb := KludgesOf(Cuts(b), ka);
      KludgesOfConcat(Cuts(a), Cuts(b + (c + d)), k);
      KludgesOfConcat(Cuts(b), Cuts(c + d), ka);
      KludgesOfConcat(Cuts(c), Cuts(d), kb);
    }
  }

  /** The value of the last control line `name` among `lines`. */
  function LastValue(name: string, lines: seq<string>): Option<string> {
    if lines == [] then None
    else if LastValue(name, lines[1..]).Some? then LastValue(name, lines[1..])
    else if [SOH] + name <= lines[0] then Some(Value(lines[0][1 + |name|..], 256))
    else None
  }

  lemma {:induction false} LastValueStands(lines: seq<string>, k: Kludges)
    ensures var msgid, reply, r := LastValue("MSGID:", lines), LastValue("REPLY:", lines), KludgesOf(lines, k);
            && r.msgid == (if msgid.Some? then msgid.value else k.msgid)
            && r.reply == (if reply.Some? then reply.value else k.reply)
  {
    hide ParseKludge, Value;
    if lines != [] {
      OneValue(lines[0], k);
      LastValueStands(lines[1..], ParseKludge(k, lines[0]));
    }
  }

  lemma OneValue(line: string, k: Kludges)
    ensures ParseKludge(k, line).msgid == if [SOH] + "MSGID:" <= line then Value(line[7..], 256) else k.msgid
    ensures ParseKludge(k, line).reply == if [SOH] + "REPLY:" <= line then Value(line[7..], 256) else k.reply
  {
    hide Value;
    if line != "" && line[0] == SOH {
      var p := line[1..];
      assert line == [SOH] + p;
      assert [SOH] + "MSGID:" <= line <==> "MSGID:" <= p;
      assert [SOH] + "REPLY:" <= line <==> "REPLY:" <= p;
      if |p| >= 2 {
        PrefixChars(p);
      }
      assert |p| >= 6 ==> p[6..] == line[7..];
    } else if line != "" {
      assert ([SOH] + "MSGID:")[0] == SOH && ([SOH] + "REPLY:")[0] == SOH;
    }
  }

  lemma EmptyIsNoKludge()
    ensures NoKludge("")
  {
  }

  lemma KludgedRead(m: Message)
    ensures KludgesOf(Cuts(Kludged(m)), NO_KLUDGES) == OwnKludges(m)
  {
    hide Value, KludgeLine, Cut, Cuts, KludgesOf, ParseKludge;
    var first := [KludgeLine("MSGID", m.msgid)];
    var second := if m.reply != "" then [KludgeLine("REPLY", m.reply)] else [];
    var pid, chrs, tz := KludgeLine("PID", "SklaffKOM ftntoss"), KludgeLine("CHRS", "UTF-8 4"),
        KludgeLine("TZUTC", m.tzutc);
    var third := [pid, chrs, tz];
    ThreeParts(first, second, third, NO_KLUDGES);
    var k1 := NO_KLUDGES.(msgid := Value(" " + m.msgid, 256));
    OneKludge("MSGID", m.msgid, NO_KLUDGES);
    OneOnly(KludgeLine("MSGID", m.msgid), NO_KLUDGES);
    var k2 := if m.reply == "" then k1 else k1.(reply := Value(" " + m.reply, 256));
    ReplyRead(m.reply, k1);
    OneKludge("PID", "SklaffKOM ftntoss", k2);
    OneKludge("CHRS", "UTF-8 4", k2);
    assert " " + "UTF-8 4" == " UTF-8 4";
    OneKludge("TZUTC", m.tzutc, k2.(chrs := Value(" UTF-8 4", 128)));
    ThreeOnly(pid, chrs, tz, k2);
  }

  lemma ThreeParts(a: seq<string>, b: seq<string>, c: seq<string>, k: Kludges)
    ensures KludgesOf(Cuts(a + b + c), k) == KludgesOf(Cuts(c), KludgesOf(Cuts(b), KludgesOf(Cuts(a), k)))
  {
    hide Cuts, KludgesOf, Clean, Raw;
    CleanConcat(a + b, c);
    CleanConcat(a, b);
    KludgesOfConcat(Cuts(a) + Cuts(b), Cuts(c), k);
    KludgesOfConcat(Cuts(a), Cuts(b), k);
  }

  lemma ReplyRead(reply: string, k: Kludges)
    ensures KludgesOf(Cuts(if reply != "" then [KludgeLine("REPLY", reply)] else []), k) ==
            if reply == "" then k else k.(reply := Value(" " + reply, 256))
  {
    hide Value, KludgeLine, Cut, ParseKludge;
    if reply != "" {
      OneKludge("REPLY", reply, k);
      OneOnly(KludgeLine("REPLY", reply), k);
    }
  }

  lemma OneOnly(line: string, k: Kludges)
    ensures KludgesOf(Cuts([line]), k) == ParseKludge(k, Cut(line))
  {
    hide ParseKludge, Cut;
    assert [line][1..] == [] && Cuts([line])[1..] == [];
  }

  lemma ThreeOnly(a: string, b: string, c: string, k: Kludges)
    ensures KludgesOf(Cuts([a, b, c]), k) == ParseKludge(ParseKludge(ParseKludge(k, Cut(a)), Cut(b)), Cut(c))
  {
    hide ParseKludge, Cut;
    CleanConcat([a], [b, c]);
    CleanConcat([b], [c]);
    assert [a] + [b, c] == [a, b, c] && [b] + [c] == [b, c];
    KludgesOfConcat(Cuts([a]), Cuts([b, c]), k);
    KludgesOfConcat(Cuts([b]), Cuts([c]), ParseKludge(k, Cut(a)));
    OneOnly(a, k);
    OneOnly(b, ParseKludge(k, Cut(a)));
    OneOnly(c, ParseKludge(ParseKludge(k, Cut(a)), Cut(b)));
  }

  /** An identifier the reader keeps: at most 254 bytes, no blank first. */
  predicate IdFits(id: string) {
    |id| <= 254 && (id == "" || !IsBlank(id[0]))
  }

  lemma ValueIff(id: string)
    requires id != ""
    ensures Value(" " + id, 256) == id <==> IdFits(id)
  {
    var held := if |id| < 255 then " " + id else (" " + id)[..255];
    var b := BlankEnd(held, 0);
    assert b > 0 by {
      assert IsBlank(held[0]);
    }
    if !IsBlank(id[0]) {
      assert held[1] == id[0];
      assert b == 1;
      if |id| < 255 {
        assert held[1..] == id;
      }
    } else {
      assert b < |held| ==> !IsBlank(held[b]);
    }
  }

  /** An identifier as the reader delivers one. */
  predicate DeliveredId(id: string) {
    Unbroken(id) && |id| <= 255 && (id == "" || !IsBlank(id[0]))
  }

  lemma {:induction false} IdsDelivered(buf: string, line: string, k: Kludges)
    requires Unbroken(line) && DeliveredId(k.msgid) && DeliveredId(k.reply)
    ensures var r := KludgesOf(Lines(buf, line), k);
            DeliveredId(r.msgid) && DeliveredId(r.reply)
  {
    hide ParseKludge, DeliveredId;
    if buf == "" || buf[0] == '\0' {
      LastLine(buf, line);
      NoLines(k);
      if line != "" {
        LastOne(line, k);
        ParsedDelivered(line, k);
      }
    } else if EndsHere(buf[0]) {
      ParsedDelivered(line, k);
      IdsDelivered(buf[1..], "", ParseKludge(k, line));
      var more := Lines(buf[1..], "");
      assert ([line] + more)[1..] == more;
    } else {
      IdsDelivered(buf[1..], Kept(line, buf[0]), k);
    }
  }

  lemma ValueDelivered(text: string)
    requires Unbroken(text)
    ensures DeliveredId(Value(text, 256))
  {
    var held := if |text| < 256 then text else text[..255];
    var b := BlankEnd(held, 0);
    assert b < |held| ==> held[b..][0] == held[b];
  }

  lemma ParsedDelivered(line: string, k: Kludges)
    requires Unbroken(line) && DeliveredId(k.msgid) && DeliveredId(k.reply)
    ensures DeliveredId(ParseKludge(k, line).msgid) && DeliveredId(ParseKludge(k, line).reply)
  {
    hide ParseKludge, DeliveredId;
    OneValue(line, k);
    if |line| >= 7 {
      ValueDelivered(line[7..]);
    }
  }

  // ---------- The whole message ----------

  lemma FileParts(m: Message)
    ensures var file := Header(m) + BodyBytes(m);
            && |file| >= HEADER_SIZE
            && file[..36] == Utf8.Field(m.from, 36) && file[36..72] == Utf8.Field(m.to, 36)
            && file[72..144] == Utf8.Field(m.subject, 72) && file[144..164] == Utf8.Field(m.date, 20)
            && file[HEADER_SIZE..] == BodyBytes(m)
  {
    hide Utf8.Field, BodyBytes;
    U16sLength(Numbers(m));
  }

  lemma {:induction false} U16sLength(vals: seq<int>)
    ensures |U16s(vals)| == 2 * |vals|
  {
    if vals != [] {
      U16sLength(vals[..|vals| - 1]);
    }
  }

  predicate KeptField(s: string, len: nat) {
    |s| < len && (s == "" || !IsSpace(s[|s| - 1]))
  }

  /** An identifier comes back if and only if it fits - or a control line of the body
      puts just it in its place. */
  predicate IdKept(name: string, id: string, body: string) {
    var last := LastValue(name, Cuts(Split(Newlines(body))));
    if last.Some? then last.value == id else IdFits(id)
  }

  /** From, To and Subject of a message, its MSGID and REPLY and its body come back each
      exactly under the condition that the format puts on it. */
  lemma MessageRoundTripIff(m: Message)
    requires Printable(m) && m.msgid != "" && Unbroken(m.msgid) && Unbroken(m.reply)
    requires Plain(m.tear) && Plain(m.origin)
    ensures var r := ReadMsg(Header(m) + BodyBytes(m));
            && r.Some?
            && (r.value.from == m.from <==> KeptField(m.from, 36))
            && (r.value.to == m.to <==> KeptField(m.to, 36))
            && (r.value.subject == m.subject <==> KeptField(m.subject, 72))
            && (r.value.msgid == m.msgid <==> IdKept("MSGID:", m.msgid, m.body))
            && (r.value.reply == m.reply <==> IdKept("REPLY:", m.reply, m.body))
            && (r.value.cleanBody == Written(m) <==> '\r' !in m.body && AllPlain(Split(m.body)))
  {
    hide Utf8.Field, BodyBytes, Header, Lines, KludgesOf, Clean, Raw, Split, AllPlain, IdFits, Value, FieldText,
         Written, LastValue, Cuts, Newlines;
    FileParts(m);
    FieldRoundTripIff(m.from, 36);
    FieldRoundTripIff(m.to, 36);
    FieldRoundTripIff(m.subject, 72);
    BodyRoundTripIff(m);
    IdsRead(m);
  }

  lemma IdsRead(m: Message)
    requires Printable(m) && m.msgid != "" && Unbroken(m.msgid) && Unbroken(m.reply)
    requires Plain(m.tear) && Plain(m.origin)
    ensures var k := KludgesOf(Lines(BodyBytes(m), ""), NO_KLUDGES);
            && (k.msgid == m.msgid <==> IdKept("MSGID:", m.msgid, m.body))
            && (k.reply == m.reply <==> IdKept("REPLY:", m.reply, m.body))
  {
    hide BodyBytes, Lines, KludgesOf, Split, IdFits, Value, LastValue, Cuts, Newlines;
    KludgesRead(m);
    LastValueStands(Cuts(Split(Newlines(m.body))), OwnKludges(m));
    ValueIff(m.msgid);
    if m.reply != "" {
      ValueIff(m.reply);
    } else {
      EmptyFits();
    }
  }

  /** The MSGID the reader delivers: that of the last control line of the body that sets one,
      else the own one, within 254 bytes. */
  lemma MsgidDelivered(m: Message)
    requires Printable(m) && Unbroken(m.msgid) && Unbroken(m.reply) && NoKludge(m.tear) && NoKludge(m.origin)
    ensures var r, last := ReadMsg(Header(m) + BodyBytes(m)), LastValue("MSGID:", Cuts(Split(Newlines(m.body))));
            r.Some? && r.value.msgid == if last.Some? then last.value else Value(" " + m.msgid, 256)
  {
    hide Utf8.Field, BodyBytes, Header, Lines, KludgesOf, Clean, Raw, Split, Value, FieldText, LastValue, Cuts,
         Newlines, NoKludge;
    FileParts(m);
    KludgesRead(m);
    LastValueStands(Cuts(Split(Newlines(m.body))), OwnKludges(m));
  }

  /** A body without control lines sets none. */
  lemma {:induction false} NoControlLines(name: string, lines: seq<string>)
    requires NoKludges(lines)
    ensures LastValue(name, Cuts(lines)) == None
  {
    hide Value;
    if lines != [] {
      assert NoKludge(lines[0]);
      NoControlLines(name, lines[1..]);
      assert ([SOH] + name)[0] == SOH;
    }
  }

  lemma EmptyFits()
    ensures IdFits("")
  {
  }

  /** Whatever else a message holds, an identifier with a line end in it never comes back. */
  lemma BrokenIdsLost(m: Message)
    ensures var k := KludgesOf(Lines(BodyBytes(m), ""), NO_KLUDGES);
            && ('\r' in m.msgid || '\n' in m.msgid ==> k.msgid != m.msgid)
            && ('\r' in m.reply || '\n' in m.reply ==> k.reply != m.reply)
  {
    hide BodyBytes, Lines, KludgesOf;
    IdsDelivered(BodyBytes(m), "", NO_KLUDGES);
  }
}
