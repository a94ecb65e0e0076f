/** The reader of FTN .MSG files, read_fido_msg(): header fields, the lines of the body,
    their kludges, and the raw and the clean text made of them. */
module FtnMsg {
  import opened CText
  import opened FtnIndex

  const LINE_SIZE := 4096
  const HEADER_SIZE := 190

  datatype Kludges = Kludges(chrs: string, msgid: string, reply: string, tid: string, tzutc: string)

  const NO_KLUDGES := Kludges("", "", "", "", "")

  // ---------- Header fields ----------

  function TrimSpace(s: string): (t: string)
    ensures t <= s && (t == "" || !IsSpace(t[|t| - 1]))
  {
    if s != "" && IsSpace(s[|s| - 1]) then TrimSpace(s[..|s| - 1]) else s
  }

  /** The C string in `field`, without white space at its end. */
  function FieldText(field: string): string {
    TrimSpace(field[..IndexOf(field, '\0')])
  }

  method CopyField(src: string) returns (dst: string)
    ensures dst == FieldText(src)
  {
    dst := "";
    var i := 0;
    while i < |src| && src[i] != '\0'
      invariant 0 <= i <= |src| && dst == src[..i]
      invariant IndexOf(src, '\0') == i + IndexOf(src[i..], '\0')
    {
      dst := dst + [src[i]];
      i := i + 1;
    }
    assert dst == src[..IndexOf(src, '\0')];
    while i > 0 && IsSpace(dst[i - 1])
      invariant i == |dst| && TrimSpace(dst) == FieldText(src)
    {
      dst := dst[..i - 1];
      i := i - 1;
    }
  }

  // ---------- Lines ----------

  predicate EndsHere(c: char) {
    c == '\r' || c == '\n'
  }

  /** The next character of a line, as far as the line buffer has room. */
  function Kept(line: string, c: char): string {
    if |line| + 1 < LINE_SIZE then line + [c] else line
  }

  /** The lines of a body from here on, `line` begun; a NUL ends it. */
  function Lines(buf: string, line: string): seq<string> {
    if buf == "" || buf[0] == '\0' then if line != "" then [line] else []
    else if EndsHere(buf[0]) then [line] + Lines(buf[1..], "")
    else Lines(buf[1..], Kept(line, buf[0]))
  }

  /** snprintf("%s") into `size` bytes, then without blanks at the start. */
  function Value(text: string, size: nat): string
    requires size > 0
  {
    var held := if |text| < size then text else text[..size - 1];
    held[BlankEnd(held, 0)..]
  }

  /** parse_kludge(). */
  function ParseKludge(k: Kludges, line: string): Kludges {
    if line == "" || line[0] != SOH then k
    else
      var p := line[1..];
      if "CHRS:" <= p then k.(chrs := Value(p[5..], 128))
      else if "MSGID:" <= p then k.(msgid := Value(p[6..], 256))
      else if "REPLY:" <= p then k.(reply := Value(p[6..], 256))
      else if "TID:" <= p then k.(tid := Value(p[4..], 256))
      else if "TZUTC:" <= p then k.(tzutc := Value(p[6..], 64))
      else k
  }

  predicate Hidden(line: string) {
    (line != "" && line[0] == SOH) || "SEEN-BY:" <= line || "AREA:" <= line || "PATH:" <= line
  }

  predicate IsColor(s: string) {
    |s| >= 3 && s[0] == '|' && IsDigit(s[1]) && IsDigit(s[2])
  }

  /** A line without its "|NN" colour codes. */
  function Stripped(s: string): (t: string)
    ensures |t| <= |s|
  {
    if s == "" then "" else if IsColor(s) then Stripped(s[3..]) else [s[0]] + Stripped(s[1..])
  }

  /** Colour codes, each with a text behind it. */
  datatype Colored = Colored(tens: char, units: char, text: string)

  predicate GoodCodes(cs: seq<Colored>) {
    forall i :: 0 <= i < |cs| ==> IsDigit(cs[i].tens) && IsDigit(cs[i].units) && '|' !in cs[i].text
  }

  function WithCodes(cs: seq<Colored>): string {
    if cs == [] then "" else ['|', cs[0].tens, cs[0].units] + (cs[0].text + WithCodes(cs[1..]))
  }

  function WithoutCodes(cs: seq<Colored>): string {
    if cs == [] then "" else cs[0].text + WithoutCodes(cs[1..])
  }

  lemma {:induction false} StrippedText(text: string, rest: string)
    requires '|' !in text
    ensures Stripped(text + rest) == text + Stripped(rest)
  {
    if text == "" {
      assert text + rest == rest;
    } else {
      assert (text + rest)[1..] == text[1..] + rest;
      StrippedText(text[1..], rest);
    }
  }

  /** Two digits behind a bar are taken out with it, as often as they occur. */
  lemma {:induction false} CodesStripped(text: string, cs: seq<Colored>)
    requires '|' !in text && GoodCodes(cs)
    ensures Stripped(text + WithCodes(cs)) == text + WithoutCodes(cs)
    decreases |cs|
  {
    StrippedText(text, WithCodes(cs));
    if cs != [] {
      var c, more := cs[0], cs[1..];
      CodesStripped(c.text, more);
      assert WithCodes(cs)[3..] == c.text + WithCodes(more);
    }
  }

  /** A bar with anything else behind it stays. */
  lemma BarStays(rest: string)
    requires !(|rest| >= 2 && '0' <= rest[0] <= '9' && '0' <= rest[1] <= '9')
    ensures Stripped("|" + rest) == "|" + Stripped(rest)
  {
    assert ("|" + rest)[1..] == rest;
  }

  /** strip_pipe_colors(): both cursors run over the same C string. */
  method StripPipeColors(s: array<char>)
    requires '\0' in s[..]
    modifies s
    ensures '\0' in s[..] && s[..IndexOf(s[..], '\0')] == Stripped(old(s[..IndexOf(s[..], '\0')]))
  {
    hide Stripped, IsColor, IndexOf, IsDigit;
    ghost var text := s[..IndexOf(s[..], '\0')];
    ghost var end := |text|;
    TextEnds(s[..]);
    var r, w := 0, 0;
    assert text[0..] == text;
    while s[r] != '\0'
      invariant 0 <= w <= r <= end < s.Length
      invariant forall j :: r <= j < end ==> s[j] == text[j]
      invariant s[end] == '\0' && '\0' !in text && '\0' !in s[..w]
      invariant s[..w] + Stripped(text[r..]) == Stripped(text)
      decreases end - r
    {
      StripStep(text, r);
      assert s[r] == '|' && IsDigit(s[r + 1]) ==> r + 2 < s.Length by {
        NulIsNoDigit();
      }
      if s[r] == '|' && IsDigit(s[r + 1]) && IsDigit(s[r + 2]) {
        NulIsNoDigit();
        r := r + 3;
      } else {
        ghost var kept := s[..w];
        s[w] := s[r];
        assert s[..w + 1] == kept + [text[r]];
        ConcatAssociative(kept, [text[r]], Stripped(text[r + 1..]));
        w, r := w + 1, r + 1;
      }
    }
    ghost var out := s[..w];
    StripStep(text, end);
    s[w] := '\0';
    assert out + "\0" <= s[..];
    TextIs(s[..], out);
  }

  lemma NulIsNoDigit()
    ensures !IsDigit('\0')
  {
  }

  lemma StripStep(text: string, r: nat)
    requires r <= |text|
    ensures r == |text| ==> Stripped(text[r..]) == ""
    ensures r < |text| ==>
              if r + 2 < |text| && text[r] == '|' && IsDigit(text[r + 1]) && IsDigit(text[r + 2])
              then Stripped(text[r..]) == Stripped(text[r + 3..])
              else Stripped(text[r..]) == [text[r]] + Stripped(text[r + 1..])
  {
    hide IsDigit;
    if r < |text| {
      assert text[r..][1..] == text[r + 1..];
      assert r + 2 < |text| ==> text[r..][3..] == text[r + 3..];
    }
  }

  lemma TextEnds(s: string)
    requires '\0' in s
    ensures IndexOf(s, '\0') < |s| && s[IndexOf(s, '\0')] == '\0'
  {
    assert s[..|s|] == s;
  }

  lemma TextIs(s: string, out: string)
    requires out + "\0" <= s && '\0' !in out
    ensures IndexOf(s, '\0') == |out| && s[..|out|] == out && '\0' in s
  {
    IndexOfAppend(out, '\0', s[|out| + 1..]);
    assert s == out + ['\0'] + s[|out| + 1..];
    assert s[|out|] == '\0';
  }

  function KludgesOf(lines: seq<string>, k: Kludges): Kludges {
    if lines == [] then k else KludgesOf(lines[1..], ParseKludge(k, lines[0]))
  }

  function Raw(lines: seq<string>): string {
    if lines == [] then "" else lines[0] + "\n" + Raw(lines[1..])
  }

  function CleanLine(line: string): string {
    if Hidden(line) then "" else Stripped(line) + "\n"
  }

  function Clean(lines: seq<string>): string {
    if lines == [] then "" else CleanLine(lines[0]) + Clean(lines[1..])
  }

  method ProcessBody(buf: string) returns (k: Kludges, raw: string, clean: string)
    ensures var lines := Lines(buf, "");
            k == KludgesOf(lines, NO_KLUDGES) && raw == Raw(lines) && clean == Clean(lines)
  {
    hide ParseKludge, CleanLine, Lines, KludgesOf, Raw, Clean;
    k, raw, clean := NO_KLUDGES, "", "";
    var line := "";
    var i := 0;
    assert buf[0..] == buf;
    assert forall s: string :: "" + s == s;
    while i < |buf| && buf[i] != '\0'
      invariant 0 <= i <= |buf|
      invariant KludgesOf(Lines(buf[i..], line), k) == KludgesOf(Lines(buf, ""), NO_KLUDGES)
      invariant raw + Raw(Lines(buf[i..], line)) == Raw(Lines(buf, ""))
      invariant clean + Clean(Lines(buf[i..], line)) == Clean(Lines(buf, ""))
    {
      LinesStep(buf, i, line);
      if EndsHere(buf[i]) {
        LineMore(line, Lines(buf[i + 1..], ""), k);
        ConcatAssociative(raw, line + "\n", Raw(Lines(buf[i + 1..], "")));
        ConcatAssociative(clean, CleanLine(line), Clean(Lines(buf[i + 1..], "")));
        k, raw, clean := ParseKludge(k, line), raw + (line + "\n"), clean + CleanLine(line);
        line := "";
      } else {
        line := Kept(line, buf[i]);
      }
      i := i + 1;
    }
    LastLine(buf[i..], line);
    if |line| > 0 {
      LastOne(line, k);
      k, raw, clean := ParseKludge(k, line), raw + (line + "\n"), clean + CleanLine(line);
    }
    NoLines(k);
  }

  lemma LinesStep(buf: string, i: nat, line: string)
    requires i < |buf| && buf[i] != '\0'
    ensures Lines(buf[i..], line) ==
            if EndsHere(buf[i]) then [line] + Lines(buf[i + 1..], "") else Lines(buf[i + 1..], Kept(line, buf[i]))
  {
    assert buf[i..][1..] == buf[i + 1..];
  }

  lemma LastLine(buf: string, line: string)
    requires buf == "" || buf[0] == '\0'
    ensures Lines(buf, line) == if line != "" then [line] else []
  {
  }

  lemma LineMore(line: string, more: seq<string>, k: Kludges)
    ensures KludgesOf([line] + more, k) == KludgesOf(more, ParseKludge(k, line))
    ensures Raw([line] + more) == line + "\n" + Raw(more)
    ensures Clean([line] + more) == CleanLine(line) + Clean(more)
  {
    hide ParseKludge, CleanLine;
    assert ([line] + more)[1..] == more;
  }

  lemma LastOne(line: string, k: Kludges)
    ensures KludgesOf([line], k) == ParseKludge(k, line) && Raw([line]) == line + "\n" &&
              Clean([line]) == CleanLine(line)
  {
    hide ParseKludge, CleanLine;
    LineMore(line, [], k);
    assert [line] + [] == [line];
    assert line + "\n" + "" == line + "\n" && CleanLine(line) + "" == CleanLine(line);
  }

  lemma NoLines(k: Kludges)
    ensures KludgesOf([], k) == k && Raw([]) == "" && Clean([]) == ""
  {
  }

  /** read_fido_msg() on the bytes of a file; None when it is too short. */
  method ReadFidoMsg(file: string) returns (msg: Option<FidoMsg>)
    ensures msg == ReadMsg(file)
  {
    if |file| < HEADER_SIZE {
      return None;
    }
    var from := CopyField(file[..36]);
    var to := CopyField(file[36..72]);
    var subject := CopyField(file[72..144]);
    var date := CopyField(file[144..164]);
    var k, raw, clean := ProcessBody(file[HEADER_SIZE..]);
    msg := Some(FidoMsg(from, to, subject, date, k.chrs, k.msgid, k.reply, k.tid, k.tzutc, raw, clean));
  }

  function ReadMsg(file: string): Option<FidoMsg> {
    if |file| < HEADER_SIZE then None
    else
      var lines := Lines(file[HEADER_SIZE..], "");
      var k := KludgesOf(lines, NO_KLUDGES);
      Some(FidoMsg(FieldText(file[..36]), FieldText(file[36..72]), FieldText(file[72..144]), FieldText(file[144..164]),
                   k.chrs, k.msgid, k.reply, k.tid, k.tzutc, Raw(lines), Clean(lines)))
  }
}
