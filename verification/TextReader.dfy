/** The reader of stored texts, get_text_entry(): the header numbers, the subject
    and `size` body lines decoded in place, and the comment list behind them. */
module TextReader {
  import opened CText

  const LINE_LEN := 79
  const SUBJECT_LEN := 70
  const TYPE_TEXT := 0

  datatype TextEntry = TextEntry(
    num: int, author: int, time: int, commentNum: int, commentConf: int, commentAuthor: int,
    size: int, kind: int, subject: string, body: seq<string>, comments: seq<Comment>)

  datatype Comment = Comment(num: int, author: int)

  // ---------- Header numbers ----------

  datatype Longs = Longs(values: seq<int>, last: string)

  /** `k` numbers separated by colons; `last` is the text from the last one on. */
  function ReadLongs(s: string, k: nat): Option<Longs>
    requires k > 0
    decreases k
  {
    if k == 1 then Some(Longs([Strtol(s)], s))
    else
      var i := IndexOf(s, ':');
      if i == |s| then None
      else match ReadLongs(s[i + 1..], k - 1)
           case None => None
           case Some(rest) => Some(Longs([Strtol(s)] + rest.values, rest.last))
  }

  /** The type field newer texts carry behind the size; texts by author 0 have none. */
  function KindOf(author: int, last: string): int {
    var colon := IndexOf(last, ':');
    if author != 0 && colon < IndexOf(last, '\n') && IndexOf(last, '\n') < |last|
    then Strtol(last[colon + 1..])
    else TYPE_TEXT
  }

  // ---------- Lines ----------

  /** The character a known "=XX" stands for. */
  function Escaped(a: char, b: char, subject: bool): Option<char> {
    if a == 'C' && b == '5' then Some(']') else if a == 'C' && b == '4' then Some('[')
    else if a == 'D' && b == '6' then Some('\\') else if a == 'E' && b == '5' then Some('}')
    else if a == 'E' && b == '4' then Some('{') else if a == 'F' && b == '6' then Some('|')
    else if a == '3' && b == 'D' then Some('=') else if a == '8' && b == 'F' then Some(']')
    else if a == '8' && b == 'E' then Some('[') else if a == '9' && b == '9' then Some('\\')
    else if a == '8' && b == '6' then Some('}') else if a == '8' && b == '5' then Some('{')
    else if a == '9' && b == '4' then Some('|') else if a == 'F' && b == 'C' then Some(if subject then 'u' else '^')
    else if a == 'D' && b == 'F' then Some('s') else if a == '9' && b == '1' then Some('`')
    else if a == '9' && b == '2' then Some('\'') else if a == 'E' && b == '9' then Some('e')
    else if a == '2' && b == '0' then Some(' ') else None
  }

  /** The escapes, each with what it stands for: the Swedish letters of ISO 8859-1 and of
      code page 437 as the 7-bit character set writes them, and some others. */
  const ESCAPES := {
    "C5]", "C4[", "D6\\", "E5}", "E4{", "F6|", "8F]", "8E[", "99\\", "86}", "85{", "94|",
    "3D=", "DFs", "91`", "92'", "E9e", "20 "
  }

  lemma EscapedIff(a: char, b: char, subject: bool, c: char)
    ensures Escaped(a, b, subject) == Some(c) <==> [a, b, c] in ESCAPES + {if subject then "FCu" else "FC^"}
  {
    if [a, b, c] in ESCAPES + {if subject then "FCu" else "FC^"} {
      assert Escaped(a, b, subject) == Some(c);
    }
  }

  predicate IsEscape(s: string, p: nat, e: nat, subject: bool)
    requires p < e <= |s|
  {
    p + 2 < e && s[p] == '=' && Escaped(s[p + 1], s[p + 2], subject).Some?
  }

  /** The line s[p..e] as shown, with room for `room` characters more. */
  function Decode(s: string, p: nat, e: nat, room: nat, subject: bool): string
    requires p <= e <= |s|
    decreases e - p
  {
    if p == e || room == 0 then ""
    else if IsEscape(s, p, e, subject) then
      [Escaped(s[p + 1], s[p + 2], subject).value] + Decode(s, p + 3, e, room - 1, subject)
    else [s[p]] + Decode(s, p + 1, e, room - 1, subject)
  }

  /** One character further. */
  lemma DecodeUnfold(s: string, p: nat, e: nat, room: nat, subject: bool)
    requires p <= e <= |s|
    ensures p == e || room == 0 ==> Decode(s, p, e, room, subject) == ""
    ensures p < e && room > 0 ==>
              Decode(s, p, e, room, subject) ==
              if IsEscape(s, p, e, subject) then
                [Escaped(s[p + 1], s[p + 2], subject).value] + Decode(s, p + 3, e, room - 1, subject)
              else [s[p]] + Decode(s, p + 1, e, room - 1, subject)
  {
    hide Escaped;
  }

  /** A decoded line is no longer than the room and the line, and shorter than the line
      with an escape in it. */
  lemma {:induction false} DecodeLength(s: string, p: nat, e: nat, room: nat, subject: bool)
    requires p <= e <= |s|
    ensures var d := Decode(s, p, e, room, subject);
            && |d| <= room && |d| <= e - p
            && ((exists k :: p <= k < e && IsEscape(s, k, e, subject)) ==> |d| < e - p)
    decreases e - p
  {
    hide Escaped, Decode;
    DecodeUnfold(s, p, e, room, subject);
    if p < e && room > 0 {
      if IsEscape(s, p, e, subject) {
        DecodeLength(s, p + 3, e, room - 1, subject);
      } else {
        DecodeLength(s, p + 1, e, room - 1, subject);
      }
    }
  }

  lemma {:induction false} DecodePlain(s: string, p: nat, e: nat, room: nat, subject: bool)
    requires p <= e <= |s| && e - p <= room
    requires forall k :: p <= k < e ==> !IsEscape(s, k, e, subject)
    ensures Decode(s, p, e, room, subject) == s[p..e]
    decreases e - p
  {
    hide Escaped, Decode;
    DecodeUnfold(s, p, e, room, subject);
    if p < e {
      DecodePlain(s, p + 1, e, room - 1, subject);
      assert [s[p]] + s[p + 1..e] == s[p..e];
    }
  }

  /** No "=XX" the reader knows. */
  predicate NoEscape(line: string) {
    forall k :: 0 <= k < |line| ==> !IsEscape(line, k, |line|, false)
  }

  /** A body line is shown as it is stored if and only if it has at most 78 characters and
      no known "=XX". */
  lemma ShownAsIsIff(line: string)
    ensures Decode(line, 0, |line|, LINE_LEN - 1, false) == line <==> |line| <= 78 && NoEscape(line)
  {
    hide Decode, IsEscape;
    DecodeLength(line, 0, |line|, LINE_LEN - 1, false);
    if |line| < LINE_LEN && NoEscape(line) {
      DecodePlain(line, 0, |line|, LINE_LEN - 1, false);
      assert line[0..|line|] == line;
    }
  }

  /** A character of a stored line: itself, or a code for it. */
  datatype Unit = Plain(c: char) | Coded(a: char, b: char, c: char)

  predicate Known(u: Unit, subject: bool) {
    match u
    case Plain(c) => c != '='
    case Coded(a, b, c) => [a, b, c] in ESCAPES + {if subject then "FCu" else "FC^"}
  }

  function UnitsText(units: seq<Unit>): string {
    if units == [] then "" else UnitText(units[0]) + UnitsText(units[1..])
  }

  function UnitText(u: Unit): string {
    if u.Plain? then [u.c] else ['=', u.a, u.b]
  }

  function UnitsShown(units: seq<Unit>): (s: string)
    ensures |s| == |units|
  {
    if units == [] then "" else [units[0].c] + UnitsShown(units[1..])
  }

  lemma {:induction false} UnitsDecoded(s: string, p: nat, units: seq<Unit>, room: nat, subject: bool)
    requires p <= |s| && s[p..] == UnitsText(units) && forall u :: u in units ==> Known(u, subject)
    ensures Decode(s, p, |s|, room, subject) == Upto(UnitsShown(units), room)
    decreases |units|
  {
    hide Decode, IsEscape, Known, UnitsText;
    UnitsTextUnfold(units);
    if units == [] || room == 0 {
      DecodeUnfold(s, p, |s|, room, subject);
    } else {
      var k := |UnitText(units[0])|;
      DecodeUnit(s, p, units[0], UnitsText(units[1..]), room, subject);
      UnitsDecoded(s, p + k, units[1..], room - 1, subject);
      OneMoreShown(units[0].c, UnitsShown(units[1..]), room);
    }
  }

  lemma UnitsTextUnfold(units: seq<Unit>)
    ensures UnitsText(units) == if units == [] then "" else UnitText(units[0]) + UnitsText(units[1..])
  {
    hide UnitText;
  }

  lemma DecodeUnit(s: string, p: nat, u: Unit, rest: string, room: nat, subject: bool)
    requires p <= |s| && s[p..] == UnitText(u) + rest && Known(u, subject) && room > 0
    ensures var k := |UnitText(u)|;
            && 0 < k <= |s| - p && s[p + k..] == rest
            && Decode(s, p, |s|, room, subject) == [u.c] + Decode(s, p + k, |s|, room - 1, subject)
  {
    hide Decode, Escaped, Known;
    UnitAt(s, p, u, rest, subject);
    DecodeUnfold(s, p, |s|, room, subject);
  }

  lemma UnitAt(s: string, p: nat, u: Unit, rest: string, subject: bool)
    requires p <= |s| && s[p..] == UnitText(u) + rest && Known(u, subject)
    ensures |UnitText(u)| <= |s| - p && s[p + |UnitText(u)|..] == rest && p < |s|
    ensures IsEscape(s, p, |s|, subject) <==> u.Coded?
    ensures u.Plain? ==> s[p] == u.c
    ensures u.Coded? ==> p + 2 < |s| && Escaped(s[p + 1], s[p + 2], subject) == Some(u.c)
  {
    var t := s[p..];
    assert t[|UnitText(u)|..] == rest && s[p] == t[0];
    if u.Coded? {
      assert s[p + 1] == t[1] == u.a && s[p + 2] == t[2] == u.b;
      EscapedIff(u.a, u.b, subject, u.c);
    }
  }

  lemma OneMoreShown(c: char, more: string, room: nat)
    requires room > 0
    ensures [c] + Upto(more, room - 1) == Upto([c] + more, room)
  {
  }

  /** However a line is written, in plain characters and codes for others, it is shown as
      these: the first 78 of a body line, the first 69 of a subject. */
  lemma WrittenIsShown(units: seq<Unit>, subject: bool)
    requires forall u :: u in units ==> Known(u, subject)
    ensures var s := UnitsText(units);
            Decode(s, 0, |s|, (if subject then SUBJECT_LEN else LINE_LEN) - 1, subject) ==
            Upto(UnitsShown(units), if subject then 69 else 78)
  {
    var s := UnitsText(units);
    assert s[0..] == s;
    UnitsDecoded(s, 0, units, if subject then 69 else 78, subject);
  }

  /** rtrim(): blanks at the end go, but never the first character. */
  function RTrim(s: string): string {
    if |s| > 1 && s[|s| - 1] == ' ' then RTrim(s[..|s| - 1]) else s
  }

  /** Blanks behind a text that ends in something else, or is one character, go. */
  lemma {:induction false} RTrimOf(t: string, n: nat)
    requires t != "" && (|t| == 1 || t[|t| - 1] != ' ')
    ensures RTrim(t + seq(n, _ => ' ')) == t && RTrim("") == ""
  {
    var s := t + seq(n, _ => ' ');
    if n > 0 {
      RTrimOf(t, n - 1);
      assert s[..|s| - 1] == t + seq(n - 1, _ => ' ');
    } else {
      assert s == t;
    }
  }

  /** In a line that ends at `e` the loop's three looks ahead find an escape. */
  lemma EscapeInLine(s: string, p: nat, e: nat, subject: bool)
    requires p < e < |s| && s[e] == '\n' && forall k :: p <= k < e ==> s[k] != '\n'
    ensures IsEscape(s, p, e, subject) <==>
            s[p] == '=' && s[p + 1] != '\n' && s[p + 2] != '\n' && Escaped(s[p + 1], s[p + 2], subject).Some?
  {
    hide Escaped;
  }

  /** Decodes the line at `from` while it moves over the buffer; an escape leaves
      its character in the place of its last hex digit. */
  method DecodeLine(buf: array<char>, from: nat, limit: nat, subject: bool) returns (line: string, next: nat)
    requires from <= buf.Length && LineEnd(buf[..], from) < buf.Length && limit > 0
    modifies buf
    ensures next == LineEnd(old(buf[..]), from) + 1 <= buf.Length
    ensures line == Decode(old(buf[..]), from, next - 1, limit - 1, subject)
    ensures forall k :: next <= k < buf.Length ==> buf[k] == old(buf[k])
  {
    hide Escaped, IsEscape, Decode, LineEnd;
    line := "";
    ghost var s := buf[..];
    ghost var e := LineEnd(s, from);
    assert line + Decode(s, from, e, limit - 1, subject) == Decode(s, from, e, limit - 1, subject);
    var p, c := from, 1;
    while buf[p] != '\n'
      invariant from <= p <= e && 1 <= c
      invariant forall k :: p <= k < buf.Length ==> buf[k] == s[k]
      invariant c <= limit ==> line + Decode(s, p, e, limit - c, subject) == Decode(s, from, e, limit - 1, subject)
      invariant c > limit ==> line == Decode(s, from, e, limit - 1, subject)
      decreases e - p
    {
      DecodeUnfold(s, p, e, if c <= limit then limit - c else 0, subject);
      if c < limit {
        ghost var before := line;
        var known := None;
        if buf[p] == '=' && buf[p + 1] != '\n' && buf[p + 2] != '\n' {
          known := Escaped(buf[p + 1], buf[p + 2], subject);
        }
        EscapeInLine(s, p, e, subject);
        if known.Some? {
          p := p + 2;
          buf[p] := known.value;
        }
        line := line + [buf[p]];
        ConcatAssociative(before, [buf[p]], Decode(s, p + 1, e, limit - c - 1, subject));
      }
      p, c := p + 1, c + 1;
    }
    DecodeUnfold(s, e, e, if c <= limit then limit - c else 0, subject);
    assert line + "" == line;
    next := p + 1;
  }

  // ---------- Comment list ----------

  function NewlinesEnd(s: string, i: nat): (n: nat)
    requires i <= |s|
    ensures i <= n <= |s| && (n < |s| ==> s[n] != '\n')
    ensures i < |s| && s[i] == '\n' ==> n > i
    decreases |s| - i
  {
    if i == |s| || s[i] != '\n' then i else NewlinesEnd(s, i + 1)
  }

  /** The "number:author" lines from the start of `s` on, up to the first line that
      does not begin with a number. */
  function Comments(s: string): Option<seq<Comment>>
    decreases |s|
  {
    if StrtolLen(s) == 0 then Some([])
    else
      var i, j := IndexOf(s, ':'), IndexOf(s, '\n');
      if i == |s| then None
      else
        var item := Comment(Strtol(s), Strtol(s[i + 1..]));
        if j == |s| then Some([item])
        else match Comments(s[NewlinesEnd(s, j)..])
             case None => None
             case Some(rest) => Some([item] + rest)
  }

  method ReadComments(text: string) returns (list: seq<Comment>)
    requires Comments(text).Some?
    ensures Some(list) == Comments(text)
  {
    hide StrtolLen, Strtol, IndexOf, NewlinesEnd;
    list := [];
    var s := text;
    assert [] + Comments(s).value == Comments(s).value;
    while StrtolLen(s) != 0
      invariant Comments(s).Some? && Comments(text) == Some(list + Comments(s).value)
      decreases |s|
    {
      var i, j := IndexOf(s, ':'), IndexOf(s, '\n');
      var item := Comment(Strtol(s), Strtol(s[i + 1..]));
      if j == |s| {
        assert Comments(s).value == [item];
        return list + [item];
      }
      var rest := s[NewlinesEnd(s, j)..];
      assert Comments(s).value == [item] + Comments(rest).value;
      assert list + ([item] + Comments(rest).value) == (list + [item]) + Comments(rest).value;
      list, s := list + [item], rest;
    }
    assert list + [] == list;
  }

  // ---------- The whole text ----------

  datatype Body = Body(lines: seq<string>, next: nat)

  /** `n` body lines from `from` on, and where the text goes on behind them. */
  function ReadBody(s: string, from: nat, n: int): Option<Body>
    requires from <= |s|
    ensures var r := ReadBody(s, from, n); r.Some? ==> from <= r.value.next <= |s|
    decreases n
  {
    if n <= 0 then Some(Body([], from))
    else
      var e := LineEnd(s, from);
      if e == |s| then None
      else match ReadBody(s, e + 1, n - 1)
           case None => None
           case Some(b) => Some(Body([Decode(s, from, e, LINE_LEN - 1, false)] + b.lines, b.next))
  }

  /** The entry made of the header numbers and the decoded parts. */
  function Assemble(h: Longs, subject: string, lines: seq<string>, list: seq<Comment>): TextEntry {
    TextEntry(Nth(h.values, 0), Nth(h.values, 1), Nth(h.values, 2), Nth(h.values, 3), Nth(h.values, 4),
              Nth(h.values, 5),
              Nth(h.values, 6), KindOf(Nth(h.values, 1), h.last), RTrim(subject), lines, list)
  }

  /** get_text_entry(); None for a text on which it would leave the buffer. */
  function ReadText(s: string): Option<TextEntry> {
    var h := ReadLongs(s, 7);
    var eol := LineEnd(s, 0);
    if h.None? || eol == |s| || LineEnd(s, eol + 1) == |s| then None
    else
      var eos := LineEnd(s, eol + 1);
      match ReadRest(s, eos + 1, Nth(h.value.values, 6))
      case None => None
      case Some(rest) => Some(Assemble(h.value, Decode(s, eol + 1, eos, SUBJECT_LEN - 1, true), rest.lines, rest.list))
  }

  datatype Rest = Rest(lines: seq<string>, list: seq<Comment>)

  /** The body lines and the comment list behind the subject line. */
  function ReadRest(s: string, from: nat, size: int): Option<Rest>
    requires from <= |s|
  {
    match ReadBody(s, from, size)
    case None => None
    case Some(b) =>
      match Comments(s[b.next..])
      case None => None
      case Some(list) => Some(Rest(b.lines, list))
  }

  function Nth(v: seq<int>, i: nat): int {
    if i < |v| then v[i] else 0
  }

  /** One line further. */
  lemma ReadBodyUnfold(s: string, at: nat, n: int)
    requires at <= |s| && ReadBody(s, at, n).Some?
    ensures n <= 0 ==> ReadBody(s, at, n).value == Body([], at)
    ensures n > 0 ==>
              var e := LineEnd(s, at);
              && at <= e < |s| && ReadBody(s, e + 1, n - 1).Some?
              && var rest := ReadBody(s, e + 1, n - 1).value;
                 ReadBody(s, at, n).value == Body([Decode(s, at, e, LINE_LEN - 1, false)] + rest.lines, rest.next)
  {
    hide Decode, LineEnd;
  }

  method ReadBodyLines(buf: array<char>, from: nat, size: int) returns (lines: seq<string>, next: nat)
    requires from <= buf.Length && ReadBody(buf[..], from, size).Some?
    modifies buf
    ensures Some(Body(lines, next)) == ReadBody(old(buf[..]), from, size) && from <= next
    ensures forall k :: next <= k < buf.Length ==> buf[k] == old(buf[k])
  {
    hide Decode, LineEnd, ReadBody;
    ghost var s := buf[..];
    lines, next := [], from;
    assert [] + ReadBody(s, from, size).value.lines == ReadBody(s, from, size).value.lines;
    var i := 1;
    while i <= size
      invariant 1 <= i && (size > 0 ==> i <= size + 1) && (size <= 0 ==> i == 1)
      invariant from <= next <= buf.Length
      invariant forall k :: next <= k < buf.Length ==> buf[k] == s[k]
      invariant var rest := ReadBody(s, next, size - i + 1);
                rest.Some? && ReadBody(s, from, size) == Some(Body(lines + rest.value.lines, rest.value.next))
    {
      ghost var e := LineEnd(s, next);
      ReadBodyUnfold(s, next, size - i + 1);
      LineEndSame(s, buf[..], next);
      DecodeSame(s, buf[..], next, e, LINE_LEN - 1, false);
      var line, after := DecodeLine(buf, next, LINE_LEN, false);
      LinesAssociative(lines, [line], ReadBody(s, after, size - i).value.lines);
      lines, next, i := lines + [line], after, i + 1;
    }
    ReadBodyUnfold(s, next, size - i + 1);
    assert lines + [] == lines;
  }

  lemma LinesAssociative(a: seq<string>, b: seq<string>, c: seq<string>)
    ensures a + (b + c) == (a + b) + c
  {
  }

  lemma {:induction false} LineEndSame(s: string, t: string, from: nat)
    requires |s| == |t| && from <= |s| && forall k :: from <= k < |s| ==> s[k] == t[k]
    ensures LineEnd(s, from) == LineEnd(t, from)
    decreases |s| - from
  {
    if from < |s| && s[from] != '\n' {
      LineEndSame(s, t, from + 1);
    }
  }

  lemma {:induction false} DecodeSame(s: string, t: string, p: nat, e: nat, room: nat, subject: bool)
    requires p <= e <= |s| == |t| && forall k :: p <= k < e ==> s[k] == t[k]
    ensures Decode(s, p, e, room, subject) == Decode(t, p, e, room, subject)
    decreases e - p
  {
    hide Escaped;
    if p < e && room > 0 {
      assert IsEscape(s, p, e, subject) == IsEscape(t, p, e, subject);
      if IsEscape(s, p, e, subject) {
        DecodeSame(s, t, p + 3, e, room - 1, subject);
      } else {
        DecodeSame(s, t, p + 1, e, room - 1, subject);
      }
    }
  }

  method ReadBodyAndComments(buf: array<char>, from: nat, size: int)
    returns (lines: seq<string>, list: seq<Comment>)
    requires from <= buf.Length && ReadRest(buf[..], from, size).Some?
    modifies buf
    ensures Some(Rest(lines, list)) == ReadRest(old(buf[..]), from, size)
  {
    hide Comments, ReadBody;
    ghost var s := buf[..];
    var after;
    lines, after := ReadBodyLines(buf, from, size);
    TailEqual(s, buf[..], after);
    list := ReadComments(buf[after..]);
  }

  method GetTextEntry(buf: array<char>) returns (entry: TextEntry)
    requires ReadText(buf[..]).Some?
    modifies buf
    ensures Some(entry) == ReadText(old(buf[..]))
  {
    hide ReadLongs, Decode, Assemble, Nth, ReadRest, LineEnd;
    ghost var s := buf[..];
    var h := ReadLongs(buf[..], 7).value;
    var eol := LineEnd(buf[..], 0);
    var subject, next := DecodeLine(buf, eol + 1, SUBJECT_LEN, true);
    SameRest(s, buf[..], next, Nth(h.values, 6));
    var lines, list := ReadBodyAndComments(buf, next, Nth(h.values, 6));
    entry := Assemble(h, subject, lines, list);
  }

  lemma SameRest(s: string, t: string, from: nat, size: int)
    requires |s| == |t| && from <= |s| && forall k :: from <= k < |s| ==> s[k] == t[k]
    ensures ReadRest(s, from, size) == ReadRest(t, from, size)
  {
    SameTail(s, t, from, size);
    var b := ReadBody(s, from, size);
    if b.Some? {
      TailEqual(s, t, b.value.next);
    }
  }

  lemma TailEqual(s: string, t: string, from: nat)
    requires |s| == |t| && from <= |s| && forall k :: from <= k < |s| ==> s[k] == t[k]
    ensures s[from..] == t[from..]
  {
  }

  /** What is read from `from` on depends on nothing before it. */
  lemma {:induction false} SameTail(s: string, t: string, from: nat, n: int)
    requires |s| == |t| && from <= |s| && forall k :: from <= k < |s| ==> s[k] == t[k]
    ensures ReadBody(s, from, n) == ReadBody(t, from, n)
    decreases n
  {
    hide Decode;
    LineEndSame(s, t, from);
    var e := LineEnd(s, from);
    if n > 0 && e < |s| {
      DecodeSame(s, t, from, e, LINE_LEN - 1, false);
      SameTail(s, t, e + 1, n - 1);
    }
  }
}
