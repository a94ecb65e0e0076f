/** The InterBBS-oneliner cache file: one escaped line per record, the parser that
    reads a line back, and what a torn line can still be read as. */
module IbolDb {
  import opened CText

  const MSGID_MAX := 256
  const AUTHOR_MAX := 128
  const SOURCE_MAX := 256
  const TEXT_MAX := 4096
  const STAMP_MAX := 64
  const LLONG_MAX := 0x7fff_ffff_ffff_ffff

  datatype Record = Record(timestamp: int, msgid: string, author: string, source: string, text: string)

  /** A record as struct ibol_record holds one: C strings that fit their arrays, and
      a 64-bit time. */
  predicate Fits(r: Record) {
    && -0x8000_0000_0000_0000 <= r.timestamp <= 0x7fff_ffff_ffff_ffff
    && CString(r.msgid) && CString(r.author) && CString(r.source) && CString(r.text)
    && |r.msgid| <= 255 && |r.author| <= 127 && |r.source| <= 255 && |r.text| <= 4095
  }

  // ---------- Writing ----------

  function EscapeChar(c: char): (s: string)
    ensures s != ""
  {
    if c == '\\' then "\\\\"
    else if c == ':' then "\\:"
    else if c == '\n' then "\\n"
    else if c == '\r' then "\\r"
    else if c == '\t' then "\\t"
    else [c]
  }

  function Escape(s: string): string {
    if s == "" then "" else EscapeChar(s[0]) + Escape(s[1..])
  }

  /** write_escaped(). */
  method WriteEscaped(s: string) returns (out: string)
    ensures out == Escape(s)
  {
    hide EscapeChar;
    out := "";
    var p := 0;
    assert "" + Escape(s) == Escape(s) && s[0..] == s;
    while p < |s|
      invariant 0 <= p <= |s|
      invariant out + Escape(s[p..]) == Escape(s)
    {
      ConcatAssociative(out, EscapeChar(s[p]), Escape(s[p..][1..]));
      assert s[p..][1..] == s[p + 1..];
      out := out + EscapeChar(s[p]);
      p := p + 1;
    }
    assert s[p..] == "" && out + "" == out;
  }

  /** The line of a record without its line end. */
  function RecordLine(r: Record): string {
    Signed(r.timestamp) + ":" +
    (Escape(r.msgid) + ":" + (Escape(r.author) + ":" + (Escape(r.source) + ":" + Escape(r.text))))
  }

  /** ibol_db_write_record(): what is appended to the cache. */
  function Written(r: Record): string {
    RecordLine(r) + "\n"
  }

  // ---------- Parsing ----------

  /** Where a C string or a line ends. */
  predicate Stops(c: char) {
    c == '\0' || c == '\n' || c == '\r'
  }

  predicate AtEnd(s: string) {
    s == "" || Stops(s[0])
  }

  function Unescape(c: char): Option<char> {
    if c == 'n' then Some('\n') else if c == 'r' then Some('\r') else if c == 't' then Some('\t')
    else if c == ':' then Some(':') else if c == '\\' then Some('\\') else None
  }

  /** The five codes, for the writer and the parser. */
  const CODES := {('\\', '\\'), (':', ':'), ('\n', 'n'), ('\r', 'r'), ('\t', 't')}

  lemma CodesIff(c: char, code: char)
    ensures (c, code) in CODES <==> EscapeChar(c) == ['\\', code]
    ensures (c, code) in CODES <==> Unescape(code) == Some(c)
  {
    assert (c, code) in CODES ==> EscapeChar(c) == ['\\', code];
  }

  datatype Field = Bad | Field(text: string, rest: string)

  function PrependAll(dst: string, f: Field): Field {
    if f.Bad? then Bad else Field(dst + f.text, f.rest)
  }

  /** What the parser makes of the start of `s`: the end, a separator, a backslash
      with nothing behind it, or `used` bytes that decode to `chars`. */
  datatype Token = End | Colon | Dangling | Chars(chars: string, used: nat)

  function NextToken(s: string, final: bool): (t: Token)
    ensures t.Chars? ==> 0 < t.used <= |s|
    ensures t.Colon? ==> s != ""
  {
    if AtEnd(s) then End
    else if !final && s[0] == ':' then Colon
    else if s[0] != '\\' then Chars([s[0]], 1)
    else if AtEnd(s[1..]) then Dangling
    else if Unescape(s[1]).Some? then Chars([Unescape(s[1]).value], 2)
    else Chars(['\\', s[1]], 2)
  }

  /** parse_decoded_field(): one field, with room for `room` characters. */
  function ParseField(s: string, final: bool, room: nat): (f: Field)
    ensures f.Field? ==> |f.text| <= room && |f.rest| <= |s|
    decreases |s|
  {
    match NextToken(s, final)
    case End => if final then Field("", s) else Bad
    case Colon => Field("", s[1..])
    case Dangling => Bad
    case Chars(chars, used) =>
      if |chars| > room then Bad else PrependAll(chars, ParseField(s[used..], final, room - |chars|))
  }

  lemma FieldUnfold(s: string, final: bool, room: nat)
    ensures ParseField(s, final, room) ==
            match NextToken(s, final)
            case End => if final then Field("", s) else Bad
            case Colon => Field("", s[1..])
            case Dangling => Bad
            case Chars(chars, used) =>
              if |chars| > room then Bad else PrependAll(chars, ParseField(s[used..], final, room - |chars|))
  {
    hide NextToken, PrependAll;
  }

  /** ibol_db_parse_line(); None for a line that is no valid record. */
  function ParseLine(line: string): Option<Record> {
    var stamp := ParseField(line, false, STAMP_MAX - 1);
    if stamp.Bad? || !ValidStamp(stamp.text) then None else
      var msgid := ParseField(stamp.rest, false, MSGID_MAX - 1);
      if msgid.Bad? then None else
        var author := ParseField(msgid.rest, false, AUTHOR_MAX - 1);
        if author.Bad? then None else
          var source := ParseField(author.rest, false, SOURCE_MAX - 1);
          if source.Bad? then None else
            var text := ParseField(source.rest, true, TEXT_MAX - 1);
            if text.Bad? || msgid.text == "" then None
            else Some(Record(Strtol(stamp.text), msgid.text, author.text, source.text, text.text))
  }

  /** strtoll() takes the whole stamp, in range, and it is not negative. */
  predicate ValidStamp(stamp: string) {
    StrtolLen(stamp) > 0 && StrtolLen(stamp) == |stamp| && 0 <= Strtol(stamp) <= LLONG_MAX
  }

  /** The cursor loop of parse_decoded_field(): `dst` has `size` bytes. */
  method ParseDecodedField(line: string, from: nat, final: bool, size: nat)
    returns (ok: bool, dst: string, p: nat)
    requires from <= |line| && size > 0
    ensures p <= |line|
    ensures ParseField(line[from..], final, size - 1) == if ok then Field(dst, line[p..]) else Bad
  {
    hide NextToken, ParseField, PrependAll;
    ok, dst, p := true, "", from;
    PrependNothing(ParseField(line[from..], final, size - 1));
    while true
      invariant from <= p <= |line| && |dst| <= size - 1
      invariant ParseField(line[from..], final, size - 1) ==
                  PrependAll(dst, ParseField(line[p..], final, size - 1 - |dst|))
      decreases |line| - p
    {
      ghost var s, room := line[p..], size - 1 - |dst|;
      FieldUnfold(s, final, room);
      match NextToken(line[p..], final) {
        case End =>
          ok := final;
          PrependEnd(dst, s);
          return;
        case Colon =>
          p := p + 1;
          PrependEnd(dst, line[p..]);
          assert s[1..] == line[p..];
          return;
        case Dangling =>
          ok := false;
          PrependEnd(dst, s);
          return;
        case Chars(chars, used) =>
          if |dst| + |chars| >= size {
            ok := false;
            PrependEnd(dst, s);
            return;
          }
          assert s[used..] == line[p + used..];
          PrependStep(dst, chars, ParseField(line[p + used..], final, room - |chars|));
          dst, p := dst + chars, p + used;
      }
    }
  }

  lemma PrependNothing(f: Field)
    ensures PrependAll("", f) == f
  {
    if f.Field? {
      assert "" + f.text == f.text;
    }
  }

  lemma PrependEnd(dst: string, rest: string)
    ensures PrependAll(dst, Field("", rest)) == Field(dst, rest) && PrependAll(dst, Bad) == Bad
  {
    assert dst + "" == dst;
  }

  lemma PrependStep(dst: string, chars: string, f: Field)
    ensures PrependAll(dst, PrependAll(chars, f)) == PrependAll(dst + chars, f)
  {
    if f.Field? {
      assert dst + (chars + f.text) == (dst + chars) + f.text;
    }
  }

  // ---------- A line end behind a line changes nothing ----------

  lemma TokenWithEnd(s: string, tail: string, final: bool)
    requires AtEnd(tail)
    ensures NextToken(s + tail, final) == NextToken(s, final)
    ensures NextToken(s, final).Chars? ==>
              (s + tail)[NextToken(s, final).used..] == s[NextToken(s, final).used..] + tail
    ensures NextToken(s, final).Colon? ==> (s + tail)[1..] == s[1..] + tail
  {
    if s == "" {
      assert s + tail == tail;
    } else {
      assert (s + tail)[0] == s[0] && (s + tail)[1..] == s[1..] + tail;
    }
  }

  lemma {:induction false} FieldWithEnd(s: string, tail: string, final: bool, room: nat)
    requires AtEnd(tail)
    ensures ParseField(s + tail, final, room) ==
            if ParseField(s, final, room).Bad? then Bad
            else Field(ParseField(s, final, room).text, ParseField(s, final, room).rest + tail)
    decreases |s|
  {
    hide NextToken;
    TokenWithEnd(s, tail, final);
    var t := NextToken(s, final);
    if t.Chars? && |t.chars| <= room {
      FieldWithEnd(s[t.used..], tail, final, room - |t.chars|);
    }
  }

  /** What a line is read as does not depend on the line end behind it. */
  lemma LineWithEnd(line: string, tail: string)
    requires AtEnd(tail)
    ensures ParseLine(line + tail) == ParseLine(line)
  {
    hide ParseField, ValidStamp;
    FieldWithEnd(line, tail, false, STAMP_MAX - 1);
    var stamp := ParseField(line, false, STAMP_MAX - 1);
    if stamp.Field? {
      FieldWithEnd(stamp.rest, tail, false, MSGID_MAX - 1);
      var msgid := ParseField(stamp.rest, false, MSGID_MAX - 1);
      if msgid.Field? {
        FieldWithEnd(msgid.rest, tail, false, AUTHOR_MAX - 1);
        var author := ParseField(msgid.rest, false, AUTHOR_MAX - 1);
        if author.Field? {
          FieldWithEnd(author.rest, tail, false, SOURCE_MAX - 1);
          var source := ParseField(author.rest, false, SOURCE_MAX - 1);
          if source.Field? {
            FieldWithEnd(source.rest, tail, true, TEXT_MAX - 1);
          }
        }
      }
    }
  }

  // ---------- Fields, whole and torn ----------

  lemma TokenOfEscape(c: char, rest: string, final: bool)
    requires c != '\0'
    ensures NextToken(EscapeChar(c) + rest, final) == Chars([c], |EscapeChar(c)|)
    ensures (EscapeChar(c) + rest)[|EscapeChar(c)|..] == rest
  {
  }

  /** A torn escape is read as nothing at all. */
  lemma TokenOfTornEscape(c: char, q: string, final: bool)
    requires c != '\0' && q < EscapeChar(c)
    ensures NextToken(q, final) == (if q == "" then End else Dangling)
  {
  }

  lemma EscapeUnfold(t: string)
    ensures Escape(t) == if t == "" then "" else EscapeChar(t[0]) + Escape(t[1..])
  {
    hide EscapeChar;
  }

  /** A beginning `q` of an escaped character and what follows it: torn inside the
      escape, or the escape and a beginning of the rest. */
  lemma TornHead(c: char, tail: string, q: string, final: bool)
    requires c != '\0' && q <= EscapeChar(c) + tail
    ensures var n := |EscapeChar(c)|;
            if |q| < n then NextToken(q, final) == (if q == "" then End else Dangling)
            else NextToken(q, final) == Chars([c], n) && q[n..] <= tail &&
                 (q == EscapeChar(c) + tail <==> q[n..] == tail)
  {
    hide NextToken, EscapeChar;
    var e := EscapeChar(c);
    if |q| < |e| {
      assert q == (e + tail)[..|q|] == e[..|q|];
      TokenOfTornEscape(c, q, final);
    } else {
      assert q == e + q[|e|..];
      TokenOfEscape(c, q[|e|..], final);
    }
  }

  /** The beginning `q` of an escaped field and its separator reads as the field once
      the separator is there, and as nothing before. */
  lemma {:induction false} TornField(t: string, rest: string, q: string, room: nat)
    requires CString(t) && |t| <= room && q <= Escape(t) + ":" + rest
    ensures ParseField(q, false, room) ==
            if |q| <= |Escape(t)| then Bad else Field(t, q[|Escape(t)| + 1..])
  {
    hide NextToken, EscapeChar, Escape, ParseField, PrependAll;
    FieldUnfold(q, false, room);
    EscapeUnfold(t);
    if t == "" {
      assert "" + ":" + rest == ":" + rest;
      SeparatorToken(q);
    } else {
      var e, escaped := EscapeChar(t[0]), Escape(t[1..]);
      var tail := escaped + ":" + rest;
      EscapedLine(e, escaped, rest);
      TornHead(t[0], tail, q, false);
      if |q| >= |e| {
        var more := q[|e|..];
        TornField(t[1..], rest, more, room - 1);
        if |more| <= |escaped| {
          OneMore(t, "");
        } else {
          DropTwice(q, |e|, |escaped| + 1);
          OneMore(t, more[|escaped| + 1..]);
        }
      }
    }
  }

  lemma EscapedLine(e: string, escaped: string, rest: string)
    ensures e + escaped + ":" + rest == e + (escaped + ":" + rest)
  {
  }

  lemma DropTwice(q: string, a: nat, b: nat)
    requires a + b <= |q|
    ensures q[a..][b..] == q[a + b..]
  {
  }

  lemma OneMore(t: string, rest: string)
    requires t != ""
    ensures PrependAll([t[0]], Field(t[1..], rest)) == Field(t, rest) && PrependAll([t[0]], Bad) == Bad
  {
    assert [t[0]] + t[1..] == t;
  }

  lemma SeparatorToken(q: string)
    ensures NextToken("", false) == End
    ensures q != "" && q[0] == ':' ==> NextToken(q, false) == Colon
  {
  }

  /** The beginning of the last field reads as a beginning of its text, or not at all. */
  lemma {:induction false} TornLastField(t: string, q: string, room: nat)
    requires CString(t) && |t| <= room && q <= Escape(t)
    ensures var f := ParseField(q, true, room);
            && (f.Field? ==> f.text <= t)
            && (q == Escape(t) ==> f == Field(t, ""))
  {
    hide NextToken, EscapeChar, Escape, ParseField, PrependAll;
    FieldUnfold(q, true, room);
    EscapeUnfold(t);
    if t == "" {
      EndToken();
    } else {
      var e, tail := EscapeChar(t[0]), Escape(t[1..]);
      TornHead(t[0], tail, q, true);
      if |q| >= |e| {
        TornLastField(t[1..], q[|e|..], room - 1);
        OneMoreTorn(t, ParseField(q[|e|..], true, room - 1));
      }
    }
  }

  lemma OneMoreTorn(t: string, f: Field)
    requires t != "" && (f.Field? ==> f.text <= t[1..])
    ensures var g := PrependAll([t[0]], f);
            && (g.Field? ==> g.text <= t)
            && (f == Field(t[1..], "") ==> g == Field(t, ""))
  {
    assert [t[0]] + t[1..] == t;
  }

  lemma EndToken()
    ensures NextToken("", true) == End
  {
  }

  // ---------- The stamp ----------

  lemma {:induction false} EscapePlain(s: string)
    requires forall i :: 0 <= i < |s| ==> IsDigit(s[i]) || s[i] == '-'
    ensures Escape(s) == s && CString(s)
  {
    if s != "" {
      EscapePlain(s[1..]);
      assert [s[0]] + s[1..] == s;
    }
  }

  lemma TenToTheNineteenth()
    ensures Pow10(19) == 10_000_000_000_000_000_000
  {
    assert Pow10(9) == 1_000_000_000;
  }

  /** A 64-bit time is printed within the stamp buffer and read back; the parser
      accepts it exactly when it is not negative. */
  lemma StampReads(t: int)
    requires -0x8000_0000_0000_0000 <= t <= 0x7fff_ffff_ffff_ffff
    ensures Escape(Signed(t)) == Signed(t) && CString(Signed(t)) && |Signed(t)| <= 20
    ensures ValidStamp(Signed(t)) <==> t >= 0
    ensures Strtol(Signed(t)) == t
  {
    EscapePlain(Signed(t));
    TenToTheNineteenth();
    hide Pow10;
    DecimalShort(if t < 0 then -t else t, 19);
    StrtolOfSigned(t, "");
    hide Strtol, StrtolLen;
    assert Signed(t) + "" == Signed(t);
  }

  // ---------- Records ----------

  lemma BehindSeparator(a: string, rest: string, q: string)
    requires q <= a + ":" + rest && |q| > |a|
    ensures q[|a| + 1..] <= rest && (q == a + ":" + rest ==> q[|a| + 1..] == rest)
  {
    assert (a + ":" + rest)[|a| + 1..] == rest;
  }

  /** What the fields behind the MSGID of a torn line can be read as. */
  lemma TornTail(r: Record, q: string)
    requires Fits(r) && q <= TailLine(r)
    ensures var v := ReadTail(q);
            && (v.Some? ==> v.value.author == r.author && v.value.source == r.source && v.value.text <= r.text)
            && (q == TailLine(r) ==> v == Some(Tail(r.author, r.source, r.text)))
  {
    hide ParseField, Escape;
    var rest := Escape(r.source) + ":" + Escape(r.text);
    TornField(r.author, rest, q, AUTHOR_MAX - 1);
    if |q| > |Escape(r.author)| {
      BehindSeparator(Escape(r.author), rest, q);
      var q1 := q[|Escape(r.author)| + 1..];
      TornField(r.source, Escape(r.text), q1, SOURCE_MAX - 1);
      if |q1| > |Escape(r.source)| {
        BehindSeparator(Escape(r.source), Escape(r.text), q1);
        TornLastField(r.text, q1[|Escape(r.source)| + 1..], TEXT_MAX - 1);
      }
    }
  }

  datatype Tail = Tail(author: string, source: string, text: string)

  /** The fields behind the MSGID. */
  function LastFields(author: string, source: string, text: string): string {
    Escape(author) + ":" + (Escape(source) + ":" + Escape(text))
  }

  function TailLine(r: Record): string {
    LastFields(r.author, r.source, r.text)
  }

  /** The part of the line parser behind the MSGID. */
  function ReadTail(s: string): Option<Tail> {
    var author := ParseField(s, false, AUTHOR_MAX - 1);
    if author.Bad? then None else
      var source := ParseField(author.rest, false, SOURCE_MAX - 1);
      if source.Bad? then None else
        var text := ParseField(source.rest, true, TEXT_MAX - 1);
        if text.Bad? then None else Some(Tail(author.text, source.text, text.text))
  }

  lemma LineByTail(stamp: string, msgid: string, q: string, s0: string, s1: string)
    requires ParseField(s0, false, STAMP_MAX - 1) == Field(stamp, s1)
    requires ParseField(s1, false, MSGID_MAX - 1) == Field(msgid, q)
    ensures ParseLine(s0) ==
            if ValidStamp(stamp) && msgid != "" && ReadTail(q).Some?
            then Some(Record(Strtol(stamp), msgid, ReadTail(q).value.author, ReadTail(q).value.source,
                             ReadTail(q).value.text))
            else None
  {
    hide ParseField, ValidStamp, Strtol;
  }

  /** The beginning `q` of a record's line is read either as no record at all or as
      this record with its text cut short; the whole line as the record itself,
      unless its time is negative or its MSGID empty. */
  lemma TornLine(r: Record, q: string)
    requires Fits(r) && q <= RecordLine(r)
    ensures var v := ParseLine(q);
            && (v.Some? ==>
                  v.value == r.(text := v.value.text) && v.value.text <= r.text && r.timestamp >= 0 && r.msgid != "")
            && (q == RecordLine(r) ==> v == if r.timestamp >= 0 && r.msgid != "" then Some(r) else None)
  {
    StampReads(r.timestamp);
    hide ParseField, Escape, ValidStamp, Strtol, Signed, TailLine, ReadTail, ParseLine;
    var stamp := Signed(r.timestamp);
    var rest1 := Escape(r.msgid) + ":" + TailLine(r);
    LineIs(r);
    TornField(stamp, rest1, q, STAMP_MAX - 1);
    if |q| <= |stamp| {
      NoStampNoLine(q);
    } else {
      BehindSeparator(stamp, rest1, q);
      var q1 := q[|stamp| + 1..];
      TornField(r.msgid, TailLine(r), q1, MSGID_MAX - 1);
      if |q1| <= |Escape(r.msgid)| {
        NoMsgidNoLine(stamp, q, q1);
      } else {
        BehindSeparator(Escape(r.msgid), TailLine(r), q1);
        var q2 := q1[|Escape(r.msgid)| + 1..];
        TornTail(r, q2);
        LineByTail(stamp, r.msgid, q2, q, q1);
      }
    }
  }

  lemma LineIs(r: Record)
    ensures RecordLine(r) == Signed(r.timestamp) + ":" + (Escape(r.msgid) + ":" + TailLine(r))
  {
  }

  lemma NoStampNoLine(q: string)
    requires ParseField(q, false, STAMP_MAX - 1).Bad?
    ensures ParseLine(q).None?
  {
  }

  lemma NoMsgidNoLine(stamp: string, q: string, q1: string)
    requires ParseField(q, false, STAMP_MAX - 1) == Field(stamp, q1) && ParseField(q1, false, MSGID_MAX - 1).Bad?
    ensures ParseLine(q).None?
  {
    hide ParseField, ValidStamp;
  }

  lemma {:induction false} EscapeOneLine(s: string)
    requires CString(s)
    ensures forall i :: 0 <= i < |Escape(s)| ==> !Stops(Escape(s)[i])
  {
    if s != "" {
      EscapeOneLine(s[1..]);
    }
  }

  lemma RecordOneLine(r: Record)
    requires Fits(r)
    ensures forall i :: 0 <= i < |RecordLine(r)| ==> !Stops(RecordLine(r)[i])
  {
    EscapeOneLine(r.msgid);
    EscapeOneLine(r.author);
    EscapeOneLine(r.source);
    EscapeOneLine(r.text);
    assert forall i :: 0 <= i < |Signed(r.timestamp)| ==> !Stops(Signed(r.timestamp)[i]);
    hide Escape, Signed, Stops;
  }

  /** What is written for a record is one line; it reads back as the record if and
      only if its time is not negative and its MSGID not empty. */
  lemma RecordRoundTripIff(r: Record)
    requires Fits(r)
    ensures ParseLine(Written(r)) == Some(r) <==> r.timestamp >= 0 && r.msgid != ""
    ensures ParseLine(Written(r)).Some? ==> ParseLine(Written(r)) == Some(r)
    ensures EndsLine(Written(r)) && '\n' !in RecordLine(r) && '\r' !in RecordLine(r)
  {
    hide ParseLine, RecordLine;
    TornLine(r, RecordLine(r));
    LineWithEnd(RecordLine(r), "\n");
    RecordOneLine(r);
  }

  // ---------- The limits ----------

  lemma {:induction false} LongField(t: string, rest: string, final: bool, room: nat)
    requires CString(t) && |t| > room
    ensures ParseField(Escape(t) + rest, final, room).Bad?
    decreases room
  {
    hide NextToken, EscapeChar, Escape, ParseField, PrependAll;
    var s, e, more := Escape(t) + rest, EscapeChar(t[0]), Escape(t[1..]) + rest;
    EscapeUnfold(t);
    assert s == e + more;
    FieldUnfold(s, final, room);
    TokenOfEscape(t[0], more, final);
    if room > 0 {
      LongField(t[1..], rest, final, room - 1);
      OneMore(t, "");
    }
  }

  /** A field is read if and only if it has room. */
  lemma FieldReadsIff(t: string, rest: string, room: nat)
    requires CString(t)
    ensures ParseField(Escape(t) + ":" + rest, false, room) == if |t| <= room then Field(t, rest) else Bad
    ensures ParseField(Escape(t), true, room) == if |t| <= room then Field(t, "") else Bad
  {
    hide ParseField, Escape;
    var s := Escape(t) + ":" + rest;
    if |t| <= room {
      TornField(t, rest, s, room);
      TornLastField(t, Escape(t), room);
      assert s[|Escape(t)| + 1..] == rest;
    } else {
      LongField(t, ":" + rest, false, room);
      LongField(t, "", true, room);
      assert Escape(t) + (":" + rest) == s && Escape(t) + "" == Escape(t);
    }
  }

  /** A whole line of five. */
  function AllFields(stamp: string, msgid: string, tail: string): string {
    Escape(stamp) + ":" + (Escape(msgid) + ":" + tail)
  }

  lemma FirstFieldsRead(stamp: string, msgid: string, tail: string)
    requires CString(stamp) && CString(msgid)
    ensures ParseLine(AllFields(stamp, msgid, tail)) ==
            if |stamp| <= 63 && ValidStamp(stamp) && 0 < |msgid| <= 255 && ReadTail(tail).Some?
            then Some(Record(Strtol(stamp), msgid, ReadTail(tail).value.author, ReadTail(tail).value.source,
                             ReadTail(tail).value.text))
            else None
  {
    hide ParseLine, ReadTail, ParseField, Escape, ValidStamp, Strtol;
    var line, rest := AllFields(stamp, msgid, tail), Escape(msgid) + ":" + tail;
    FieldReadsIff(stamp, rest, 63);
    FieldReadsIff(msgid, tail, 255);
    if |stamp| > 63 {
      NoStampNoLine(line);
    } else if |msgid| > 255 {
      NoMsgidNoLine(stamp, line, rest);
    } else {
      LineByTail(stamp, msgid, tail, line, rest);
    }
  }

  lemma LastFieldsRead(author: string, source: string, text: string)
    requires CString(author) && CString(source) && CString(text)
    ensures ReadTail(LastFields(author, source, text)) ==
            if |author| <= 127 && |source| <= 255 && |text| <= 4095 then Some(Tail(author, source, text)) else None
  {
    hide ParseField, Escape;
    FieldReadsIff(author, Escape(source) + ":" + Escape(text), 127);
    FieldReadsIff(source, Escape(text), 255);
    FieldReadsIff(text, "", 4095);
  }

  /** Five fields, whatever they say and however long, are a record if and only if none is
      too long, the MSGID is not empty and the stamp, of at most 63 bytes, is valid. */
  lemma FieldsReadIff(stamp: string, msgid: string, author: string, source: string, text: string)
    requires CString(stamp) && CString(msgid) && CString(author) && CString(source) && CString(text)
    ensures ParseLine(AllFields(stamp, msgid, LastFields(author, source, text))) ==
            if |stamp| <= 63 && ValidStamp(stamp) && 0 < |msgid| <= 255 && |author| <= 127 && |source| <= 255 &&
               |text| <= 4095
            then Some(Record(Strtol(stamp), msgid, author, source, text)) else None
  {
    hide ParseLine, ReadTail, ValidStamp, Strtol, AllFields, LastFields;
    FirstFieldsRead(stamp, msgid, LastFields(author, source, text));
    LastFieldsRead(author, source, text);
  }

  /** A number is a valid stamp if and only if it is not negative and fits 64 bits. */
  lemma ValidStampIff(t: int)
    ensures ValidStamp(Signed(t)) <==> 0 <= t <= 0x7fff_ffff_ffff_ffff
  {
    StrtolOfSigned(t, "");
    hide Strtol, StrtolLen;
    assert Signed(t) + "" == Signed(t);
  }

  /** ibol_db_write_record(), field by field. */
  method WriteRecord(r: Record) returns (out: string)
    ensures out == Written(r)
  {
    var msgid := WriteEscaped(r.msgid);
    var author := WriteEscaped(r.author);
    var source := WriteEscaped(r.source);
    var text := WriteEscaped(r.text);
    out := Signed(r.timestamp) + ":" + msgid + ":" + author + ":" + source + ":" + text + "\n";
    hide Escape, Signed;
    FlatFields(Signed(r.timestamp), msgid, author, source, text);
  }

  lemma FlatFields(a: string, b: string, c: string, d: string, e: string)
    ensures a + ":" + b + ":" + c + ":" + d + ":" + e + "\n" == a + ":" + (b + ":" + (c + ":" + (d + ":" + e))) + "\n"
  {
  }

  /** The parser as it runs: field after field from one cursor. */
  method IbolDbParseLine(line: string) returns (record: Option<Record>)
    ensures record == ParseLine(line)
  {
    hide ParseField, ValidStamp, Strtol;
    var ok, stamp, msgid, author, source, text, p;
    assert line[0..] == line;
    ok, stamp, p := ParseDecodedField(line, 0, false, STAMP_MAX);
    if !ok || !ValidStamp(stamp) {
      return None;
    }
    ok, msgid, p := ParseDecodedField(line, p, false, MSGID_MAX);
    if !ok {
      return None;
    }
    ok, author, p := ParseDecodedField(line, p, false, AUTHOR_MAX);
    if !ok {
      return None;
    }
    ok, source, p := ParseDecodedField(line, p, false, SOURCE_MAX);
    if !ok {
      return None;
    }
    ok, text, p := ParseDecodedField(line, p, true, TEXT_MAX);
    if !ok || msgid == "" {
      return None;
    }
    return Some(Record(Strtol(stamp), msgid, author, source, text));
  }
}
