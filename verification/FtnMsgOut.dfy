/** The writer of .MSG files, write_fido_msg_out(), and what read_fido_msg() gets back. */
module FtnMsgOut {
  import opened CText
  import opened FtnAddress
  import opened FtnMsg
  import Utf8

  /** What is written; `date` and `tzutc` come from the clock, `tear` and `origin` are
      the two lines the system signs with. */
  datatype Message = Message(from: string, to: string, subject: string, date: string, body: string, reply: string,
                             msgid: string, tzutc: string, tear: string, origin: string, orig: Address, dest: Address)

  const LOCAL_ATTR := 0x0100

  // ---------- Writing ----------

  function U16(val: int): string {
    [(val % 256) as char, (val / 256 % 256) as char]
  }

  function U16s(vals: seq<int>): string {
    if vals == [] then "" else U16s(vals[..|vals| - 1]) + U16(vals[|vals| - 1])
  }

  /** The thirteen numbers of the header, in file order. */
  function Numbers(m: Message): seq<int> {
    [0, m.dest.node, m.orig.node, 0, m.orig.net, m.dest.net, m.dest.zone, m.orig.zone, m.dest.point, m.orig.point, 0,
     LOCAL_ATTR, 0]
  }

  function Header(m: Message): string {
    Utf8.Field(m.from, 36) + Utf8.Field(m.to, 36) + Utf8.Field(m.subject, 72) + Utf8.Field(m.date, 20) +
    U16s(Numbers(m))
  }

  function Carriage(body: string): string {
    if body == "" then "" else [if body[0] == '\n' then '\r' else body[0]] + Carriage(body[1..])
  }

  function KludgeLine(name: string, value: string): string {
    [SOH] + name + ": " + value
  }

  function Kludged(m: Message): seq<string> {
    [KludgeLine("MSGID", m.msgid)] + (if m.reply != "" then [KludgeLine("REPLY", m.reply)] else []) +
    [KludgeLine("PID", "SklaffKOM ftntoss"), KludgeLine("CHRS", "UTF-8 4"), KludgeLine("TZUTC", m.tzutc)]
  }

  function Returned(lines: seq<string>): string {
    if lines == [] then "" else lines[0] + "\r" + Returned(lines[1..])
  }

  function BodyBytes(m: Message): string {
    Returned(Kludged(m) + [""]) + (Carriage(m.body) + "\r") + Returned(["", m.tear, m.origin]) + "\0"
  }

  /** Writes the `k`th number behind the ones before it. */
  method WriteU16(hdr: array<char>, at: nat, val: int, ghost vals: seq<int>, ghost k: nat, ghost head: string)
    requires at + 2 <= hdr.Length && k < |vals| && vals[k] == val && hdr[..at] == head + U16s(vals[..k])
    modifies hdr
    ensures hdr[..at + 2] == head + U16s(vals[..k + 1])
  {
    hide U16s;
    hdr[at], hdr[at + 1] := (val % 256) as char, (val / 256 % 256) as char;
    assert hdr[..at + 2] == hdr[..at] + U16(val);
    U16sMore(vals[..k], val);
    assert vals[..k] + [val] == vals[..k + 1];
    ConcatAssociative(head, U16s(vals[..k]), U16(val));
  }

  lemma U16sMore(vals: seq<int>, val: int)
    ensures U16s(vals + [val]) == U16s(vals) + U16(val)
  {
    assert (vals + [val])[..|vals|] == vals;
  }

  method PutField(hdr: array<char>, at: nat, len: nat, src: string, ghost head: string)
    requires len > 0 && at + len <= hdr.Length && hdr[..at] == head
    modifies hdr
    ensures hdr[..at + len] == head + Utf8.Field(src, len)
  {
    Utf8.WriteFixedField(hdr, at, len, src);
    assert hdr[..at + len] == hdr[..at] + hdr[at..at + len];
  }

  method PutLine(file: string, line: string, ghost head: string, ghost lines: seq<string>) returns (now: string)
    requires file == head + Returned(lines)
    ensures now == head + Returned(lines + [line])
  {
    now := file + (line + "\r");
    ReturnedMore(lines, line);
    ConcatAssociative(head, Returned(lines), line + "\r");
  }

  lemma {:induction false} ReturnedMore(lines: seq<string>, line: string)
    ensures Returned(lines + [line]) == Returned(lines) + (line + "\r")
  {
    ReturnedConcat(lines, [line]);
    assert [line][1..] == [];
    assert line + "\r" + "" == line + "\r";
  }

  lemma {:induction false} ReturnedConcat(a: seq<string>, b: seq<string>)
    ensures Returned(a + b) == Returned(a) + Returned(b)
  {
    if a == [] {
      assert a + b == b;
    } else {
      assert (a + b)[1..] == a[1..] + b;
      ReturnedConcat(a[1..], b);
      ConcatAssociative(a[0] + "\r", Returned(a[1..]), Returned(b));
    }
  }

  /** The little-endian number at an offset. */
  function U16At(file: string, at: nat): int
    requires at + 2 <= |file|
  {
    file[at] as int + 0x100 * file[at + 1] as int
  }

  lemma {:induction false} U16sAt(vals: seq<int>, k: nat, head: string)
    requires k < |vals|
    ensures |U16s(vals)| == 2 * |vals| && U16At(head + U16s(vals), |head| + 2 * k) == vals[k] % 0x1_0000
    decreases |vals|
  {
    var last := |vals| - 1;
    var more, all := U16s(vals[..last]), U16s(vals);
    assert all == more + U16(vals[last]);
    if last > 0 {
      U16sAt(vals[..last], if k < last then k else 0, head);
    }
    if k < last {
      assert (head + all)[|head| + 2 * k] == (head + more)[|head| + 2 * k];
      assert (head + all)[|head| + 2 * k + 1] == (head + more)[|head| + 2 * k + 1];
    } else {
      assert (head + all)[|head| + 2 * k] == U16(vals[last])[0] &&
             (head + all)[|head| + 2 * k + 1] == U16(vals[last])[1];
    }
  }

  /** Where a .MSG header holds what. */
  lemma HeaderSays(m: Message)
    ensures var h := Header(m);
            && |h| == 190
            && h[..36] == Utf8.Field(m.from, 36) && h[36..72] == Utf8.Field(m.to, 36)
            && h[72..144] == Utf8.Field(m.subject, 72) && h[144..164] == Utf8.Field(m.date, 20)
            && U16At(h, 166) == m.dest.node % 0x1_0000 && U16At(h, 168) == m.orig.node % 0x1_0000
            && U16At(h, 172) == m.orig.net % 0x1_0000 && U16At(h, 174) == m.dest.net % 0x1_0000
            && U16At(h, 176) == m.dest.zone % 0x1_0000 && U16At(h, 178) == m.orig.zone % 0x1_0000
            && U16At(h, 180) == m.dest.point % 0x1_0000 && U16At(h, 182) == m.orig.point % 0x1_0000
            && U16At(h, 186) == 0x100
            && forall at :: at in {164, 170, 184, 188} ==> U16At(h, at) == 0
  {
    hide Utf8.Field, U16s, U16, U16At;
    var fields := Utf8.Field(m.from, 36) + Utf8.Field(m.to, 36) + Utf8.Field(m.subject, 72) + Utf8.Field(m.date, 20);
    var vals := Numbers(m);
    assert Header(m) == fields + U16s(vals) && |fields| == 164 && |vals| == 13;
    U16sAt(vals, 0, fields);
    assert |Header(m)| == 190;
    forall k | 0 <= k < 13 ensures U16At(Header(m), 164 + 2 * k) == vals[k] % 0x1_0000 {
      U16sAt(vals, k, fields);
    }
    NumbersAt(m, vals);
    assert U16At(Header(m), 164 + 2 * 0) == 0 && U16At(Header(m), 164 + 2 * 1) == m.dest.node % 0x1_0000;
    assert U16At(Header(m), 164 + 2 * 2) == m.orig.node % 0x1_0000 && U16At(Header(m), 164 + 2 * 3) == 0;
    assert U16At(Header(m), 164 + 2 * 4) == m.orig.net % 0x1_0000;
    assert U16At(Header(m), 164 + 2 * 5) == m.dest.net % 0x1_0000;
    assert U16At(Header(m), 164 + 2 * 6) == m.dest.zone % 0x1_0000;
    assert U16At(Header(m), 164 + 2 * 7) == m.orig.zone % 0x1_0000;
    assert U16At(Header(m), 164 + 2 * 8) == m.dest.point % 0x1_0000;
    assert U16At(Header(m), 164 + 2 * 9) == m.orig.point % 0x1_0000;
    assert U16At(Header(m), 164 + 2 * 10) == 0 && U16At(Header(m), 164 + 2 * 11) == 0x100;
    assert U16At(Header(m), 164 + 2 * 12) == 0;
  }

  lemma NumbersAt(m: Message, vals: seq<int>)
    requires vals == Numbers(m)
    ensures |vals| == 13 && vals[0] == vals[3] == vals[10] == vals[12] == 0 && vals[11] == 0x100
    ensures vals[1] == m.dest.node && vals[2] == m.orig.node && vals[4] == m.orig.net && vals[5] == m.dest.net
    ensures vals[6] == m.dest.zone && vals[7] == m.orig.zone && vals[8] == m.dest.point && vals[9] == m.orig.point
  {
  }

  method WriteHeader(m: Message) returns (hdr: array<char>)
    ensures fresh(hdr) && hdr.Length == HEADER_SIZE && hdr[..] == Header(m)
  {
    hide U16s, Utf8.Field;
    hdr := new char[HEADER_SIZE](_ => '\0');
    ghost var head := "";
    PutField(hdr, 0, 36, m.from, head);
    assert "" + Utf8.Field(m.from, 36) == Utf8.Field(m.from, 36);
    head := hdr[..36];
    PutField(hdr, 36, 36, m.to, head);
    head := hdr[..72];
    PutField(hdr, 72, 72, m.subject, head);
    head := hdr[..144];
    PutField(hdr, 144, 20, m.date, head);
    head := hdr[..164];
    WriteNumbers(hdr, m, head);
    assert hdr[..HEADER_SIZE] == hdr[..];
  }

  method WriteNumbers(hdr: array<char>, m: Message, ghost head: string)
    requires hdr.Length == HEADER_SIZE && hdr[..164] == head
    modifies hdr
    ensures hdr[..HEADER_SIZE] == head + U16s(Numbers(m))
  {
    hide U16s;
    NoNumbers(head);
    ghost var vals := Numbers(m);
    assert vals[..0] == [];
    WriteU16(hdr, 164, 0, vals, 0, head);
    WriteU16(hdr, 166, m.dest.node, vals, 1, head);
    WriteU16(hdr, 168, m.orig.node, vals, 2, head);
    WriteU16(hdr, 170, 0, vals, 3, head);
    WriteU16(hdr, 172, m.orig.net, vals, 4, head);
    WriteU16(hdr, 174, m.dest.net, vals, 5, head);
    WriteU16(hdr, 176, m.dest.zone, vals, 6, head);
    WriteU16(hdr, 178, m.orig.zone, vals, 7, head);
    WriteU16(hdr, 180, m.dest.point, vals, 8, head);
    WriteU16(hdr, 182, m.orig.point, vals, 9, head);
    WriteU16(hdr, 184, 0, vals, 10, head);
    WriteU16(hdr, 186, LOCAL_ATTR, vals, 11, head);
    WriteU16(hdr, 188, 0, vals, 12, head);
    assert vals[..13] == vals;
  }

  lemma NoNumbers(head: string)
    ensures head + U16s([]) == head
  {
  }

  /** The bytes of the file; None for a message without a MSGID. */
  method WriteFidoMsgOut(m: Message) returns (file: Option<string>)
    ensures file == if m.msgid == "" then None else Some(Header(m) + BodyBytes(m))
  {
    hide Header, Returned, KludgeLine, Carriage;
    if m.msgid == "" {
      return None;
    }
    var hdr := WriteHeader(m);
    ghost var head := hdr[..];
    var out := hdr[..];
    NoneReturned(head);
    ghost var lines: seq<string> := [];
    out := PutLine(out, KludgeLine("MSGID", m.msgid), head, lines);
    lines := lines + [KludgeLine("MSGID", m.msgid)];
    if m.reply != "" {
      out := PutLine(out, KludgeLine("REPLY", m.reply), head, lines);
      lines := lines + [KludgeLine("REPLY", m.reply)];
    }
    out := PutLine(out, KludgeLine("PID", "SklaffKOM ftntoss"), head, lines);
    lines := lines + [KludgeLine("PID", "SklaffKOM ftntoss")];
    out := PutLine(out, KludgeLine("CHRS", "UTF-8 4"), head, lines);
    lines := lines + [KludgeLine("CHRS", "UTF-8 4")];
    out := PutLine(out, KludgeLine("TZUTC", m.tzutc), head, lines);
    lines := lines + [KludgeLine("TZUTC", m.tzutc)];
    assert lines == Kludged(m);
    out := PutLine(out, "", head, lines);
    var body := WriteBody(m.body);
    out := out + (body + "\r");
    out := WriteTrailer(out, m.tear, m.origin);
    file := Some(out + "\0");
    Grouped(head, Returned(Kludged(m) + [""]), Carriage(m.body) + "\r", Returned(["", m.tear, m.origin]));
  }

  method WriteTrailer(file: string, tear: string, origin: string) returns (now: string)
    ensures now == file + Returned(["", tear, origin])
  {
    hide Returned;
    ghost var lines: seq<string> := [];
    NoneReturned(file);
    now := PutLine(file, "", file, lines);
    lines := lines + [""];
    now := PutLine(now, tear, file, lines);
    lines := lines + [tear];
    now := PutLine(now, origin, file, lines);
    lines := lines + [origin];
    assert lines == ["", tear, origin];
  }

  lemma Grouped(a: string, b: string, c: string, d: string)
    ensures a + b + c + d + "\0" == a + (b + c + d + "\0")
  {
  }

  lemma NoneReturned(head: string)
    ensures head + Returned([]) == head
  {
  }

  lemma CarriageAt(body: string, i: nat)
    requires i <= |body|
    ensures i < |body| ==> Carriage(body[i..]) == [if body[i] == '\n' then '\r' else body[i]] + Carriage(body[i + 1..])
    ensures i == |body| ==> Carriage(body[i..]) == ""
  {
    assert i < |body| ==> body[i..][1..] == body[i + 1..];
  }

  method WriteBody(body: string) returns (out: string)
    ensures out == Carriage(body)
  {
    hide Carriage;
    out := "";
    var i := 0;
    assert body[0..] == body;
    while i < |body|
      invariant 0 <= i <= |body| && out + Carriage(body[i..]) == Carriage(body)
    {
      ghost var c := [if body[i] == '\n' then '\r' else body[i]];
      CarriageAt(body, i);
      ConcatAssociative(out, c, Carriage(body[i + 1..]));
      out := out + [if body[i] == '\n' then '\r' else body[i]];
      i := i + 1;
    }
    CarriageAt(body, i);
  }
}
