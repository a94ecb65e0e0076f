/** How ftntoss recognises texts it has already stored: the MSGID scanner, the
    MSGIDs it regenerates for locally written texts, and what an export writes. */
module FtnScan {
  import opened CText
  import opened FtnAddress
  import opened FtnIndex
  import opened FtnStore

  /** fgets() into a LONG_LINE takes at most this many characters. */
  const CHUNK := 158

  // ---------- MSGIDs of local texts ----------

  /** High 16 bits the conference, low 16 bits the text. */
  function ExportSerial(conf: nat, text: nat): (serial: nat)
    ensures serial < 0x1_0000_0000
  {
    conf % 0x1_0000 * 0x1_0000 + text % 0x1_0000
  }

  /** Two texts share a serial exactly when both numbers agree modulo 65536. */
  lemma SerialsCollideIff(conf: nat, text: nat, conf': nat, text': nat)
    ensures ExportSerial(conf, text) == ExportSerial(conf', text')
       <==> conf % 0x1_0000 == conf' % 0x1_0000 && text % 0x1_0000 == text' % 0x1_0000
  {
  }

  function HexDigit(d: nat): char
    requires d < 16
  {
    if d < 10 then ('0' as int + d) as char else ('a' as int + d - 10) as char
  }

  /** "%0<width>lx" of a number that fits the width. */
  function Hex(n: nat, width: nat): (s: string)
    ensures |s| == width
  {
    if width == 0 then "" else Hex(n / 16, width - 1) + [HexDigit(n % 16)]
  }

  lemma {:induction false} HexInjective(n: nat, m: nat, width: nat)
    requires Hex(n, width) == Hex(m, width)
    requires n < Pow16(width) && m < Pow16(width)
    ensures n == m
  {
    if width > 0 {
      var a, b := Hex(n, width), Hex(m, width);
      assert a[..width - 1] == Hex(n / 16, width - 1) && b[..width - 1] == Hex(m / 16, width - 1);
      assert a[width - 1] == b[width - 1];
      HexInjective(n / 16, m / 16, width - 1);
    }
  }

  function Pow16(k: nat): nat {
    if k == 0 then 1 else 16 * Pow16(k - 1)
  }

  /** make_ftn_msgid_for_aka(). */
  function MakeMsgid(aka: Address, serial: nat): string {
    FormatAddress(aka) + " " + Hex(serial % 0x1_0000_0000, 8)
  }

  function LocalMsgid(aka: Address, conf: nat, text: nat): string {
    MakeMsgid(aka, ExportSerial(conf, text))
  }

  lemma SixteenToTheEighth()
    ensures Pow16(8) == 0x1_0000_0000
  {
    assert Pow16(4) == 0x1_0000;
  }

  lemma MsgidsInjective(aka: Address, a: nat, b: nat)
    requires a < 0x1_0000_0000 && b < 0x1_0000_0000 && MakeMsgid(aka, a) == MakeMsgid(aka, b)
    ensures a == b
  {
    hide Hex, Pow16, FormatAddress;
    var head := FormatAddress(aka) + " ";
    assert (head + Hex(a, 8))[|head|..] == Hex(a, 8) && (head + Hex(b, 8))[|head|..] == Hex(b, 8);
    SixteenToTheEighth();
    HexInjective(a, b, 8);
  }

  /** Hexadecimal digits, no capitals. */
  predicate HexDigits(h: string) {
    forall i :: 0 <= i < |h| ==> IsDigit(h[i]) || 'a' <= h[i] <= 'f'
  }

  /** The number they stand for. */
  function HexValue(h: string): nat
    requires HexDigits(h)
  {
    if h == "" then 0
    else
      var d := h[|h| - 1];
      HexValue(h[..|h| - 1]) * 16 + if IsDigit(d) then d as int - '0' as int else 10 + (d as int - 'a' as int)
  }

  lemma {:induction false} HexReads(n: nat, width: nat)
    requires n < Pow16(width)
    ensures HexDigits(Hex(n, width)) && HexValue(Hex(n, width)) == n
  {
    if width > 0 {
      HexReads(n / 16, width - 1);
      assert Hex(n, width)[..width - 1] == Hex(n / 16, width - 1);
    }
  }

  lemma {:induction false} HexSplits(high: nat, low: nat, width: nat, k: nat)
    requires low < Pow16(k)
    ensures Hex(high * Pow16(k) + low, width + k) == Hex(high, width) + Hex(low, k)
    decreases k
  {
    if k == 0 {
      assert Hex(low, 0) == "";
    } else {
      var p, n := Pow16(k - 1), high * Pow16(k) + low;
      LowDigits(high, low, p);
      HexSplits(high, low / 16, width, k - 1);
    }
  }

  lemma LowDigits(high: nat, low: nat, p: nat)
    requires low < 16 * p
    ensures var n := high * (16 * p) + low; n / 16 == high * p + low / 16 && n % 16 == low % 16 && low / 16 < p
  {
    assert high * (16 * p) == 16 * (high * p);
  }

  /** A local text's MSGID says, behind the AKA and a space, in eight digits without
      capitals, its conference and its number, modulo 65536 each. */
  lemma LocalMsgidSays(aka: Address, conf: nat, text: nat) returns (head: string, high: string, low: string)
    requires AddressInRange(aka)
    ensures LocalMsgid(aka, conf, text) == head + " " + high + low && ParseAddress(head) == Some(aka)
    ensures |high| == 4 && HexDigits(high) && HexValue(high) == conf % 0x1_0000
    ensures |low| == 4 && HexDigits(low) && HexValue(low) == text % 0x1_0000
  {
    hide FormatAddress, ParseAddress, Hex, HexDigits, HexValue, Pow16;
    var a, b := conf % 0x1_0000, text % 0x1_0000;
    head, high, low := FormatAddress(aka), Hex(a, 4), Hex(b, 4);
    AddressRoundTripIff(aka);
    SixteenToTheFourth();
    HexSplits(a, b, 4, 4);
    HexReads(a, 4);
    HexReads(b, 4);
    assert ExportSerial(conf, text) % 0x1_0000_0000 == ExportSerial(conf, text) == a * 0x1_0000 + b;
  }

  lemma SixteenToTheFourth()
    ensures Pow16(4) == 0x1_0000
  {
  }

  /** Under one AKA two local texts get the same MSGID exactly when their
      conference and text numbers agree modulo 65536. */
  lemma LocalMsgidsCollideIff(aka: Address, conf: nat, text: nat, conf': nat, text': nat)
    ensures LocalMsgid(aka, conf, text) == LocalMsgid(aka, conf', text')
       <==> conf % 0x1_0000 == conf' % 0x1_0000 && text % 0x1_0000 == text' % 0x1_0000
  {
    hide MakeMsgid, ExportSerial;
    SerialsCollideIff(conf, text, conf', text');
    if LocalMsgid(aka, conf, text) == LocalMsgid(aka, conf', text') {
      MsgidsInjective(aka, ExportSerial(conf, text), ExportSerial(conf', text'));
    }
  }

  // ---------- The scanner ----------

  /** The two readers of stored MSGIDs: scan_existing_skl_msgids() and, for the
      REPLY of an export, read_skom_ftn_msgid(). */
  datatype Reader = Scanner | Exporter

  function Limit(r: Reader): (n: nat)
    ensures n >= CHUNK
  {
    if r.Scanner? then CHUNK else 1023
  }

  /** How much of `s` one fgets() call takes. */
  function ChunkLength(r: Reader, s: string): (n: nat)
    ensures n <= |s| && n <= Limit(r) && (s != "" ==> n > 0)
  {
    var e := LineEnd(s, 0);
    if e < Limit(r) && e < |s| then e + 1 else if |s| < Limit(r) then |s| else Limit(r)
  }

  /** What follows a MSGID tag at the start of a line; None without a tag. */
  function AfterTag(line: string): Option<string> {
    if |line| >= 7 && line[0] == SOH && line[1..7] == "MSGID:" then Some(line[7..])
    else if |line| >= 8 && line[..8] == "^AMSGID:" then Some(line[8..])
    else if |line| >= 10 && line[..10] == "FTN-MSGID:" then Some(line[10..])
    else None
  }

  function CutAtLineEnd(s: string): (r: string)
    ensures |r| <= |s| && r <= s
  {
    if s == "" || s[0] == '\r' || s[0] == '\n' then "" else [s[0]] + CutAtLineEnd(s[1..])
  }

  function StripEol(s: string): (r: string)
    ensures r <= s
  {
    if s != "" && (s[|s| - 1] == '\n' || s[|s| - 1] == '\r') then StripEol(s[..|s| - 1]) else s
  }

  /** The MSGID a reader takes from a line; "" when the line gives none. */
  function ExtractMsgid(r: Reader, line: string): string {
    match r
    case Scanner => ScannedMsgid(line)
    case Exporter => ExportedMsgid(line)
  }

  /** extract_ftn_msgid_from_line(). */
  function ScannedMsgid(line: string): string {
    match AfterTag(line)
    case None => ""
    case Some(p) =>
      var out := CutAtLineEnd(p[BlankEnd(p, 0)..]);
      out[SpaceRun(out)..]
  }

  /** The loop body of read_skom_ftn_msgid(): 255 bytes fit the REPLY. */
  function ExportedMsgid(line: string): string {
    var l := StripEol(line);
    if |l| >= 10 && l[..10] == "FTN-MSGID:" then Upto(l[10..][SpaceRun(l[10..])..], 255) else ""
  }

  /** The MSGID a reader takes from a text: that of the first chunk giving one. */
  function FirstMsgid(r: Reader, s: string): string
    decreases |s|
  {
    if s == "" then "" else
      var n := ChunkLength(r, s);
      var id := ExtractMsgid(r, s[..n]);
      if id != "" then id else FirstMsgid(r, s[n..])
  }

  /** sscanf("%ld:%ld:...", ...): the first `k` numbers of the header line. */
  function ScanLongs(s: string, k: nat): seq<int> {
    if k == 0 || StrtolLen(s) == 0 then []
    else
      var rest := s[StrtolLen(s)..];
      [Strtol(s)] + if rest != "" && rest[0] == ':' then ScanLongs(rest[1..], k - 1) else []
  }

  /** The author uid read_skom_export_text() finds; None when it rejects the file. */
  function AuthorOf(s: string): Option<int> {
    var e := LineEnd(s, 0);
    var v := ScanLongs(s[..e], 7);
    if e == |s| || |v| < 4 then None else Some(v[1])
  }

  /** The MSGID under which the scanner indexes text `i`; "" when it indexes none. */
  function IndexedMsgid(file: string, conf: nat, i: nat, aka: Address): string {
    if FirstMsgid(Scanner, file) != "" then FirstMsgid(Scanner, file)
    else if AuthorOf(file).Some? && AuthorOf(file).value > 0 then LocalMsgid(aka, conf, i)
    else ""
  }

  /** The index of texts 1..last, newest first. */
  function ScanTexts(files: map<int, string>, conf: nat, last: nat, aka: Address): seq<SkRef> {
    if last == 0 then [] else
      var older := ScanTexts(files, conf, last - 1, aka);
      if last !in files || IndexedMsgid(files[last], conf, last, aka) == "" then older
      else [SkRef(IndexedMsgid(files[last], conf, last, aka), last)] + older
  }

  /** The loop over fgets() chunks. */
  method FindMsgid(file: string) returns (msgid: string)
    ensures msgid == FirstMsgid(Scanner, file)
  {
    hide ExtractMsgid, ChunkLength;
    var rest := file;
    while rest != ""
      invariant FirstMsgid(Scanner, rest) == FirstMsgid(Scanner, file)
      decreases |rest|
    {
      var n := ChunkLength(Scanner, rest);
      msgid := ExtractMsgid(Scanner, rest[..n]);
      if msgid != "" {
        return;
      }
      rest := rest[n..];
    }
    msgid := "";
  }

  /** scan_existing_skl_msgids(). */
  method ScanExistingSklMsgids(files: map<int, string>, conf: nat, last: nat, aka: Address)
    returns (refs: seq<SkRef>, indexed: nat)
    ensures refs == ScanTexts(files, conf, last, aka) && indexed == |refs|
  {
    hide FirstMsgid, AuthorOf, LocalMsgid;
    refs, indexed := [], 0;
    var i := 1;
    while i <= last
      invariant 1 <= i <= last + 1
      invariant refs == ScanTexts(files, conf, i - 1, aka) && indexed == |refs|
    {
      if i in files {
        var msgid := FindMsgid(files[i]);
        if msgid == "" {
          var uid := AuthorOf(files[i]);
          if uid.Some? && uid.value > 0 {
            msgid := LocalMsgid(aka, conf, i);
          }
        }
        if msgid != "" {
          refs := AddSkref(refs, msgid, i);
          indexed := indexed + 1;
        }
      }
      i := i + 1;
    }
  }

  lemma {:induction false} ScanGood(files: map<int, string>, conf: nat, last: nat, aka: Address)
    ensures GoodRefs(ScanTexts(files, conf, last, aka), last + 1)
  {
    hide IndexedMsgid;
    if last > 0 {
      ScanGood(files, conf, last - 1, aka);
    }
  }

  // ---------- Rescanning an imported text ----------

  lemma {:induction false} LineEndOf(a: string, rest: string)
    requires forall i :: 0 <= i < |a| ==> a[i] != '\n'
    ensures LineEnd(a + "\n" + rest, 0) == |a|
  {
    var s := a + "\n" + rest;
    LineEndIs(s, 0, |a|);
  }

  /** No MSGID tag starts with `c`. */
  predicate StartsNoTag(c: char) {
    c != SOH && c != '^' && c != 'F'
  }

  predicate Untagged(line: string) {
    line == "" || StartsNoTag(line[0]) || (line[0] == 'F' && |line| > 4 && (line[1] != 'T' || line[4] != 'M'))
  }

  lemma UntaggedGivesNone(r: Reader, line: string)
    requires Untagged(line)
    ensures ExtractMsgid(r, line) == ""
  {
    NoMsgidTag(line, line);
    NoMsgidTag(StripEol(line), line);
    if |line| >= 8 {
      assert line[..8][0] == line[0];
    }
  }

  lemma NoMsgidTag(l: string, line: string)
    requires Untagged(line) && l <= line
    ensures |l| >= 10 ==> l[..10] != "FTN-MSGID:"
  {
    if |l| >= 10 {
      assert l[..10][4] == line[4] && l[..10][1] == line[1] && l[..10][0] == line[0];
      assert "FTN-MSGID:"[4] == 'M' && "FTN-MSGID:"[1] == 'T';
    }
  }

  lemma ShortLineStep(r: Reader, a: string, rest: string)
    requires |a| < Limit(r) && forall i :: 0 <= i < |a| ==> a[i] != '\n'
    ensures FirstMsgid(r, a + "\n" + rest) ==
            if ExtractMsgid(r, a + "\n") != "" then ExtractMsgid(r, a + "\n") else FirstMsgid(r, rest)
  {
    hide ExtractMsgid;
    var s := a + "\n" + rest;
    LineEndOf(a, rest);
    assert ChunkLength(r, s) == |a| + 1 && s[..|a| + 1] == a + "\n" && s[|a| + 1..] == rest;
  }

  lemma SkipShortLine(r: Reader, a: string, rest: string)
    requires |a| < Limit(r) && forall i :: 0 <= i < |a| ==> a[i] != '\n'
    requires Untagged(a + "\n")
    ensures FirstMsgid(r, a + "\n" + rest) == FirstMsgid(r, rest)
  {
    hide FirstMsgid, ExtractMsgid, Untagged;
    UntaggedGivesNone(r, a + "\n");
    ShortLineStep(r, a, rest);
  }

  /** A line of numbers is skipped, however long. */
  lemma {:induction false} SkipNumberLine(r: Reader, a: string, rest: string)
    requires forall i :: 0 <= i < |a| ==> a[i] != '\n' && StartsNoTag(a[i])
    ensures FirstMsgid(r, a + "\n" + rest) == FirstMsgid(r, rest)
  {
    hide ExtractMsgid;
    if |a| < Limit(r) {
      SkipShortLine(r, a, rest);
    } else {
      var s := a + "\n" + rest;
      LineEndOf(a, rest);
      assert ChunkLength(r, s) == Limit(r);
      assert s[..Limit(r)] == a[..Limit(r)] && s[Limit(r)..] == a[Limit(r)..] + "\n" + rest;
      UntaggedGivesNone(r, a[..Limit(r)]);
      SkipNumberLine(r, a[Limit(r)..], rest);
    }
  }

  lemma {:induction false} CutWhole(s: string, rest: string)
    requires forall i :: 0 <= i < |s| ==> s[i] != '\n' && s[i] != '\r'
    requires rest == "" || rest[0] == '\n'
    ensures CutAtLineEnd(s + rest) == s
  {
    if s == "" {
      assert s + rest == rest;
    } else {
      assert (s + rest)[1..] == s[1..] + rest;
      CutWhole(s[1..], rest);
    }
  }

  /** Nothing the scanner finds begins with white space. */
  lemma {:induction false} FoundIdTrimmed(s: string)
    ensures FirstMsgid(Scanner, s) == "" || !IsSpace(FirstMsgid(Scanner, s)[0])
    decreases |s|
  {
    hide ChunkLength, AfterTag, CutAtLineEnd;
    if s != "" {
      FoundIdTrimmed(s[ChunkLength(Scanner, s)..]);
    }
  }

  lemma {:induction false} TrimBehindBlanks(q: string, b: nat)
    requires b <= |q| && forall k :: 0 <= k < b ==> IsSpace(q[k])
    ensures LeftTrimmed(q[b..]) == LeftTrimmed(q)
    decreases b
  {
    if b > 0 {
      TrimBehindBlanks(q[1..], b - 1);
      assert q[1..][b - 1..] == q[b..];
      assert q[SpaceRun(q)..] == q[1..][SpaceRun(q[1..])..];
    } else {
      assert q[0..] == q;
    }
  }

  lemma {:induction false} NothingToStrip(s: string)
    requires s != "" && s[|s| - 1] != '\n' && s[|s| - 1] != '\r'
    ensures StripEol(s) == s && StripEol(s + "\n") == s
  {
    assert (s + "\n")[..|s|] == s;
  }

  /** As much of a MSGID as a reader has room for. */
  function Room(r: Reader, id: string): string {
    if r.Scanner? then id else Upto(id, 255)
  }

  /** Both readers take what stands behind the tag of a line, without white space at its
      start. */
  lemma BehindTag(r: Reader, q: string, tail: string)
    requires OneLine(q) && '\r' !in q && tail in {"", "\n"}
    ensures ExtractMsgid(r, "FTN-MSGID:" + q + tail) == Room(r, LeftTrimmed(q))
  {
    var l := "FTN-MSGID:" + q;
    match r
    case Scanner => ScannedBehindTag("FTN-MSGID:", q, tail);
    case Exporter =>
      hide StripEol;
      NothingToStrip(l);
      assert l + "" == l;
      assert StripEol(l + tail) == l && l[..10] == "FTN-MSGID:" && l[10..] == q;
  }

  /** The three tags the scanner knows. */
  const TAGS := {[SOH] + "MSGID:", "^AMSGID:", "FTN-MSGID:"}

  lemma ScannedBehindTag(tag: string, q: string, tail: string)
    requires tag in TAGS && OneLine(q) && '\r' !in q && tail in {"", "\n"}
    ensures ScannedMsgid(tag + q + tail) == LeftTrimmed(q)
  {
    hide CutAtLineEnd, LeftTrimmed, BlankEnd, AfterTag;
    var p := q + tail;
    TagCut(tag, q, tail);
    BlanksOfValue(q, tail);
    var b := BlankEnd(p, 0);
    CutWhole(q[b..], tail);
    TrimBehindBlanks(q, b);
    TrimmedIs(q[b..]);
  }

  lemma TrimmedIs(s: string)
    ensures s[SpaceRun(s)..] == LeftTrimmed(s)
  {
  }

  lemma TagCut(tag: string, q: string, tail: string)
    requires tag in TAGS
    ensures AfterTag(tag + q + tail) == Some(q + tail)
  {
    var line := tag + q + tail;
    assert line[..|tag|] == tag && line[|tag|..] == q + tail && line[0] == tag[0];
    assert tag[0] == SOH ==> line[1..7] == tag[1..7] == "MSGID:";
    assert tag[0] == 'F' ==> line[..8][0] == 'F';
  }

  lemma BlanksOfValue(q: string, tail: string)
    requires tail in {"", "\n"}
    ensures var b := BlankEnd(q + tail, 0);
            b <= |q| && (q + tail)[b..] == q[b..] + tail && forall k :: 0 <= k < b ==> IsSpace(q[k])
  {
    hide BlankEnd;
    var p := q + tail;
    var b := BlankEnd(p, 0);
    assert tail != "" ==> !IsBlank(p[|q|]);
    assert forall k :: 0 <= k < b && k < |q| ==> p[k] == q[k];
  }

  /** How many bytes behind "FTN-MSGID: " the line buffer of a reader has room for. */
  function BehindTheTag(r: Reader): nat {
    if r.Scanner? then 147 else 1012
  }

  lemma ChunkOfTagged(r: Reader, id: string, rest: string)
    requires forall i :: 0 <= i < |id| ==> id[i] != '\n'
    ensures var s, k := "FTN-MSGID: " + id + "\n" + rest, BehindTheTag(r);
            |id| >= k ==> s[..ChunkLength(r, s)] == "FTN-MSGID: " + id[..k] + ""
  {
    var a := "FTN-MSGID: " + id;
    LineEndOf(a, rest);
    hide LineEnd;
    assert "FTN-MSGID: " + id + "\n" + rest == a + "\n" + rest;
  }

  /** What the line buffer of a reader holds of a MSGID behind its tag. */
  function Held(r: Reader, id: string): string {
    Upto(id, BehindTheTag(r))
  }

  /** What a reader takes from the FTN-MSGID line of a MSGID. */
  function TaggedId(r: Reader, id: string): string {
    Room(r, LeftTrimmed(Held(r, id)))
  }

  /** What a reader looks at next when that is nothing: it goes on behind what its line
      buffer held. */
  function BehindTagged(r: Reader, id: string, rest: string): string {
    id[|Held(r, id)|..] + "\n" + rest
  }

  lemma EmptyLineSkipped(r: Reader, rest: string)
    ensures FirstMsgid(r, "" + "\n" + rest) == FirstMsgid(r, rest)
  {
    SkipShortLine(r, "", rest);
  }

  lemma ChunkStep(r: Reader, s: string, n: nat)
    requires s != "" && n == ChunkLength(r, s)
    ensures FirstMsgid(r, s) ==
            if ExtractMsgid(r, s[..n]) != "" then ExtractMsgid(r, s[..n]) else FirstMsgid(r, s[n..])
  {
    hide ExtractMsgid, ChunkLength;
  }

  /** What a reader makes of the FTN-MSGID line and of what follows it. */
  lemma TaggedSeen(r: Reader, id: string, rest: string)
    requires IdBytes(id)
    ensures FirstMsgid(r, "FTN-MSGID: " + id + "\n" + rest) ==
            if TaggedId(r, id) != "" then TaggedId(r, id) else FirstMsgid(r, BehindTagged(r, id, rest))
  {
    hide ExtractMsgid, FirstMsgid, LeftTrimmed, ChunkLength;
    if |id| < BehindTheTag(r) {
      TagLine(r, id, "\n");
      ShortLineStep(r, "FTN-MSGID: " + id, rest);
      EmptyLineSkipped(r, rest);
      assert id[|id|..] + "\n" + rest == "" + "\n" + rest;
    } else {
      TaggedLong(r, id, rest);
    }
  }

  lemma TagLine(r: Reader, id: string, tail: string)
    requires OneLine(id) && '\r' !in id && tail in {"", "\n"}
    ensures ExtractMsgid(r, "FTN-MSGID: " + id + tail) == Room(r, LeftTrimmed(id))
  {
    hide ExtractMsgid, LeftTrimmed;
    var value := " " + id;
    SpaceInFront(id);
    assert "FTN-MSGID: " + id + tail == "FTN-MSGID:" + value + tail;
    BehindTag(r, value, tail);
  }

  lemma TaggedLong(r: Reader, id: string, rest: string)
    requires IdBytes(id) && |id| >= BehindTheTag(r)
    ensures FirstMsgid(r, "FTN-MSGID: " + id + "\n" + rest) ==
            if TaggedId(r, id) != "" then TaggedId(r, id) else FirstMsgid(r, BehindTagged(r, id, rest))
  {
    hide ExtractMsgid, FirstMsgid, LeftTrimmed, ChunkLength;
    var k := BehindTheTag(r);
    var s, held, behind := "FTN-MSGID: " + id + "\n" + rest, id[..k], id[k..] + "\n" + rest;
    var n := ChunkLength(r, s);
    ChunkOfTagged(r, id, rest);
    ChunkStep(r, s, n);
    TagLine(r, held, "");
    assert id == held + id[k..];
    assert Held(r, id) == held && id[|Held(r, id)|..] == id[k..];
    assert s == "FTN-MSGID: " + held + "" + behind;
    assert s[n..] == behind;
  }

  /** The FTN-MSGID line gives a MSGID that begins with ink back to the scanner exactly
      when its line buffer holds it, and no other MSGID at all. */
  lemma TaggedLineIff(id: string, rest: string)
    requires IdBytes(id)
    ensures FirstMsgid(Scanner, "FTN-MSGID: " + id + "\n" + rest) == id <==> |id| <= 147 && !IsSpace(id[0])
  {
    hide FirstMsgid;
    TaggedSeen(Scanner, id, rest);
    FoundIdTrimmed("FTN-MSGID: " + id + "\n" + rest);
    InkFirst(Held(Scanner, id));
  }

  lemma InkFirst(s: string)
    ensures s != "" && !IsSpace(s[0]) ==> LeftTrimmed(s) == s
  {
  }

  lemma InkTaken(r: Reader, id: string)
    requires id != "" && !IsSpace(id[0])
    ensures TaggedId(r, id) == Upto(id, if r.Scanner? then 147 else 255) != ""
  {
    hide LeftTrimmed;
    var held := Held(r, id);
    assert held != "" && held[0] == id[0];
    InkFirst(held);
    assert |held| > 255 ==> held[..255] == id[..255];
  }

  /** Header fields of one line each and of .MSG field size. */
  predicate PlainFields(area: string, msg: FidoMsg) {
    && OneLine(area) && OneLine(msg.from) && OneLine(msg.to) && OneLine(msg.subject) && OneLine(msg.date)
    && |area| <= 127 && |msg.from| <= 36 && |msg.to| <= 36 && |msg.subject| <= 72 && |msg.date| <= 20
  }

  predicate IdBytes(id: string) {
    id != "" && forall i :: 0 <= i < |id| ==> id[i] != '\n' && id[i] != '\r'
  }

  lemma SkipField(r: Reader, tag: string, value: string, rest: string)
    requires OneLine(value) && |value| <= 127 && OneLine(tag) && |tag| <= 10 && Untagged(tag) && |tag| > 4
    ensures FirstMsgid(r, tag + value + "\n" + rest) == FirstMsgid(r, rest)
  {
    hide FirstMsgid;
    var a := tag + value;
    assert forall i :: 0 <= i < |a| ==> a[i] != '\n';
    assert (a + "\n")[0] == tag[0] && (a + "\n")[1] == tag[1] && (a + "\n")[4] == tag[4];
    SkipShortLine(r, a, rest);
  }

  lemma SkipPreamble(r: Reader, area: string, msg: FidoMsg, rest: string)
    requires PlainFields(area, msg)
    ensures FirstMsgid(r, Preamble(area, msg) + rest) == FirstMsgid(r, rest)
  {
    hide FirstMsgid;
    var r4 := "FTN-Area: " + area + "\n" + rest;
    var r3 := "Date: " + msg.date + "\n" + r4;
    var r2 := "Subject: " + msg.subject + "\n" + r3;
    var r1 := "To: " + msg.to + "\n" + r2;
    PreambleNested(area, msg, rest);
    SkipField(r, "FTN-Area: ", area, rest);
    SkipField(r, "Date: ", msg.date, r4);
    SkipField(r, "Subject: ", msg.subject, r3);
    SkipTo(r, msg.to, r2);
    SkipField(r, "From: ", msg.from, r1);
  }

  lemma SkipTo(r: Reader, to: string, rest: string)
    requires OneLine(to) && |to| <= 36
    ensures FirstMsgid(r, "To: " + to + "\n" + rest) == FirstMsgid(r, rest)
  {
    hide FirstMsgid;
    var a := "To: " + to;
    assert (a + "\n")[0] == 'T';
    SkipShortLine(r, a, rest);
  }

  lemma PreambleNested(area: string, msg: FidoMsg, rest: string)
    ensures Preamble(area, msg) + rest ==
            "From: " + msg.from + "\n" + ("To: " + msg.to + "\n" + ("Subject: " + msg.subject + "\n" +
            ("Date: " + msg.date + "\n" + ("FTN-Area: " + area + "\n" + rest))))
  {
  }
}
