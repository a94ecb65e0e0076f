/** Recognising what is already stored: imported texts by the MSGID they carry,
    local ones by the MSGID their export carried, and replies by either. */
module FtnEcho {
  import opened CText
  import opened FtnAddress
  import opened FtnIndex
  import opened FtnStore
  import opened FtnScan

  // ---------- One imported text ----------

  lemma NumbersStartNoTag(nums: seq<int>)
    ensures forall i :: 0 <= i < |ColonJoin(nums)| ==> ColonJoin(nums)[i] != '\n' && StartsNoTag(ColonJoin(nums)[i])
  {
    NumberCharacters(nums);
  }

  lemma TextBeginsWith(n: int, post: Post, area: string, msg: FidoMsg, reason: string, links: string)
    requires post.subject == msg.subject && post.mbuf == Mbuf(area, msg, reason) && msg.msgid != ""
    ensures TextFile(n, post) + links ==
            HeaderLine(n, post) + "\n" + (msg.subject + "\n" +
            (Preamble(area, msg) + ("FTN-MSGID: " + msg.msgid + "\n" + (Postamble(msg, reason) + links))))
  {
    hide HeaderLine, Preamble, Postamble;
    var p, t, q := Preamble(area, msg), "FTN-MSGID: " + msg.msgid + "\n", Postamble(msg, reason);
    assert post.mbuf == p + t + q;
    Regroup(HeaderLine(n, post), msg.subject, p, t, q, links);
  }

  lemma Regroup(h: string, s: string, p: string, t: string, q: string, l: string)
    ensures h + "\n" + s + "\n" + (p + t + q) + l == h + "\n" + (s + "\n" + (p + (t + (q + l))))
  {
  }

  /** What a reader finds in front of the FTN-MSGID line of an imported text: in the
      subject, or in a field that holds line ends. */
  function Front(r: Reader, area: string, msg: FidoMsg): string {
    FirstMsgid(r, msg.subject + "\n" + Preamble(area, msg))
  }

  /** Both readers take the MSGID in front, if any, else that of the FTN-MSGID line. */
  lemma TextSeen(r: Reader, n: int, post: Post, area: string, msg: FidoMsg, reason: string, links: string)
    requires post.subject == msg.subject && post.mbuf == Mbuf(area, msg, reason) && msg.msgid != ""
    ensures FirstMsgid(r, TextFile(n, post) + links) ==
            if Front(r, area, msg) != "" then Front(r, area, msg)
            else FirstMsgid(r, "FTN-MSGID: " + msg.msgid + "\n" + (Postamble(msg, reason) + links))
  {
    hide FirstMsgid, HeaderLine, Preamble, Postamble, Mbuf, TextFile;
    TextBeginsWith(n, post, area, msg, reason, links);
    var tagged := "FTN-MSGID: " + msg.msgid + "\n" + (Postamble(msg, reason) + links);
    var front := msg.subject + "\n" + Preamble(area, msg);
    HeaderIsNumbers(n, post);
    SkipNumberLine(r, HeaderLine(n, post), msg.subject + "\n" + (Preamble(area, msg) + tagged));
    assert msg.subject + "\n" + (Preamble(area, msg) + tagged) == front + tagged;
    PreambleEndsLine(area, msg);
    FirstMsgidOfAppend(r, front, tagged);
  }

  lemma PreambleEndsLine(area: string, msg: FidoMsg)
    ensures EndsLine(msg.subject + "\n" + Preamble(area, msg))
  {
  }

  /** In fields of one line each only the subject can pass for a MSGID line. */
  lemma FrontOfPlain(r: Reader, area: string, msg: FidoMsg)
    requires PlainFields(area, msg)
    ensures Front(r, area, msg) == ExtractMsgid(r, msg.subject + "\n")
  {
    hide FirstMsgid, ExtractMsgid, Preamble;
    ShortLineStep(r, msg.subject, Preamble(area, msg));
    SkipPreamble(r, area, msg, "");
    assert Preamble(area, msg) + "" == Preamble(area, msg);
    EmptyHasNoMsgid(r);
  }

  /** A MSGID the scanner's line buffer holds behind its tag, beginning with ink. */
  predicate RescansAs(id: string) {
    id != "" && |id| <= 147 && !IsSpace(id[0])
  }

  /** What a stored text is indexed under depends on its subject and text alone. */
  lemma IndexedIsSeen(n: int, post: Post, conf: nat, i: nat, aka: Address)
    ensures IndexedMsgid(TextFile(n, post), conf, i, aka) == FirstMsgid(Scanner, post.subject + "\n" + post.mbuf)
  {
    hide FirstMsgid, HeaderLine, LocalMsgid, AuthorOf;
    HeaderIsNumbers(n, post);
    SkipNumberLine(Scanner, HeaderLine(n, post), post.subject + "\n" + post.mbuf);
    assert TextFile(n, post) == HeaderLine(n, post) + "\n" + (post.subject + "\n" + post.mbuf);
    ImportedHasNoAuthor(n, post, "");
    assert TextFile(n, post) + "" == TextFile(n, post);
  }

  /** An imported text is indexed under its own MSGID, whatever is appended to it: for
      any header fields, exactly when nothing else is found in front of it and the
      scanner holds it. */
  lemma RescannedAnyIff(n: int, post: Post, area: string, msg: FidoMsg, reason: string, links: string)
    requires post.subject == msg.subject && post.mbuf == Mbuf(area, msg, reason) && IdBytes(msg.msgid)
    ensures var front := Front(Scanner, area, msg);
            FirstMsgid(Scanner, TextFile(n, post) + links) == msg.msgid <==>
            if front != "" then front == msg.msgid else RescansAs(msg.msgid)
  {
    hide FirstMsgid, TextFile, Mbuf, Postamble, Front;
    TextSeen(Scanner, n, post, area, msg, reason, links);
    TaggedLineIff(msg.msgid, Postamble(msg, reason) + links);
  }

  /** For one-line fields: exactly when the subject is no MSGID line and the MSGID has at
      most 147 characters and begins with ink - or the subject is a line of that MSGID. */
  lemma RescannedIff(n: int, post: Post, area: string, msg: FidoMsg, reason: string, links: string)
    requires post.subject == msg.subject && post.mbuf == Mbuf(area, msg, reason)
    requires PlainFields(area, msg) && IdBytes(msg.msgid)
    ensures var inSubject := ScannedMsgid(msg.subject + "\n");
            FirstMsgid(Scanner, TextFile(n, post) + links) == msg.msgid <==>
            if inSubject != "" then inSubject == msg.msgid else RescansAs(msg.msgid)
  {
    hide FirstMsgid, TextFile, Mbuf, Front, ScannedMsgid, PlainFields;
    RescannedAnyIff(n, post, area, msg, reason, links);
    FrontOfPlain(Scanner, area, msg);
  }

  /** A subject that is a MSGID line is taken for the MSGID of its text. */
  lemma SubjectTakenForMsgid(n: int, post: Post, area: string, msg: FidoMsg, reason: string, links: string, id: string)
    requires post.subject == msg.subject && post.mbuf == Mbuf(area, msg, reason)
    requires PlainFields(area, msg) && IdBytes(msg.msgid)
    requires msg.subject == "FTN-MSGID: " + id && IdBytes(id) && !IsSpace(id[0])
    ensures FirstMsgid(Scanner, TextFile(n, post) + links) == id
  {
    hide FirstMsgid, TextFile, Mbuf, Postamble, Front, ExtractMsgid, PlainFields;
    TextSeen(Scanner, n, post, area, msg, reason, links);
    FrontOfPlain(Scanner, area, msg);
    TagLine(Scanner, id, "\n");
    InkFirst(id);
  }

  /** What a reader makes of an imported text: what stands in front, else the MSGID of its
      line as far as the reader holds it, else what its body gives. */
  function ReadAs(r: Reader, area: string, msg: FidoMsg, rest: string): string {
    if Front(r, area, msg) != "" then Front(r, area, msg)
    else if TaggedId(r, msg.msgid) != "" then TaggedId(r, msg.msgid)
    else FirstMsgid(r, BehindTagged(r, msg.msgid, rest))
  }

  lemma ReaderSees(r: Reader, n: int, post: Post, area: string, msg: FidoMsg, reason: string, links: string)
    requires post.subject == msg.subject && post.mbuf == Mbuf(area, msg, reason)
    requires IdBytes(msg.msgid)
    ensures FirstMsgid(r, TextFile(n, post) + links) == ReadAs(r, area, msg, Postamble(msg, reason) + links)
  {
    hide FirstMsgid, TextFile, Mbuf, Postamble, Front, TaggedId, BehindTagged;
    TextSeen(r, n, post, area, msg, reason, links);
    TaggedSeen(r, msg.msgid, Postamble(msg, reason) + links);
  }

  /** Nothing in front and ink first: the scanner holds 147 bytes of the MSGID, an export
      255. */
  lemma ReadAsTagged(r: Reader, area: string, msg: FidoMsg, rest: string)
    requires Front(r, area, msg) == "" && msg.msgid != "" && !IsSpace(msg.msgid[0])
    ensures ReadAs(r, area, msg, rest) == Upto(msg.msgid, if r.Scanner? then 147 else 255)
  {
    hide Front, FirstMsgid, TaggedId, BehindTagged;
    InkTaken(r, msg.msgid);
  }

  lemma HeaderIsNumbers(n: int, post: Post)
    ensures forall i :: 0 <= i < |HeaderLine(n, post)| ==>
              HeaderLine(n, post)[i] != '\n' && StartsNoTag(HeaderLine(n, post)[i])
  {
    hide ColonJoin;
    NumbersStartNoTag([n, 0, post.time, post.com, 0, 0, LineCount(post.mbuf)]);
  }

  // ---------- Appending to a text ----------

  lemma {:induction false} LineEndOfAppend(a: string, b: string, from: nat)
    requires from < |a| && EndsLine(a)
    ensures LineEnd(a + b, from) == LineEnd(a, from) < |a|
    decreases |a| - from
  {
    if a[from] != '\n' {
      LineEndOfAppend(a, b, from + 1);
    }
  }

  lemma ChunkOfAppend(r: Reader, a: string, b: string)
    requires EndsLine(a)
    ensures var n := ChunkLength(r, a);
            && ChunkLength(r, a + b) == n && (a + b)[..n] == a[..n] && (a + b)[n..] == a[n..] + b
            && (a[n..] == "" || EndsLine(a[n..]))
  {
    hide LineEnd;
    LineEndOfAppend(a, b, 0);
  }

  /** What a text of whole lines is indexed under does not change by appending. */
  lemma {:induction false} FirstMsgidOfAppend(r: Reader, a: string, b: string)
    requires a == "" || EndsLine(a)
    ensures FirstMsgid(r, a + b) == if FirstMsgid(r, a) != "" then FirstMsgid(r, a) else FirstMsgid(r, b)
    decreases |a|
  {
    hide ExtractMsgid, ChunkLength;
    if a == "" {
      assert a + b == b;
    } else {
      ChunkOfAppend(r, a, b);
      FirstMsgidOfAppend(r, a[ChunkLength(r, a)..], b);
    }
  }

  lemma LinkHasNoMsgid(n: int)
    ensures FirstMsgid(Scanner, LinkLine(n)) == ""
  {
    hide FirstMsgid;
    var a := Signed(n) + ":" + Signed(0);
    assert LinkLine(n) == a + "\n" + "";
    SkipNumberLine(Scanner, a, "");
    EmptyHasNoMsgid(Scanner);
  }

  lemma EmptyHasNoMsgid(r: Reader)
    ensures FirstMsgid(r, "") == ""
  {
  }

  lemma AuthorOfAppend(a: string, b: string)
    requires EndsLine(a)
    ensures AuthorOf(a + b) == AuthorOf(a)
  {
    hide ScanLongs, LineEnd;
    LineEndOfAppend(a, b, 0);
    assert (a + b)[..LineEnd(a, 0)] == a[..LineEnd(a, 0)];
  }

  /** A comment link leaves the index entry of the text it is appended to alone. */
  lemma LinkKeepsIndex(file: string, n: int, conf: nat, i: nat, aka: Address)
    requires EndsLine(file)
    ensures IndexedMsgid(file + LinkLine(n), conf, i, aka) == IndexedMsgid(file, conf, i, aka)
  {
    hide FirstMsgid, AuthorOf, LocalMsgid, LinkLine;
    FirstMsgidOfAppend(Scanner, file, LinkLine(n));
    LinkHasNoMsgid(n);
    AuthorOfAppend(file, LinkLine(n));
  }

  /** A link alone, in a file that was missing, indexes nothing. */
  lemma LoneLinkIndexesNothing(n: int, conf: nat, i: nat, aka: Address)
    ensures IndexedMsgid(LinkLine(n), conf, i, aka) == ""
  {
    hide FirstMsgid, LocalMsgid, LinkLine, AuthorOf;
    LinkHasNoMsgid(n);
    LinkHasNoAuthor(n);
  }

  lemma LinkHasNoAuthor(n: int)
    ensures AuthorOf(LinkLine(n)).None?
  {
    hide Strtol, StrtolLen, LinkLine;
    var line := Signed(n) + ":0";
    LinkShape(n);
    assert forall i :: 0 <= i < |line| ==> line[i] != '\n';
    LineEndOf(line, "");
    assert line + "\n" + "" == LinkLine(n) && LinkLine(n)[..|line|] == line;
    StrtolOfSigned(n, ":0");
    assert line == Signed(n) + ":0" && line[|Signed(n)|..] == ":0" && ":0"[1..] == "0";
    AtMostOneLong("0");
  }

  lemma AtMostOneLong(s: string)
    requires |s| == 1
    ensures |ScanLongs(s, 6)| <= 1
  {
  }

  lemma ScanStep(x: int, rest: string, k: nat)
    requires rest == "" || rest[0] == ':'
    ensures ScanLongs(Signed(x) + rest, k + 1) == [x] + if rest != "" then ScanLongs(rest[1..], k) else []
  {
    hide Strtol, StrtolLen, Signed;
    StrtolOfSigned(x, rest);
    assert (Signed(x) + rest)[|Signed(x)|..] == rest;
  }

  lemma {:induction false} ScanOfJoin(nums: seq<int>, k: nat)
    requires nums != [] && k >= |nums|
    ensures ScanLongs(ColonJoin(nums), k) == nums
  {
    hide ScanLongs, Signed;
    if |nums| == 1 {
      ScanStep(nums[0], "", k - 1);
      assert Signed(nums[0]) + "" == Signed(nums[0]) && [nums[0]] == nums;
    } else {
      var rest := ":" + ColonJoin(nums[1..]);
      ScanOfJoin(nums[1..], k - 1);
      ScanStep(nums[0], rest, k - 1);
      assert ColonJoin(nums) == Signed(nums[0]) + rest && rest[1..] == ColonJoin(nums[1..]);
      assert [nums[0]] + nums[1..] == nums;
    }
  }

  /** The author of a header of up to seven numbers is the second; it takes four. */
  lemma AuthorIs(nums: seq<int>, rest: string)
    requires 0 < |nums| <= 7
    ensures AuthorOf(ColonJoin(nums) + "\n" + rest) == if |nums| >= 4 then Some(nums[1]) else None
  {
    hide ScanLongs, ColonJoin, LineEnd;
    var head := ColonJoin(nums);
    NumbersStartNoTag(nums);
    LineEndOf(head, rest);
    assert (head + "\n" + rest)[..|head|] == head;
    ScanOfJoin(nums, 7);
  }

  /** A text stored by send_ftn() names author 0, so no MSGID is made up for it. */
  lemma ImportedHasNoAuthor(n: int, post: Post, links: string)
    ensures AuthorOf(TextFile(n, post) + links) == Some(0)
  {
    hide AuthorOf, ColonJoin;
    var nums := [n, 0, post.time, post.com, 0, 0, LineCount(post.mbuf)];
    var rest := post.subject + "\n" + post.mbuf + links;
    assert TextFile(n, post) + links == ColonJoin(nums) + "\n" + rest;
    AuthorIs(nums, rest);
  }

  // ---------- The whole index ----------

  lemma {:induction false} SameIndex(files: map<int, string>, files': map<int, string>, conf: nat, last: nat,
                                     aka: Address)
    requires forall i :: 0 < i <= last && i in files ==>
               i in files' && IndexedMsgid(files'[i], conf, i, aka) == IndexedMsgid(files[i], conf, i, aka)
    requires forall i :: 0 < i <= last && i in files' && i !in files ==> IndexedMsgid(files'[i], conf, i, aka) == ""
    ensures ScanTexts(files', conf, last, aka) == ScanTexts(files, conf, last, aka)
  {
    hide IndexedMsgid;
    if last > 0 {
      SameIndex(files, files', conf, last - 1, aka);
    }
  }

  /** Every stored text consists of whole lines. */
  ghost predicate WholeTexts(files: map<int, string>) {
    forall i :: i in files ==> EndsLine(files[i])
  }

  /** Storing a text puts its entry, if it has one, at the head of the index and changes
      nothing else. */
  lemma StoreExtendsIndex(files: map<int, string>, conf: nat, last: nat, aka: Address, post: Post, id: string)
    requires WholeTexts(files) && post.com <= last
    requires IndexedMsgid(TextFile(last + 1, post), conf, last + 1, aka) == id
    ensures ScanTexts(StoreText(files, last + 1, post), conf, last + 1, aka)
         == (if id == "" then [] else [SkRef(id, last + 1)]) + ScanTexts(files, conf, last, aka)
  {
    hide IndexedMsgid, TextFile, LinkLine;
    var n := last + 1;
    var files' := StoreText(files, n, post);
    forall i | 0 < i <= last && i in files'
      ensures IndexedMsgid(files'[i], conf, i, aka)
           == if i in files then IndexedMsgid(files[i], conf, i, aka) else ""
    {
      if i == post.com {
        if i in files {
          LinkKeepsIndex(files[i], n, conf, i, aka);
        } else {
          assert "" + LinkLine(n) == LinkLine(n);
          LoneLinkIndexesNothing(n, conf, i, aka);
        }
      }
    }
    SameIndex(files, files', conf, last, aka);
    assert files'[n] == TextFile(n, post);
    assert [] + ScanTexts(files, conf, last, aka) == ScanTexts(files, conf, last, aka);
  }

  lemma StoreKeepsWholeTexts(files: map<int, string>, n: int, post: Post)
    requires WholeTexts(files) && EndsLine(post.mbuf)
    ensures WholeTexts(StoreText(files, n, post))
  {
    hide LinkLine, TextFile;
    FileEndsLine(n, post);
    forall i | i in StoreText(files, n, post) ensures EndsLine(StoreText(files, n, post)[i]) {
      LinkEndsLine(if i in files then files[i] else "", n);
    }
  }

  lemma FileEndsLine(n: int, post: Post)
    requires EndsLine(post.mbuf)
    ensures EndsLine(TextFile(n, post))
  {
    hide HeaderLine;
  }

  lemma LinkEndsLine(head: string, child: int)
    ensures EndsLine(head + LinkLine(child))
  {
    hide ColonJoin;
  }

  /** What the index finds for a MSGID is the newest text indexed under it. */
  lemma {:induction false} LookupIsNewest(files: map<int, string>, conf: nat, last: nat, aka: Address, id: string)
    requires id != ""
    ensures var t := LookupText(ScanTexts(files, conf, last, aka), id);
            && 0 <= t <= last
            && (t > 0 ==> t in files && IndexedMsgid(files[t], conf, t, aka) == id)
            && (forall i :: t < i <= last && i in files ==> IndexedMsgid(files[i], conf, i, aka) != id)
  {
    hide IndexedMsgid;
    if last > 0 {
      LookupIsNewest(files, conf, last - 1, aka, id);
      var older := ScanTexts(files, conf, last - 1, aka);
      if last in files && IndexedMsgid(files[last], conf, last, aka) != "" {
        var entry := SkRef(IndexedMsgid(files[last], conf, last, aka), last);
        assert ([entry] + older)[1..] == older;
      }
    }
  }

  // ---------- Echoes and replies ----------

  /** A text an export takes for a local one. */
  predicate ByLocalAuthor(file: string) {
    AuthorOf(file).Some? && AuthorOf(file).value > 0
  }

  /** A local text is indexed under the MSGID its export carries if and only if the scanner
      finds no other MSGID in it. */
  lemma IndexedAsLocalIff(file: string, conf: nat, i: nat, aka: Address)
    requires ByLocalAuthor(file)
    ensures IndexedMsgid(file, conf, i, aka) == LocalMsgid(aka, conf, i) <==>
            FirstMsgid(Scanner, file) in {"", LocalMsgid(aka, conf, i)}
  {
    hide FirstMsgid, AuthorOf;
    LocalMsgidNotEmpty(aka, conf, i);
  }

  /** Text `q` is indexed under `id`. */
  predicate IndexedAs(files: map<int, string>, conf: nat, q: nat, aka: Address, id: string) {
    q in files && IndexedMsgid(files[q], conf, q, aka) == id
  }

  lemma StoredIff(files: map<int, string>, conf: nat, last: nat, aka: Address, id: string)
    requires id != ""
    ensures Stored(ScanTexts(files, conf, last, aka), id) <==>
            exists q :: 0 < q <= last && IndexedAs(files, conf, q, aka, id)
  {
    hide ScanTexts, IndexedMsgid;
    LookupIsNewest(files, conf, last, aka, id);
    var t := LookupText(ScanTexts(files, conf, last, aka), id);
    if t > 0 {
      assert IndexedAs(files, conf, t, aka, id);
    }
  }

  /** The MSGID of an export is known to the importer if and only if the scanner finds no
      other MSGID in the exported text, or another text is indexed under it. It stands for
      that text itself if and only if the former, and no newer text has it. */
  lemma EchoRecognisedIff(files: map<int, string>, conf: nat, last: nat, aka: Address, i: nat)
    requires 0 < i <= last && i in files && ByLocalAuthor(files[i])
    ensures var refs, id := ScanTexts(files, conf, last, aka), LocalMsgid(aka, conf, i);
            && (Stored(refs, id) <==> FirstMsgid(Scanner, files[i]) in {"", id} ||
                                      exists q :: 0 < q <= last && q != i && IndexedAs(files, conf, q, aka, id))
            && (LookupText(refs, id) == i <==> FirstMsgid(Scanner, files[i]) in {"", id} &&
                                               forall q :: i < q <= last ==> !IndexedAs(files, conf, q, aka, id))
  {
    LocalMsgidNotEmpty(aka, conf, i);
    IndexedAsLocalIff(files[i], conf, i, aka);
    hide FirstMsgid, AuthorOf, ScanTexts, LocalMsgid, IndexedMsgid;
    var id := LocalMsgid(aka, conf, i);
    StoredIff(files, conf, last, aka, id);
    LookupIsNewest(files, conf, last, aka, id);
    assert IndexedAs(files, conf, i, aka, id) <==> FirstMsgid(Scanner, files[i]) in {"", id};
    if forall q :: i < q <= last ==> !IndexedAs(files, conf, q, aka, id) {
      forall q | i < q <= last && q in files ensures IndexedMsgid(files[q], conf, q, aka) != id {
        assert !IndexedAs(files, conf, q, aka, id);
      }
    }
  }

  lemma LocalMsgidNotEmpty(aka: Address, conf: nat, i: nat)
    ensures LocalMsgid(aka, conf, i) != ""
  {
    hide FormatAddress, Hex, ExportSerial;
  }

  /** A local text that quotes a MSGID line is indexed under that, and its echo unknown. */
  lemma QuotedTagHidesEcho(conf: nat, aka: Address)
    ensures var file := "1:5:0:0:0:0:1\nhello\nFTN-MSGID: x\n";
            && ByLocalAuthor(file) && FirstMsgid(Scanner, file) == "x"
            && !Stored(ScanTexts(map[1 := file], conf, 1, aka), LocalMsgid(aka, conf, 1))
  {
    var head, tagged := "1:5:0:0:0:0:1", "FTN-MSGID: x\n";
    var file := head + "\n" + ("hello" + "\n" + tagged);
    assert file == "1:5:0:0:0:0:1\nhello\nFTN-MSGID: x\n";
    HeadAuthor(head, "hello" + "\n" + tagged);
    TagBehind(head, tagged);
    TaggedX();
    LocalMsgidNotEmpty(aka, conf, 1);
    LocalMsgidLong(aka, conf, 1);
    hide FirstMsgid, AuthorOf, LocalMsgid;
    StoredIff(map[1 := file], conf, 1, aka, LocalMsgid(aka, conf, 1));
  }

  lemma LocalMsgidLong(aka: Address, conf: nat, i: nat)
    ensures LocalMsgid(aka, conf, i) != "x"
  {
    hide FormatAddress, Hex, ExportSerial;
    var a, h := FormatAddress(aka), Hex(ExportSerial(conf, i) % 0x1_0000_0000, 8);
    assert (a + " " + h)[|a|] == ' ';
  }

  lemma HeadAuthor(head: string, rest: string)
    requires head == "1:5:0:0:0:0:1"
    ensures AuthorOf(head + "\n" + rest) == Some(5)
  {
    hide AuthorOf, ColonJoin;
    HeadJoined();
    AuthorIs([1, 5, 0, 0, 0, 0, 1], rest);
  }

  lemma HeadJoined()
    ensures ColonJoin([1, 5, 0, 0, 0, 0, 1]) == "1:5:0:0:0:0:1"
  {
    OneToFive();
    hide Signed, ColonJoin;
    JoinOne(1);
    JoinMore(0, [1]);
    JoinMore(0, [0, 1]);
    JoinMore(0, [0, 0, 1]);
    JoinMore(0, [0, 0, 0, 1]);
    JoinMore(5, [0, 0, 0, 0, 1]);
    JoinMore(1, [5, 0, 0, 0, 0, 1]);
    assert [0] + [1] == [0, 1] && [0] + [0, 1] == [0, 0, 1] && [0] + [0, 0, 1] == [0, 0, 0, 1];
    assert [0] + [0, 0, 0, 1] == [0, 0, 0, 0, 1] && [5] + [0, 0, 0, 0, 1] == [5, 0, 0, 0, 0, 1];
    assert [1] + [5, 0, 0, 0, 0, 1] == [1, 5, 0, 0, 0, 0, 1];
  }

  lemma JoinOne(n: int)
    ensures ColonJoin([n]) == Signed(n)
  {
  }

  lemma JoinMore(n: int, more: seq<int>)
    requires more != []
    ensures ColonJoin([n] + more) == Signed(n) + ":" + ColonJoin(more)
  {
    hide Signed;
    assert ([n] + more)[1..] == more;
  }

  lemma OneToFive()
    ensures Signed(0) == "0" && Signed(1) == "1" && Signed(5) == "5"
  {
  }

  lemma TagBehind(head: string, tagged: string)
    requires head == "1:5:0:0:0:0:1"
    ensures FirstMsgid(Scanner, head + "\n" + ("hello" + "\n" + tagged)) == FirstMsgid(Scanner, tagged)
  {
    hide FirstMsgid;
    SkipNumberLine(Scanner, head, "hello" + "\n" + tagged);
    SkipShortLine(Scanner, "hello", tagged);
  }

  lemma TaggedX()
    ensures FirstMsgid(Scanner, "FTN-MSGID: x\n") == "x"
  {
    hide FirstMsgid, LeftTrimmed;
    TaggedSeen(Scanner, "x", "");
    InkFirst("x");
    assert "FTN-MSGID: " + "x" + "\n" + "" == "FTN-MSGID: x\n";
  }

  /** The REPLY export_one_ftn_loaded() writes for a comment to text `com`. */
  function ReplyFor(files: map<int, string>, conf: nat, aka: Address, com: nat): string {
    if com == 0 then ""
    else if com in files && FirstMsgid(Exporter, files[com]) != "" then FirstMsgid(Exporter, files[com])
    else LocalMsgid(aka, conf, com)
  }

  /** An exported REPLY is found again under the parent exactly when the parent's file is
      there, both readers agree on its MSGID and no newer text is indexed under it. */
  lemma ReplyIndexesBackIff(files: map<int, string>, conf: nat, last: nat, aka: Address, com: nat)
    requires 0 < com <= last
    ensures var reply := ReplyFor(files, conf, aka, com);
            LookupText(ScanTexts(files, conf, last, aka), reply) == com <==>
            IndexedAs(files, conf, com, aka, reply) &&
            forall q :: com < q <= last && q in files ==> IndexedMsgid(files[q], conf, q, aka) != reply
  {
    LocalMsgidNotEmpty(aka, conf, com);
    hide FirstMsgid, IndexedMsgid, LocalMsgid, ScanTexts;
    LookupIsNewest(files, conf, last, aka, ReplyFor(files, conf, aka, com));
  }

  /** Both readers agree on a local text if and only if what they find in it, or else
      regenerate, is the same ... */
  lemma ReadersAgreeOnLocalIff(files: map<int, string>, conf: nat, aka: Address, com: nat)
    requires com > 0 && com in files && ByLocalAuthor(files[com])
    ensures var id := LocalMsgid(aka, conf, com);
            var found, read := FirstMsgid(Scanner, files[com]), FirstMsgid(Exporter, files[com]);
            ReplyFor(files, conf, aka, com) == IndexedMsgid(files[com], conf, com, aka) <==>
            (if read != "" then read else id) == (if found != "" then found else id)
  {
    hide FirstMsgid, AuthorOf, LocalMsgid;
  }

  /** Lines that fit the scanner's buffer, without carriage returns and the tags that only
      the scanner knows. */
  predicate CommonLines(s: string)
    decreases |s|
  {
    s == "" ||
    var e := LineEnd(s, 0);
    e <= 156 && '\r' !in s[..e] && CommonTag(s[..e]) && (e < |s| ==> CommonLines(s[e + 1..]))
  }

  predicate CommonTag(line: string) {
    !([SOH] + "MSGID:" <= line) && !("^AMSGID:" <= line)
  }

  /** ... which holds in particular of a text in which both read the same lines and tags. */
  lemma {:induction false} ReadersFindSame(s: string)
    requires CommonLines(s)
    ensures FirstMsgid(Scanner, s) == FirstMsgid(Exporter, s)
    decreases |s|
  {
    hide ExtractMsgid, FirstMsgid, LineEnd;
    if s == "" {
      EmptyHasNoMsgid(Scanner);
      EmptyHasNoMsgid(Exporter);
    } else {
      var e := LineEnd(s, 0);
      var n := if e < |s| then e + 1 else e;
      var tail := if e < |s| then "\n" else "";
      assert s[..e] + tail == s[..n];
      CommonLineSame(s[..e], tail);
      ChunkIs(Scanner, s, e);
      ChunkIs(Exporter, s, e);
      ChunkStep(Scanner, s, n);
      ChunkStep(Exporter, s, n);
      if e < |s| {
        ReadersFindSame(s[n..]);
      } else {
        assert s[n..] == "";
        EmptyHasNoMsgid(Scanner);
        EmptyHasNoMsgid(Exporter);
      }
    }
  }

  lemma ChunkIs(r: Reader, s: string, e: nat)
    requires e == LineEnd(s, 0) && e < CHUNK - 1
    ensures ChunkLength(r, s) == if e < |s| then e + 1 else e
  {
    hide LineEnd;
  }

  lemma CommonLineSame(line: string, tail: string)
    requires OneLine(line) && |line| <= 157 && '\r' !in line && CommonTag(line) && tail in {"", "\n"}
    ensures ScannedMsgid(line + tail) == ExportedMsgid(line + tail)
    ensures ExtractMsgid(Scanner, line + tail) == ExtractMsgid(Exporter, line + tail)
  {
    hide ScannedMsgid, ExportedMsgid, LeftTrimmed, CommonTag;
    if |line| >= 10 && line[..10] == "FTN-MSGID:" {
      var value := line[10..];
      assert line == "FTN-MSGID:" + value;
      BehindTag(Scanner, value, tail);
      BehindTag(Exporter, value, tail);
      TrimShorter(value);
    } else {
      NoTagNoMsgid(line, tail);
    }
  }

  lemma TrimShorter(s: string)
    ensures |LeftTrimmed(s)| <= |s|
  {
  }

  lemma NoTagNoMsgid(line: string, tail: string)
    requires OneLine(line) && '\r' !in line && CommonTag(line) && tail in {"", "\n"} && !("FTN-MSGID:" <= line)
    ensures ScannedMsgid(line + tail) == "" == ExportedMsgid(line + tail)
  {
    var l := line + tail;
    PrefixOfLine("FTN-MSGID:", line, tail);
    PrefixOfLine("^AMSGID:", line, tail);
    PrefixOfLine([SOH] + "MSGID:", line, tail);
    assert |l| >= 7 ==> l[..7] == [l[0]] + l[1..7];
    assert AfterTag(l).None?;
    if line != "" {
      NothingToStrip(line);
      assert line + "" == line;
    }
  }

  lemma PrefixOfLine(tag: string, line: string, tail: string)
    requires OneLine(tag) && !(tag <= line) && tail in {"", "\n"}
    ensures !(tag <= line + tail)
  {
    var l := line + tail;
    assert |tag| <= |line| ==> l[..|tag|] == line[..|tag|];
    assert |line| < |l| ==> l[|line|] == '\n';
  }

  /** Both readers agree on an imported text if and only if they read it alike; where
      nothing stands in front and ink comes first, if and only if the MSGID has at most 147
      characters. */
  lemma ReadersAgreeOnImportedIff(files: map<int, string>, conf: nat, aka: Address, com: nat,
                                  post: Post, area: string, msg: FidoMsg, reason: string, links: string)
    requires com > 0 && com in files && files[com] == TextFile(com, post) + links
    requires post.subject == msg.subject && post.mbuf == Mbuf(area, msg, reason)
    requires IdBytes(msg.msgid)
    ensures var rest := Postamble(msg, reason) + links;
            var scanned, exported := ReadAs(Scanner, area, msg, rest), ReadAs(Exporter, area, msg, rest);
            var agree := ReplyFor(files, conf, aka, com) == IndexedMsgid(files[com], conf, com, aka);
            && (agree <==> (if exported != "" then exported else LocalMsgid(aka, conf, com)) == scanned)
            && (Front(Scanner, area, msg) == "" == Front(Exporter, area, msg) && !IsSpace(msg.msgid[0]) ==>
                  (agree <==> RescansAs(msg.msgid)))
  {
    hide FirstMsgid, AuthorOf, LocalMsgid, TextFile, Mbuf, Front, ReadAs, Postamble;
    var rest := Postamble(msg, reason) + links;
    ReaderSees(Scanner, com, post, area, msg, reason, links);
    ReaderSees(Exporter, com, post, area, msg, reason, links);
    ImportedHasNoAuthor(com, post, links);
    LocalMsgidNotEmpty(aka, conf, com);
    if Front(Scanner, area, msg) == "" == Front(Exporter, area, msg) && !IsSpace(msg.msgid[0]) {
      ReadAsTagged(Scanner, area, msg, rest);
      ReadAsTagged(Exporter, area, msg, rest);
    }
  }

  /** The REPLY of a comment to an imported text is found again under that text if and
      only if both readers read it alike and no newer text is indexed under it. */
  lemma ReplyToImportedIff(files: map<int, string>, conf: nat, last: nat, aka: Address, com: nat,
                           post: Post, area: string, msg: FidoMsg, reason: string, links: string)
    requires 0 < com <= last && com in files && files[com] == TextFile(com, post) + links
    requires post.subject == msg.subject && post.mbuf == Mbuf(area, msg, reason)
    requires IdBytes(msg.msgid)
    ensures var rest := Postamble(msg, reason) + links;
            var scanned, exported := ReadAs(Scanner, area, msg, rest), ReadAs(Exporter, area, msg, rest);
            var reply := if exported != "" then exported else LocalMsgid(aka, conf, com);
            && ReplyFor(files, conf, aka, com) == reply
            && (LookupText(ScanTexts(files, conf, last, aka), reply) == com <==>
                scanned == reply &&
                forall q :: com < q <= last && q in files ==> IndexedMsgid(files[q], conf, q, aka) != reply)
  {
    hide FirstMsgid, IndexedMsgid, LocalMsgid, TextFile, Mbuf, Front, ReadAs, Postamble, ScanTexts, RescansAs;
    ReplyIndexesBackIff(files, conf, last, aka, com);
    ReadersAgreeOnImportedIff(files, conf, aka, com, post, area, msg, reason, links);
    ReaderSees(Exporter, com, post, area, msg, reason, links);
  }
}
