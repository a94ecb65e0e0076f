/** Reading back what send_ftn() stored: every text has the body it was given, and
    the comment lists and comment numbers describe the same forest. */
module FtnThreads {
  import opened CText
  import opened FtnIndex
  import opened FtnStore
  import FtnWrap
  import opened TextReader

  // ---------- Header line ----------

  lemma FieldOfJoin(x: int, rest: string)
    ensures var s := Signed(x) + ":" + rest;
            Strtol(s) == x && IndexOf(s, ':') == |Signed(x)| && s[|Signed(x)| + 1..] == rest
  {
    hide Strtol, Signed, IndexOf;
    var s := Signed(x) + ":" + rest;
    StrtolOfSigned(x, ":" + rest);
    assert s == Signed(x) + (":" + rest);
    assert ':' !in Signed(x);
    IndexOfAppend(Signed(x), ':', rest);
    assert s == Signed(x) + [':'] + rest;
  }

  lemma LongsStep(x: int, tail: string, k: nat, longs: Longs)
    requires k > 0 && ReadLongs(tail, k) == Some(longs)
    ensures ReadLongs(Signed(x) + ":" + tail, k + 1) == Some(Longs([x] + longs.values, longs.last))
  {
    hide Strtol, Signed, IndexOf;
    FieldOfJoin(x, tail);
  }

  lemma OneLong(nums: seq<int>, rest: string)
    requires |nums| == 1
    ensures ReadLongs(ColonJoin(nums) + "\n" + rest, 1) == Some(Longs(nums, Signed(nums[0]) + "\n" + rest))
  {
    hide Strtol, Signed;
    StrtolOfSigned(nums[0], "\n" + rest);
    ConcatAssociative(Signed(nums[0]), "\n", rest);
    assert [nums[0]] == nums;
  }

  /** The header numbers read back are the numbers printed. */
  lemma {:induction false} LongsOfJoin(nums: seq<int>, rest: string)
    requires nums != []
    ensures ReadLongs(ColonJoin(nums) + "\n" + rest, |nums|)
         == Some(Longs(nums, Signed(nums[|nums| - 1]) + "\n" + rest))
  {
    hide Signed, ReadLongs;
    if |nums| == 1 {
      OneLong(nums, rest);
    } else {
      var tail := ColonJoin(nums[1..]) + "\n" + rest;
      JoinAssociates(Signed(nums[0]), ColonJoin(nums[1..]), rest);
      LongsOfJoin(nums[1..], rest);
      assert nums[1..][|nums[1..]| - 1] == nums[|nums| - 1];
      assert [nums[0]] + nums[1..] == nums;
      LongsStep(nums[0], tail, |nums| - 1, Longs(nums[1..], Signed(nums[|nums| - 1]) + "\n" + rest));
    }
  }

  lemma JoinAssociates(a: string, b: string, c: string)
    ensures a + ":" + b + "\n" + c == a + ":" + (b + "\n" + c)
  {
  }

  // ---------- Body lines ----------

  /** The lines of `m` as the reader shows them. */
  function ShownLines(m: string): seq<string>
    decreases |m|, 1
  {
    ShownFrom(m, LineEnd(m, 0))
  }

  function ShownFrom(m: string, e: nat): seq<string>
    requires e <= |m|
    decreases |m|, 0
  {
    if e == |m| then [] else [Decode(m, 0, e, LINE_LEN - 1, false)] + ShownLines(m[e + 1..])
  }

  lemma EscapeShift(s: string, m: string, at: nat, p: nat, e: nat, subject: bool)
    requires at + |m| <= |s| && s[at..at + |m|] == m && p < e <= |m|
    ensures s[at + p] == m[p] && (p + 2 < e ==> s[at + p + 1] == m[p + 1] && s[at + p + 2] == m[p + 2])
    ensures IsEscape(s, at + p, at + e, subject) <==> IsEscape(m, p, e, subject)
  {
    hide Escaped;
    assert s[at..at + |m|][p] == s[at + p];
    assert p + 2 < e ==> s[at..at + |m|][p + 1] == s[at + p + 1] && s[at..at + |m|][p + 2] == s[at + p + 2];
  }

  lemma {:induction false} DecodeShift(s: string, m: string, at: nat, p: nat, e: nat, room: nat, subject: bool)
    requires at + |m| <= |s| && s[at..at + |m|] == m && p <= e <= |m|
    ensures Decode(s, at + p, at + e, room, subject) == Decode(m, p, e, room, subject)
    decreases e - p
  {
    hide Escaped, Decode;
    DecodeUnfold(s, at + p, at + e, room, subject);
    DecodeUnfold(m, p, e, room, subject);
    if p < e && room > 0 {
      EscapeShift(s, m, at, p, e, subject);
      if IsEscape(m, p, e, subject) {
        DecodeShift(s, m, at, p + 3, e, room - 1, subject);
      } else {
        DecodeShift(s, m, at, p + 1, e, room - 1, subject);
      }
    }
  }

  lemma {:induction false} LineCountFrom(m: string, e: nat)
    requires e < |m| && m[e] == '\n' && forall k :: 0 <= k < e ==> m[k] != '\n'
    ensures LineCount(m) == 1 + LineCount(m[e + 1..])
  {
    if e > 0 {
      LineCountFrom(m[1..], e - 1);
      assert m[1..][e..] == m[e + 1..];
    }
  }

  /** A text of whole lines has as many lines as line ends. */
  lemma {:induction false} ShownLinesCount(m: string)
    requires m == "" || EndsLine(m)
    ensures |ShownLines(m)| == LineCount(m)
    decreases |m|
  {
    hide Decode;
    if m != "" {
      var e := LineEnd(m, 0);
      assert e <= |m| - 1;
      LineCountFrom(m, e);
      assert m[e + 1..] == "" || EndsLine(m[e + 1..]);
      ShownLinesCount(m[e + 1..]);
    }
  }

  lemma BodyStep(s: string, at: nat, e: nat, n: nat, body: Body)
    requires at <= e < |s| && LineEnd(s, at) == e && ReadBody(s, e + 1, n) == Some(body)
    ensures ReadBody(s, at, n + 1) == Some(Body([Decode(s, at, e, LINE_LEN - 1, false)] + body.lines, body.next))
  {
    hide Decode, LineEnd;
  }

  lemma FirstLine(s: string, m: string, at: nat) returns (e: nat)
    requires EndsLine(m) && at + |m| <= |s| && s[at..at + |m|] == m
    ensures e == LineEnd(m, 0) < |m| && LineEnd(s, at) == at + e
    ensures LineCount(m) == 1 + LineCount(m[e + 1..])
    ensures Decode(s, at, at + e, LINE_LEN - 1, false) == Decode(m, 0, e, LINE_LEN - 1, false)
    ensures (m[e + 1..] == "" || EndsLine(m[e + 1..])) && s[at + e + 1..at + |m|] == m[e + 1..]
  {
    hide Decode, LineCount, LineEnd;
    e := LineEnd(m, 0);
    assert e <= |m| - 1;
    assert forall k :: 0 <= k < |m| ==> s[at + k] == m[k];
    LineEndIs(s, at, at + e);
    LineCountFrom(m, e);
    DecodeShift(s, m, at, 0, e, LINE_LEN - 1, false);
  }

  lemma ShownStep(m: string, e: nat)
    requires e == LineEnd(m, 0) && e < |m|
    ensures ShownLines(m) == [Decode(m, 0, e, LINE_LEN - 1, false)] + ShownLines(m[e + 1..])
  {
    hide *;
    var rest := m[e + 1..];
    ShownUnfold(m);
    ShownFromLine(m, e);
  }

  lemma ShownUnfold(m: string)
    ensures ShownLines(m) == ShownFrom(m, LineEnd(m, 0))
  {
    hide ShownFrom, LineEnd;
  }

  lemma ShownFromLine(m: string, e: nat)
    requires e < |m|
    ensures ShownFrom(m, e) == [Decode(m, 0, e, LINE_LEN - 1, false)] + ShownLines(m[e + 1..])
  {
    hide Decode, ShownLines;
  }

  /** Reading as many lines as `m` has line ends reads exactly `m`. */
  lemma {:induction false} BodyOfLines(s: string, m: string, at: nat)
    requires m == "" || EndsLine(m)
    requires at + |m| <= |s| && s[at..at + |m|] == m
    ensures ReadBody(s, at, LineCount(m)) == Some(Body(ShownLines(m), at + |m|))
    decreases |m|
  {
    hide *;
    if m == "" {
      NoLines(s, at);
    } else {
      var e := FirstLine(s, m, at);
      BodyOfLines(s, m[e + 1..], at + e + 1);
      BodyStep(s, at, at + e, LineCount(m[e + 1..]), Body(ShownLines(m[e + 1..]), at + |m|));
      ShownStep(m, e);
    }
  }

  lemma NoLines(s: string, at: nat)
    requires at <= |s|
    ensures LineCount("") == 0 && ShownLines("") == [] && ReadBody(s, at, 0) == Some(Body([], at))
  {
  }

  // ---------- Comment list ----------

  function AsComments(children: seq<int>): seq<Comment> {
    if children == [] then [] else [Comment(children[0], 0)] + AsComments(children[1..])
  }

  lemma {:induction false} AsCommentsAt(children: seq<int>, i: nat)
    requires i < |children|
    ensures |AsComments(children)| == |children| && AsComments(children)[i] == Comment(children[i], 0)
  {
    if |children| > 1 {
      AsCommentsAt(children[1..], if i == 0 then 0 else i - 1);
    }
  }

  lemma LinkNumber(child: int, rest: string)
    ensures StrtolLen(LinkLine(child) + rest) == |Signed(child)| && Strtol(LinkLine(child) + rest) == child
  {
    hide *;
    LinkShape(child);
    ConcatAssociative(Signed(child), ":0\n", rest);
    StrtolOfSignedColon(child, rest);
  }

  lemma StrtolOfSignedColon(child: int, rest: string)
    ensures StrtolLen(Signed(child) + (":0\n" + rest)) == |Signed(child)|
    ensures Strtol(Signed(child) + (":0\n" + rest)) == child
  {
    hide Strtol, StrtolLen, Signed;
    StrtolOfSigned(child, ":0\n" + rest);
  }

  lemma LinkColon(child: int, rest: string)
    ensures var s := LinkLine(child) + rest;
            && |s| == |Signed(child)| + 3 + |rest| && IndexOf(s, ':') == |Signed(child)|
            && s[|Signed(child)| + 1..] == Signed(0) + ("\n" + rest)
  {
    hide IndexOf, Signed, LinkLine;
    LinkShape(child);
    SignedZero();
    assert ':' !in Signed(child);
    IndexOfAppend(Signed(child), ':', "0\n" + rest);
    assert LinkLine(child) + rest == Signed(child) + [':'] + ("0\n" + rest);
  }

  lemma LinkEnd(child: int, rest: string)
    ensures var s := LinkLine(child) + rest;
            IndexOf(s, '\n') == |Signed(child)| + 2 && s[|Signed(child)| + 3..] == rest &&
              s[|Signed(child)| + 2] == '\n'
  {
    hide IndexOf, Signed, LinkLine;
    LinkShape(child);
    var head := Signed(child) + ":0";
    assert forall i :: 0 <= i < |head| ==> head[i] != '\n';
    assert LinkLine(child) + rest == head + ['\n'] + rest;
    IndexOfAppend(head, '\n', rest);
  }

  lemma LinkStart(children: seq<int>)
    ensures LinkLines(children) == "" || LinkLines(children)[0] != '\n'
  {
  }

  lemma OneComment(s: string, i: nat, j: nat, rest: string, list: seq<Comment>)
    requires StrtolLen(s) > 0 && IndexOf(s, ':') == i < |s| && IndexOf(s, '\n') == j < |s|
    requires s[j + 1..] == rest && (rest == "" || rest[0] != '\n')
    requires Comments(rest) == Some(list)
    ensures Comments(s) == Some([Comment(Strtol(s), Strtol(s[i + 1..]))] + list)
  {
    hide StrtolLen, Strtol, IndexOf;
    assert NewlinesEnd(s, j + 1) == j + 1;
  }

  lemma CommentsStep(child: int, rest: string, list: seq<Comment>)
    requires rest == "" || rest[0] != '\n'
    requires Comments(rest) == Some(list)
    ensures Comments(LinkLine(child) + rest) == Some([Comment(child, 0)] + list)
  {
    hide LinkLine, StrtolLen, Strtol, IndexOf, Signed, Comments;
    LinkNumber(child, rest);
    LinkColon(child, rest);
    LinkEnd(child, rest);
    StrtolOfSigned(0, "\n" + rest);
    OneComment(LinkLine(child) + rest, |Signed(child)|, |Signed(child)| + 2, rest, list);
  }

  /** The comment list read back is the list of links appended. */
  lemma {:induction false} CommentsOfLinks(children: seq<int>)
    ensures Comments(LinkLines(children)) == Some(AsComments(children))
  {
    hide LinkLine, StrtolLen, Strtol, IndexOf;
    if children != [] {
      LinkStart(children[1..]);
      CommentsOfLinks(children[1..]);
      CommentsStep(children[0], LinkLines(children[1..]), AsComments(children[1..]));
    }
  }

  // ---------- The theorem ----------

  function Numbers(n: int, post: Post): seq<int> {
    [n, 0, post.time, post.com, 0, 0, LineCount(post.mbuf)]
  }

  lemma HeadReads(n: int, post: Post, links: string)
    ensures var r := ReadLongs(TextFile(n, post) + links, 7);
            r.Some? && r.value.values == Numbers(n, post)
  {
    hide ColonJoin, LineCount, Signed, ReadLongs;
    LongsOfJoin(Numbers(n, post), post.subject + "\n" + post.mbuf + links);
    LayoutAfterHead(ColonJoin(Numbers(n, post)), post.subject, post.mbuf, links);
  }

  lemma LayoutAfterHead(head: string, subject: string, mbuf: string, links: string)
    ensures head + "\n" + subject + "\n" + mbuf + links == head + "\n" + (subject + "\n" + mbuf + links)
  {
  }

  /** Where the parts of a text file lie. */
  lemma Layout(head: string, subject: string, mbuf: string, links: string)
    ensures var s := head + "\n" + subject + "\n" + mbuf + links;
            var at := |head| + 1 + |subject| + 1;
            && |s| == at + |mbuf| + |links| && s[|head|] == '\n' && s[at - 1] == '\n'
            && s[..|head|] == head && s[|head| + 1..|head| + 1 + |subject|] == subject
            && s[at..at + |mbuf|] == mbuf && s[at + |mbuf|..] == links
  {
  }

  lemma LinesEndWhere(s: string, head: string, subject: string)
    requires |head| + |subject| + 2 <= |s| && s[|head|] == '\n' && s[|head| + 1 + |subject|] == '\n'
    requires s[..|head|] == head && s[|head| + 1..|head| + 1 + |subject|] == subject
    requires '\n' !in subject && forall i :: 0 <= i < |head| ==> head[i] != '\n'
    ensures LineEnd(s, 0) == |head| && LineEnd(s, |head| + 1) == |head| + 1 + |subject|
  {
    assert forall k :: 0 <= k < |head| ==> s[k] == s[..|head|][k];
    LineEndIs(s, 0, |head|);
    var from := |head| + 1;
    forall k | from <= k < from + |subject| ensures s[k] != '\n' {
      assert s[k] == subject[k - from];
    }
    LineEndIs(s, from, from + |subject|);
  }

  lemma RestOfParts(s: string, at: nat, size: int, body: Body, list: seq<Comment>)
    requires at <= |s| && ReadBody(s, at, size) == Some(body) && Comments(s[body.next..]) == Some(list)
    ensures ReadRest(s, at, size) == Some(Rest(body.lines, list))
  {
    hide ReadBody, Comments;
  }

  lemma RestReads(s: string, at: nat, m: string, links: string, list: seq<Comment>)
    requires (m == "" || EndsLine(m)) && at + |m| <= |s| && Comments(links) == Some(list)
    requires s[at..at + |m|] == m && s[at + |m|..] == links
    ensures ReadRest(s, at, LineCount(m)) == Some(Rest(ShownLines(m), list))
  {
    hide *;
    BodyOfLines(s, m, at);
    RestOfParts(s, at, LineCount(m), Body(ShownLines(m), at + |m|), list);
  }

  lemma TextOfParts(s: string, h: Longs, eol: nat, eos: nat, rest: Rest)
    requires ReadLongs(s, 7) == Some(h) && LineEnd(s, 0) == eol < |s|
    requires LineEnd(s, eol + 1) == eos < |s| && ReadRest(s, eos + 1, Nth(h.values, 6)) == Some(rest)
    ensures ReadText(s) == Some(Assemble(h, Decode(s, eol + 1, eos, SUBJECT_LEN - 1, true), rest.lines, rest.list))
  {
    hide ReadLongs, LineEnd, ReadRest, Nth, Assemble, Decode;
  }

  /** What a stored text reads back as. */
  function Entry(n: int, post: Post, children: seq<int>): TextEntry {
    TextEntry(n, 0, post.time, post.com, 0, 0, LineCount(post.mbuf), TYPE_TEXT,
              RTrim(Decode(post.subject, 0, |post.subject|, SUBJECT_LEN - 1, true)),
              ShownLines(post.mbuf), AsComments(children))
  }

  /** A stored text reads back as written, comment links included, whenever its
      subject is one line. */
  lemma StoredTextReads(n: int, post: Post, children: seq<int>)
    requires '\n' !in post.subject && EndsLine(post.mbuf)
    ensures ReadText(TextFile(n, post) + LinkLines(children)) == Some(Entry(n, post, children))
  {
    hide ColonJoin, LinkLines, LineCount, ReadLongs, Entry, ReadText, Comments, AsComments, Assemble, Decode,
         ShownLines;
    var head := ColonJoin(Numbers(n, post));
    var s := TextFile(n, post) + LinkLines(children);
    NumberCharacters(Numbers(n, post));
    HeadReads(n, post, LinkLines(children));
    Layout(head, post.subject, post.mbuf, LinkLines(children));
    CommentsOfLinks(children);
    var h := ReadLongs(s, 7).value;
    BytesRead(s, head, post.subject, post.mbuf, LinkLines(children), h, AsComments(children));
    StoredAssembled(n, post, h, children);
  }

  /** The parts of a text file lie in `s` one behind the other. */
  predicate LiesIn(s: string, head: string, subject: string, body: string, links: string) {
    var at := |head| + 1 + |subject| + 1;
    && |s| == at + |body| + |links| && s[|head|] == '\n' && s[at - 1] == '\n'
    && s[..|head|] == head && s[|head| + 1..|head| + 1 + |subject|] == subject
    && s[at..at + |body|] == body && s[at + |body|..] == links
  }

  lemma BytesRead(s: string, head: string, subject: string, body: string, links: string, h: Longs, list: seq<Comment>)
    requires '\n' !in subject && (body == "" || EndsLine(body)) && forall i :: 0 <= i < |head| ==> head[i] != '\n'
    requires ReadLongs(s, 7) == Some(h) && Nth(h.values, 6) == LineCount(body)
    requires LiesIn(s, head, subject, body, links) && Comments(links) == Some(list)
    ensures ReadText(s) == Some(Assemble(h, Decode(subject, 0, |subject|, SUBJECT_LEN - 1, true), ShownLines(body),
                                         list))
  {
    hide LiesIn, LineCount, ReadLongs, Decode, ShownLines, ReadText, LineEnd, ReadRest, Comments, Assemble, Nth;
    PartsWhere(s, head, subject, body, links);
    var from := |head| + 1;
    var eos := from + |subject|;
    RestReads(s, eos + 1, body, links, list);
    SubjectShown(s, from, subject);
    TextOfParts(s, h, |head|, eos, Rest(ShownLines(body), list));
  }

  lemma PartsWhere(s: string, head: string, subject: string, body: string, links: string)
    requires '\n' !in subject && forall i :: 0 <= i < |head| ==> head[i] != '\n'
    requires LiesIn(s, head, subject, body, links)
    ensures var from := |head| + 1;
            var eos := from + |subject|;
            && LineEnd(s, 0) == |head| < |s| && LineEnd(s, from) == eos < |s| && s[from..eos] == subject
            && eos + 1 + |body| <= |s| && s[eos + 1..eos + 1 + |body|] == body && s[eos + 1 + |body|..] == links
  {
    hide LineEnd;
    LinesEndWhere(s, head, subject);
  }

  lemma SubjectShown(s: string, from: nat, subject: string)
    requires from + |subject| <= |s| && s[from..from + |subject|] == subject
    ensures Decode(s, from, from + |subject|, SUBJECT_LEN - 1, true) ==
            Decode(subject, 0, |subject|, SUBJECT_LEN - 1, true)
  {
    hide Decode;
    DecodeShift(s, subject, from, 0, |subject|, SUBJECT_LEN - 1, true);
  }

  lemma StoredAssembled(n: int, post: Post, h: Longs, children: seq<int>)
    requires h.values == Numbers(n, post)
    ensures Assemble(h, Decode(post.subject, 0, |post.subject|, SUBJECT_LEN - 1, true), ShownLines(post.mbuf),
                     AsComments(children)) == Entry(n, post, children)
  {
    hide LineCount, Decode, ShownLines, RTrim, AsComments;
  }

  // ---------- Subjects with line ends ----------

  /** Reading `n` lines reads the first `n` lines that stand there. */
  lemma {:induction false} ReadBodyShown(s: string, at: nat, n: nat)
    requires at <= |s| && ReadBody(s, at, n).Some?
    ensures n <= |ShownLines(s[at..])| && ReadBody(s, at, n).value.lines == ShownLines(s[at..])[..n]
    decreases n
  {
    hide Decode, LineEnd, ShownLines, ReadBody;
    ReadBodyUnfold(s, at, n);
    if n > 0 {
      var e, m := LineEnd(s, at), s[at..];
      assert forall k :: at <= k < |s| ==> m[k - at] == s[k];
      LineEndIs(m, 0, e - at);
      assert s[at..at + |m|] == m && m[e - at + 1..] == s[e + 1..];
      DecodeShift(s, m, at, 0, e - at, LINE_LEN - 1, false);
      ShownStep(m, e - at);
      ReadBodyShown(s, e + 1, n - 1);
    }
  }

  lemma InFront(x: string, y: string)
    ensures (x + y)[0..0 + |x|] == x
    ensures forall k :: 0 <= k <= |x| ==> (x + y)[k..] == x[k..] + y
  {
  }

  lemma {:induction false} ShownConcat(x: string, y: string)
    requires x == "" || EndsLine(x)
    ensures ShownLines(x + y) == ShownLines(x) + ShownLines(y)
    decreases |x|
  {
    hide Decode, LineEnd, ShownLines;
    if x == "" {
      assert x + y == y;
      NoLines("", 0);
    } else {
      var s := x + y;
      InFront(x, y);
      var e := FirstLine(s, x, 0);
      var rest := x[e + 1..];
      assert s[e + 1..] == rest + y;
      ShownConcat(rest, y);
      ShownStep(x, e);
      ShownStep(s, e);
      LinesAssociative([Decode(x, 0, e, LINE_LEN - 1, false)], ShownLines(rest), ShownLines(y));
    }
  }

  /** A line that starts with anything but an escape is shown with that character first. */
  lemma ShownFirst(m: string)
    requires EndsLine(m) && m[0] != '=' && m[0] != '\n'
    ensures ShownLines(m) != [] && ShownLines(m)[0] != "" && ShownLines(m)[0][0] == m[0]
  {
    hide ShownLines, LineEnd, Escaped;
    var e := FirstLine(m, m, 0);
    ShownStep(m, e);
    DecodeUnfold(m, 0, e, LINE_LEN - 1, false);
  }

  /** Lines read `|v|` lines late are never the lines `x + v + d` themselves, when those
      start differently in `x` and in `d`. */
  lemma ShiftShows(x: seq<string>, v: seq<string>, d: seq<string>, more: seq<string>)
    requires x != [] && v != [] && d != [] && x[0] != d[0]
    ensures var m := x + v + d; (v + (m + more))[..|m|] != m
  {
    var m := x + v + d;
    var late := (v + (m + more))[..|m|];
    assert m[0] == x[0] && m[|x|] == v[0] && m[|x| + |v|] == d[0];
    assert late[0] == v[0] && late[|x| + |v|] == m[|x|];
  }

  lemma MbufAround(area: string, msg: FidoMsg, reason: string, a: string, b: string)
    returns (y: string)
    requires msg.subject == a + "\n" + b && EndsLine(Mbuf(area, msg, reason))
    ensures Mbuf(area, msg, reason) ==
            ("From: " + msg.from + "\n" + "To: " + msg.to + "\n" + "Subject: " + a + "\n") + (b + "\n") + ("Date: " + y)
    ensures EndsLine("Date: " + y)
  {
    hide Tagged, Postamble;
    y := msg.date + "\n" + "FTN-Area: " + area + "\n" + (Tagged("FTN-MSGID: ", msg.msgid) + Postamble(msg, reason));
    MbufRegroup(msg.from, msg.to, a, b, msg.date, "FTN-Area: " + area + "\n",
                Tagged("FTN-MSGID: ", msg.msgid), Postamble(msg, reason));
    var m, d := Mbuf(area, msg, reason), "Date: " + y;
    assert m[|m| - 1] == d[|d| - 1];
  }

  lemma MbufRegroup(from: string, to: string, a: string, b: string, date: string, area: string, id: string,
                    rest: string)
    ensures "From: " + from + "\n" + "To: " + to + "\n" + "Subject: " + (a + "\n" + b) + "\n" + "Date: " + date + "\n" +
            area + id + rest ==
            ("From: " + from + "\n" + "To: " + to + "\n" + "Subject: " + a + "\n") + (b + "\n") +
            ("Date: " + (date + "\n" + area + (id + rest)))
  {
  }

  /** A body read from behind the first line of the subject on is not the body stored. */
  lemma ShiftedBody(area: string, msg: FidoMsg, reason: string, a: string, b: string, links: string, size: nat)
    requires msg.subject == a + "\n" + b && EndsLine(Mbuf(area, msg, reason))
    requires size == |ShownLines(Mbuf(area, msg, reason))|
    requires size <= |ShownLines(b + "\n" + Mbuf(area, msg, reason) + links)|
    ensures ShownLines(b + "\n" + Mbuf(area, msg, reason) + links)[..size] != ShownLines(Mbuf(area, msg, reason))
  {
    hide ShownLines, Mbuf, LineEnd;
    var y := MbufAround(area, msg, reason, a, b);
    var mbuf, v, d := Mbuf(area, msg, reason), b + "\n", "Date: " + y;
    var x := "From: " + msg.from + "\n" + "To: " + msg.to + "\n" + "Subject: " + a + "\n";
    assert v + mbuf + links == v + (mbuf + links);
    ShownConcat(v, mbuf + links);
    ShownConcat(mbuf, links);
    ShownConcat(x + v, d);
    ShownConcat(x, v);
    assert x[0] == 'F' && d[0] == 'D';
    ShownFirst(x);
    ShownFirst(d);
    SomeLine(v);
    ShiftShows(ShownLines(x), ShownLines(v), ShownLines(d), ShownLines(links));
  }

  lemma SomeLine(m: string)
    requires EndsLine(m)
    ensures ShownLines(m) != []
  {
    hide Decode;
    assert LineEnd(m, 0) <= |m| - 1;
  }

  /** Where the text begins behind the first line of the subject. */
  lemma SecondLineBehind(head: string, a: string, tail: string)
    requires '\n' !in a && forall i :: 0 <= i < |head| ==> head[i] != '\n'
    ensures var s, at := head + "\n" + a + "\n" + tail, |head| + 1 + |a| + 1;
            && at <= |s| && s[at..] == tail
            && LineEnd(s, 0) == |head| && LineEnd(s, |head| + 1) == at - 1
  {
    hide LineEnd;
    var s := head + "\n" + a + "\n" + tail;
    var from := |head| + 1;
    assert forall k :: 0 <= k < |head| ==> s[k] == head[k];
    LineEndIs(s, 0, |head|);
    assert forall k :: from <= k < from + |a| ==> s[k] == a[k - from];
    LineEndIs(s, from, from + |a|);
  }

  lemma SubjectCut(head: string, a: string, b: string, m: string, links: string)
    ensures head + "\n" + (a + "\n" + b) + "\n" + m + links == head + "\n" + a + "\n" + (b + "\n" + m + links)
  {
  }

  lemma BodyOfText(s: string, h: Longs, eol: nat, eos: nat)
    requires ReadLongs(s, 7) == Some(h) && LineEnd(s, 0) == eol < |s| && LineEnd(s, eol + 1) == eos < |s|
    ensures ReadText(s).Some? ==>
              && ReadBody(s, eos + 1, Nth(h.values, 6)).Some?
              && ReadText(s).value.body == ReadBody(s, eos + 1, Nth(h.values, 6)).value.lines
  {
    hide ReadLongs, LineEnd, ReadBody, Comments, Nth, Decode, KindOf, RTrim;
  }

  lemma TextFileParts(n: int, post: Post)
    ensures TextFile(n, post) == ColonJoin(Numbers(n, post)) + "\n" + post.subject + "\n" + post.mbuf
  {
    hide ColonJoin;
  }

  /** A text whose subject holds a line end is not read back as it was stored. */
  lemma SubjectLineEndShifts(n: int, post: Post, area: string, msg: FidoMsg, reason: string, children: seq<int>)
    requires post.subject == msg.subject && post.mbuf == Mbuf(area, msg, reason) && EndsLine(post.mbuf)
    requires '\n' in post.subject
    ensures ReadText(TextFile(n, post) + LinkLines(children)) != Some(Entry(n, post, children))
  {
    hide ColonJoin, ReadLongs, LineCount, LineEnd, ReadText, TextFile, LinkLines, ShownLines, ReadBody, Mbuf,
         AsComments;
    var head, links := ColonJoin(Numbers(n, post)), LinkLines(children);
    var s := TextFile(n, post) + links;
    var i := IndexOf(post.subject, '\n');
    assert post.subject[..|post.subject|] == post.subject;
    var a, b := post.subject[..i], post.subject[i + 1..];
    assert post.subject == a + "\n" + b;
    TextFileParts(n, post);
    NumberCharacters(Numbers(n, post));
    HeadReads(n, post, links);
    SubjectCut(head, a, b, post.mbuf, links);
    SecondLineBehind(head, a, b + "\n" + post.mbuf + links);
    var at, size := |head| + 1 + |a| + 1, LineCount(post.mbuf);
    BodyOfText(s, ReadLongs(s, 7).value, |head|, at - 1);
    ShownLinesCount(post.mbuf);
    if ReadText(s).Some? {
      ReadBodyShown(s, at, size);
      ShiftedBody(area, msg, reason, a, b, links, size);
    }
  }

  /** An imported text reads back as written, comment links included, if and only if its
      subject is one line. */
  lemma StoredTextReadsIff(n: int, post: Post, area: string, msg: FidoMsg, reason: string, children: seq<int>)
    requires post.subject == msg.subject && post.mbuf == Mbuf(area, msg, reason) && WholeLines(msg.cleanBody)
    ensures ReadText(TextFile(n, post) + LinkLines(children)) == Some(Entry(n, post, children)) <==>
              '\n' !in post.subject
  {
    hide ReadText, TextFile, LinkLines, Entry, Mbuf, EndsLine;
    MbufEndsLine(area, msg, reason);
    if '\n' in post.subject {
      SubjectLineEndShifts(n, post, area, msg, reason, children);
    } else {
      StoredTextReads(n, post, children);
    }
  }

  // ---------- Lines as stored and as shown ----------

  /** The lines of `m`. */
  function LinesOf(m: string): seq<string>
    decreases |m|, 1
  {
    LinesFrom(m, LineEnd(m, 0))
  }

  function LinesFrom(m: string, e: nat): seq<string>
    requires e <= |m|
    decreases |m|, 0
  {
    if e == |m| then [] else [m[..e]] + LinesOf(m[e + 1..])
  }

  predicate ShownAsIs(lines: seq<string>) {
    forall i :: 0 <= i < |lines| ==> |lines[i]| <= 78 && NoEscape(lines[i])
  }

  lemma {:induction false} ShownLinesAsIsIff(m: string)
    ensures |ShownLines(m)| == |LinesOf(m)| && (ShownLines(m) == LinesOf(m) <==> ShownAsIs(LinesOf(m)))
    decreases |m|
  {
    hide Decode, LineEnd, ShownLines, LinesOf, NoEscape, ShownAsIs;
    var e := LineEnd(m, 0);
    LinesUnfold(m);
    ShownUnfold(m);
    if e < |m| {
      ShownLinesAsIsIff(m[e + 1..]);
      FirstShown(m, e);
      ShownAsIsIff(m[..e]);
      FirstAsIs(m[..e], LinesOf(m[e + 1..]));
      SameWithHead(Decode(m, 0, e, LINE_LEN - 1, false), ShownLines(m[e + 1..]), m[..e], LinesOf(m[e + 1..]));
    } else {
      NoneAsIs();
    }
  }

  lemma LinesUnfold(m: string)
    ensures LinesOf(m) == LinesFrom(m, LineEnd(m, 0))
  {
    hide LinesFrom, LineEnd;
  }

  lemma FirstShown(m: string, e: nat)
    requires e <= |m|
    ensures Decode(m, 0, e, LINE_LEN - 1, false) == Decode(m[..e], 0, e, LINE_LEN - 1, false)
  {
    hide Decode;
    DecodeShift(m, m[..e], 0, 0, e, LINE_LEN - 1, false);
  }

  lemma NoneAsIs()
    ensures ShownAsIs([])
  {
  }

  lemma FirstAsIs(line: string, more: seq<string>)
    ensures ShownAsIs([line] + more) <==> |line| <= 78 && NoEscape(line) && ShownAsIs(more)
  {
    hide NoEscape;
    var all := [line] + more;
    assert all[0] == line;
    assert forall i :: 0 <= i < |more| ==> all[i + 1] == more[i];
  }

  lemma SameWithHead(x: string, xs: seq<string>, y: string, ys: seq<string>)
    ensures [x] + xs == [y] + ys <==> x == y && xs == ys
  {
    assert ([x] + xs)[0] == x && ([x] + xs)[1..] == xs && ([y] + ys)[0] == y && ([y] + ys)[1..] == ys;
  }

  lemma LineFirst(line: string, rest: string)
    requires OneLine(line)
    ensures LinesOf(line + "\n" + rest) == [line] + LinesOf(rest)
  {
    hide LineEnd, LinesOf;
    var m := line + "\n" + rest;
    LineEndIs(m, 0, |line|);
    LinesUnfold(m);
    assert m[..|line|] == line && m[|line| + 1..] == rest;
  }

  /** A line that is left out when it has no value. */
  function Optional(tag: string, value: string): seq<string> {
    if value == "" then [] else [tag + value]
  }

  lemma TaggedFirst(tag: string, value: string, rest: string)
    requires OneLine(tag) && OneLine(value)
    ensures LinesOf(Tagged(tag, value) + rest) == Optional(tag, value) + LinesOf(rest)
  {
    hide LinesOf;
    if value != "" {
      LineFirst(tag + value, rest);
    } else {
      assert "" + rest == rest;
    }
  }

  /** The lines of an imported text, its fields being one line each: five that are always
      there, four that name what there is, an empty one, and the wrapped body. */
  lemma ImportedLines(area: string, msg: FidoMsg, reason: string)
    requires OneLine(area) && OneLine(msg.from) && OneLine(msg.to) && OneLine(msg.subject) && OneLine(msg.date)
    requires OneLine(msg.msgid) && OneLine(msg.reply) && OneLine(msg.chrs) && OneLine(reason)
    ensures LinesOf(Mbuf(area, msg, reason)) ==
            ["From: " + msg.from] + (["To: " + msg.to] + (["Subject: " + msg.subject] + (["Date: " + msg.date] +
            (["FTN-Area: " + area] + (Optional("FTN-MSGID: ", msg.msgid) + (Optional("FTN-REPLY: ", msg.reply) +
            (Optional("FTN-CHRS: ", msg.chrs) + (Optional("FTN-Unsafe: ", reason) +
            ([""] + LinesOf(FtnWrap.WrapBody(msg.cleanBody)))))))))))
  {
    hide LinesOf, Tagged, Optional, FtnWrap.WrapBody;
    var t5 := "" + "\n" + FtnWrap.WrapBody(msg.cleanBody);
    var t4 := Tagged("FTN-Unsafe: ", reason) + t5;
    var t3 := Tagged("FTN-CHRS: ", msg.chrs) + t4;
    var t2 := Tagged("FTN-REPLY: ", msg.reply) + t3;
    var t1 := Tagged("FTN-MSGID: ", msg.msgid) + t2;
    var l4 := "FTN-Area: " + area + "\n" + t1;
    var l3 := "Date: " + msg.date + "\n" + l4;
    var l2 := "Subject: " + msg.subject + "\n" + l3;
    var l1 := "To: " + msg.to + "\n" + l2;
    FlatTags(Tagged("FTN-MSGID: ", msg.msgid), Tagged("FTN-REPLY: ", msg.reply), Tagged("FTN-CHRS: ", msg.chrs),
             Tagged("FTN-Unsafe: ", reason), FtnWrap.WrapBody(msg.cleanBody));
    ConcatAssociative(Preamble(area, msg), Tagged("FTN-MSGID: ", msg.msgid), Postamble(msg, reason));
    FlatLines(msg.from, msg.to, msg.subject, msg.date, area, t1);
    LineFirst("", FtnWrap.WrapBody(msg.cleanBody));
    TaggedFirst("FTN-Unsafe: ", reason, t5);
    TaggedFirst("FTN-CHRS: ", msg.chrs, t4);
    TaggedFirst("FTN-REPLY: ", msg.reply, t3);
    TaggedFirst("FTN-MSGID: ", msg.msgid, t2);
    LineFirst("FTN-Area: " + area, t1);
    LineFirst("Date: " + msg.date, l4);
    LineFirst("Subject: " + msg.subject, l3);
    LineFirst("To: " + msg.to, l2);
    LineFirst("From: " + msg.from, l1);
  }

  lemma FlatTags(a: string, b: string, c: string, d: string, e: string)
    ensures a + (b + c + d + "\n" + e) == a + (b + (c + (d + ("" + "\n" + e))))
  {
  }

  lemma FlatLines(a: string, b: string, c: string, d: string, e: string, f: string)
    ensures "From: " + a + "\n" + "To: " + b + "\n" + "Subject: " + c + "\n" + "Date: " + d + "\n" +
            "FTN-Area: " + e + "\n" + f ==
            "From: " + a + "\n" + ("To: " + b + "\n" + ("Subject: " + c + "\n" + ("Date: " + d + "\n" +
            ("FTN-Area: " + e + "\n" + f))))
  {
  }

  /** The reader gives the lines of an imported text as they are stored if and only if they
      have at most 78 characters and no known "=XX" each. */
  lemma StoredLinesShownIff(n: int, post: Post, area: string, msg: FidoMsg, reason: string, children: seq<int>)
    requires post.subject == msg.subject && post.mbuf == Mbuf(area, msg, reason) && WholeLines(msg.cleanBody)
    requires '\n' !in post.subject
    ensures var r := ReadText(TextFile(n, post) + LinkLines(children));
            r.Some? && (r.value.body == LinesOf(post.mbuf) <==> ShownAsIs(LinesOf(post.mbuf)))
  {
    hide ReadText, TextFile, LinkLines, Mbuf, ShownLines, LinesOf, ShownAsIs;
    StoredTextReadsIff(n, post, area, msg, reason, children);
    ShownLinesAsIsIff(post.mbuf);
  }

  /** Text `p` as get_text_entry() must deliver it, given who answers it. */
  ghost predicate ReadsBack(e: TextEntry, posts: seq<Post>, p: int)
    requires 0 < p <= |posts|
  {
    var post := PostAt(posts, p);
    && e.num == p && e.author == 0 && e.time == post.time && e.commentNum == post.com && 0 <= e.commentNum < p
    && e.size == |e.body| && e.body == ShownLines(post.mbuf)
    && CommentsAreChildren(e.comments, posts, p)
  }

  /** Ascending, and exactly the texts whose parent is `p`. */
  ghost predicate CommentsAreChildren(list: seq<Comment>, posts: seq<Post>, p: int) {
    && (forall i, j :: 0 <= i < j < |list| ==> list[i].num < list[j].num)
    && (forall i :: 0 <= i < |list| ==>
          p < list[i].num <= |posts| && 0 < list[i].num && PostAt(posts, list[i].num).com == p)
    && (forall q :: 0 < q <= |posts| && PostAt(posts, q).com == p ==> Comment(q, 0) in list)
  }

  lemma ChildAt(posts: seq<Post>, p: int, i: nat)
    requires i < |Children(posts, p, |posts|)|
    ensures var child := Children(posts, p, |posts|)[i];
            0 < child <= |posts| && PostAt(posts, child).com == p
  {
    ChildrenExact(posts, p, |posts|);
    var child := Children(posts, p, |posts|)[i];
  }

  lemma LinksAreChildren(posts: seq<Post>, p: int)
    requires forall q :: 0 < q <= |posts| ==> PostAt(posts, q).com < q
    ensures CommentsAreChildren(AsComments(Children(posts, p, |posts|)), posts, p)
  {
    hide Children, AsComments;
    var children := Children(posts, p, |posts|);
    var list := AsComments(children);
    ChildrenExact(posts, p, |posts|);
    CommentsExact(children);
    forall i | 0 <= i < |list|
      ensures p < list[i].num <= |posts| && 0 < list[i].num && PostAt(posts, list[i].num).com == p
    {
      var child := children[i];
      assert list[i] == Comment(child, 0);
      ChildAt(posts, p, i);
    }
    forall q | 0 < q <= |posts| && PostAt(posts, q).com == p ensures Comment(q, 0) in list {
      var i :| 0 <= i < |children| && children[i] == q;
      assert list[i] == Comment(q, 0);
    }
  }

  /** Along any sequence of send_ftn() calls, the texts form a forest and every
      text's comment list is exactly the ascending list of the texts that name it
      as their parent. */
  lemma ThreadsSymmetric(files: map<int, string>, posts: seq<Post>, p: int)
    requires Described(files, posts) && 0 < p <= |posts|
    requires forall q :: 0 < q <= |posts| ==> '\n' !in PostAt(posts, q).subject
    ensures p in files && ReadText(files[p]).Some? && ReadsBack(ReadText(files[p]).value, posts, p)
  {
    hide ReadText, TextFile, ShownLines, LineCount, Decode, RTrim, LinkLines, Children, AsComments, CommentsAreChildren;
    var post := PostAt(posts, p);
    StoredTextReads(p, post, Children(posts, p, |posts|));
    ShownLinesCount(post.mbuf);
    LinksAreChildren(posts, p);
  }

  lemma CommentsExact(children: seq<int>)
    ensures |AsComments(children)| == |children|
    ensures forall i :: 0 <= i < |children| ==> AsComments(children)[i] == Comment(children[i], 0)
  {
    if children != [] {
      AsCommentsAt(children, 0);
    }
    forall i | 0 <= i < |children| ensures AsComments(children)[i] == Comment(children[i], 0) {
      AsCommentsAt(children, i);
    }
  }

  // ---------- Any text ----------

  /** A comment link as any program of the system writes it. */
  function LinkOf(c: Comment): string {
    Signed(c.num) + ":" + Signed(c.author) + "\n"
  }

  function LinksOf(list: seq<Comment>): string {
    if list == [] then "" else LinkOf(list[0]) + LinksOf(list[1..])
  }

  /** What newer texts have behind the size. */
  function KindTail(kind: Option<int>): string {
    if kind.Some? then ":" + Signed(kind.value) else ""
  }

  lemma LinkParts(c: Comment, rest: string)
    ensures var s := LinkOf(c) + rest;
            && StrtolLen(s) > 0 && Strtol(s) == c.num
            && var i, j := IndexOf(s, ':'), IndexOf(s, '\n');
               i < |s| && j < |s| && Strtol(s[i + 1..]) == c.author && s[j + 1..] == rest
  {
    hide Signed, Strtol, StrtolLen, IndexOf;
    var a, b := Signed(c.num), Signed(c.author);
    var s := LinkOf(c) + rest;
    assert s == a + (":" + b + "\n" + rest);
    StrtolOfSigned(c.num, ":" + b + "\n" + rest);
    assert ':' !in a && '\n' !in a && '\n' !in b;
    assert s == a + [':'] + (b + ("\n" + rest));
    IndexOfAppend(a, ':', b + ("\n" + rest));
    assert s[|a| + 1..] == b + ("\n" + rest);
    StrtolOfSigned(c.author, "\n" + rest);
    var head := a + ":" + b;
    assert '\n' !in head && s == head + ['\n'] + rest;
    IndexOfAppend(head, '\n', rest);
    assert s[|head| + 1..] == rest;
  }

  lemma {:induction false} CommentsOfAnyLinks(list: seq<Comment>)
    ensures Comments(LinksOf(list)) == Some(list)
    ensures LinksOf(list) == "" || LinksOf(list)[0] != '\n'
  {
    hide StrtolLen, Strtol, IndexOf, Comments, LinkOf;
    if list == [] {
      NoComments();
    } else {
      var rest, s := LinksOf(list[1..]), LinksOf(list);
      CommentsOfAnyLinks(list[1..]);
      LinkParts(list[0], rest);
      LinkBegins(list[0], rest);
      OneComment(s, IndexOf(s, ':'), IndexOf(s, '\n'), rest, list[1..]);
      assert list == [list[0]] + list[1..];
    }
  }

  lemma {:induction false} SameNewlines(s: string, i: nat, t: string, j: nat)
    requires i <= |s| && j <= |t| && s[i..] == t[j..]
    ensures s[NewlinesEnd(s, i)..] == t[NewlinesEnd(t, j)..]
    decreases |s| - i
  {
    assert i < |s| ==> s[i] == s[i..][0] == t[j..][0] == t[j] && s[i + 1..] == s[i..][1..] == t[j + 1..];
    if i < |s| && s[i] == '\n' {
      SameNewlines(s, i + 1, t, j + 1);
    }
  }

  /** Empty lines between links are passed over. */
  lemma EmptyLineIgnored(c: Comment, rest: string)
    ensures Comments(LinkOf(c) + ("\n" + rest)) == Comments(LinkOf(c) + rest)
  {
    hide *;
    var s, t := LinkOf(c) + ("\n" + rest), LinkOf(c) + rest;
    LinkParts(c, "\n" + rest);
    LinkParts(c, rest);
    var j, k := IndexOf(s, '\n'), IndexOf(t, '\n');
    TwoNewlines(s, j, rest);
    SameNewlines(s, j + 2, t, k + 1);
    CommentsBehind(s);
    CommentsBehind(t);
  }

  lemma TwoNewlines(s: string, j: nat, rest: string)
    requires j < |s| && s[j] == '\n' && s[j + 1..] == "\n" + rest
    ensures j + 2 <= |s| && s[j + 2..] == rest && NewlinesEnd(s, j + 1) == NewlinesEnd(s, j + 2)
  {
    assert s[j + 1] == s[j + 1..][0] && s[j + 2..] == s[j + 1..][1..];
  }

  lemma CommentsBehind(s: string)
    requires StrtolLen(s) > 0 && IndexOf(s, ':') < |s| && IndexOf(s, '\n') < |s|
    ensures var more := Comments(s[NewlinesEnd(s, IndexOf(s, '\n') + 1)..]);
            Comments(s) ==
            if more.None? then None
            else Some([Comment(Strtol(s), Strtol(s[IndexOf(s, ':') + 1..]))] + more.value)
  {
    hide StrtolLen, Strtol, IndexOf;
  }

  lemma LinkBegins(c: Comment, rest: string)
    ensures (LinkOf(c) + rest)[0] != '\n'
  {
    hide Signed;
  }

  lemma NoComments()
    ensures Comments("") == Some([])
  {
  }

  /** Seven numbers, a kind or none, and the line end. */
  lemma {:induction false} LongsOfHeader(nums: seq<int>, tail: string)
    requires nums != [] && tail != "" && !IsDigit(tail[0])
    ensures ReadLongs(ColonJoin(nums) + tail, |nums|) == Some(Longs(nums, Signed(nums[|nums| - 1]) + tail))
  {
    hide Signed, ReadLongs, Strtol, IndexOf;
    if |nums| == 1 {
      LastLong(nums[0], tail);
      assert [nums[0]] == nums;
    } else {
      var more := ColonJoin(nums[1..]) + tail;
      assert ColonJoin(nums) + tail == Signed(nums[0]) + ":" + more;
      LongsOfHeader(nums[1..], tail);
      assert nums[1..][|nums[1..]| - 1] == nums[|nums| - 1];
      assert [nums[0]] + nums[1..] == nums;
      LongsStep(nums[0], more, |nums| - 1, Longs(nums[1..], Signed(nums[|nums| - 1]) + tail));
    }
  }

  lemma LastLong(n: int, tail: string)
    requires tail != "" && !IsDigit(tail[0])
    ensures ReadLongs(Signed(n) + tail, 1) == Some(Longs([n], Signed(n) + tail))
  {
    hide Strtol, Signed;
    StrtolOfSigned(n, tail);
  }

  /** The kind is read exactly when it is there and the author is not 0. */
  lemma KindRead(author: int, size: int, kind: Option<int>, rest: string)
    ensures KindOf(author, Signed(size) + (KindTail(kind) + "\n" + rest)) ==
            if author != 0 && kind.Some? then kind.value else TYPE_TEXT
  {
    hide Strtol, Signed, IndexOf;
    var a, last := Signed(size), Signed(size) + (KindTail(kind) + "\n" + rest);
    assert ':' !in a && '\n' !in a;
    if kind.Some? {
      var k := Signed(kind.value);
      assert '\n' !in k;
      assert last == a + [':'] + (k + ("\n" + rest));
      IndexOfAppend(a, ':', k + ("\n" + rest));
      var head := a + ":" + k;
      assert last == head + ['\n'] + rest && '\n' !in head;
      IndexOfAppend(head, '\n', rest);
      assert last[|a| + 1..] == k + ("\n" + rest);
      StrtolOfSigned(kind.value, "\n" + rest);
    } else {
      assert last == a + ['\n'] + rest;
      IndexOfAppend(a, '\n', rest);
      ColonBehind(a, rest);
    }
  }

  lemma ColonBehind(a: string, rest: string)
    requires ':' !in a
    ensures IndexOf(a + ['\n'] + rest, ':') > |a|
  {
    hide IndexOf;
    var s := a + ['\n'] + rest;
    assert forall k :: 0 <= k < |a| ==> s[k] == a[k] && a[k] in a;
    assert s[|a|] == '\n';
  }

  /** Whoever wrote it: every header number comes back in its own field, the kind when the
      author is not 0, and every comment link with its author. */
  lemma AnyTextReads(nums: seq<int>, kind: Option<int>, subject: string, body: string, list: seq<Comment>)
    requires |nums| == 7 && nums[6] == LineCount(body) && '\n' !in subject && (body == "" || EndsLine(body))
    ensures ReadText(ColonJoin(nums) + KindTail(kind) + "\n" + subject + "\n" + body + LinksOf(list)) ==
            Some(TextEntry(nums[0], nums[1], nums[2], nums[3], nums[4], nums[5], nums[6],
                           if nums[1] != 0 && kind.Some? then kind.value else 0,
                           RTrim(Decode(subject, 0, |subject|, SUBJECT_LEN - 1, true)), ShownLines(body), list))
  {
    hide ReadLongs, ReadText, Decode, Assemble, LineCount, ColonJoin, KindTail, LinksOf, ShownLines, KindOf, RTrim,
         Signed, Comments;
    var head, links := ColonJoin(nums) + KindTail(kind), LinksOf(list);
    var rest := subject + "\n" + body + links;
    LayoutAfterHead(head, subject, body, links);
    HeaderReads(nums, kind, rest);
    KindRead(nums[1], nums[6], kind, rest);
    Layout(head, subject, body, links);
    var s := head + "\n" + subject + "\n" + body + links;
    var h := Longs(nums, Signed(nums[6]) + (KindTail(kind) + "\n" + rest));
    CommentsOfAnyLinks(list);
    BytesRead(s, head, subject, body, links, h, list);
    Assembled(nums, h, Decode(subject, 0, |subject|, SUBJECT_LEN - 1, true), ShownLines(body), list);
  }

  lemma HeaderReads(nums: seq<int>, kind: Option<int>, rest: string)
    requires nums != []
    ensures ReadLongs(ColonJoin(nums) + KindTail(kind) + "\n" + rest, |nums|) ==
            Some(Longs(nums, Signed(nums[|nums| - 1]) + (KindTail(kind) + "\n" + rest)))
    ensures forall i :: 0 <= i < |ColonJoin(nums) + KindTail(kind)| ==> (ColonJoin(nums) + KindTail(kind))[i] != '\n'
  {
    hide ReadLongs, Signed;
    NumberCharacters(nums);
    var tail := KindTail(kind) + "\n" + rest;
    LongsOfHeader(nums, tail);
    assert ColonJoin(nums) + KindTail(kind) + "\n" + rest == ColonJoin(nums) + tail;
  }

  lemma Assembled(nums: seq<int>, h: Longs, subject: string, lines: seq<string>, list: seq<Comment>)
    requires |nums| == 7 && h.values == nums
    ensures Assemble(h, subject, lines, list) ==
            TextEntry(nums[0], nums[1], nums[2], nums[3], nums[4], nums[5], nums[6], KindOf(nums[1], h.last),
                      RTrim(subject), lines, list)
  {
    hide KindOf, RTrim;
  }
}
