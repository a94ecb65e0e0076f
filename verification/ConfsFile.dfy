/** A user's list of read texts: one line per conference, "num:from-to,from-to".
    Printing, parsing and replacing a line, and the unread count made from it. */
module ConfsFile {
  import opened CText

  datatype Interval = Interval(from: int, to: int)
  datatype Entry = Entry(num: int, seen: seq<Interval>)

  // ---------- Printing ----------

  function IntervalText(iv: Interval): string {
    Signed(iv.from) + "-" + Signed(iv.to)
  }

  function IntervalsText(ivs: seq<Interval>): string {
    if ivs == [] then ""
    else if |ivs| == 1 then IntervalText(ivs[0])
    else IntervalText(ivs[0]) + "," + IntervalsText(ivs[1..])
  }

  function Printed(e: Entry): string {
    Signed(e.num) + ":" + IntervalsText(e.seen) + "\n"
  }

  function FileText(entries: seq<Entry>): string {
    if entries == [] then "" else Printed(entries[0]) + FileText(entries[1..])
  }

  lemma {:induction false} IntervalsTextSnoc(ivs: seq<Interval>, k: nat)
    requires k < |ivs|
    ensures k == 0 ==> IntervalsText(ivs[..1]) == IntervalText(ivs[0])
    ensures k > 0 ==> IntervalsText(ivs[..k + 1]) == IntervalsText(ivs[..k]) + "," + IntervalText(ivs[k])
  {
    hide IntervalText;
    if k > 0 {
      var a, b := ivs[..k], ivs[..k + 1];
      assert a[1..] == ivs[1..][..k - 1] && b[1..] == ivs[1..][..k];
      IntervalsTextSnoc(ivs[1..], k - 1);
      if k == 1 {
        assert a == [ivs[0]] && b[1..] == [ivs[1]];
      } else {
        var head, tail, next := IntervalText(ivs[0]) + ",", IntervalsText(a[1..]), "," + IntervalText(ivs[k]);
        assert IntervalsText(b[1..]) == tail + next;
        ConcatAssociative(head, tail, next);
      }
    }
  }

  /** stringify_confs_struct(): a comma after every interval but the last. */
  method Stringify(e: Entry) returns (buf: string)
    ensures buf == Printed(e)
  {
    hide IntervalText;
    var head := Signed(e.num) + ":";
    buf := head;
    var i := 0;
    while i < |e.seen|
      invariant 0 <= i <= |e.seen|
      invariant buf == head + IntervalsText(e.seen[..i]) + (if 0 < i < |e.seen| then "," else "")
    {
      IntervalsTextSnoc(e.seen, i);
      buf := buf + IntervalText(e.seen[i]);
      i := i + 1;
      if i < |e.seen| {
        buf := buf + ",";
      }
    }
    assert e.seen[..i] == e.seen;
    buf := buf + "\n";
  }

  // ---------- Parsing ----------

  /** What get_confs_entry() makes of a buffer: nothing left, a line it would
      leave the buffer on, or an entry and the buffer behind its line, if that ends. */
  datatype Read = End | Broken | Found(entry: Entry, rest: Option<string>)

  /** The intervals from `u` on, up to the end of the line. */
  function ReadIntervals(u: string): Option<seq<Interval>>
    decreases |u|, 1
  {
    if u != "" && u[0] == '\n' then Some([])
    else IntervalsFrom(u, IndexOf(u, '-'), IndexOf(u, ','), IndexOf(u, '\n'))
  }

  /** The same, `dash`, `comma` and `end` being the first of their kind. */
  function IntervalsFrom(u: string, dash: nat, comma: nat, end: nat): Option<seq<Interval>>
    requires dash <= |u|
    decreases |u|, 0
  {
    if dash == |u| then None
    else if comma < end < |u| then Behind([IntervalAt(u, dash)], ReadIntervals(u[comma + 1..]))
    else Some([IntervalAt(u, dash)])
  }

  /** The numbers in front of the dash and behind it, a blank in its place. */
  function IntervalAt(u: string, dash: nat): Interval
    requires dash < |u|
  {
    Interval(Strtol(u[..dash] + " " + u[dash + 1..]), Strtol(" " + u[dash + 1..]))
  }

  /** One interval further. */
  lemma IntervalsUnfold(u: string)
    ensures var dash, comma := IndexOf(u, '-'), IndexOf(u, ',');
            if u != "" && u[0] == '\n' then ReadIntervals(u) == Some([])
            else if dash == |u| then ReadIntervals(u) == None
            else if comma < IndexOf(u, '\n') < |u|
            then ReadIntervals(u) == Behind([IntervalAt(u, dash)], ReadIntervals(u[comma + 1..]))
            else ReadIntervals(u) == Some([IntervalAt(u, dash)])
  {
    hide *;
    IntervalsStart(u);
    IntervalsNext(u, IndexOf(u, '-'), IndexOf(u, ','), IndexOf(u, '\n'));
  }

  lemma IntervalsStart(u: string)
    ensures ReadIntervals(u) ==
            if u != "" && u[0] == '\n' then Some([])
            else IntervalsFrom(u, IndexOf(u, '-'), IndexOf(u, ','), IndexOf(u, '\n'))
  {
    hide IndexOf, IntervalsFrom;
  }

  lemma IntervalsNext(u: string, dash: nat, comma: nat, end: nat)
    requires dash <= |u|
    ensures IntervalsFrom(u, dash, comma, end) ==
            if dash == |u| then None
            else if comma < end < |u| then Behind([IntervalAt(u, dash)], ReadIntervals(u[comma + 1..]))
            else Some([IntervalAt(u, dash)])
  {
    hide IntervalAt, Behind, ReadIntervals;
  }

  /** Back from `i` to a line end or to the start. */
  function BackTo(t: string, i: nat): (b: nat)
    requires i < |t|
    ensures b <= i && (b == 0 || t[b] == '\n') && forall k :: b < k <= i ==> t[k] != '\n'
  {
    if i == 0 || t[i] == '\n' then i else BackTo(t, i - 1)
  }

  /** Where the line of position `i` starts; a line end at 0 counts into its line. */
  function LineStart(t: string, i: nat): (b: nat)
    requires i < |t| && t[i] != '\n'
    ensures b <= i
  {
    var b := BackTo(t, i);
    if b == 0 then 0 else b + 1
  }

  function ReadEntry(t: string): (r: Read)
    ensures r.Found? && r.rest.Some? ==> |r.rest.value| < |t|
  {
    var colon := IndexOf(t, ':');
    if colon == |t| then End
    else
      var start := LineStart(t, colon);
      match ReadIntervals(t[colon + 1..])
      case None => Broken
      case Some(ivs) =>
        var e := LineEnd(t, start);
        Found(Entry(Strtol(t[start..]), ivs), if e == |t| then None else Some(t[e + 1..]))
  }

  function Behind(ivs: seq<Interval>, more: Option<seq<Interval>>): Option<seq<Interval>> {
    if more.Some? then Some(ivs + more.value) else None
  }

  lemma BehindNone(more: Option<seq<Interval>>)
    ensures Behind([], more) == more
  {
    if more.Some? {
      assert [] + more.value == more.value;
    }
  }

  lemma BehindLast(ivs: seq<Interval>)
    ensures Behind(ivs, Some([])) == Some(ivs)
  {
    assert ivs + [] == ivs;
  }

  lemma BehindOne(ivs: seq<Interval>, iv: Interval, more: Option<seq<Interval>>)
    ensures Behind(ivs, Behind([iv], more)) == Behind(ivs + [iv], more)
  {
    if more.Some? {
      assert ivs + ([iv] + more.value) == ivs + [iv] + more.value;
    }
  }

  /** The interval loop of get_confs_entry(). */
  method GetIntervals(u: string) returns (r: Option<seq<Interval>>)
    ensures r == ReadIntervals(u)
  {
    hide *;
    var buf, ivs := u, [];
    BehindNone(ReadIntervals(u));
    while true
      invariant ReadIntervals(u) == Behind(ivs, ReadIntervals(buf))
      decreases |buf|
    {
      BehindLast(ivs);
      IntervalsUnfold(buf);
      if buf != "" && buf[0] == '\n' {
        break;
      }
      var dash := IndexOf(buf, '-');
      if dash == |buf| {
        BehindNothing(ivs);
        return None;
      }
      var iv := IntervalAt(buf, dash);
      var comma, end := IndexOf(buf, ','), IndexOf(buf, '\n');
      ghost var before := ivs;
      ivs := ivs + [iv];
      BehindOne(before, iv, ReadIntervals(buf[if comma < |buf| then comma + 1 else 0..]));
      if !(comma < end < |buf|) {
        BehindEnd(before, iv);
        break;
      }
      buf := buf[comma + 1..];
    }
    r := Some(ivs);
  }

  lemma BehindNothing(ivs: seq<Interval>)
    ensures Behind(ivs, None) == None
  {
  }

  lemma BehindEnd(ivs: seq<Interval>, iv: Interval)
    ensures Behind(ivs, Some([iv])) == Some(ivs + [iv])
  {
  }

  method GetConfsEntry(t: string) returns (r: Read)
    ensures r == ReadEntry(t)
  {
    hide Strtol, StrtolLen, ReadIntervals;
    var colon := IndexOf(t, ':');
    if colon == |t| {
      return End;
    }
    var start := colon;
    while start > 0 && t[start] != '\n'
      invariant 0 <= start <= colon
      invariant BackTo(t, start) == BackTo(t, colon)
    {
      start := start - 1;
    }
    if start != 0 {
      start := start + 1;
    }
    var ivs := GetIntervals(t[colon + 1..]);
    if ivs.None? {
      return Broken;
    }
    var e := LineEnd(t, start);
    r := Found(Entry(Strtol(t[start..]), ivs.value), if e == |t| then None else Some(t[e + 1..]));
  }

  // ---------- Parsing inverts printing ----------

  /** In front of `c` there is neither `c` nor `d`. */
  lemma Separated(head: string, c: char, rest: string, d: char)
    requires c !in head && d !in head && c != d
    ensures var u := head + [c] + rest; IndexOf(u, c) == |head| < IndexOf(u, d)
  {
    hide IndexOf;
    var u := head + [c] + rest;
    IndexOfAppend(head, c, rest);
    assert forall k :: 0 <= k < |head| ==> u[k] == head[k] != d;
    assert u[|head|] == c;
  }

  lemma NumberBehindSpace(s: string)
    ensures NumberStart(" " + s) == 1 + NumberStart(s)
  {
    hide SpaceRun;
    SpaceInFront(s);
  }

  lemma StrtolSpace(s: string)
    ensures Strtol(" " + s) == Strtol(s)
  {
    hide NumberStart, NatOf, DigitRun;
    var t, b := " " + s, NumberStart(s);
    NumberBehindSpace(s);
    assert t[b + 1..] == s[b..] && t[b] == if b > 0 then s[b - 1] else ' ';
  }

  lemma PlainIntervalRead(iv: Interval, tail: string)
    requires tail != "" && tail[0] in {',', '\n'} && iv.from >= 0
    ensures var u := IntervalText(iv) + tail;
            var dash := IndexOf(u, '-');
            dash < |u| && IntervalAt(u, dash) == iv
  {
    hide Strtol, StrtolLen, Decimal, IndexOf;
    var u := IntervalText(iv) + tail;
    var after, digits := Signed(iv.to) + tail, Decimal(iv.from);
    assert u == digits + "-" + after;
    IndexOfAppend(digits, '-', after);
    assert u[..|digits|] == digits && u[|digits| + 1..] == after;
    ConcatAssociative(digits, " ", after);
    StrtolOfSigned(iv.from, " " + after);
    StrtolSpace(after);
    StrtolOfSigned(iv.to, tail);
  }

  /** The interval read from a printed one: itself unless `from` is negative, when the
      sign is taken for the dash. */
  lemma IntervalRead(iv: Interval, tail: string)
    requires tail != "" && tail[0] in {',', '\n'}
    ensures var u := IntervalText(iv) + tail;
            var dash := IndexOf(u, '-');
            && dash < |u|
            && (IntervalAt(u, dash) == iv <==> iv.from >= 0)
  {
    hide Strtol, StrtolLen, Decimal, IndexOf;
    var u := IntervalText(iv) + tail;
    var after := Signed(iv.to) + tail;
    if iv.from >= 0 {
      PlainIntervalRead(iv, tail);
    } else {
      var digits := Decimal(-iv.from);
      var behind := "-" + after;
      assert u == "-" + (digits + behind);
      IndexOfAppend("", '-', digits + behind);
      assert "" + "-" + (digits + behind) == u;
      assert u[..0] == "" && u[1..] == digits + behind;
      assert "" + " " + (digits + behind) == " " + (digits + behind);
      StrtolSpace(digits + behind);
      StrtolOfSigned(-iv.from, behind);
    }
  }

  predicate NonNegative(ivs: seq<Interval>) {
    forall i :: 0 <= i < |ivs| ==> ivs[i].from >= 0
  }

  lemma IntervalChars(iv: Interval)
    ensures ',' !in IntervalText(iv) && '\n' !in IntervalText(iv) && ':' !in IntervalText(iv)
    ensures IntervalText(iv) != "" && IntervalText(iv)[0] != '\n'
  {
    hide Signed;
  }

  /** One round of ReadIntervals() on printed intervals. */
  lemma RoundOf(iv: Interval, c: char, rest: string) returns (x: Interval)
    requires c == '\n' || (c == ',' && '\n' in rest)
    ensures x == iv <==> iv.from >= 0
    ensures ReadIntervals(IntervalText(iv) + [c] + rest) ==
            if c == '\n' then Some([x]) else Behind([x], ReadIntervals(rest))
  {
    hide *;
    IntervalChars(iv);
    var head := IntervalText(iv);
    var u := head + [c] + rest;
    assert u == head + ([c] + rest);
    IntervalRead(iv, [c] + rest);
    Separated(head, c, rest, if c == ',' then '\n' else ',');
    assert u[|head| + 1..] == rest && u[0] == head[0];
    x := IntervalAt(u, IndexOf(u, '-'));
    if c == ',' {
      NewlineIn(u, |head| + 1, rest);
    }
    IntervalsUnfold(u);
  }

  lemma NewlineIn(u: string, from: nat, rest: string)
    requires from <= |u| && u[from..] == rest && '\n' in rest
    ensures IndexOf(u, '\n') < |u|
  {
    hide IndexOf;
    var k :| 0 <= k < |rest| && rest[k] == '\n';
    assert u[from + k] == '\n';
    assert u[..|u|] == u;
  }

  lemma IntervalsCons(ivs: seq<Interval>, rest: string)
    requires |ivs| > 1
    ensures IntervalsText(ivs) + "\n" + rest == IntervalText(ivs[0]) + [','] + (IntervalsText(ivs[1..]) + "\n" + rest)
    ensures '\n' in IntervalsText(ivs[1..]) + "\n" + rest
  {
    hide *;
    IntervalsTextCons(ivs);
    CommaGrouped(IntervalText(ivs[0]), IntervalsText(ivs[1..]), rest);
  }

  lemma IntervalsTextCons(ivs: seq<Interval>)
    requires |ivs| > 1
    ensures IntervalsText(ivs) == IntervalText(ivs[0]) + "," + IntervalsText(ivs[1..])
  {
    hide IntervalText;
  }

  lemma CommaGrouped(a: string, b: string, rest: string)
    ensures a + "," + b + "\n" + rest == a + [','] + (b + "\n" + rest) && '\n' in b + "\n" + rest
  {
    assert (b + "\n" + rest)[|b|] == '\n';
  }

  lemma NonNegativeCons(ivs: seq<Interval>)
    requires ivs != []
    ensures NonNegative(ivs) <==> ivs[0].from >= 0 && NonNegative(ivs[1..])
  {
    assert ivs == [ivs[0]] + ivs[1..];
  }

  /** What one interval and the intervals behind it read as. */
  lemma ReadCons(ivs: seq<Interval>, x: Interval, r: seq<Interval>)
    requires ivs != [] && |r| == |ivs| - 1
    ensures var all := [x] + r; |all| == |ivs| && (all == ivs <==> x == ivs[0] && r == ivs[1..])
  {
    assert ([x] + r)[1..] == r;
    assert ivs == [ivs[0]] + ivs[1..];
  }

  lemma BehindSome(x: Interval, r: seq<Interval>)
    ensures Behind([x], Some(r)) == Some([x] + r)
  {
  }

  lemma SingleText(ivs: seq<Interval>, rest: string)
    requires |ivs| == 1
    ensures IntervalsText(ivs) + "\n" + rest == IntervalText(ivs[0]) + ['\n'] + rest && ivs == [ivs[0]]
  {
    hide IntervalText;
  }

  lemma {:induction false} ReadIntervalsOf(ivs: seq<Interval>, rest: string)
    ensures var r := ReadIntervals(IntervalsText(ivs) + "\n" + rest);
            r.Some? && |r.value| == |ivs| && (r.value == ivs <==> NonNegative(ivs))
  {
    hide *;
    if ivs == [] {
      EmptyLine(rest);
    } else {
      NonNegativeCons(ivs);
      if |ivs| == 1 {
        SingleText(ivs, rest);
        var x := RoundOf(ivs[0], '\n', rest);
        NoneNegative();
        assert ivs[1..] == [];
      } else {
        var more := ivs[1..];
        var tail := IntervalsText(more) + "\n" + rest;
        IntervalsCons(ivs, rest);
        var x := RoundOf(ivs[0], ',', tail);
        ReadIntervalsOf(more, rest);
        var r := ReadIntervals(tail).value;
        BehindSome(x, r);
        ReadCons(ivs, x, r);
      }
    }
  }

  lemma NoneNegative()
    ensures NonNegative([])
  {
  }

  lemma EmptyLine(rest: string)
    ensures IntervalsText([]) == "" && ReadIntervals("" + "\n" + rest) == Some([]) && NonNegative([])
  {
    assert ("" + "\n" + rest)[0] == '\n';
  }

  lemma {:induction false} IntervalsInLine(ivs: seq<Interval>)
    ensures '\n' !in IntervalsText(ivs)
  {
    hide IntervalText;
    if ivs != [] {
      IntervalChars(ivs[0]);
      IntervalsInLine(ivs[1..]);
    }
  }

  lemma LineOfPrinted(e: Entry)
    ensures var p := Printed(e);
            |p| >= 2 && p[|p| - 1] == '\n' && forall k :: 0 <= k < |p| - 1 ==> p[k] != '\n'
  {
    hide Signed, IntervalsText;
    IntervalsInLine(e.seen);
  }

  /** The number of a printed line and its intervals, as parts of the buffer. */
  lemma PrintedHead(e: Entry, rest: string)
    ensures var t, colon := Printed(e) + rest, |Signed(e.num)|;
            && IndexOf(t, ':') == colon < |t| && t[colon + 1..] == IntervalsText(e.seen) + "\n" + rest
            && t[colon] != '\n' && LineStart(t, colon) == 0 && Strtol(t[0..]) == e.num
  {
    hide Signed, IntervalsText, Strtol, StrtolLen, IndexOf;
    var t, head := Printed(e) + rest, Signed(e.num);
    var tail := IntervalsText(e.seen) + "\n" + rest;
    assert t == head + ":" + tail;
    IndexOfAppend(head, ':', tail);
    assert t[0..] == head + (":" + tail);
    StrtolOfSigned(e.num, ":" + tail);
    assert forall k :: 0 <= k <= |head| ==> t[k] != '\n';
  }

  lemma PrintedEnd(e: Entry, rest: string)
    ensures var p, t := Printed(e), Printed(e) + rest;
            LineEnd(t, 0) == |p| - 1 < |t| && t[|p|..] == rest
  {
    hide Printed, LineEnd;
    var p, t := Printed(e), Printed(e) + rest;
    LineOfPrinted(e);
    assert forall k :: 0 <= k < |p| ==> t[k] == p[k];
    LineEndIs(t, 0, |p| - 1);
  }

  /** get_confs_entry() takes a printed line off the buffer and gives back its number;
      it gives back the whole entry if and only if no interval starts below 0. */
  lemma ReadOfPrinted(e: Entry, rest: string)
    ensures var r := ReadEntry(Printed(e) + rest);
            && r.Found? && r.rest == Some(rest) && r.entry.num == e.num
            && (r.entry == e <==> NonNegative(e.seen))
  {
    hide Printed, Signed, IntervalsText, ReadIntervals, Strtol, StrtolLen, IndexOf, LineEnd, NonNegative, LineStart;
    PrintedHead(e, rest);
    PrintedEnd(e, rest);
    ReadIntervalsOf(e.seen, rest);
  }

  lemma StrtolBehindEol(s: string)
    ensures Strtol("\n" + s) == Strtol(s)
  {
    hide NatOf, DigitRun;
    var t, b := "\n" + s, NumberStart(s);
    assert t[1..] == s;
    assert NumberStart(t) == b + 1 && t[b + 1..] == s[b..] && t[b] == if b > 0 then s[b - 1] else '\n';
  }

  /** A line without a colon in front of an entry is passed over; an empty one at the start
      of the buffer is, too, but the entry then stays on it. */
  lemma BehindOtherLine(other: string, t: string)
    requires ':' !in other && IndexOf(t, ':') < LineEnd(t, 0)
    ensures ReadEntry(other + "\n" + t) ==
            if other == "" && ReadEntry(t).Found? then Found(ReadEntry(t).entry, Some(t)) else ReadEntry(t)
  {
    hide *;
    var front := other + "\n";
    ColonBehind(front, t);
    assert (front + t)[|front|..] == t && (front + t)[|front| - 1] == '\n';
    if other == "" {
      BehindEmptyLine(front + t, t);
    } else {
      EntryBehind(front + t, |front|, t);
    }
  }

  lemma EntryBehind(s: string, n: nat, t: string)
    requires 1 < n <= |s| && s[n..] == t && s[n - 1] == '\n'
    requires IndexOf(s, ':') == n + IndexOf(t, ':') && IndexOf(t, ':') < LineEnd(t, 0)
    ensures ReadEntry(s) == ReadEntry(t)
  {
    hide *;
    var colon, e := IndexOf(t, ':'), LineEnd(t, 0);
    StartOfLine(t, 0, t, colon);
    StartOfLine(s, n, t, colon);
    EntryAt(t, colon, 0);
    EntryAt(s, n + colon, n);
    LineEndShift(s, n, 0);
    assert s[n + colon + 1..] == t[colon + 1..];
    assert e < |t| ==> s[n + e + 1..] == t[e + 1..];
  }

  lemma BehindEmptyLine(s: string, t: string)
    requires |s| > 0 && s[1..] == t && s[0] == '\n'
    requires IndexOf(s, ':') == 1 + IndexOf(t, ':') && IndexOf(t, ':') < LineEnd(t, 0)
    ensures ReadEntry(s) == if ReadEntry(t).Found? then Found(ReadEntry(t).entry, Some(t)) else ReadEntry(t)
  {
    hide *;
    var colon := IndexOf(t, ':');
    StartOfLine(t, 0, t, colon);
    StartOfLine(s, 1, t, colon);
    EntryAt(t, colon, 0);
    EntryAt(s, 1 + colon, 0);
    StrtolBehindEol(t);
    LineEndIs(s, 0, 0);
    assert s[1 + colon + 1..] == t[colon + 1..] && s[0..] == "\n" + t;
  }

  lemma EntryAt(t: string, colon: nat, start: nat)
    requires colon == IndexOf(t, ':') < |t| && t[colon] != '\n' && start == LineStart(t, colon)
    ensures var ivs, e := ReadIntervals(t[colon + 1..]), LineEnd(t, start);
            ReadEntry(t) ==
            if ivs.None? then Broken
            else Found(Entry(Strtol(t[start..]), ivs.value), if e == |t| then None else Some(t[e + 1..]))
  {
    hide IndexOf, ReadIntervals, LineEnd, Strtol, LineStart;
  }

  /** The line of the first line of `t` behind a line end starts with it. */
  lemma StartOfLine(s: string, n: nat, t: string, i: nat)
    requires n <= |s| && s[n..] == t && (n == 0 || s[n - 1] == '\n') && i < LineEnd(t, 0)
    ensures s[n + i] != '\n' && LineStart(s, n + i) == if n == 1 then 0 else n
    ensures t[0..] == t
  {
    hide BackTo, LineEnd;
    var b := BackTo(s, n + i);
    assert forall k :: 0 <= k <= i ==> t[k] == s[n + k] != '\n';
    assert b >= n ==> s[b] == t[b - n];
    assert n > 0 ==> b >= n - 1;
  }

  lemma {:induction false} ColonBehind(front: string, t: string)
    requires ':' !in front
    ensures IndexOf(front + t, ':') == |front| + IndexOf(t, ':')
  {
    if front == "" {
      assert front + t == t;
    } else {
      assert (front + t)[1..] == front[1..] + t;
      ColonBehind(front[1..], t);
    }
  }

  lemma {:induction false} LineEndShift(s: string, n: nat, k: nat)
    requires n + k <= |s|
    ensures LineEnd(s, n + k) == n + LineEnd(s[n..], k)
    decreases |s| - k
  {
    if n + k < |s| && s[n + k] != '\n' {
      LineEndShift(s, n, k + 1);
    }
  }

  /** The entries a caller sees that reads entry after entry. */
  function ReadAll(t: string): seq<Entry>
    decreases |t|
  {
    match ReadEntry(t)
    case End => []
    case Broken => []
    case Found(e, rest) => [e] + if rest.Some? then ReadAll(rest.value) else []
  }

  predicate AllNonNegative(entries: seq<Entry>) {
    forall i :: 0 <= i < |entries| ==> NonNegative(entries[i].seen)
  }

  /** Reading a whole file inverts printing it, if and only if no interval starts
      below 0. */
  lemma {:induction false} FileRoundTripIff(entries: seq<Entry>)
    ensures |ReadAll(FileText(entries))| == |entries|
    ensures ReadAll(FileText(entries)) == entries <==> AllNonNegative(entries)
  {
    hide ReadEntry, Printed, NonNegative;
    if entries == [] {
      NothingLeft();
    } else {
      var e, rest := entries[0], entries[1..];
      ReadOfPrinted(e, FileText(rest));
      FileRoundTripIff(rest);
      var all := ReadAll(FileText(entries));
      assert all[1..] == ReadAll(FileText(rest));
      assert entries == [e] + rest;
    }
  }

  lemma NothingLeft()
    ensures ReadEntry("") == End
  {
  }
}
