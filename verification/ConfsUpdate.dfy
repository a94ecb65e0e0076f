/** Replacing one conference's line in a user's list of read texts, and the number of
    unread texts that num_unread() makes of the line. */
module ConfsUpdate {
  import opened CText
  import opened ConfsFile

  // ---------- replace_confs() ----------

  /** The first entry of conference `num`. */
  function FirstConf(entries: seq<Entry>, num: int): (k: nat)
    ensures k <= |entries| && (k < |entries| ==> entries[k].num == num)
    ensures forall i :: 0 <= i < k ==> entries[i].num != num
  {
    if entries == [] || entries[0].num == num then 0 else 1 + FirstConf(entries[1..], num)
  }

  lemma {:induction false} FileTextConcat(a: seq<Entry>, b: seq<Entry>)
    ensures FileText(a + b) == FileText(a) + FileText(b)
  {
    hide Printed;
    if a == [] {
      assert a + b == b;
    } else {
      assert (a + b)[1..] == a[1..] + b;
      FileTextConcat(a[1..], b);
      ConcatAssociative(Printed(a[0]), FileText(a[1..]), FileText(b));
    }
  }

  lemma {:induction false} FileEndsLine(entries: seq<Entry>)
    ensures FileText(entries) == "" || (|FileText(entries)| >= 2 && EndsLine(FileText(entries)))
  {
    hide Printed;
    if entries != [] {
      LineOfPrinted(entries[0]);
      FileEndsLine(entries[1..]);
    }
  }

  /** The step over one entry. */
  lemma StepOver(entries: seq<Entry>, i: nat)
    requires i < |entries|
    ensures FileText(entries[i..]) == Printed(entries[i]) + FileText(entries[i + 1..])
    ensures FileText(entries) == FileText(entries[..i]) + Printed(entries[i]) + FileText(entries[i + 1..])
  {
    hide Printed;
    var a, b := entries[..i], entries[i..];
    assert a + b == entries && b[1..] == entries[i + 1..];
    FileTextConcat(a, b);
    ConcatAssociative(FileText(a), Printed(entries[i]), FileText(b[1..]));
  }

  /** Where the line starts that ends in front of `p`: over its line end, then back. */
  method LineBefore(s: string, p: nat, ghost head: string, ghost line: string) returns (tbuf: nat)
    requires p <= |s| && s[..p] == head + line
    requires head == "" || (|head| >= 2 && EndsLine(head))
    requires |line| >= 2 && EndsLine(line) && forall k :: 0 <= k < |line| - 1 ==> line[k] != '\n'
    ensures tbuf == |head|
  {
    LineInFront(s, p, head, line);
    tbuf := p;
    if tbuf > 0 {
      tbuf := tbuf - 1;
    }
    while tbuf > 0 && s[tbuf] == '\n'
      invariant p - 2 <= tbuf <= p - 1
    {
      tbuf := tbuf - 1;
    }
    while tbuf > 0 && s[tbuf] != '\n'
      invariant |head| - 1 <= tbuf <= p - 2
    {
      tbuf := tbuf - 1;
    }
    if tbuf > 0 {
      tbuf := tbuf + 1;
    }
  }

  lemma LineInFront(s: string, p: nat, head: string, line: string)
    requires p <= |s| && s[..p] == head + line
    requires head == "" || (|head| >= 2 && EndsLine(head))
    requires |line| >= 2 && EndsLine(line) && forall k :: 0 <= k < |line| - 1 ==> line[k] != '\n'
    ensures p == |head| + |line| && s[p - 1] == '\n' && (head != "" ==> s[|head| - 1] == '\n')
    ensures forall k :: |head| <= k < p - 1 ==> s[k] != '\n'
  {
    assert forall k :: |head| <= k < p ==> s[k] == (head + line)[k] == line[k - |head|];
    assert head != "" ==> s[|head| - 1] == (head + line)[|head| - 1];
  }

  /** The reading loop that looks for a conference: the buffer behind its line, None
      when no line is left. `last` is the entry read last. */
  method SeekConf(obuf: string, num: int, ghost entries: seq<Entry>) returns (buf: Option<string>, last: Entry)
    requires obuf == FileText(entries) && entries != []
    ensures var k := FirstConf(entries, num);
            if k == |entries| then buf.None? && last.num != num
            else && buf == Some(FileText(entries[k + 1..])) && last.num == num
                 && (last == entries[k] <==> NonNegative(entries[k].seen))
  {
    hide Printed, ReadEntry, FileText, FirstConf, NonNegative;
    buf, last := Some(obuf), Entry(num, []);
    ghost var i := 0;
    assert entries[0..] == entries;
    while buf.Some?
      invariant 0 <= i <= |entries|
      invariant i > 0 ==> last.num != num
      invariant if buf.Some? then buf.value == FileText(entries[i..]) else i == |entries|
      invariant forall j :: 0 <= j < i ==> entries[j].num != num
      decreases |entries| - i, if buf.Some? then 1 else 0
    {
      var r := GetConfsEntry(buf.value);
      if i == |entries| {
        EndOfFile(entries);
      } else {
        StepOver(entries, i);
        ReadOfPrinted(entries[i], FileText(entries[i + 1..]));
      }
      if !r.Found? {
        buf := None;
      } else {
        buf, last := r.rest, r.entry;
        if num == last.num {
          assert FirstConf(entries, num) == i;
          break;
        }
        i := i + 1;
      }
    }
  }

  lemma EndOfFile(entries: seq<Entry>)
    ensures ReadEntry(FileText(entries[|entries|..])) == End
  {
    assert FileText(entries[|entries|..]) == "";
  }

  /** replace_confs() on a file of at least one entry: the first line of the conference
      is replaced and all other bytes stay; without such a line the result is empty. */
  method ReplaceConfs(cse: Entry, obuf: string, ghost entries: seq<Entry>) returns (nbuf: string)
    requires obuf == FileText(entries) && entries != []
    ensures var k := FirstConf(entries, cse.num);
            nbuf == if k == |entries| then "" else FileText(entries[k := cse])
  {
    hide Printed, FileText, FirstConf, NonNegative;
    var buf, last := SeekConf(obuf, cse.num, entries);
    nbuf := "";
    if cse.num == last.num {
      ghost var k := FirstConf(entries, cse.num);
      ghost var head := FileText(entries[..k]);
      StepOver(entries, k);
      StepOver(entries[k := cse], k);
      assert entries[k := cse][..k] == entries[..k] && entries[k := cse][k + 1..] == entries[k + 1..];
      FileEndsLine(entries[..k]);
      LineOfPrinted(entries[k]);
      var p := |obuf| - |buf.value|;
      assert obuf[..p] == head + Printed(entries[k]);
      var tbuf := LineBefore(obuf, p, head, Printed(entries[k]));
      assert obuf[..tbuf] == head;
      var line := Stringify(cse);
      nbuf := obuf[..tbuf] + line + buf.value;
    }
  }

  /** The named conference gets the new intervals and every other entry of the file is
      read back as before. */
  lemma ReplaceChangesOne(entries: seq<Entry>, cse: Entry)
    requires AllNonNegative(entries) && NonNegative(cse.seen) && FirstConf(entries, cse.num) < |entries|
    ensures ReadAll(FileText(entries)) == entries
    ensures var k := FirstConf(entries, cse.num);
            ReadAll(FileText(entries[k := cse])) == ReadAll(FileText(entries))[k := cse]
  {
    hide ReadAll, FileText, NonNegative;
    FileRoundTripIff(entries);
    FileRoundTripIff(entries[FirstConf(entries, cse.num) := cse]);
  }

  const LINE_LEN := 79
  const HUGE_LINE := 32768

  /** Whether the result and the printed line fit the buffers of replace_confs(). */
  predicate FitsBuffers(obuf: string, nbuf: string, line: string) {
    |nbuf| < |obuf| + LINE_LEN && |line| < HUGE_LINE
  }

  /** They do if and only if the new line is less than 79 bytes longer than the old one
      and within the line buffer. */
  lemma ReplaceFitsIff(entries: seq<Entry>, cse: Entry)
    requires FirstConf(entries, cse.num) < |entries|
    ensures var k := FirstConf(entries, cse.num);
            FitsBuffers(FileText(entries), FileText(entries[k := cse]), Printed(cse)) <==>
            |Printed(cse)| < |Printed(entries[k])| + 79 && |Printed(cse)| < 32768
  {
    hide Printed, FileText;
    var k := FirstConf(entries, cse.num);
    var after := entries[k := cse];
    StepOver(entries, k);
    StepOver(after, k);
    assert after[..k] == entries[..k] && after[k + 1..] == entries[k + 1..];
  }

  // ---------- num_unread() ----------

  function Length(iv: Interval): int {
    iv.to - iv.from + 1
  }

  function Sum(ivs: seq<Interval>): int {
    if ivs == [] then 0 else Length(ivs[0]) + Sum(ivs[1..])
  }

  lemma {:induction false} SumSnoc(ivs: seq<Interval>, k: nat)
    requires k < |ivs|
    ensures Sum(ivs[..k + 1]) == Sum(ivs[..k]) + Length(ivs[k])
  {
    if k > 0 {
      assert ivs[..k][1..] == ivs[1..][..k - 1] && ivs[..k + 1][1..] == ivs[1..][..k];
      SumSnoc(ivs[1..], k - 1);
    }
  }

  /** num_unread() for a readable file: the length of every interval is taken off. */
  method NumUnread(obuf: string, conf: int, last: int, ghost entries: seq<Entry>) returns (unread: int)
    requires obuf == FileText(entries) && entries != [] && AllNonNegative(entries)
    ensures var k := FirstConf(entries, conf);
            unread == if k == |entries| then 0 else last - Sum(entries[k].seen)
  {
    hide FileText, FirstConf, NonNegative;
    unread := 0;
    var buf, cse := SeekConf(obuf, conf, entries);
    if cse.num == conf {
      unread := last;
      var il := cse.seen;
      var i := 0;
      while i < |il|
        invariant 0 <= i <= |il|
        invariant unread == last - Sum(il[..i])
      {
        SumSnoc(il, i);
        unread := unread - (il[i].to - il[i].from + 1);
        i := i + 1;
      }
      assert il[..i] == il;
    }
  }

  // ---------- What the count means ----------

  function Range(lo: int, hi: int): (s: set<int>)
    ensures forall n :: n in s <==> lo <= n <= hi
    ensures lo <= hi + 1 ==> |s| == hi - lo + 1
    decreases hi - lo
  {
    if hi < lo then {} else {hi} + Range(lo, hi - 1)
  }

  predicate Covers(ivs: seq<Interval>, n: int) {
    exists i :: 0 <= i < |ivs| && ivs[i].from <= n <= ivs[i].to
  }

  /** The texts 1..last that no interval covers. */
  function Unread(ivs: seq<Interval>, last: nat): (s: set<int>)
    ensures forall n :: n in s <==> 1 <= n <= last && !Covers(ivs, n)
  {
    set n | n in Range(1, last) && !Covers(ivs, n)
  }

  predicate Proper(ivs: seq<Interval>) {
    forall i :: 0 <= i < |ivs| ==> ivs[i].from <= ivs[i].to
  }

  predicate Within(ivs: seq<Interval>, last: nat) {
    forall i :: 0 <= i < |ivs| ==> 1 <= ivs[i].from && ivs[i].to <= last
  }

  predicate Disjoint(ivs: seq<Interval>) {
    forall i, j :: 0 <= i < j < |ivs| ==> ivs[i].to < ivs[j].from || ivs[j].to < ivs[i].from
  }

  /** The number shown is never above the number of uncovered texts; for intervals that
      are not inverted it is that number if and only if they are disjoint and inside
      1..last. */
  lemma {:induction false} UnreadIsCountIff(ivs: seq<Interval>, last: nat)
    requires Proper(ivs)
    ensures last - Sum(ivs) <= |Unread(ivs, last)|
    ensures last - Sum(ivs) == |Unread(ivs, last)| <==> Disjoint(ivs) && Within(ivs, last)
  {
    hide Covers, Disjoint, Within, Fits;
    if ivs == [] {
      NoIntervals(last);
    } else {
      var a, rest := ivs[0], ivs[1..];
      UnreadIsCountIff(rest, last);
      CoversCons(ivs);
      var before, r := Unread(rest, last), Range(a.from, a.to);
      assert Unread(ivs, last) == before - r;
      Removed(before, r);
      FitsIff(a, rest, last);
      DisjointCons(ivs, last);
    }
  }

  lemma NoIntervals(last: nat)
    ensures |Unread([], last)| == last && Disjoint([]) && Within([], last)
  {
    assert Unread([], last) == Range(1, last);
  }

  lemma CoversCons(ivs: seq<Interval>)
    requires ivs != []
    ensures forall n :: Covers(ivs, n) <==> ivs[0].from <= n <= ivs[0].to || Covers(ivs[1..], n)
  {
    forall n | Covers(ivs[1..], n) ensures Covers(ivs, n) {
      var i :| 0 <= i < |ivs[1..]| && ivs[1..][i].from <= n <= ivs[1..][i].to;
      assert ivs[i + 1] == ivs[1..][i];
    }
    forall n | Covers(ivs, n) && !(ivs[0].from <= n <= ivs[0].to) ensures Covers(ivs[1..], n) {
      var i :| 0 <= i < |ivs| && ivs[i].from <= n <= ivs[i].to;
      assert ivs[i] == ivs[1..][i - 1];
    }
  }

  lemma Removed(s: set<int>, r: set<int>)
    ensures |s - r| >= |s| - |r|
    ensures |s - r| == |s| - |r| <==> r <= s
  {
    assert s == (s - r) + (s * r);
    assert r == (r - s) + (s * r);
    assert r - s == {} <==> r <= s;
  }

  /** An interval takes only unread texts if and only if it is inside 1..last and meets
      none of the others. */
  predicate Fits(a: Interval, ivs: seq<Interval>, last: nat) {
    && 1 <= a.from && a.to <= last
    && forall i :: 0 <= i < |ivs| ==> a.to < ivs[i].from || ivs[i].to < a.from
  }

  lemma FitsIff(a: Interval, ivs: seq<Interval>, last: nat)
    requires Proper(ivs) && a.from <= a.to
    ensures Range(a.from, a.to) <= Unread(ivs, last) <==> Fits(a, ivs, last)
  {
    var r := Range(a.from, a.to);
    if r <= Unread(ivs, last) {
      assert a.from in r && a.to in r;
      forall i | 0 <= i < |ivs| ensures a.to < ivs[i].from || ivs[i].to < a.from {
        var low := if a.from < ivs[i].from then ivs[i].from else a.from;
        assert low in r ==> !Covers(ivs, low);
      }
    }
  }

  lemma DisjointCons(ivs: seq<Interval>, last: nat)
    requires ivs != []
    ensures Disjoint(ivs) && Within(ivs, last) <==>
              Fits(ivs[0], ivs[1..], last) && Disjoint(ivs[1..]) && Within(ivs[1..], last)
  {
    var rest := ivs[1..];
    assert forall i :: 0 <= i < |rest| ==> rest[i] == ivs[i + 1];
    assert forall i :: 0 < i < |ivs| ==> ivs[i] == rest[i - 1];
  }
}
