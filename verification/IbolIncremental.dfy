/** When updating batch by batch leaves what one rebuild writes, and when the
    checkpoint can be trusted: exactly which times before 1970 break it. */
module IbolIncremental {
  import opened CText
  import opened IbolDb
  import opened IbolTail
  import opened IbolImport
  import opened IbolHistory
  import opened IbolRuns

  const NOTHING := Disk(None, None)

  // ---------- The checkpoint ----------

  lemma {:induction false} UnreadableAlone(recs: seq<Record>, r: Record)
    requires DistinctMsgids(recs) && r in recs && !Readable(r)
    ensures r.msgid !in Ids(ReadableOnes(recs))
  {
    hide Readable;
    forall x | x in ReadableOnes(recs) ensures x.msgid != r.msgid {
      ReadableAreWritten(recs, x);
      var i :| 0 <= i < |recs| && recs[i] == x;
      var j :| 0 <= j < |recs| && recs[j] == r;
      assert i < j || j < i;
    }
  }

  /** After one rebuild of a readable spool every entry's MSGID is in the cache if and
      only if no MSGID first appears with a time before 1970. */
  lemma RebuildCoversIff(spool: Spool)
    requires GoodSpool(spool) && !AnyUnparsable(spool)
    ensures Covered(AfterRebuild(NOTHING, spool), spool) <==> StampsOk(spool)
  {
    hide Fits, Records, Fresh, WrittenAll;
    var recs := Fresh(spool, {});
    EntriesOf(spool);
    FirstOfAll(spool);
    FreshIsNew(spool, {});
    assert forall i :: 0 <= i < |spool| ==> spool[i].number <= Highest(spool);
    if !StampsOk(spool) {
      var i :| 0 <= i < |spool| && FirstAt(spool, i) && spool[i].kind.rec.timestamp < 0;
      FirstIsWritten(spool, i, {});
      UnreadableAlone(recs, spool[i].kind.rec);
      assert spool[i].kind.rec.msgid !in Ids(Records(WrittenAll(recs)));
    }
  }

  /** Whatever history led to the spool, its entries up to the checkpoint are in the cache. */
  ghost predicate AlwaysCovered(spool: Spool) {
    forall events :: Run(EMPTY, events) && IbolRuns.End(EMPTY, events).spool == spool ==>
      Covered(IbolRuns.End(EMPTY, events).disk, spool)
  }

  /** So it is, over all histories, if and only if no MSGID first appears, below the first
      unreadable file, with a time before 1970. */
  lemma AlwaysCoveredIff(spool: Spool)
    requires GoodSpool(spool)
    ensures AlwaysCovered(spool) <==> StampsOkInReach(spool)
  {
    hide Run, IbolRuns.End, Covered, StampsOkInReach, GoodSpool;
    if StampsOkInReach(spool) {
      forall events | Run(EMPTY, events) && IbolRuns.End(EMPTY, events).spool == spool
        ensures Covered(IbolRuns.End(EMPTY, events).disk, spool) {
        EveryHistorySafe(events);
      }
    } else {
      var k := ReachEnds(spool);
      StampsOkBelow(spool, k);
      assert spool[..k] + spool[k..] == spool;
      RebuildInReach(spool[..k], spool[k..]);
      RebuildCoversIff(spool[..k]);
    }
  }

  /** How many files are in reach. */
  lemma ReachEnds(spool: Spool) returns (k: nat)
    requires GoodSpool(spool)
    ensures k <= |spool| && !AnyUnparsable(spool[..k]) && GoodSpool(spool[..k])
    ensures forall j :: 0 <= j < |spool| ==> (InReach(spool, j) <==> j < k)
    ensures forall j :: k <= j < |spool| ==> spool[j].number > Highest(spool[..k])
  {
    hide Fits, Selected;
    k := |spool|;
    if AnyUnparsable(spool) {
      var u := FirstUnparsable(spool);
      k := SelectedIsSuffix(spool, spool[u].number - 1);
    }
    assert forall j :: 0 <= j < k ==> spool[..k][j] == spool[j];
  }

  lemma {:induction false} FirstUnparsable(spool: Spool) returns (u: nat)
    requires AnyUnparsable(spool)
    ensures u < |spool| && spool[u].kind.Unparsable? && forall j :: 0 <= j < u ==> !spool[j].kind.Unparsable?
  {
    u := 0;
    if !spool[0].kind.Unparsable? {
      var i :| 0 <= i < |spool| && spool[i].kind.Unparsable?;
      assert spool[1..][i - 1] == spool[i];
      var v := FirstUnparsable(spool[1..]);
      u := v + 1;
      forall j | 0 <= j < u ensures !spool[j].kind.Unparsable? {
        assert j > 0 ==> spool[1..][j - 1] == spool[j];
      }
    }
  }

  lemma StampsOkBelow(spool: Spool, k: nat)
    requires k <= |spool| && forall j :: 0 <= j < |spool| ==> (InReach(spool, j) <==> j < k)
    ensures StampsOk(spool[..k]) <==> StampsOkInReach(spool)
  {
    hide InReach;
    forall i | 0 <= i < k ensures FirstAt(spool[..k], i) <==> FirstAt(spool, i) {
      assert forall j :: 0 <= j <= i ==> spool[..k][j] == spool[j];
    }
  }

  /** The history that rebuilds when `a` is there, before `b` arrives. */
  lemma RebuildInReach(a: Spool, b: Spool)
    requires GoodSpool(a + b) && GoodSpool(a) && !AnyUnparsable(a)
    requires forall j :: 0 <= j < |b| ==> b[j].number > Highest(a)
    ensures AlwaysCovered(a + b) ==> Covered(AfterRebuild(NOTHING, a), a)
  {
    hide Fits, Fresh, WrittenAll, Records, Highest, GoodSpool, AnyUnparsable, Covered;
    var events := [Grow(a), Event.Rebuild, Grow(b)];
    var w0, w1, w2, w3 := EMPTY, World(NOTHING, a), World(AfterRebuild(NOTHING, a), a),
                          World(AfterRebuild(NOTHING, a), a + b);
    assert [] + a == a;
    AllAbove(a);
    RunOfThree(w0, w1, w2, w3, events[0], events[1], events[2]);
    if AlwaysCovered(a + b) {
      assert Covered(IbolRuns.End(EMPTY, events).disk, a + b);
      CoveredByPart(AfterRebuild(NOTHING, a), a, b);
    }
  }

  lemma AllAbove(a: Spool)
    requires GoodSpool(a)
    ensures forall i :: 0 <= i < |a| ==> a[i].number > Highest([])
  {
    hide Fits;
  }

  lemma RunOfThree(w0: World, w1: World, w2: World, w3: World, e0: Event, e1: Event, e2: Event)
    requires Enabled(w0, e0) && After(w0, e0) == w1 && Enabled(w1, e1) && After(w1, e1) == w2
    requires Enabled(w2, e2) && After(w2, e2) == w3
    ensures Run(w0, [e0, e1, e2]) && IbolRuns.End(w0, [e0, e1, e2]) == w3
  {
    hide Enabled, After;
    RunCons(w2, e2, []);
    RunCons(w1, e1, [e2]);
    RunCons(w0, e0, [e1, e2]);
    assert [e2] == [e2] + [] && [e1] + [e2] == [e1, e2] && [e0] + [e1, e2] == [e0, e1, e2];
  }

  lemma RunCons(w: World, e: Event, events: seq<Event>)
    requires Enabled(w, e) && Run(After(w, e), events)
    ensures Run(w, [e] + events) && IbolRuns.End(w, [e] + events) == IbolRuns.End(After(w, e), events)
  {
    hide Enabled, After;
    assert ([e] + events)[1..] == events;
  }

  lemma CoveredByPart(d: Disk, a: Spool, b: Spool)
    requires Covered(d, a + b)
    ensures Covered(d, a)
  {
    hide Records;
    assert forall i :: 0 <= i < |a| ==> (a + b)[i] == a[i];
  }

  // ---------- One update against a rebuild ----------

  lemma {:induction false} FreshAgree(files: Spool, s: set<string>, t: set<string>)
    requires forall f :: f in files && f.kind.Entry? ==> (f.kind.rec.msgid in s <==> f.kind.rec.msgid in t)
    ensures Fresh(files, s) == Fresh(files, t)
  {
    if files != [] {
      var f := files[0];
      assert files == [f] + files[1..];
      if !f.kind.Entry? || f.kind.rec.msgid in s {
        FreshAgree(files[1..], s, t);
      } else {
        FreshAgree(files[1..], s + {f.kind.rec.msgid}, t + {f.kind.rec.msgid});
      }
    }
  }

  /** Fewer known MSGIDs, more bytes written. */
  lemma {:induction false} FewerKnownMoreWritten(files: Spool, s: set<string>, t: set<string>)
    requires s <= t
    ensures |WrittenAll(Fresh(files, s))| >= |WrittenAll(Fresh(files, t))|
    ensures (exists f :: f in files && f.kind.Entry? && f.kind.rec.msgid in t - s) ==>
              |WrittenAll(Fresh(files, s))| > |WrittenAll(Fresh(files, t))|
  {
    hide RecordLine;
    if files != [] {
      var f, rest := files[0], files[1..];
      assert files == [f] + rest;
      if !f.kind.Entry? || f.kind.rec.msgid in s {
        FewerKnownMoreWritten(rest, s, t);
      } else {
        var s', id := s + {f.kind.rec.msgid}, f.kind.rec.msgid;
        FewerKnownMoreWritten(rest, s', t + {id});
        assert WrittenAll(Fresh(files, s)) == Written(f.kind.rec) + WrittenAll(Fresh(rest, s'));
        if id in t {
          assert t + {id} == t;
        } else {
          assert WrittenAll(Fresh(files, t)) == Written(f.kind.rec) + WrittenAll(Fresh(rest, t + {id}));
          if g :| g in files && g.kind.Entry? && g.kind.rec.msgid in t - s {
            assert g in rest && g.kind.rec.msgid in (t + {id}) - s';
          }
        }
      }
    }
  }

  lemma {:induction false} WrittenConcat(a: seq<Record>, b: seq<Record>)
    ensures WrittenAll(a + b) == WrittenAll(a) + WrittenAll(b)
  {
    hide Written;
    if a == [] {
      assert a + b == b;
    } else {
      assert (a + b)[1..] == a[1..] + b;
      WrittenConcat(a[1..], b);
    }
  }

  /** No file of `b` carries a MSGID that `a` wrote with a time before 1970. */
  ghost predicate NoLateTwin(a: Spool, b: Spool) {
    forall r, f :: r in Fresh(a, {}) && !Readable(r) && f in b && f.kind.Entry? ==> f.kind.rec.msgid != r.msgid
  }

  /** `b` lies behind `a` in a good spool without unreadable files. */
  ghost predicate Continues(a: Spool, b: Spool) {
    && GoodSpool(a + b) && !AnyUnparsable(a + b)
    && forall i :: 0 <= i < |b| ==> b[i].number > Highest(a)
  }

  lemma ContinuesParts(a: Spool, b: Spool)
    requires Continues(a, b)
    ensures GoodEntries(a) && GoodEntries(b) && Selected(a + b, Highest(a)) == b && Highest(a + b) >= Highest(a)
    ensures !AnyUnparsable(b) && GoodSpool(a) && !AnyUnparsable(a)
  {
    hide Selected, GoodSpool, GoodEntries, AnyUnparsable, Highest;
    PartsOf(a, b);
    NoneAboveHighest(a);
    InOrder(a + b);
    HighestGrows(a, b);
    SelectedBehind(a, b, Highest(a));
  }

  lemma InOrder(spool: Spool)
    requires GoodSpool(spool)
    ensures forall i, j :: 0 <= i < j < |spool| ==> spool[i].number <= spool[j].number
  {
    hide Fits;
  }

  lemma NoneAboveHighest(spool: Spool)
    requires GoodSpool(spool)
    ensures forall i :: 0 <= i < |spool| ==> spool[i].number <= Highest(spool)
  {
    hide Fits;
  }

  lemma HighestGrows(a: Spool, b: Spool)
    requires forall i :: 0 <= i < |b| ==> b[i].number > Highest(a)
    ensures Highest(a + b) >= Highest(a)
  {
    if b == [] {
      assert a + b == a;
    } else {
      assert (a + b)[|a + b| - 1] == b[|b| - 1];
    }
  }

  /** Both parts of a good spool without unreadable files are such spools. */
  lemma PartsOf(a: Spool, b: Spool)
    requires GoodSpool(a + b) && !AnyUnparsable(a + b)
    ensures GoodSpool(a) && GoodEntries(a) && !AnyUnparsable(a) && GoodEntries(b) && !AnyUnparsable(b)
  {
    hide Fits;
    assert forall i :: 0 <= i < |a| ==> (a + b)[i] == a[i];
    assert forall i :: 0 <= i < |b| ==> (a + b)[|a| + i] == b[i];
  }

  /** Two marks of the same border are one. */
  lemma OneBorder(spool: Spool, n: nat, i: nat, k: nat)
    requires i <= |spool| && k <= |spool|
    requires forall j :: 0 <= j < |spool| ==> (spool[j].number <= n <==> j < i)
    requires forall j :: 0 <= j < |spool| ==> (spool[j].number <= n <==> j < k)
    ensures i == k
  {
    assert i < |spool| ==> spool[i].number > n;
    assert k < |spool| ==> spool[k].number > n;
  }

  lemma SelectedBehind(a: Spool, b: Spool, n: nat)
    requires forall i, j :: 0 <= i < j < |a + b| ==> (a + b)[i].number <= (a + b)[j].number
    requires forall i :: 0 <= i < |a| ==> a[i].number <= n
    requires forall i :: 0 <= i < |b| ==> b[i].number > n
    ensures Selected(a + b, n) == b
  {
    hide Selected;
    var ab := a + b;
    var i := SelectedIsSuffix(ab, n);
    forall j | 0 <= j < |ab| ensures ab[j].number <= n <==> j < |a| {
      assert ab[j] == if j < |a| then a[j] else b[j - |a|];
    }
    OneBorder(ab, n, i, |a|);
    assert ab[|a|..] == b;
  }

  /** The cache that a rebuild of `a` leaves knows exactly the readable MSGIDs. */
  lemma KnownAfterRebuild(a: Spool)
    requires GoodEntries(a)
    ensures var recs := Fresh(a, {});
            && Ids(Records(WrittenAll(recs))) <= Ids(recs)
            && (forall id :: id in Ids(recs) - Ids(Records(WrittenAll(recs))) <==>
                  exists r :: r in recs && !Readable(r) && r.msgid == id)
            && Separator(WrittenAll(recs)) == ""
  {
    hide Fits, Records, Fresh, WrittenAll, Readable;
    var recs := Fresh(a, {});
    FirstOfAll(a);
    FreshIsNew(a, {});
    RecordsOfAll(recs);
    var known := Ids(ReadableOnes(recs));
    forall r | r in ReadableOnes(recs) ensures r in recs {
      ReadableAreWritten(recs, r);
    }
    forall id | id in Ids(recs) - known ensures exists r :: r in recs && !Readable(r) && r.msgid == id {
      var r :| r in recs && r.msgid == id;
      if Readable(r) {
        ReadableKept(recs, r);
      }
    }
    forall r | r in recs && !Readable(r) ensures r.msgid in Ids(recs) - known {
      UnreadableAlone(recs, r);
    }
  }

  /** What the update writes behind the rebuilt cache of `a`, and what the rebuild of
      the whole spool writes there. */
  lemma UpdateWrites(a: Spool, b: Spool)
    requires Continues(a, b)
    ensures var recs := Fresh(a, {});
            var d := Disk(Some(WrittenAll(recs)), Some(Highest(a)));
            var known := Ids(Records(WrittenAll(recs)));
            && AfterUpdate(d, a + b) == Disk(Some(WrittenAll(recs) + WrittenAll(Fresh(b, known))), Some(Highest(a + b)))
            && AfterRebuild(d, a + b) ==
               Disk(Some(WrittenAll(recs) + WrittenAll(Fresh(b, Ids(recs)))), Some(Highest(a + b)))
  {
    hide Records, Fresh, WrittenAll, Highest, Selected, GoodSpool;
    var recs := Fresh(a, {});
    ContinuesParts(a, b);
    KnownAfterRebuild(a);
    hide Separator;
    FreshConcat(a, b, {});
    assert {} + Ids(recs) == Ids(recs);
    WrittenConcat(recs, Fresh(b, Ids(recs)));
    var more := WrittenAll(Fresh(b, Ids(Records(WrittenAll(recs)))));
    assert "" + more == more;
  }

  lemma SameBytesIff(a: Spool, b: Spool)
    requires Continues(a, b)
    ensures var recs := Fresh(a, {});
            WrittenAll(Fresh(b, Ids(Records(WrittenAll(recs))))) == WrittenAll(Fresh(b, Ids(recs))) <==>
              NoLateTwin(a, b)
  {
    hide Records, Fresh, WrittenAll, Highest, Selected, GoodSpool, Readable, Ids;
    ContinuesParts(a, b);
    KnownAfterRebuild(a);
    var recs := Fresh(a, {});
    var s, t := Ids(Records(WrittenAll(recs))), Ids(recs);
    if NoLateTwin(a, b) {
      forall f | f in b && f.kind.Entry? ensures f.kind.rec.msgid in s <==> f.kind.rec.msgid in t {
        var id := f.kind.rec.msgid;
        assert id in t - s <==> exists r :: r in recs && !Readable(r) && r.msgid == id;
      }
      FreshAgree(b, s, t);
    } else {
      FewerKnownMoreWritten(b, s, t);
      var r, f :| r in recs && !Readable(r) && f in b && f.kind.Entry? && f.kind.rec.msgid == r.msgid;
      assert f.kind.rec.msgid in t - s;
    }
  }

  lemma SameTails(x: string, p: string, q: string)
    ensures x + p == x + q <==> p == q
  {
    assert (x + p)[|x|..] == p && (x + q)[|x|..] == q;
  }

  /** One update on top of a rebuild equals one rebuild if and only if the new files
      repeat no MSGID that was written with a time before 1970. */
  lemma OneUpdateIff(a: Spool, b: Spool)
    requires Continues(a, b)
    ensures var d := Disk(Some(WrittenAll(Fresh(a, {}))), Some(Highest(a)));
            AfterUpdate(d, a + b) == AfterRebuild(d, a + b) <==> NoLateTwin(a, b)
  {
    hide Records, Fresh, WrittenAll, Highest, Selected, GoodSpool, AfterUpdate, AfterRebuild, Continues, NoLateTwin,
         Ids;
    UpdateWrites(a, b);
    SameBytesIff(a, b);
    var recs := Fresh(a, {});
    SameTails(WrittenAll(recs), WrittenAll(Fresh(b, Ids(Records(WrittenAll(recs))))), WrittenAll(Fresh(b, Ids(recs))));
  }

  // ---------- Any sequence of updates ----------

  /** The disk after one successful --update per batch of new files. */
  ghost function UpdateAll(d: Disk, done: Spool, batches: seq<Spool>): Disk
    decreases |batches|
  {
    if batches == [] then d
    else UpdateAll(AfterUpdate(d, done + batches[0]), done + batches[0], batches[1..])
  }

  function Joined(batches: seq<Spool>): Spool {
    if batches == [] then [] else batches[0] + Joined(batches[1..])
  }

  /** Each batch brings only numbers above everything before it. */
  ghost predicate Arriving(done: Spool, batches: seq<Spool>)
    decreases |batches|
  {
    batches == [] || (Continues(done, batches[0]) && Arriving(done + batches[0], batches[1..]))
  }

  /** Entry `j` repeats, under a higher number, the MSGID that entry `i` brings first,
      with a time before 1970. */
  ghost predicate LateTwins(spool: Spool, i: nat, j: nat) {
    && i < j < |spool| && FirstAt(spool, i) && spool[i].kind.rec.timestamp < 0
    && spool[j].kind.Entry? && spool[j].number > spool[i].number
    && spool[j].kind.rec.msgid == spool[i].kind.rec.msgid
  }

  /** No MSGID that first appears before 1970 appears again under a higher number. */
  ghost predicate NoLateTwins(spool: Spool) {
    forall i, j :: 0 <= i < j < |spool| ==> !LateTwins(spool, i, j)
  }

  /** What is written comes from a first appearance. */
  lemma {:induction false} FreshIsFirst(spool: Spool, ids: set<string>, r: Record) returns (i: nat)
    requires r in Fresh(spool, ids)
    ensures i < |spool| && FirstAt(spool, i) && spool[i].kind.rec == r && r.msgid !in ids
  {
    var f := spool[0];
    if !f.kind.Entry? || f.kind.rec.msgid in ids {
      var k := FreshIsFirst(spool[1..], ids, r);
      i := k + 1;
      FirstShift(spool, k, r.msgid);
    } else if r == f.kind.rec {
      i := 0;
    } else {
      var k := FreshIsFirst(spool[1..], ids + {f.kind.rec.msgid}, r);
      i := k + 1;
      FirstShift(spool, k, r.msgid);
    }
  }

  lemma FirstShift(spool: Spool, k: nat, id: string)
    requires spool != [] && k < |spool[1..]| && FirstAt(spool[1..], k) && spool[1..][k].kind.rec.msgid == id
    requires spool[0].kind.Entry? ==> spool[0].kind.rec.msgid != id
    ensures FirstAt(spool, k + 1) && spool[k + 1] == spool[1..][k]
  {
    assert spool[k + 1] == spool[1..][k];
    forall j | 0 <= j < k + 1 && spool[j].kind.Entry? ensures spool[j].kind.rec.msgid != id {
      if j > 0 {
        assert spool[j] == spool[1..][j - 1];
      }
    }
  }

  lemma FirstInWhole(a: Spool, b: Spool, i: nat)
    requires i < |a|
    ensures FirstAt(a + b, i) <==> FirstAt(a, i)
  {
    assert forall j :: 0 <= j <= i ==> (a + b)[j] == a[j];
  }

  /** Entry j of `b` is a late twin of entry i of `a` when it repeats its MSGID. */
  lemma TwinInWhole(a: Spool, b: Spool, c: Spool, i: nat, j: nat)
    requires i < |a| && j < |b| && FirstAt(a, i) && a[i].kind.rec.timestamp < 0
    requires b[j].kind.Entry? && b[j].number > a[i].number
    ensures LateTwins(a + b + c, i, |a| + j) <==> b[j].kind.rec.msgid == a[i].kind.rec.msgid
  {
    var all := a + b + c;
    assert all[i] == a[i] && all[|a| + j] == b[j];
    assert all == a + (b + c);
    FirstInWhole(a, b + c, i);
  }

  lemma NoTwinsNoLateTwin(a: Spool, b: Spool, c: Spool)
    requires NoLateTwins(a + b + c) && Continues(a, b)
    ensures NoLateTwin(a, b)
  {
    ContinuesParts(a, b);
    NoneAboveHighest(a);
    NumbersBehind(a, b);
    hide Fits, Fresh, LateTwins, Continues, GoodSpool, GoodEntries, AnyUnparsable, Selected, Highest, FirstAt;
    forall r, f | r in Fresh(a, {}) && !Readable(r) && f in b && f.kind.Entry? ensures f.kind.rec.msgid != r.msgid {
      var i := FreshIsFirst(a, {}, r);
      var j :| 0 <= j < |b| && b[j] == f;
      TwinInWhole(a, b, c, i, j);
      assert !LateTwins(a + b + c, i, |a| + j);
    }
  }

  lemma NumbersBehind(a: Spool, b: Spool)
    requires Continues(a, b)
    ensures forall j :: 0 <= j < |b| ==> b[j].number > Highest(a)
  {
    hide Highest, GoodSpool, AnyUnparsable;
  }

  /** Whatever the batches, as long as no late twin arrives: after each update the disk
      is that of a rebuild. */
  lemma {:induction false} UpdatesEqualRebuild(done: Spool, batches: seq<Spool>)
    requires Arriving(done, batches) && NoLateTwins(done + Joined(batches))
    ensures var d := Disk(Some(WrittenAll(Fresh(done, {}))), Some(Highest(done)));
            UpdateAll(d, done, batches) ==
            Disk(Some(WrittenAll(Fresh(done + Joined(batches), {}))), Some(Highest(done + Joined(batches))))
    decreases |batches|
  {
    hide Fresh, WrittenAll, Highest, Continues, NoLateTwins, AfterUpdate;
    if batches == [] {
      assert done + [] == done;
    } else {
      var b, rest := batches[0], batches[1..];
      assert done + Joined(batches) == (done + b) + Joined(rest);
      NoTwinsNoLateTwin(done, b, Joined(rest));
      OneUpdateIff(done, b);
      RebuildReadable(done, b);
      UpdatesEqualRebuild(done + b, rest);
    }
  }

  lemma RebuildReadable(a: Spool, b: Spool)
    requires Continues(a, b)
    ensures forall d :: AfterRebuild(d, a + b) == Disk(Some(WrittenAll(Fresh(a + b, {}))), Some(Highest(a + b)))
  {
    hide Fresh, WrittenAll, Highest;
  }

  /** The first update, on an empty disk, writes what a rebuild writes. */
  lemma FirstUpdateIsRebuild(a: Spool)
    requires GoodSpool(a) && !AnyUnparsable(a)
    ensures AfterUpdate(NOTHING, a) == Disk(Some(WrittenAll(Fresh(a, {}))), Some(Highest(a)))
  {
    hide Fresh, WrittenAll;
    AllSelected(a, 0);
    NoRecords();
    assert Ids([]) == {};
    var w := WrittenAll(Fresh(a, {}));
    assert "" + ("" + w) == w;
  }

  /** Every way to receive `spool` in batches, one successful update each, ends as one
      rebuild of it does. */
  ghost predicate UpdatesMatchRebuild(spool: Spool) {
    forall a, batches :: GoodSpool(a) && !AnyUnparsable(a) && Arriving(a, batches) && a + Joined(batches) == spool ==>
      UpdateAll(AfterUpdate(NOTHING, a), a, batches) == AfterRebuild(NOTHING, spool)
  }

  /** Incremental equals rebuild - for all ways to split the spool - if and only if no
      MSGID that first appears with a time before 1970 returns under a higher number. */
  lemma IncrementalEqualsRebuildIff(spool: Spool)
    requires GoodSpool(spool) && !AnyUnparsable(spool)
    ensures UpdatesMatchRebuild(spool) <==> NoLateTwins(spool)
  {
    hide Fresh, WrittenAll, Highest, AfterUpdate, UpdateAll, Arriving, GoodSpool, NoLateTwins, AnyUnparsable;
    if NoLateTwins(spool) {
      forall a, batches | GoodSpool(a) && !AnyUnparsable(a) && Arriving(a, batches) && a + Joined(batches) == spool
        ensures UpdateAll(AfterUpdate(NOTHING, a), a, batches) == AfterRebuild(NOTHING, spool) {
        FirstUpdateIsRebuild(a);
        UpdatesEqualRebuild(a, batches);
      }
    } else {
      LateTwinBreaks(spool);
    }
  }

  /** Two updates, one before and one after the twin arrives, do not match. */
  lemma LateTwinBreaks(spool: Spool)
    requires GoodSpool(spool) && !AnyUnparsable(spool) && !NoLateTwins(spool)
    ensures !UpdatesMatchRebuild(spool)
  {
    hide GoodSpool, UpdatesMatchRebuild, AnyUnparsable;
    var i, j :| 0 <= i < j < |spool| && LateTwins(spool, i, j);
    SplitAtTwin(spool, i, j);
  }

  lemma SplitAtTwin(spool: Spool, i: nat, j: nat)
    requires GoodSpool(spool) && !AnyUnparsable(spool) && LateTwins(spool, i, j)
    ensures !UpdatesMatchRebuild(spool)
  {
    hide Fresh, Fits, AfterUpdate, AfterRebuild, UpdatesMatchRebuild, Continues, NoLateTwin, GoodSpool, AnyUnparsable,
         Highest, Selected, Readable, FirstAt;
    InOrder(spool);
    var k := SelectedIsSuffix(spool, spool[i].number);
    var a, b := spool[..k], spool[k..];
    assert i < k <= j && a + b == spool;
    SplitContinues(spool, k, spool[i].number);
    TwinIsLate(a, b, i, j - k);
    LateTwinSplit(a, b);
  }

  lemma LateTwinSplit(a: Spool, b: Spool)
    requires GoodSpool(a) && !AnyUnparsable(a) && Continues(a, b) && !NoLateTwin(a, b)
    ensures !UpdatesMatchRebuild(a + b)
  {
    hide Fresh, WrittenAll, AfterUpdate, AfterRebuild, Fits, UpdateAll, Arriving, NoLateTwin, Continues, GoodSpool;
    OneUpdateIff(a, b);
    RebuildReadable(a, b);
    TwoUpdates(a, b);
  }

  lemma TwinIsLate(a: Spool, b: Spool, i: nat, j: nat)
    requires i < |a| && j < |b| && FirstAt(a + b, i) && a[i].kind.rec.timestamp < 0 && GoodSpool(a)
    requires b[j].kind.Entry? && b[j].kind.rec.msgid == a[i].kind.rec.msgid
    ensures !NoLateTwin(a, b)
  {
    hide Fresh, Fits;
    FirstInWhole(a, b, i);
    FirstIsWritten(a, i, {});
    assert b[j] in b;
  }

  lemma TwoUpdates(a: Spool, b: Spool)
    requires GoodSpool(a) && !AnyUnparsable(a) && Continues(a, b)
    ensures a + Joined([b]) == a + b && Arriving(a, [b])
    ensures UpdateAll(AfterUpdate(NOTHING, a), a, [b]) ==
            AfterUpdate(Disk(Some(WrittenAll(Fresh(a, {}))), Some(Highest(a))), a + b)
  {
    hide Fresh, WrittenAll, AfterUpdate, Continues, GoodSpool, AnyUnparsable;
    FirstUpdateIsRebuild(a);
    assert [b][1..] == [];
    assert Joined([b]) == b + Joined([]) == b;
  }

  lemma SplitContinues(spool: Spool, k: nat, n: nat)
    requires GoodSpool(spool) && !AnyUnparsable(spool) && 0 < k <= |spool|
    requires forall j :: 0 <= j < |spool| ==> (spool[j].number <= n <==> j < k)
    ensures GoodSpool(spool[..k]) && !AnyUnparsable(spool[..k]) && Continues(spool[..k], spool[k..])
  {
    hide GoodSpool, AnyUnparsable;
    var a, b := spool[..k], spool[k..];
    assert a + b == spool;
    PartsOf(a, b);
    assert Highest(a) == spool[k - 1].number <= n;
    forall j | 0 <= j < |b| ensures b[j].number > Highest(a) {
      assert b[j] == spool[k + j];
    }
  }
}
