/** Every run of the oneliner importer, interrupted or not, on a spool that only
    gains files with higher numbers. */
module IbolRuns {
  import opened CText
  import opened IbolDb
  import opened IbolTail
  import opened IbolImport
  import opened IbolHistory

  // ---------- Steps ----------

  /** One event: new files, a whole run, or a run that dies. A dying update leaves
      the first `n` bytes of what it was to append and the old checkpoint; a dying
      rebuild has renamed its new cache into place or has not. */
  datatype Event =
    | Grow(files: Spool)
    | Update
    | TornUpdate(n: nat)
    | Rebuild
    | TornRebuild(installed: bool)

  datatype World = World(disk: Disk, spool: Spool)

  const EMPTY := World(Disk(None, None), [])

  ghost predicate Enabled(w: World, e: Event) {
    match e
    case Grow(files) =>
      GoodSpool(w.spool + files) && forall i :: 0 <= i < |files| ==> files[i].number > Highest(w.spool)
    case TornUpdate(n) => !Refuses(w.disk, w.spool) && n <= |Appended(w.disk, w.spool)|
    case _ => true
  }

  ghost function After(w: World, e: Event): World
    requires Enabled(w, e)
  {
    match e
    case Grow(files) => w.(spool := w.spool + files)
    case Update => w.(disk := AfterUpdate(w.disk, w.spool))
    case TornUpdate(n) =>
      w.(disk := Disk(Some(Contents(w.disk.cache) + Appended(w.disk, w.spool)[..n]), w.disk.state))
    case Rebuild => w.(disk := AfterRebuild(w.disk, w.spool))
    case TornRebuild(installed) =>
      if installed then w.(disk := Disk(AfterRebuild(w.disk, w.spool).cache, w.disk.state)) else w
  }

  ghost predicate Run(w: World, events: seq<Event>)
    decreases |events|
  {
    events == [] || (Enabled(w, events[0]) && Run(After(w, events[0]), events[1..]))
  }

  ghost function End(w: World, events: seq<Event>): World
    requires Run(w, events)
    decreases |events|
  {
    if events == [] then w else End(After(w, events[0]), events[1..])
  }

  // ---------- The invariant ----------

  /** Everything numbered up to the checkpoint was readable, and its MSGID is in a
      valid record of the cache. */
  ghost predicate Covered(d: Disk, spool: Spool) {
    forall i :: 0 <= i < |spool| && spool[i].number <= Checkpoint(d.state) ==>
      !spool[i].kind.Unparsable? &&
      (spool[i].kind.Entry? ==> spool[i].kind.rec.msgid in Ids(Records(Contents(d.cache))))
  }

  /** Nothing unreadable lies at or below the checkpoint. */
  ghost predicate NoneSkipped(d: Disk, spool: Spool) {
    forall i :: 0 <= i < |spool| && spool[i].number <= Checkpoint(d.state) ==> !spool[i].kind.Unparsable?
  }

  /** File `i` has a number below every unreadable file's: a checkpoint can pass it. */
  ghost predicate InReach(spool: Spool, i: nat)
    requires i < |spool|
  {
    forall k :: 0 <= k < |spool| && spool[k].kind.Unparsable? ==> spool[i].number < spool[k].number
  }

  /** No MSGID makes its first appearance there with a time before 1970. */
  ghost predicate StampsOkInReach(spool: Spool) {
    forall i :: 0 <= i < |spool| && InReach(spool, i) && FirstAt(spool, i) ==> spool[i].kind.rec.timestamp >= 0
  }

  lemma AllInReach(spool: Spool)
    requires !AnyUnparsable(spool)
    ensures StampsOkInReach(spool) <==> StampsOk(spool)
  {
    forall i | 0 <= i < |spool| ensures InReach(spool, i) {
    }
  }

  ghost predicate Sound(w: World) {
    && GoodSpool(w.spool)
    && '\r' !in Contents(w.disk.cache)
    && DistinctMsgids(Records(Contents(w.disk.cache)))
    && Checkpoint(w.disk.state) <= Highest(w.spool)
    && (w.disk.state.Some? ==> w.disk.cache.Some?)
    && NoneSkipped(w.disk, w.spool)
    && (StampsOkInReach(w.spool) ==> Covered(w.disk, w.spool))
  }

  // ---------- What appending comes to ----------

  /** A missing line end added in front of new records changes no record. */
  lemma SeparatorKeepsRecords(c: string)
    requires '\r' !in c
    ensures LineAligned(c + Separator(c)) && Records(c + Separator(c)) == Records(c) && '\r' !in c + Separator(c)
  {
    if Separator(c) == "" {
      assert c + "" == c;
      assert c != "" ==> c[|c| - 1] in c;
    } else {
      ViewsAgree(c);
      ViewsAgree(c + "\n");
      hide Records, PhysicalRecords;
      TrailingEol(c, '\n');
    }
  }

  lemma {:induction false} WrittenWithoutCr(recs: seq<Record>)
    requires AllFit(recs)
    ensures '\r' !in WrittenAll(recs)
  {
    hide RecordLine;
    if recs != [] {
      RecordOneLine(recs[0]);
      WrittenWithoutCr(recs[1..]);
    }
  }

  lemma EntriesOf(spool: Spool)
    requires GoodSpool(spool)
    ensures GoodEntries(spool)
  {
  }

  lemma {:induction false} EntriesFrom(spool: Spool, i: nat)
    requires GoodEntries(spool) && i <= |spool|
    ensures GoodEntries(spool[i..])
  {
    forall j | 0 <= j < |spool[i..]| && spool[i..][j].kind.Entry?
      ensures Fits(spool[i..][j].kind.rec) && spool[i..][j].kind.rec.msgid != "" {
      assert spool[i..][j] == spool[i + j];
    }
  }

  lemma {:induction false} ReadableAreWritten(recs: seq<Record>, r: Record)
    requires r in ReadableOnes(recs)
    ensures r in recs && Readable(r)
  {
    hide Readable;
    if Readable(recs[0]) && r == recs[0] {
    } else {
      ReadableAreWritten(recs[1..], r);
      assert r in recs[1..];
    }
  }

  lemma {:induction false} ReadableDistinct(recs: seq<Record>)
    requires DistinctMsgids(recs)
    ensures DistinctMsgids(ReadableOnes(recs))
  {
    hide Readable;
    if recs != [] {
      assert DistinctMsgids(recs[1..]);
      ReadableDistinct(recs[1..]);
      forall r | r in ReadableOnes(recs[1..]) ensures r.msgid != recs[0].msgid {
        ReadableAreWritten(recs[1..], r);
        var j :| 0 <= j < |recs[1..]| && recs[1..][j] == r;
        assert recs[j + 1] == r;
      }
    }
  }

  /** Torn or whole, what is read of new records are new MSGIDs, each once. */
  lemma TornIsNew(recs: seq<Record>, read: seq<Record>, k: nat, ids: set<string>)
    requires DistinctMsgids(recs) && (forall r :: r in recs ==> r.msgid !in ids) && TornReading(recs, read, k)
    ensures DistinctMsgids(read) && forall r :: r in read ==> r.msgid !in ids
  {
    hide Readable;
    var whole := ReadableOnes(recs[..k]);
    ReadableDistinct(recs[..k]);
    forall r | r in whole ensures r.msgid !in ids && forall j :: k <= j < |recs| ==> recs[j].msgid != r.msgid {
      ReadableAreWritten(recs[..k], r);
      var i :| 0 <= i < k && recs[..k][i] == r;
      assert recs[i] == r;
    }
  }

  lemma DistinctConcat(a: seq<Record>, b: seq<Record>)
    requires DistinctMsgids(a) && DistinctMsgids(b) && forall r :: r in b ==> r.msgid !in Ids(a)
    ensures DistinctMsgids(a + b)
  {
    forall i, j | 0 <= i < |a| && 0 <= j < |b| ensures a[i].msgid != b[j].msgid {
      assert a[i] in a && b[j] in b;
    }
  }

  /** A cache with any beginning of what an update appends: still one record per
      MSGID, and no record lost. */
  lemma AppendKeeps(w: World, n: nat)
    requires Sound(w) && n <= |Appended(w.disk, w.spool)|
    ensures var c, c' := Contents(w.disk.cache), Contents(w.disk.cache) + Appended(w.disk, w.spool)[..n];
            '\r' !in c' && DistinctMsgids(Records(c')) && Ids(Records(c)) <= Ids(Records(c'))
  {
    hide Records, Fits, WrittenAll, Separator, Checkpoint;
    var c := Contents(w.disk.cache);
    var sep, ids := Separator(c), Ids(Records(c));
    var checkpoint := Checkpoint(w.disk.state);
    var recs := Fresh(Selected(w.spool, checkpoint), ids);
    SelectedGood(w.spool, checkpoint);
    FreshIsNew(Selected(w.spool, checkpoint), ids);
    WrittenWithoutCr(recs);
    SeparatorKeepsRecords(c);
    SeparatorShort(c);
    var all := WrittenAll(recs);
    if n == 0 {
      assert c + (sep + all)[..0] == c;
    } else {
      var q := all[..n - |sep|];
      assert c + (sep + all)[..n] == (c + sep) + q;
      RecordsConcat(c + sep, q);
      var k := TornAppend(recs, q);
      TornIsNew(recs, Records(q), k, ids);
      DistinctConcat(Records(c), Records(q));
      IdsOfConcat(Records(c), Records(q));
    }
  }

  lemma SeparatorShort(c: string)
    ensures |Separator(c)| <= 1
  {
  }

  lemma SelectedGood(spool: Spool, checkpoint: nat)
    requires GoodSpool(spool)
    ensures GoodEntries(Selected(spool, checkpoint))
  {
    var i := SelectedIsSuffix(spool, checkpoint);
    EntriesOf(spool);
    EntriesFrom(spool, i);
  }

  // ---------- Every event keeps the invariant ----------

  /** A whole update reads back as the old records and the fresh ones that are readable. */
  lemma WholeUpdateReads(c: string, recs: seq<Record>)
    requires '\r' !in c && AllFit(recs)
    ensures Records(c + (Separator(c) + WrittenAll(recs))) == Records(c) + ReadableOnes(recs)
  {
    hide Records, Separator, WrittenAll;
    SeparatorKeepsRecords(c);
    RecordsOfAll(recs);
    ConcatAssociative(c, Separator(c), WrittenAll(recs));
    RecordsConcat(c + Separator(c), WrittenAll(recs));
  }

  lemma InSelected(spool: Spool, i: nat, j: nat)
    requires i <= j < |spool|
    ensures spool[j] in spool[i..]
  {
    assert spool[i..][j - i] == spool[j];
  }

  lemma UpdateCovers(w: World)
    requires Sound(w) && !Refuses(w.disk, w.spool) && StampsOk(w.spool)
    requires !AnyUnparsable(Selected(w.spool, Checkpoint(w.disk.state)))
    ensures Covered(AfterUpdate(w.disk, w.spool), w.spool)
  {
    hide Records, Fits, WrittenAll, Separator, Highest;
    var c, checkpoint, spool := Contents(w.disk.cache), Checkpoint(w.disk.state), w.spool;
    var i := SelectedIsSuffix(spool, checkpoint);
    hide Selected;
    var files, ids := spool[i..], Ids(Records(c));
    EntriesOf(spool);
    EntriesFrom(spool, i);
    FreshIsNew(files, ids);
    var recs := Fresh(files, ids);
    assert CoversUpTo(spool, i, ids);
    FreshReadable(spool, i, ids);
    WholeUpdateReads(c, recs);
    IdsOfConcat(Records(c), recs);
    forall j | 0 <= j < |spool|
      ensures !spool[j].kind.Unparsable? && (spool[j].kind.Entry? ==> spool[j].kind.rec.msgid in ids + Ids(recs)) {
      if j >= i {
        InSelected(spool, i, j);
        assert files[j - i] == spool[j];
      }
    }
  }

  lemma UpdateSkipsNone(w: World)
    requires Sound(w) && !Refuses(w.disk, w.spool)
    ensures NoneSkipped(AfterUpdate(w.disk, w.spool), w.spool)
    ensures Checkpoint(AfterUpdate(w.disk, w.spool).state) <= Highest(w.spool)
  {
    hide Records, Fits, WrittenAll, Separator, Highest, Fresh;
    var spool, checkpoint := w.spool, Checkpoint(w.disk.state);
    var i := SelectedIsSuffix(spool, checkpoint);
    hide Selected;
    if !AnyUnparsable(spool[i..]) {
      forall j | 0 <= j < |spool| ensures !spool[j].kind.Unparsable? {
        if j >= i {
          assert spool[i..][j - i] == spool[j];
        }
      }
    }
  }

  lemma UpdateKeepsSound(w: World)
    requires Sound(w)
    ensures Sound(w.(disk := AfterUpdate(w.disk, w.spool)))
  {
    hide Records, Appended, Refuses, StampsOk, StampsOkInReach, Highest, GoodSpool, DistinctMsgids;
    if !Refuses(w.disk, w.spool) {
      var app := Appended(w.disk, w.spool);
      assert app[..|app|] == app;
      AppendKeeps(w, |app|);
      UpdateSkipsNone(w);
      if StampsOkInReach(w.spool) && !AnyUnparsable(Selected(w.spool, Checkpoint(w.disk.state))) {
        NoneUnparsable(w);
        AllInReach(w.spool);
        UpdateCovers(w);
      }
    }
  }

  lemma NoneUnparsable(w: World)
    requires Sound(w) && !AnyUnparsable(Selected(w.spool, Checkpoint(w.disk.state)))
    ensures !AnyUnparsable(w.spool)
  {
    hide Records, Fits, DistinctMsgids, Selected, StampsOkInReach, Covered;
    var spool := w.spool;
    var i := SelectedIsSuffix(spool, Checkpoint(w.disk.state));
    forall j | 0 <= j < |spool| ensures !spool[j].kind.Unparsable? {
      if j >= i {
        assert spool[i..][j - i] == spool[j];
      }
    }
  }

  lemma TornUpdateKeepsSound(w: World, n: nat)
    requires Sound(w) && Enabled(w, TornUpdate(n))
    ensures Sound(After(w, TornUpdate(n)))
  {
    hide Records, Appended, Refuses, StampsOkInReach, Highest, GoodSpool, DistinctMsgids;
    AppendKeeps(w, n);
  }

  lemma FirstOfAll(spool: Spool)
    requires GoodEntries(spool)
    ensures var cache, recs := WrittenAll(Fresh(spool, {})), Fresh(spool, {});
            && '\r' !in cache && Records(cache) == ReadableOnes(recs) && DistinctMsgids(Records(cache))
            && (StampsOk(spool) ==> ReadableOnes(recs) == recs)
            && (forall j :: 0 <= j < |spool| && spool[j].kind.Entry? ==> spool[j].kind.rec.msgid in Ids(recs))
  {
    hide Records, Fits, WrittenAll, Fresh;
    var recs := Fresh(spool, {});
    FreshIsNew(spool, {});
    RecordsOfAll(recs);
    WrittenWithoutCr(recs);
    ReadableDistinct(recs);
    assert spool[0..] == spool;
    if StampsOk(spool) {
      FreshReadable(spool, 0, {});
    }
    forall j | 0 <= j < |spool| && spool[j].kind.Entry? ensures spool[j].kind.rec.msgid in Ids(recs) {
      assert spool[j] in spool;
      assert spool[j].kind.rec.msgid in {} + Ids(recs);
    }
  }

  lemma {:induction false} ReadableKept(recs: seq<Record>, r: Record)
    requires r in recs && Readable(r)
    ensures r in ReadableOnes(recs)
  {
    hide Readable;
    if r != recs[0] {
      assert r in recs[1..];
      ReadableKept(recs[1..], r);
    }
  }

  /** The first file with the MSGID of entry `j`. */
  lemma {:induction false} FirstWith(spool: Spool, j: nat) returns (i: nat)
    requires j < |spool| && spool[j].kind.Entry?
    ensures i <= j && FirstAt(spool, i) && spool[i].kind.rec.msgid == spool[j].kind.rec.msgid
    decreases j
  {
    if k :| 0 <= k < j && spool[k].kind.Entry? && spool[k].kind.rec.msgid == spool[j].kind.rec.msgid {
      i := FirstWith(spool, k);
    } else {
      i := j;
    }
  }

  /** A rebuilt cache holds every MSGID of an entry in reach. */
  lemma RebuildHolds(spool: Spool, j: nat)
    requires GoodSpool(spool) && StampsOkInReach(spool)
    requires j < |spool| && InReach(spool, j) && spool[j].kind.Entry?
    ensures spool[j].kind.rec.msgid in Ids(Records(WrittenAll(Fresh(spool, {}))))
  {
    hide Records, Fits, WrittenAll, Fresh, InReach;
    EntriesOf(spool);
    FirstOfAll(spool);
    var i := FirstWith(spool, j);
    ReachEarlier(spool, i, j);
    FirstIsWritten(spool, i, {});
    ReadableKept(Fresh(spool, {}), spool[i].kind.rec);
  }

  lemma ReachEarlier(spool: Spool, i: nat, j: nat)
    requires i <= j < |spool| && InReach(spool, j)
    requires forall p, q :: 0 <= p < q < |spool| ==> spool[p].number <= spool[q].number
    ensures InReach(spool, i)
  {
  }

  lemma RebuildKeepsSound(w: World, state: Option<nat>)
    requires Sound(w)
    requires state == w.disk.state || (state == Some(Highest(w.spool)) && !AnyUnparsable(w.spool))
    ensures Sound(w.(disk := Disk(AfterRebuild(w.disk, w.spool).cache, state)))
  {
    hide Records, Fits, WrittenAll, Fresh, StampsOkInReach, InReach, Highest;
    EntriesOf(w.spool);
    FirstOfAll(w.spool);
    if StampsOkInReach(w.spool) {
      forall j | 0 <= j < |w.spool| && w.spool[j].number <= Checkpoint(state) && w.spool[j].kind.Entry?
        ensures w.spool[j].kind.rec.msgid in Ids(Records(WrittenAll(Fresh(w.spool, {})))) {
        CheckpointInReach(w.spool, Checkpoint(state), j);
        RebuildHolds(w.spool, j);
      }
    }
    hide GoodSpool, DistinctMsgids;
  }

  lemma CheckpointInReach(spool: Spool, n: nat, j: nat)
    requires j < |spool| && spool[j].number <= n
    requires forall k :: 0 <= k < |spool| && spool[k].number <= n ==> !spool[k].kind.Unparsable?
    ensures InReach(spool, j)
  {
  }

  lemma StampsOkPrefix(spool: Spool, files: Spool)
    requires StampsOkInReach(spool + files) && (forall i :: 0 <= i < |files| ==> files[i].number > Highest(spool))
    requires forall i :: 0 <= i < |spool| ==> spool[i].number <= Highest(spool)
    ensures StampsOkInReach(spool)
  {
    hide Highest;
    var all := spool + files;
    assert forall j :: 0 <= j < |spool| ==> all[j] == spool[j];
    forall i | 0 <= i < |spool| && InReach(spool, i) && FirstAt(spool, i) ensures spool[i].kind.rec.timestamp >= 0 {
      forall k | 0 <= k < |all| && all[k].kind.Unparsable? ensures all[i].number < all[k].number {
        assert k >= |spool| ==> all[k] == files[k - |spool|];
      }
      assert InReach(all, i) && FirstAt(all, i);
    }
  }

  lemma GrowKeepsSound(w: World, files: Spool)
    requires Sound(w) && Enabled(w, Grow(files))
    ensures Sound(After(w, Grow(files)))
  {
    hide Records, Fits, DistinctMsgids, StampsOkInReach;
    var spool' := w.spool + files;
    assert Highest(spool') >= Highest(w.spool);
    assert forall i :: 0 <= i < |w.spool| ==> w.spool[i].number <= Highest(w.spool);
    hide Highest;
    forall i | |w.spool| <= i < |spool'| ensures spool'[i].number > Checkpoint(w.disk.state) {
      assert spool'[i] == files[i - |w.spool|];
    }
    assert forall i :: 0 <= i < |w.spool| ==> spool'[i] == w.spool[i];
    if StampsOkInReach(spool') {
      StampsOkPrefix(w.spool, files);
    }
  }

  lemma EventKeepsSound(w: World, e: Event)
    requires Sound(w) && Enabled(w, e)
    ensures Sound(After(w, e))
  {
    hide Sound;
    match e
    case Grow(files) => GrowKeepsSound(w, files);
    case Update => UpdateKeepsSound(w);
    case TornUpdate(n) => TornUpdateKeepsSound(w, n);
    case Rebuild => RebuildKeepsSound(w, AfterRebuild(w.disk, w.spool).state);
    case TornRebuild(installed) => RebuildKeepsSound(w, w.disk.state);
  }

  lemma {:induction false} RunKeepsSound(w: World, events: seq<Event>)
    requires Sound(w) && Run(w, events)
    ensures Sound(End(w, events))
    decreases |events|
  {
    hide Sound, Enabled, After;
    if events != [] {
      EventKeepsSound(w, events[0]);
      RunKeepsSound(After(w, events[0]), events[1..]);
    }
  }

  lemma EmptyIsSound()
    ensures Sound(EMPTY)
  {
    NoRecords();
  }

  /** After every history from an empty disk, with runs dying anywhere: no MSGID in
      two valid records, nothing unreadable passed over by the checkpoint, and - when no
      MSGID first appears, below the first unreadable file, with a time before 1970 -
      every entry up to the checkpoint in the cache. */
  lemma EveryHistorySafe(events: seq<Event>)
    requires Run(EMPTY, events)
    ensures var w := End(EMPTY, events);
            && DistinctMsgids(Records(Contents(w.disk.cache)))
            && NoneSkipped(w.disk, w.spool)
            && (StampsOkInReach(w.spool) ==> Covered(w.disk, w.spool))
  {
    hide End, Run, StampsOkInReach, Covered, NoneSkipped, DistinctMsgids;
    EmptyIsSound();
    RunKeepsSound(EMPTY, events);
  }
}
