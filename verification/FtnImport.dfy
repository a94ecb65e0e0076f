/** The real run: import_all_ftn()'s multi-pass loop over the spool, which grows
    the index of stored texts as it goes, and how it compares with the dry run. */
module FtnImport {
  import opened FtnAddress
  import opened FtnIndex
  import opened FtnPlan
  import opened FtnStore
  import opened FtnScan
  import opened FtnEcho

  /** One import: the message, the parent text it was given, and the reason noted
      for an unsafe fallback ("" for none). */
  datatype Placed = Placed(item: MsgItem, com: int, reason: string)

  /** The index after the messages of `run` became texts first, first + 1, ... */
  function Grown(sk: seq<SkRef>, first: int, run: seq<Placed>): seq<SkRef> {
    if run == [] then sk
    else [SkRef(run[|run| - 1].item.msg.msgid, first + |run| - 1)] + Grown(sk, first, run[..|run| - 1])
  }

  function PostOf(area: string, p: Placed, stamp: FidoMsg -> int): Post {
    Post(stamp(p.item.msg), p.com, p.item.msg.subject, Mbuf(area, p.item.msg, p.reason))
  }

  /** The files after the messages of `run` were stored. */
  function StoreRun(files: map<int, string>, first: int, area: string, run: seq<Placed>,
                    stamp: FidoMsg -> int): map<int, string> {
    if run == [] then files
    else StoreText(StoreRun(files, first, area, run[..|run| - 1], stamp), first + |run| - 1,
                   PostOf(area, run[|run| - 1], stamp))
  }

  /** Whether a pass imports `m` when the index is `seen`. */
  predicate Due(seen: seq<SkRef>, m: MsgItem, unsafe: bool) {
    m.msg.msgid != "" && !Stored(seen, m.msg.msgid) && (unsafe || Anchored(seen, m))
  }

  /** The k-th import was due, and was hung where the index then said. */
  ghost predicate PlacedRight(items: seq<MsgItem>, sk: seq<SkRef>, first: int, unsafe: bool, run: seq<Placed>, k: nat)
    requires k < |run|
  {
    var m, seen := run[k].item, Grown(sk, first, run[..k]);
    m in items && Due(seen, m, unsafe) && run[k].com == LookupText(seen, m.msg.reply)
  }

  ghost predicate GoodRun(items: seq<MsgItem>, sk: seq<SkRef>, first: int, unsafe: bool, run: seq<Placed>) {
    forall k :: 0 <= k < |run| ==> PlacedRight(items, sk, first, unsafe, run, k)
  }

  /** No further pass over `items` would import anything. */
  ghost predicate Settled(items: seq<MsgItem>, sk: seq<SkRef>, unsafe: bool) {
    forall m :: m in items ==> !Due(sk, m, unsafe)
  }

  method FindMsgref(items: seq<MsgItem>, msgid: string) returns (found: bool)
    ensures found <==> msgid != "" && exists m :: m in items && m.msg.msgid == msgid
  {
    if msgid == "" {
      return false;
    }
    var p := 0;
    while p < |items|
      invariant 0 <= p <= |items|
      invariant forall i :: 0 <= i < p ==> items[i].msg.msgid != msgid
    {
      if items[p].msg.msgid == msgid {
        return true;
      }
      p := p + 1;
    }
    return false;
  }

  lemma GrowRun(items: seq<MsgItem>, sk: seq<SkRef>, first: int, unsafe: bool, run: seq<Placed>, p: Placed)
    requires GoodRun(items, sk, first, unsafe, run)
    requires var seen := Grown(sk, first, run);
             p.item in items && Due(seen, p.item, unsafe) && p.com == LookupText(seen, p.item.msg.reply)
    ensures GoodRun(items, sk, first, unsafe, run + [p])
    ensures Grown(sk, first, run + [p]) == [SkRef(p.item.msg.msgid, first + |run|)] + Grown(sk, first, run)
  {
    hide Grown, Due, LookupText;
    var run' := run + [p];
    assert run'[..|run|] == run;
    GrownUnfold(sk, first, run');
    forall k | 0 <= k < |run'| ensures PlacedRight(items, sk, first, unsafe, run', k) {
      if k < |run| {
        assert run'[..k] == run[..k];
        assert PlacedRight(items, sk, first, unsafe, run, k);
      }
    }
  }

  lemma GrownUnfold(sk: seq<SkRef>, first: int, run: seq<Placed>)
    ensures Grown(sk, first, run) ==
            if run == [] then sk
            else [SkRef(run[|run| - 1].item.msg.msgid, first + |run| - 1)] + Grown(sk, first, run[..|run| - 1])
  {
  }

  /** The messages still waiting: with a MSGID, and not stored. */
  ghost function Waiting(items: seq<MsgItem>, sk: seq<SkRef>): set<MsgItem> {
    set m | m in items && m.msg.msgid != "" && !Stored(sk, m.msg.msgid)
  }

  /** Why an unsafe import is no ordinary one; "" when it is. */
  method UnsafeReason(items: seq<MsgItem>, m: MsgItem, com: int) returns (reason: string)
    ensures m.msg.reply == "" ==> reason == if MarkedReply(m.msg.subject) then "re-no-reply" else ""
    ensures m.msg.reply != "" && com > 0 ==> reason == ""
    ensures m.msg.reply != "" && com <= 0 ==>
              reason == if exists p :: p in items && p.msg.msgid == m.msg.reply then "deferred" else "orphan"
  {
    reason := "";
    LooksLikeReplyIff(m.msg.subject);
    if m.msg.reply == "" {
      if LooksLikeReply(m.msg.subject) {
        reason := "re-no-reply";
      }
    } else if com <= 0 {
      var inSpool := FindMsgref(items, m.msg.reply);
      reason := if inSpool then "deferred" else "orphan";
    }
  }

  /** One message of one pass: skipped, or stored with its entry added to the index. */
  method ImportOne(conf: Conference, items: seq<MsgItem>, m: MsgItem, area: string, unsafe: bool,
                   stamp: FidoMsg -> int, refs: seq<SkRef>)
    returns (skrefs: seq<SkRef>, done: bool, ghost p: Placed)
    requires GoodRefs(refs, conf.lastText + 1)
    modifies conf
    ensures done <==> Due(refs, m, unsafe)
    ensures !done ==> skrefs == refs && conf.lastText == old(conf.lastText) && conf.files == old(conf.files)
    ensures done ==> skrefs == [SkRef(m.msg.msgid, conf.lastText)] + refs && conf.lastText == old(conf.lastText) + 1
    ensures done ==> p.item == m && p.com == LookupText(refs, m.msg.reply) && 0 <= p.com <= old(conf.lastText)
    ensures done ==> conf.files == StoreText(old(conf.files), conf.lastText, PostOf(area, p, stamp))
    ensures done ==> conf.posts == old(conf.posts) + [PostOf(area, p, stamp)]
    ensures done && old(conf.Threaded()) && WholeLines(m.msg.cleanBody) ==> conf.Threaded()
    ensures !done ==> conf.posts == old(conf.posts)
  {
    hide LooksLikeReply, StoreText, Mbuf, WholeLines;
    skrefs, done, p := refs, false, Placed(m, 0, "");
    if m.msg.msgid == "" {
      return;
    }
    var already := FindSkref(refs, m.msg.msgid);
    if already > 0 {
      return;
    }
    if m.msg.reply == "" && LooksLikeReply(m.msg.subject) && !unsafe {
      return;
    }
    var com := FindSkref(refs, m.msg.reply);
    LookupBelow(refs, m.msg.reply, conf.lastText + 1);
    if m.msg.reply != "" && com <= 0 && !unsafe {
      return;
    }
    var reason := UnsafeReason(items, m, com);
    var text := conf.SendFtn(area, m.msg, com, reason, stamp(m.msg));
    skrefs := AddSkref(refs, m.msg.msgid, text);
    done, p := true, Placed(m, com, reason);
  }

  lemma LookupBelow(refs: seq<SkRef>, id: string, bound: nat)
    requires GoodRefs(refs, bound)
    ensures 0 <= LookupText(refs, id) && (bound > 0 ==> LookupText(refs, id) < bound)
  {
    LookupFinds(refs, id, bound);
  }

  lemma LookupOfCons(entry: SkRef, refs: seq<SkRef>, id: string)
    ensures LookupText([entry] + refs, id) ==
            if id != "" && entry.msgid == id then entry.textnum else LookupText(refs, id)
  {
    assert ([entry] + refs)[1..] == refs;
  }

  lemma StoreRunStep(files: map<int, string>, first: int, area: string, run: seq<Placed>, p: Placed,
                     stamp: FidoMsg -> int)
    ensures StoreRun(files, first, area, run + [p], stamp)
         == StoreText(StoreRun(files, first, area, run, stamp), first + |run|, PostOf(area, p, stamp))
  {
    hide StoreText, PostOf;
    assert (run + [p])[..|run|] == run;
  }

  /** One pass over the spool, in its order. */
  method ImportPass(conf: Conference, items: seq<MsgItem>, area: string, unsafe: bool, stamp: FidoMsg -> int,
                    refs: seq<SkRef>, ghost sk: seq<SkRef>, ghost first: int, ghost run0: seq<Placed>,
                    ghost files0: map<int, string>)
    returns (skrefs: seq<SkRef>, changed: bool, added: nat, ghost run: seq<Placed>)
    requires GoodRun(items, sk, first, unsafe, run0) && refs == Grown(sk, first, run0)
    requires conf.lastText + 1 == first + |run0| && GoodRefs(refs, conf.lastText + 1)
    requires conf.files == StoreRun(files0, first, area, run0, stamp)
    modifies conf
    ensures GoodRun(items, sk, first, unsafe, run) && skrefs == Grown(sk, first, run)
    ensures conf.lastText + 1 == first + |run| && GoodRefs(skrefs, conf.lastText + 1)
    ensures conf.files == StoreRun(files0, first, area, run, stamp)
    ensures |run| == |run0| + added && (changed <==> added > 0)
    ensures changed ==> Waiting(items, skrefs) < Waiting(items, refs)
    ensures !changed ==> Settled(items, skrefs, unsafe)
    ensures old(conf.Threaded()) && (forall m :: m in items ==> WholeLines(m.msg.cleanBody)) ==> conf.Threaded()
  {
    hide Grown, GoodRun, GoodRefs, Settled, Waiting, StoreRun, StoreText, Due, PostOf, WholeLines;
    skrefs, changed, added, run := refs, false, 0, run0;
    NothingPending(skrefs, unsafe);
    for i := 0 to |items|
      invariant GoodRun(items, sk, first, unsafe, run) && skrefs == Grown(sk, first, run)
      invariant conf.lastText + 1 == first + |run| && GoodRefs(skrefs, conf.lastText + 1)
      invariant conf.files == StoreRun(files0, first, area, run, stamp)
      invariant |run| == |run0| + added && (changed <==> added > 0)
      invariant changed ==> Waiting(items, skrefs) < Waiting(items, refs)
      invariant !changed ==> skrefs == refs && Settled(items[..i], skrefs, unsafe)
      invariant old(conf.Threaded()) && (forall m :: m in items ==> WholeLines(m.msg.cleanBody)) ==> conf.Threaded()
    {
      var m := items[i];
      ghost var before := skrefs;
      var done;
      ghost var p;
      skrefs, done, p := ImportOne(conf, items, m, area, unsafe, stamp, skrefs);
      if !done {
        SettledMore(items, i, before, unsafe);
      } else {
        OneRefMore(before, m, unsafe, conf.lastText);
        GrowRun(items, sk, first, unsafe, run, p);
        StoreRunStep(files0, first, area, run, p, stamp);
        OneLessWaiting(items, before, m, unsafe, conf.lastText);
        run, changed, added := run + [p], true, added + 1;
      }
    }
    assert items[..|items|] == items;
  }

  lemma NothingPending(refs: seq<SkRef>, unsafe: bool)
    ensures Settled([], refs, unsafe)
  {
  }

  lemma SettledMore(items: seq<MsgItem>, i: nat, refs: seq<SkRef>, unsafe: bool)
    requires i < |items| && !Due(refs, items[i], unsafe)
    ensures Settled(items[..i], refs, unsafe) ==> Settled(items[..i + 1], refs, unsafe)
  {
    hide Due;
    assert items[..i + 1] == items[..i] + [items[i]];
  }

  lemma OneRefMore(refs: seq<SkRef>, m: MsgItem, unsafe: bool, text: int)
    requires GoodRefs(refs, text) && Due(refs, m, unsafe) && text > 0
    ensures GoodRefs([SkRef(m.msg.msgid, text)] + refs, text + 1)
  {
  }

  lemma OneLessWaiting(items: seq<MsgItem>, refs: seq<SkRef>, m: MsgItem, unsafe: bool, text: int)
    requires m in items && Due(refs, m, unsafe) && text > 0
    ensures Waiting(items, [SkRef(m.msg.msgid, text)] + refs) < Waiting(items, refs)
  {
    var entry := SkRef(m.msg.msgid, text);
    forall x | x in items ensures Stored(refs, x.msg.msgid) ==> Stored([entry] + refs, x.msg.msgid) {
      LookupOfCons(entry, refs, x.msg.msgid);
    }
    LookupOfCons(entry, refs, m.msg.msgid);
    assert m !in Waiting(items, [entry] + refs);
  }

  /** import_all_ftn() from its index on: passes until one imports nothing. */
  method ImportAll(conf: Conference, items: seq<MsgItem>, area: string, unsafe: bool, stamp: FidoMsg -> int,
                   sk: seq<SkRef>)
    returns (skrefs: seq<SkRef>, imported: nat, ghost run: seq<Placed>)
    requires GoodRefs(sk, conf.lastText + 1)
    modifies conf
    ensures GoodRun(items, sk, old(conf.lastText) + 1, unsafe, run)
    ensures skrefs == Grown(sk, old(conf.lastText) + 1, run) && Settled(items, skrefs, unsafe)
    ensures imported == |run| && conf.lastText == old(conf.lastText) + imported
    ensures conf.files == StoreRun(old(conf.files), old(conf.lastText) + 1, area, run, stamp)
    ensures old(conf.Threaded()) && (forall m :: m in items ==> WholeLines(m.msg.cleanBody)) ==> conf.Threaded()
    ensures !unsafe ==> forall k :: 0 <= k < |run| && run[k].item.msg.reply == "" ==>
              !MarkedReply(run[k].item.msg.subject)
  {
    hide Due, WholeLines;
    ghost var first, files0 := conf.lastText + 1, conf.files;
    skrefs, run, imported := sk, [], 0;
    var changed := true;
    while changed
      invariant GoodRun(items, sk, first, unsafe, run) && skrefs == Grown(sk, first, run)
      invariant conf.lastText + 1 == first + |run| && GoodRefs(skrefs, conf.lastText + 1)
      invariant conf.files == StoreRun(files0, first, area, run, stamp) && imported == |run|
      invariant !changed ==> Settled(items, skrefs, unsafe)
      invariant old(conf.Threaded()) && (forall m :: m in items ==> WholeLines(m.msg.cleanBody)) ==> conf.Threaded()
      decreases changed, Waiting(items, skrefs)
    {
      var added;
      skrefs, changed, added, run := ImportPass(conf, items, area, unsafe, stamp, skrefs, sk, first, run, files0);
      imported := imported + added;
    }
    if !unsafe {
      NoMarkedStart(items, sk, first, run);
    }
  }

  /** A safe run never imports "Re: ..." without REPLY. */
  lemma NoMarkedStart(items: seq<MsgItem>, sk: seq<SkRef>, first: int, run: seq<Placed>)
    requires GoodRun(items, sk, first, false, run)
    ensures forall k :: 0 <= k < |run| && run[k].item.msg.reply == "" ==> !MarkedReply(run[k].item.msg.subject)
  {
    hide LooksLikeReply, MarkedReply, Grown;
    forall k | 0 <= k < |run| && run[k].item.msg.reply == "" ensures !MarkedReply(run[k].item.msg.subject) {
      assert PlacedRight(items, sk, first, false, run, k);
      LooksLikeReplyIff(run[k].item.msg.subject);
      NothingStored(Grown(sk, first, run[..k]));
    }
  }

  // ---------- What a safe run imports ----------

  /** `t` is the text of an import carrying `id`, or `before` when none does. */
  ghost predicate FoundIn(first: int, run: seq<Placed>, id: string, before: int, t: int) {
    (exists k :: 0 <= k < |run| && t == first + k && run[k].item.msg.msgid == id) ||
    (t == before && forall k :: 0 <= k < |run| ==> run[k].item.msg.msgid != id)
  }

  lemma FoundEarlier(first: int, run: seq<Placed>, n: nat, id: string, before: int, t: int)
    requires |run| == n + 1 && run[n].item.msg.msgid != id && FoundIn(first, run[..n], id, before, t)
    ensures FoundIn(first, run, id, before, t)
  {
    if k :| 0 <= k < n && t == first + k && run[..n][k].item.msg.msgid == id {
      assert run[k].item.msg.msgid == id;
    } else {
      assert forall k :: 0 <= k < n ==> run[k] == run[..n][k];
    }
  }

  /** The grown index finds the newest import carrying the MSGID, else the old entry. */
  lemma {:induction false} LookupGrown(sk: seq<SkRef>, first: int, run: seq<Placed>, id: string)
    requires first > 0 && id != ""
    ensures FoundIn(first, run, id, LookupText(sk, id), LookupText(Grown(sk, first, run), id))
  {
    hide Grown, LookupText;
    GrownUnfold(sk, first, run);
    if run != [] {
      var n := |run| - 1;
      var older := Grown(sk, first, run[..n]);
      LookupOfCons(SkRef(run[n].item.msg.msgid, first + n), older, id);
      if run[n].item.msg.msgid != id {
        LookupGrown(sk, first, run[..n], id);
        FoundEarlier(first, run, n, id, LookupText(sk, id), LookupText(older, id));
      }
    }
  }

  /** What is stored stays stored along a run, and what the run imports is stored. */
  lemma {:induction false} StoredStays(sk: seq<SkRef>, first: int, run: seq<Placed>, k: nat, id: string)
    requires first > 0 && k <= |run|
    ensures Stored(Grown(sk, first, run[..k]), id) ==> Stored(Grown(sk, first, run), id)
    decreases |run|
  {
    if k < |run| {
      var n := |run| - 1;
      StoredStays(sk, first, run[..n], k, id);
      assert run[..n][..k] == run[..k];
      LookupOfCons(SkRef(run[n].item.msg.msgid, first + n), Grown(sk, first, run[..n]), id);
    } else {
      assert run[..k] == run;
    }
  }

  lemma ImportedIsStored(items: seq<MsgItem>, sk: seq<SkRef>, first: int, unsafe: bool, run: seq<Placed>, k: nat)
    requires first > 0 && GoodRun(items, sk, first, unsafe, run) && k < |run|
    ensures run[k].item.msg.msgid != "" && Stored(Grown(sk, first, run), run[k].item.msg.msgid)
    ensures !Stored(sk, run[k].item.msg.msgid)
  {
    var id := run[k].item.msg.msgid;
    assert PlacedRight(items, sk, first, unsafe, run, k);
    LookupOfCons(SkRef(id, first + k), Grown(sk, first, run[..k]), id);
    assert run[..k + 1][..k] == run[..k];
    StoredStays(sk, first, run, k + 1, id);
    StoredStays(sk, first, run[..k], 0, id);
    assert run[..k][..0] == [];
  }

  /** No two imports of a run carry the same MSGID. */
  lemma ImportedOnce(items: seq<MsgItem>, sk: seq<SkRef>, first: int, unsafe: bool, run: seq<Placed>, j: nat, k: nat)
    requires first > 0 && GoodRun(items, sk, first, unsafe, run) && j < k < |run|
    ensures run[j].item.msg.msgid != run[k].item.msg.msgid
  {
    assert PlacedRight(items, sk, first, unsafe, run, k);
    RunPrefix(items, sk, first, unsafe, run, k);
    ImportedIsStored(items, sk, first, unsafe, run[..k], j);
  }

  lemma RunPrefix(items: seq<MsgItem>, sk: seq<SkRef>, first: int, unsafe: bool, run: seq<Placed>, k: nat)
    requires GoodRun(items, sk, first, unsafe, run) && k <= |run|
    ensures GoodRun(items, sk, first, unsafe, run[..k])
  {
    forall i | 0 <= i < k ensures PlacedRight(items, sk, first, unsafe, run[..k], i) {
      assert PlacedRight(items, sk, first, unsafe, run, i) && run[..k][..i] == run[..i];
    }
  }

  /** A safe run imports only importable messages. */
  lemma {:induction false} ImportedIsImportable(items: seq<MsgItem>, sk: seq<SkRef>, first: int, run: seq<Placed>,
                                                k: nat)
    requires first > 0 && GoodRun(items, sk, first, false, run) && k < |run|
    ensures Importable(items, sk, run[k].item)
    decreases k
  {
    var m := run[k].item;
    assert PlacedRight(items, sk, first, false, run, k);
    ImportedIsStored(items, sk, first, false, run, k);
    if Anchored(sk, m) {
      AnchoredImportable(items, sk, m);
    } else {
      LookupGrown(sk, first, run[..k], m.msg.reply);
      var j :| 0 <= j < k && run[..k][j].item.msg.msgid == m.msg.reply;
      ImportedIsImportable(items, sk, first, run, j);
      ReplyImportable(items, sk, m, run[j].item);
    }
  }

  /** After a settled safe run every importable message's MSGID is stored. */
  lemma ImportableIsStored(items: seq<MsgItem>, sk: seq<SkRef>, first: int, run: seq<Placed>, m: MsgItem)
    requires first > 0 && GoodRun(items, sk, first, false, run) && Settled(items, Grown(sk, first, run), false)
    requires Importable(items, sk, m)
    ensures m.msg.msgid == "" || Stored(Grown(sk, first, run), m.msg.msgid)
  {
    var sk' := Grown(sk, first, run);
    var s := set x | x in items && (x.msg.msgid == "" || Stored(sk', x.msg.msgid));
    forall x | x in items && !Stored(sk, x.msg.msgid) && Anchored(sk, x) ensures x in s {
      StoredStays(sk, first, run, 0, x.msg.reply);
      assert run[..0] == [];
      assert Anchored(sk', x) && !Due(sk', x, false);
    }
    forall x, p | x in items && !Stored(sk, x.msg.msgid) && p in s && RepliesTo(x, p) ensures x in s {
      assert Anchored(sk', x) && !Due(sk', x, false);
    }
    var chain :| ReplyChain(items, sk, chain) && chain[0] == m;
    ChainInClosed(items, sk, chain, s);
  }

  lemma ImportedIsSelected(items: seq<MsgItem>, sk: seq<SkRef>, first: int, unsafe: bool, run: seq<Placed>, k: nat)
    requires first > 0 && GoodRun(items, sk, first, unsafe, run) && k < |run|
    ensures Selected(items, sk, unsafe, run[k].item)
  {
    if unsafe {
      assert PlacedRight(items, sk, first, unsafe, run, k);
      ImportedIsStored(items, sk, first, unsafe, run, k);
    } else {
      ImportedIsImportable(items, sk, first, run, k);
    }
  }

  lemma SelectedIsStored(items: seq<MsgItem>, sk: seq<SkRef>, first: int, unsafe: bool, run: seq<Placed>, m: MsgItem)
    requires first > 0 && GoodRun(items, sk, first, unsafe, run) && Settled(items, Grown(sk, first, run), unsafe)
    requires Selected(items, sk, unsafe, m)
    ensures !Stored(sk, m.msg.msgid) && (m.msg.msgid == "" || Stored(Grown(sk, first, run), m.msg.msgid))
  {
    if unsafe {
      assert !Due(Grown(sk, first, run), m, unsafe);
    } else {
      ImportableIsStored(items, sk, first, run, m);
      ImportableUnstored(items, sk, m);
    }
  }

  /** In either mode a run imports exactly the MSGIDs of the messages it is to take. */
  lemma ImportsExactlySelected(items: seq<MsgItem>, sk: seq<SkRef>, first: int, unsafe: bool, run: seq<Placed>,
                               id: string)
    requires first > 0 && GoodRun(items, sk, first, unsafe, run) && Settled(items, Grown(sk, first, run), unsafe)
    requires id != ""
    ensures (exists k :: 0 <= k < |run| && run[k].item.msg.msgid == id) <==>
            (exists m :: Selected(items, sk, unsafe, m) && m.msg.msgid == id)
  {
    hide Selected, Grown, Settled;
    if k :| 0 <= k < |run| && run[k].item.msg.msgid == id {
      ImportedIsSelected(items, sk, first, unsafe, run, k);
    }
    if m :| Selected(items, sk, unsafe, m) && m.msg.msgid == id {
      SelectedIsStored(items, sk, first, unsafe, run, m);
      LookupGrown(sk, first, run, id);
    }
  }

  lemma ImportableUnstored(items: seq<MsgItem>, sk: seq<SkRef>, m: MsgItem)
    requires Importable(items, sk, m)
    ensures m in items && !Stored(sk, m.msg.msgid)
  {
    var chain :| ReplyChain(items, sk, chain) && chain[0] == m;
  }

  // ---------- Dry run and real run ----------

  ghost predicate Imported(run: seq<Placed>, m: MsgItem) {
    exists k :: 0 <= k < |run| && run[k].item == m
  }

  /** Whether MSGIDs tell the planned messages apart. */
  ghost predicate PlannedIdsDistinct(order: seq<MsgItem>) {
    && (forall m :: m in order ==> m.msg.msgid != "")
    && (forall m, p :: m in order && p in order && m.msg.msgid == p.msg.msgid ==> m == p)
  }

  lemma DistinctIdsAllImported(items: seq<MsgItem>, sk: seq<SkRef>, first: int, unsafe: bool, order: seq<MsgItem>,
                               run: seq<Placed>, m: MsgItem)
    requires first > 0 && forall x :: x in order <==> Selected(items, sk, unsafe, x)
    requires GoodRun(items, sk, first, unsafe, run) && Settled(items, Grown(sk, first, run), unsafe)
    requires PlannedIdsDistinct(order)
    ensures m in order <==> Imported(run, m)
  {
    hide Selected, Settled, Grown;
    if m in order {
      ImportsExactlySelected(items, sk, first, unsafe, run, m.msg.msgid);
      var k :| 0 <= k < |run| && run[k].item.msg.msgid == m.msg.msgid;
      ImportedIsSelected(items, sk, first, unsafe, run, k);
    }
    if k :| 0 <= k < |run| && run[k].item == m {
      ImportedIsSelected(items, sk, first, unsafe, run, k);
    }
  }

  lemma AllImportedHaveDistinctIds(items: seq<MsgItem>, sk: seq<SkRef>, first: int, unsafe: bool, order: seq<MsgItem>,
                                   run: seq<Placed>)
    requires first > 0 && GoodRun(items, sk, first, unsafe, run)
    requires forall m :: m in order ==> Imported(run, m)
    ensures PlannedIdsDistinct(order)
  {
    forall m | m in order ensures m.msg.msgid != "" {
      var k :| 0 <= k < |run| && run[k].item == m;
      ImportedIsStored(items, sk, first, unsafe, run, k);
    }
    forall m, p | m in order && p in order && m.msg.msgid == p.msg.msgid ensures m == p {
      var j :| 0 <= j < |run| && run[j].item == m;
      var k :| 0 <= k < |run| && run[k].item == p;
      if j < k {
        ImportedOnce(items, sk, first, unsafe, run, j, k);
      } else if k < j {
        ImportedOnce(items, sk, first, unsafe, run, k, j);
      }
    }
  }

  /** In either mode the dry run announces exactly the messages the real run imports if
      and only if the announced messages have non-empty, pairwise distinct MSGIDs. */
  lemma DryRunSelectsSameIff(items: seq<MsgItem>, sk: seq<SkRef>, first: int, unsafe: bool, order: seq<MsgItem>,
                             run: seq<Placed>)
    requires first > 0 && forall m :: m in order <==> Selected(items, sk, unsafe, m)
    requires GoodRun(items, sk, first, unsafe, run) && Settled(items, Grown(sk, first, run), unsafe)
    ensures (forall m :: m in order <==> Imported(run, m)) <==> PlannedIdsDistinct(order)
  {
    hide Selected, Settled, Grown, Imported, PlannedIdsDistinct;
    if PlannedIdsDistinct(order) {
      forall m ensures m in order <==> Imported(run, m) {
        DistinctIdsAllImported(items, sk, first, unsafe, order, run, m);
      }
    } else if forall m :: m in order <==> Imported(run, m) {
      AllImportedHaveDistinctIds(items, sk, first, unsafe, order, run);
    }
  }

  /** Where the real run hung its k-th import. */
  lemma ImportParent(items: seq<MsgItem>, sk: seq<SkRef>, first: int, run: seq<Placed>, k: nat)
    requires first > 0 && GoodRefs(sk, first) && GoodRun(items, sk, first, false, run) && k < |run|
    ensures var m, com := run[k].item, run[k].com;
            if m.msg.reply == "" || Stored(sk, m.msg.reply) then com == LookupText(sk, m.msg.reply) && 0 <= com < first
            else exists j :: 0 <= j < k && com == first + j && RepliesTo(m, run[j].item)
  {
    var m := run[k].item;
    assert PlacedRight(items, sk, first, false, run, k);
    LookupBelow(sk, m.msg.reply, first);
    if m.msg.reply == "" {
      assert run[k].com == 0;
    } else {
      LookupGrown(sk, first, run[..k], m.msg.reply);
      if j :| 0 <= j < k && run[k].com == first + j && run[..k][j].item.msg.msgid == m.msg.reply {
        ImportedIsStored(items, sk, first, false, run, j);
        assert RepliesTo(m, run[j].item);
      }
    }
  }

  /** Then both hang every message alike: at the top, under the same stored text, or
      under the same message of the spool. */
  lemma DryRunHangsSame(items: seq<MsgItem>, sk: seq<SkRef>, first: int, order: seq<MsgItem>, plans: seq<PlanRef>,
                        run: seq<Placed>, i: nat, k: nat)
    requires first > 0 && GoodRefs(sk, first) && GoodPlan(items, sk, first, false, order, plans)
    requires forall m :: m in order <==> Importable(items, sk, m)
    requires PlannedIdsDistinct(order) && GoodRun(items, sk, first, false, run)
    requires i < |order| && k < |run| && order[i] == run[k].item
    ensures HangsSame(first, order, run, PlanAt(plans, i).parent, run[k].com, order[i])
  {
    hide Importable, Grown, RepliesTo, PlannedIdsDistinct, HangsSame;
    var m := order[i];
    assert PlanRight(items, sk, first, false, order, i, PlanAt(plans, i));
    ImportParent(items, sk, first, run, k);
    if m.msg.reply == "" || Stored(sk, m.msg.reply) {
      HangAtOld(first, order, run, run[k].com, m);
    } else {
      var j :| 0 <= j < k && run[k].com == first + j && RepliesTo(m, run[j].item);
      ImportedIsImportable(items, sk, first, run, j);
      var l :| 0 <= l < i && RepliesTo(m, order[l]) && PlanAt(plans, i).parent == first + l;
      HangAtSame(first, order, run, l, j, m);
    }
  }

  lemma HangAtOld(first: int, order: seq<MsgItem>, run: seq<Placed>, com: int, m: MsgItem)
    requires 0 <= com < first
    ensures HangsSame(first, order, run, com, com, m)
  {
  }

  lemma HangAtSame(first: int, order: seq<MsgItem>, run: seq<Placed>, l: nat, j: nat, m: MsgItem)
    requires l < |order| && j < |run| && run[j].item in order && PlannedIdsDistinct(order)
    requires RepliesTo(m, order[l]) && RepliesTo(m, run[j].item)
    ensures HangsSame(first, order, run, first + l, first + j, m)
  {
    assert order[l] in order;
  }

  /** `parent` in the plan and `com` in the run are one place for message `m`. */
  ghost predicate HangsSame(first: int, order: seq<MsgItem>, run: seq<Placed>, parent: int, com: int, m: MsgItem) {
    || (parent == com && 0 <= com < first)
    || (0 <= parent - first < |order| && 0 <= com - first < |run| &&
        order[parent - first] == run[com - first].item && RepliesTo(m, order[parent - first]))
  }

  // ---------- A second run ----------

  /** From a settled index there is nothing to import. */
  lemma SettledRunIsEmpty(items: seq<MsgItem>, sk: seq<SkRef>, first: int, unsafe: bool, run: seq<Placed>)
    requires Settled(items, sk, unsafe) && GoodRun(items, sk, first, unsafe, run)
    ensures run == []
  {
    if run != [] {
      FirstWasDue(items, sk, first, unsafe, run);
    }
  }

  lemma FirstWasDue(items: seq<MsgItem>, sk: seq<SkRef>, first: int, unsafe: bool, run: seq<Placed>)
    requires run != [] && GoodRun(items, sk, first, unsafe, run)
    ensures run[0].item in items && Due(sk, run[0].item, unsafe)
  {
    assert PlacedRight(items, sk, first, unsafe, run, 0) && run[..0] == [];
  }

  /** Whatever a run over `items` from index `sk` does, it imports nothing. */
  ghost predicate NextRunIdle(items: seq<MsgItem>, sk: seq<SkRef>, first: int, unsafe: bool) {
    forall again :: GoodRun(items, sk, first, unsafe, again) ==> again == []
  }

  lemma IdleIffSettled(items: seq<MsgItem>, sk: seq<SkRef>, first: int, unsafe: bool)
    ensures NextRunIdle(items, sk, first, unsafe) <==> Settled(items, sk, unsafe)
  {
    if Settled(items, sk, unsafe) {
      forall again | GoodRun(items, sk, first, unsafe, again) ensures again == [] {
        SettledRunIsEmpty(items, sk, first, unsafe, again);
      }
    } else {
      var m :| m in items && Due(sk, m, unsafe);
      var again := [Placed(m, LookupText(sk, m.msg.reply), "")];
      assert again[..0] == [] && PlacedRight(items, sk, first, unsafe, again, 0);
      assert GoodRun(items, sk, first, unsafe, again) && again != [];
    }
  }

  // ---------- A second run, from a fresh scan ----------

  /** The MSGID the scanner takes from the text of an import; "" when it takes none. */
  function Seen(area: string, p: Placed): string {
    FirstMsgid(Scanner, p.item.msg.subject + "\n" + Mbuf(area, p.item.msg, p.reason))
  }

  /** An import comes back under its own MSGID, for any fields exactly when nothing else
      is found in front of its FTN-MSGID line and the scanner holds the MSGID; for fields
      of one line only its subject can be found there. */
  lemma SeenIff(area: string, p: Placed)
    requires IdBytes(p.item.msg.msgid)
    ensures var id, front := p.item.msg.msgid, Front(Scanner, area, p.item.msg);
            Seen(area, p) == id <==> if front != "" then front == id else RescansAs(id)
    ensures PlainFields(area, p.item.msg) ==>
              var id, inSubject := p.item.msg.msgid, ScannedMsgid(p.item.msg.subject + "\n");
              (Seen(area, p) == id <==> if inSubject != "" then inSubject == id else RescansAs(id))
  {
    hide FirstMsgid, TextFile, Mbuf, Front, ScannedMsgid, PlainFields;
    var post := Post(0, 0, p.item.msg.subject, Mbuf(area, p.item.msg, p.reason));
    RescannedAnyIff(1, post, area, p.item.msg, p.reason, "");
    if PlainFields(area, p.item.msg) {
      RescannedIff(1, post, area, p.item.msg, p.reason, "");
    }
    TextFound(1, post);
    assert TextFile(1, post) + "" == TextFile(1, post);
  }

  lemma TextFound(n: int, post: Post)
    ensures FirstMsgid(Scanner, TextFile(n, post)) == FirstMsgid(Scanner, post.subject + "\n" + post.mbuf)
  {
    hide FirstMsgid, HeaderLine;
    HeaderIsNumbers(n, post);
    SkipNumberLine(Scanner, HeaderLine(n, post), post.subject + "\n" + post.mbuf);
    assert TextFile(n, post) == HeaderLine(n, post) + "\n" + (post.subject + "\n" + post.mbuf);
  }

  /** The scanner gives back the MSGID of `msg`: for any header fields, ... */
  predicate Survives(area: string, msg: FidoMsg) {
    var front := Front(Scanner, area, msg);
    if front != "" then front == msg.msgid else RescansAs(msg.msgid)
  }

  /** ... and for fields of one line. */
  predicate PlainSurvives(msg: FidoMsg) {
    var inSubject := ScannedMsgid(msg.subject + "\n");
    if inSubject != "" then inSubject == msg.msgid else RescansAs(msg.msgid)
  }

  /** The index a scan builds over the texts of a run, on top of index `sk`. */
  function Rescanned(sk: seq<SkRef>, area: string, first: int, run: seq<Placed>): seq<SkRef> {
    if run == [] then sk
    else
      var id, older := Seen(area, run[|run| - 1]), Rescanned(sk, area, first, run[..|run| - 1]);
      (if id == "" then [] else [SkRef(id, first + |run| - 1)]) + older
  }

  /** Bodies as the .MSG reader delivers them. */
  ghost predicate WholeBodies(run: seq<Placed>) {
    forall k :: 0 <= k < |run| ==> WholeLines(run[k].item.msg.cleanBody)
  }

  lemma {:induction false} ScanOfRun(files: map<int, string>, conf: nat, last: nat, aka: Address, area: string,
                                     run: seq<Placed>, stamp: FidoMsg -> int)
    requires WholeTexts(files) && WholeBodies(run)
    requires forall k :: 0 <= k < |run| ==> run[k].com <= last + k
    ensures WholeTexts(StoreRun(files, last + 1, area, run, stamp))
    ensures ScanTexts(StoreRun(files, last + 1, area, run, stamp), conf, last + |run|, aka)
         == Rescanned(ScanTexts(files, conf, last, aka), area, last + 1, run)
  {
    hide StoreText, IndexedMsgid, Seen, WholeTexts, WholeLines, Mbuf, TextFile;
    if run != [] {
      var n := |run| - 1;
      var p := run[n];
      ScanOfRun(files, conf, last, aka, area, run[..n], stamp);
      var before := StoreRun(files, last + 1, area, run[..n], stamp);
      var post := PostOf(area, p, stamp);
      ImportIndexed(last + n + 1, conf, aka, area, p, stamp);
      MbufEndsLine(area, p.item.msg, p.reason);
      StoreKeepsWholeTexts(before, last + n + 1, post);
      StoreExtendsIndex(before, conf, last + n, aka, post, Seen(area, p));
    }
  }

  lemma ImportIndexed(n: nat, conf: nat, aka: Address, area: string, p: Placed, stamp: FidoMsg -> int)
    ensures IndexedMsgid(TextFile(n, PostOf(area, p, stamp)), conf, n, aka) == Seen(area, p)
  {
    hide IndexedMsgid, FirstMsgid, TextFile, Mbuf;
    IndexedIsSeen(n, PostOf(area, p, stamp), conf, n, aka);
  }

  /** What a scan of the run finds under `id`. */
  ghost predicate ReadBack(area: string, run: seq<Placed>, id: string) {
    exists k :: 0 <= k < |run| && Seen(area, run[k]) == id
  }

  lemma RescannedUnfold(sk: seq<SkRef>, area: string, first: int, run: seq<Placed>)
    requires run != []
    ensures var id, older := Seen(area, run[|run| - 1]), Rescanned(sk, area, first, run[..|run| - 1]);
            Rescanned(sk, area, first, run) == if id == "" then older else [SkRef(id, first + |run| - 1)] + older
  {
    hide Seen;
    assert [] + Rescanned(sk, area, first, run[..|run| - 1]) == Rescanned(sk, area, first, run[..|run| - 1]);
  }

  lemma ReadBackUnfold(area: string, run: seq<Placed>, id: string)
    requires run != []
    ensures ReadBack(area, run, id) <==> Seen(area, run[|run| - 1]) == id || ReadBack(area, run[..|run| - 1], id)
  {
    hide Seen;
    var older := run[..|run| - 1];
    if k :| 0 <= k < |older| && Seen(area, older[k]) == id {
      assert older[k] == run[k];
    }
    if k :| 0 <= k < |older| && Seen(area, run[k]) == id {
      assert older[k] == run[k];
    }
  }

  lemma {:induction false} StoredRescanned(sk: seq<SkRef>, area: string, first: int, run: seq<Placed>, id: string)
    requires first > 0 && id != ""
    ensures Stored(Rescanned(sk, area, first, run), id) <==> Stored(sk, id) || ReadBack(area, run, id)
  {
    if run != [] {
      hide Seen, Rescanned, ReadBack, LookupText;
      var n := |run| - 1;
      StoredRescanned(sk, area, first, run[..n], id);
      RescannedUnfold(sk, area, first, run);
      ReadBackUnfold(area, run, id);
      LookupOfCons(SkRef(Seen(area, run[n]), first + n), Rescanned(sk, area, first, run[..n]), id);
    }
  }

  ghost predicate ImportedId(run: seq<Placed>, id: string) {
    exists k :: 0 <= k < |run| && run[k].item.msg.msgid == id
  }

  lemma StoredGrown(sk: seq<SkRef>, first: int, run: seq<Placed>, id: string)
    requires first > 0 && id != ""
    ensures Stored(Grown(sk, first, run), id) <==> Stored(sk, id) || ImportedId(run, id)
  {
    hide Grown;
    LookupGrown(sk, first, run, id);
  }

  /** A message the run left out answers what the scanner takes for a stored text. */
  ghost predicate Misled(items: seq<MsgItem>, sk: seq<SkRef>, area: string, run: seq<Placed>) {
    exists m :: m in items && Awakened(sk, area, run, m)
  }

  ghost predicate Awakened(sk: seq<SkRef>, area: string, run: seq<Placed>, m: MsgItem) {
    && m.msg.msgid != "" && !Stored(sk, m.msg.msgid) && !ReadBack(area, run, m.msg.msgid)
    && m.msg.reply != "" && ReadBack(area, run, m.msg.reply) && !ImportedId(run, m.msg.reply)
  }

  ghost predicate AllReadBack(area: string, run: seq<Placed>) {
    forall k :: 0 <= k < |run| ==> ReadBack(area, run, run[k].item.msg.msgid)
  }

  /** The first import whose MSGID no text gives back is due again: what it answers is
      still stored. */
  lemma {:induction false} LostIsDue(items: seq<MsgItem>, sk: seq<SkRef>, area: string, first: int, unsafe: bool,
                                     run: seq<Placed>, k: nat)
    requires first > 0 && GoodRun(items, sk, first, unsafe, run) && k < |run|
    requires !ReadBack(area, run, run[k].item.msg.msgid)
    requires forall j :: 0 <= j < k ==> ReadBack(area, run, run[j].item.msg.msgid)
    ensures Due(Rescanned(sk, area, first, run), run[k].item, unsafe)
  {
    hide Rescanned, Grown, ReadBack, LooksLikeReply;
    var m, sk' := run[k].item, Rescanned(sk, area, first, run);
    assert PlacedRight(items, sk, first, unsafe, run, k);
    ImportedIsStored(items, sk, first, unsafe, run, k);
    StoredRescanned(sk, area, first, run, m.msg.msgid);
    if m.msg.reply != "" {
      StoredRescanned(sk, area, first, run, m.msg.reply);
      StoredGrown(sk, first, run[..k], m.msg.reply);
      if j :| 0 <= j < k && run[..k][j].item.msg.msgid == m.msg.reply {
        assert run[..k][j] == run[j];
      }
    }
  }

  lemma {:induction false} FirstLost(area: string, run: seq<Placed>, k: nat) returns (j: nat)
    requires k < |run| && !ReadBack(area, run, run[k].item.msg.msgid)
    ensures j <= k && !ReadBack(area, run, run[j].item.msg.msgid)
    ensures forall i :: 0 <= i < j ==> ReadBack(area, run, run[i].item.msg.msgid)
    decreases k
  {
    hide ReadBack;
    if i :| 0 <= i < k && !ReadBack(area, run, run[i].item.msg.msgid) {
      j := FirstLost(area, run, i);
    } else {
      j := k;
    }
  }

  /** With everything read back, only a misled message can be due. */
  lemma DueIsAwakened(items: seq<MsgItem>, sk: seq<SkRef>, area: string, first: int, unsafe: bool, run: seq<Placed>,
                      m: MsgItem)
    requires first > 0 && Settled(items, Grown(sk, first, run), unsafe) && AllReadBack(area, run)
    requires m in items && Due(Rescanned(sk, area, first, run), m, unsafe)
    ensures !unsafe && Awakened(sk, area, run, m)
  {
    hide Rescanned, Grown, ReadBack, LooksLikeReply;
    StoredRescanned(sk, area, first, run, m.msg.msgid);
    StoredGrown(sk, first, run, m.msg.msgid);
    assert !ImportedId(run, m.msg.msgid);
    assert !Due(Grown(sk, first, run), m, unsafe);
    if m.msg.reply != "" {
      StoredRescanned(sk, area, first, run, m.msg.reply);
      StoredGrown(sk, first, run, m.msg.reply);
    } else {
      NothingStored(Rescanned(sk, area, first, run));
      NothingStored(Grown(sk, first, run));
    }
  }

  lemma NothingStored(refs: seq<SkRef>)
    ensures !Stored(refs, "")
  {
  }

  /** Exactly when the run after a settled one, from an index scanned afresh, is idle:
      when every imported MSGID is read back from some text and - in safe mode - no text
      read under a wrong MSGID makes a message left out look like a reply to it. */
  lemma RescanIdleIff(items: seq<MsgItem>, sk: seq<SkRef>, area: string, first: int, unsafe: bool, run: seq<Placed>)
    requires first > 0 && GoodRun(items, sk, first, unsafe, run) && Settled(items, Grown(sk, first, run), unsafe)
    ensures NextRunIdle(items, Rescanned(sk, area, first, run), first + |run|, unsafe) <==>
            AllReadBack(area, run) && (unsafe || !Misled(items, sk, area, run))
  {
    hide Rescanned, Grown, NextRunIdle, ReadBack, Due;
    var sk' := Rescanned(sk, area, first, run);
    IdleIffSettled(items, sk', first + |run|, unsafe);
    if k :| 0 <= k < |run| && !ReadBack(area, run, run[k].item.msg.msgid) {
      var j := FirstLost(area, run, k);
      LostIsDue(items, sk, area, first, unsafe, run, j);
      assert PlacedRight(items, sk, first, unsafe, run, j);
    } else if m :| m in items && Due(sk', m, unsafe) {
      DueIsAwakened(items, sk, area, first, unsafe, run, m);
    }
    if !unsafe && Misled(items, sk, area, run) {
      var m :| m in items && Awakened(sk, area, run, m);
      AwakenedIsDue(sk, area, first, run, m);
    }
  }

  lemma AwakenedIsDue(sk: seq<SkRef>, area: string, first: int, run: seq<Placed>, m: MsgItem)
    requires first > 0 && Awakened(sk, area, run, m)
    ensures Due(Rescanned(sk, area, first, run), m, false)
  {
    hide Rescanned, ReadBack, LooksLikeReply;
    StoredRescanned(sk, area, first, run, m.msg.msgid);
    StoredRescanned(sk, area, first, run, m.msg.reply);
  }

  /** A text read under a wrong MSGID is read under one the spool does not know. */
  ghost predicate WrongOnesUnknown(items: seq<MsgItem>, area: string, run: seq<Placed>) {
    forall k, m :: 0 <= k < |run| && m in items && Seen(area, run[k]) != "" &&
                   (Seen(area, run[k]) == m.msg.msgid || Seen(area, run[k]) == m.msg.reply) ==>
      Seen(area, run[k]) == run[k].item.msg.msgid
  }

  ghost predicate AllRescan(area: string, run: seq<Placed>) {
    forall k :: 0 <= k < |run| ==> Seen(area, run[k]) == run[k].item.msg.msgid
  }

  /** A whole run, from the files it left: the next run is idle if and only if every
      imported MSGID survives the scanner. */
  lemma ReimportIdleIff(files: map<int, string>, conf: nat, last: nat, aka: Address, area: string, items: seq<MsgItem>,
                        unsafe: bool, stamp: FidoMsg -> int, run: seq<Placed>)
    requires WholeTexts(files) && WholeBodies(run) && WrongOnesUnknown(items, area, run)
    requires var sk := ScanTexts(files, conf, last, aka);
             GoodRun(items, sk, last + 1, unsafe, run) && Settled(items, Grown(sk, last + 1, run), unsafe)
    ensures var files' := StoreRun(files, last + 1, area, run, stamp);
            NextRunIdle(items, ScanTexts(files', conf, last + |run|, aka), last + |run| + 1, unsafe) <==>
              AllRescan(area, run)
  {
    hide ScanTexts, WholeTexts, StoreRun, Seen, NextRunIdle, Settled, Grown, GoodRun;
    var sk := ScanTexts(files, conf, last, aka);
    forall k | 0 <= k < |run| ensures run[k].com <= last + k {
      ComBelow(files, conf, last, aka, items, unsafe, run, k);
    }
    ScanOfRun(files, conf, last, aka, area, run, stamp);
    RescanIdleIff(items, sk, area, last + 1, unsafe, run);
    OwnTextsOnly(items, sk, last + 1, unsafe, area, run);
  }

  lemma OwnTextsOnly(items: seq<MsgItem>, sk: seq<SkRef>, first: int, unsafe: bool, area: string, run: seq<Placed>)
    requires first > 0 && GoodRun(items, sk, first, unsafe, run) && WrongOnesUnknown(items, area, run)
    ensures AllReadBack(area, run) <==> AllRescan(area, run)
    ensures !Misled(items, sk, area, run)
  {
    hide Seen, Grown;
    forall k | 0 <= k < |run| ensures run[k].item in items && run[k].item.msg.msgid != "" {
      assert PlacedRight(items, sk, first, unsafe, run, k);
    }
    forall k | 0 <= k < |run| && ReadBack(area, run, run[k].item.msg.msgid)
      ensures Seen(area, run[k]) == run[k].item.msg.msgid {
      var j :| 0 <= j < |run| && Seen(area, run[j]) == run[k].item.msg.msgid;
      if j < k {
        ImportedOnce(items, sk, first, unsafe, run, j, k);
      } else if k < j {
        ImportedOnce(items, sk, first, unsafe, run, k, j);
      }
    }
  }

  /** Importing again, from a fresh scan of what the first run stored, does nothing when
      every imported MSGID survives the scanner. */
  lemma ReimportIsNoOp(files: map<int, string>, conf: nat, last: nat, aka: Address, area: string, items: seq<MsgItem>,
                       unsafe: bool, stamp: FidoMsg -> int, run: seq<Placed>, again: seq<Placed>)
    requires WholeTexts(files) && WholeBodies(run) && AllRescan(area, run)
    requires var sk := ScanTexts(files, conf, last, aka);
             GoodRun(items, sk, last + 1, unsafe, run) && Settled(items, Grown(sk, last + 1, run), unsafe)
    requires var files' := StoreRun(files, last + 1, area, run, stamp);
             GoodRun(items, ScanTexts(files', conf, last + |run|, aka), last + |run| + 1, unsafe, again)
    ensures again == []
  {
    hide ScanTexts, WholeTexts, StoreRun, Seen, Settled, Grown, GoodRun;
    assert WrongOnesUnknown(items, area, run);
    ReimportIdleIff(files, conf, last, aka, area, items, unsafe, stamp, run);
  }

  /** The index of a scan is then the index the run ended with. */
  lemma {:induction false} RescanIsGrown(sk: seq<SkRef>, area: string, first: int, run: seq<Placed>)
    requires AllRescan(area, run) && forall k :: 0 <= k < |run| ==> run[k].item.msg.msgid != ""
    ensures Rescanned(sk, area, first, run) == Grown(sk, first, run)
  {
    hide Seen;
    if run != [] {
      RescanIsGrown(sk, area, first, run[..|run| - 1]);
    }
  }

  lemma ComBelow(files: map<int, string>, conf: nat, last: nat, aka: Address, items: seq<MsgItem>, unsafe: bool,
                 run: seq<Placed>, k: nat)
    requires k < |run| && GoodRun(items, ScanTexts(files, conf, last, aka), last + 1, unsafe, run)
    ensures 0 <= run[k].com <= last + k
  {
    hide ScanTexts;
    var sk := ScanTexts(files, conf, last, aka);
    ScanGood(files, conf, last, aka);
    assert PlacedRight(items, sk, last + 1, unsafe, run, k);
    if run[k].item.msg.reply != "" {
      LookupGrown(sk, last + 1, run[..k], run[k].item.msg.reply);
      LookupBelow(sk, run[k].item.msg.reply, last + 1);
    }
  }
}
