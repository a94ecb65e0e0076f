/** The dry run: build_import_plan(), and what "importable" means.

    A message is importable when its own MSGID is not stored and its REPLY
    chain reaches a stored text or a message that starts a thread. */
module FtnPlan {
  import opened FtnIndex

  // ---------- What is importable ----------

  /** A message that may be placed without looking at the rest of the spool. */
  predicate Anchored(sk: seq<SkRef>, m: MsgItem) {
    (m.msg.reply == "" && !LooksLikeReply(m.msg.subject)) || Stored(sk, m.msg.reply)
  }

  /** `p` is a spool message that `m` replies to. */
  predicate RepliesTo(m: MsgItem, p: MsgItem) {
    m.msg.reply != "" && m.msg.reply == p.msg.msgid
  }

  /** Follows REPLY from chain[0] to an anchored message, over unstored messages. */
  ghost predicate ReplyChain(items: seq<MsgItem>, sk: seq<SkRef>, chain: seq<MsgItem>) {
    && |chain| > 0
    && (forall i :: 0 <= i < |chain| ==> chain[i] in items && !Stored(sk, chain[i].msg.msgid))
    && (forall i :: 0 <= i < |chain| - 1 ==> RepliesTo(chain[i], chain[i + 1]))
    && Anchored(sk, chain[|chain| - 1])
  }

  ghost predicate Importable(items: seq<MsgItem>, sk: seq<SkRef>, m: MsgItem) {
    exists chain :: ReplyChain(items, sk, chain) && chain[0] == m
  }

  /** `s` contains what the two placing rules produce from it. */
  ghost predicate ClosedUnderPlacing(items: seq<MsgItem>, sk: seq<SkRef>, s: set<MsgItem>) {
    && (forall m :: m in items && !Stored(sk, m.msg.msgid) && Anchored(sk, m) ==> m in s)
    && (forall m, p :: m in items && !Stored(sk, m.msg.msgid) && p in s && RepliesTo(m, p) ==> m in s)
  }

  lemma AnchoredImportable(items: seq<MsgItem>, sk: seq<SkRef>, m: MsgItem)
    requires m in items && !Stored(sk, m.msg.msgid) && Anchored(sk, m)
    ensures Importable(items, sk, m)
  {
    assert ReplyChain(items, sk, [m]) && [m][0] == m;
  }

  lemma ReplyImportable(items: seq<MsgItem>, sk: seq<SkRef>, m: MsgItem, p: MsgItem)
    requires m in items && !Stored(sk, m.msg.msgid) && RepliesTo(m, p)
    requires Importable(items, sk, p)
    ensures Importable(items, sk, m)
  {
    var chain :| ReplyChain(items, sk, chain) && chain[0] == p;
    assert ReplyChain(items, sk, [m] + chain) && ([m] + chain)[0] == m;
  }

  lemma {:induction false} ChainInClosed(items: seq<MsgItem>, sk: seq<SkRef>, chain: seq<MsgItem>, s: set<MsgItem>)
    requires ReplyChain(items, sk, chain) && ClosedUnderPlacing(items, sk, s)
    ensures chain[0] in s
  {
    if |chain| > 1 {
      var rest := chain[1..];
      assert forall i :: 0 <= i < |rest| - 1 ==> RepliesTo(rest[i], rest[i + 1]) by {
        forall i | 0 <= i < |rest| - 1 ensures RepliesTo(rest[i], rest[i + 1]) {
          assert RepliesTo(chain[i + 1], chain[i + 2]);
        }
      }
      assert ReplyChain(items, sk, rest);
      ChainInClosed(items, sk, rest, s);
      assert RepliesTo(chain[0], chain[1]);
    }
  }

  /** The importable messages are the least set closed under the placing rules. */
  lemma ImportableIsLeast(items: seq<MsgItem>, sk: seq<SkRef>, s: set<MsgItem>)
    requires forall m :: m in s <==> Importable(items, sk, m)
    ensures ClosedUnderPlacing(items, sk, s)
    ensures forall t :: ClosedUnderPlacing(items, sk, t) ==> s <= t
  {
    forall m | m in items && !Stored(sk, m.msg.msgid) && Anchored(sk, m) ensures m in s {
      AnchoredImportable(items, sk, m);
    }
    forall m, p | m in items && !Stored(sk, m.msg.msgid) && p in s && RepliesTo(m, p) ensures m in s {
      ReplyImportable(items, sk, m, p);
    }
    forall t, m | ClosedUnderPlacing(items, sk, t) && m in s ensures m in t {
      var chain :| ReplyChain(items, sk, chain) && chain[0] == m;
      ChainInClosed(items, sk, chain, t);
    }
  }

  /** Only what the spool holds matters, not the order in which it is listed. */
  lemma OrderIrrelevant(items: seq<MsgItem>, other: seq<MsgItem>, sk: seq<SkRef>, m: MsgItem)
    requires forall x :: x in items <==> x in other
    ensures Importable(items, sk, m) <==> Importable(other, sk, m)
  {
    if Importable(items, sk, m) {
      var chain :| ReplyChain(items, sk, chain) && chain[0] == m;
      assert ReplyChain(other, sk, chain);
    }
    if Importable(other, sk, m) {
      var chain :| ReplyChain(other, sk, chain) && chain[0] == m;
      assert ReplyChain(items, sk, chain);
    }
  }

  /** A group of replies that only ever points into itself: every member has an
      unstored REPLY, and whatever carries that MSGID is again a member. */
  ghost predicate Unfounded(items: seq<MsgItem>, sk: seq<SkRef>, group: set<MsgItem>) {
    && (forall m :: m in group ==> m.msg.reply != "" && !Stored(sk, m.msg.reply))
    && (forall m, p :: m in group && p in items && RepliesTo(m, p) ==> p in group)
  }

  /** Reply cycles, self-replies, and replies to nothing are never importable. */
  lemma UnfoundedNeverImportable(items: seq<MsgItem>, sk: seq<SkRef>, group: set<MsgItem>, m: MsgItem)
    requires Unfounded(items, sk, group) && m in group
    ensures !Importable(items, sk, m)
  {
    forall chain | ReplyChain(items, sk, chain) && chain[0] == m ensures false {
      ChainStaysUnfounded(items, sk, group, chain, |chain| - 1);
    }
  }

  lemma {:induction false} ChainStaysUnfounded(items: seq<MsgItem>, sk: seq<SkRef>, group: set<MsgItem>,
                                               chain: seq<MsgItem>, k: nat)
    requires Unfounded(items, sk, group) && ReplyChain(items, sk, chain) && chain[0] in group
    requires k < |chain|
    ensures chain[k] in group
  {
    if k > 0 {
      ChainStaysUnfounded(items, sk, group, chain, k - 1);
      assert RepliesTo(chain[k - 1], chain[k]);
    }
  }

  /** A closed ring of replies: each answers the next, the last the first. */
  ghost predicate ReplyRing(ring: seq<MsgItem>) {
    && |ring| > 0
    && forall i, j :: 0 <= i < |ring| && j == (i + 1) % |ring| ==> RepliesTo(ring[i], ring[j])
  }

  lemma {:induction false} ChainLeavesRing(items: seq<MsgItem>, sk: seq<SkRef>, ring: seq<MsgItem>, chain: seq<MsgItem>)
    returns (p: MsgItem)
    requires ReplyRing(ring) && forall i :: 0 <= i < |ring| ==> !Stored(sk, ring[i].msg.msgid)
    requires ReplyChain(items, sk, chain) && chain[0] in ring
    ensures p !in ring && Importable(items, sk, p) && exists j :: 0 <= j < |ring| && ring[j].msg.msgid == p.msg.msgid
  {
    var i :| 0 <= i < |ring| && ring[i] == chain[0];
    var j := (i + 1) % |ring|;
    assert RepliesTo(ring[i], ring[j]);
    assert |chain| > 1;
    assert RepliesTo(chain[0], chain[1]);
    assert ring[j].msg.msgid == chain[1].msg.msgid;
    var rest := chain[1..];
    assert forall l :: 0 <= l < |rest| - 1 ==> RepliesTo(rest[l], rest[l + 1]) by {
      forall l | 0 <= l < |rest| - 1 ensures RepliesTo(rest[l], rest[l + 1]) {
        assert RepliesTo(chain[l + 1], chain[l + 2]);
      }
    }
    assert ReplyChain(items, sk, rest);
    if chain[1] in ring {
      p := ChainLeavesRing(items, sk, ring, rest);
    } else {
      p := chain[1];
    }
  }

  /** Against the replies, from an importable member `j` to any member `k`. */
  lemma {:induction false} AroundRing(items: seq<MsgItem>, sk: seq<SkRef>, ring: seq<MsgItem>, j: nat, k: nat)
    requires ReplyRing(ring) && j < |ring| && k < |ring|
    requires forall i :: 0 <= i < |ring| ==> ring[i] in items && !Stored(sk, ring[i].msg.msgid)
    requires Importable(items, sk, ring[j])
    ensures Importable(items, sk, ring[k])
    decreases j < k, j
  {
    hide Importable;
    if j != k {
      var before := if j > 0 then j - 1 else |ring| - 1;
      NextInRing(before, j, |ring|);
      assert RepliesTo(ring[before], ring[j]);
      ReplyImportable(items, sk, ring[before], ring[j]);
      AroundRing(items, sk, ring, before, k);
    }
  }

  lemma NextInRing(before: nat, j: nat, size: nat)
    requires j < size && before == if j > 0 then j - 1 else size - 1
    ensures j == (before + 1) % size
  {
  }

  /** `p` stands outside the ring but carries the MSGID of one of its members. */
  ghost predicate RingTwin(ring: seq<MsgItem>, p: MsgItem) {
    p !in ring && exists j :: 0 <= j < |ring| && ring[j].msg.msgid == p.msg.msgid
  }

  /** A ring of replies - a self-reply is one of length 1 - is importable if and only if
      an importable message outside it carries the MSGID of a member. */
  lemma RingImportableIff(items: seq<MsgItem>, sk: seq<SkRef>, ring: seq<MsgItem>, k: nat)
    requires ReplyRing(ring) && k < |ring|
    requires forall i :: 0 <= i < |ring| ==> ring[i] in items && !Stored(sk, ring[i].msg.msgid)
    ensures Importable(items, sk, ring[k]) <==> exists p :: RingTwin(ring, p) && Importable(items, sk, p)
  {
    hide Importable;
    if Importable(items, sk, ring[k]) {
      var chain := ChainOf(items, sk, ring[k]);
      var p := ChainLeavesRing(items, sk, ring, chain);
      assert RingTwin(ring, p);
    }
    if p :| RingTwin(ring, p) && Importable(items, sk, p) {
      var j :| 0 <= j < |ring| && ring[j].msg.msgid == p.msg.msgid;
      var before := if j > 0 then j - 1 else |ring| - 1;
      NextInRing(before, j, |ring|);
      assert RepliesTo(ring[before], ring[j]);
      ReplyImportable(items, sk, ring[before], p);
      AroundRing(items, sk, ring, before, k);
    }
  }

  /** A message that answers itself is importable next to a thread start with its MSGID. */
  lemma SelfReplyImportable(items: seq<MsgItem>, sk: seq<SkRef>, m: MsgItem, start: MsgItem)
    requires m in items && start in items && m != start && m.msg.msgid == m.msg.reply == start.msg.msgid != ""
    requires !Stored(sk, m.msg.msgid) && start.msg.reply == "" && !LooksLikeReply(start.msg.subject)
    ensures ReplyRing([m]) && Importable(items, sk, m)
  {
    hide LooksLikeReply, Importable;
    AnchoredImportable(items, sk, start);
    ReplyImportable(items, sk, m, start);
  }

  /** A message without REPLY is importable exactly when it is not stored and its subject
      does not begin with "Re:". */
  lemma StartImportableIff(items: seq<MsgItem>, sk: seq<SkRef>, m: MsgItem)
    requires m in items && m.msg.reply == ""
    ensures Importable(items, sk, m) <==> !Stored(sk, m.msg.msgid) && !MarkedReply(m.msg.subject)
  {
    hide LooksLikeReply, MarkedReply, LookupText;
    LooksLikeReplyIff(m.msg.subject);
    NothingStoredUnder(sk);
    if !Stored(sk, m.msg.msgid) && !MarkedReply(m.msg.subject) {
      AnchoredImportable(items, sk, m);
    }
    if Importable(items, sk, m) {
      var chain := ChainOf(items, sk, m);
      assert |chain| > 1 ==> RepliesTo(chain[0], chain[1]);
    }
  }

  lemma NothingStoredUnder(refs: seq<SkRef>)
    ensures !Stored(refs, "")
  {
  }

  lemma ChainOf(items: seq<MsgItem>, sk: seq<SkRef>, m: MsgItem) returns (chain: seq<MsgItem>)
    requires Importable(items, sk, m)
    ensures ReplyChain(items, sk, chain) && chain[0] == m
  {
    chain :| ReplyChain(items, sk, chain) && chain[0] == m;
  }

  /** What a run with or without include-unsafe is to take. */
  ghost predicate Selected(items: seq<MsgItem>, sk: seq<SkRef>, unsafe: bool, m: MsgItem) {
    if unsafe then m in items && !Stored(sk, m.msg.msgid) else Importable(items, sk, m)
  }

  // ---------- The planner ----------

  /** The plan made k-th; `plans` has the newest at its head. */
  function PlanAt(plans: seq<PlanRef>, k: nat): PlanRef
    requires k < |plans|
  {
    plans[|plans| - 1 - k]
  }

  /** Where plan `p`, made for order[k], hangs: nowhere, under a stored text, or
      under a message planned before it. */
  ghost predicate ParentRight(sk: seq<SkRef>, first: int, order: seq<MsgItem>, k: nat, p: PlanRef)
    requires k < |order|
  {
    var reply := order[k].msg.reply;
    if reply == "" || p.orphan then p.parent == 0
    else if Stored(sk, reply) then p.parent == LookupText(sk, reply)
    else exists j :: 0 <= j < k && RepliesTo(order[k], order[j]) && p.parent == first + j
  }

  /** Plan `p` is what the message order[k] must get. */
  ghost predicate PlanRight(items: seq<MsgItem>, sk: seq<SkRef>, first: int, unsafe: bool,
                            order: seq<MsgItem>, k: nat, p: PlanRef)
    requires k < |order|
  {
    var m := order[k];
    && m in items && !Stored(sk, m.msg.msgid)
    && p.filename == m.filename && p.msgid == m.msg.msgid
    && p.planned == first + k
    && ParentRight(sk, first, order, k, p)
    && (p.orphan ==> unsafe && !Anchored(sk, m))
    && (!unsafe ==> Importable(items, sk, m))
  }

  /** `plans` numbers the distinct messages `order` from `first` on, each rightly. */
  ghost predicate GoodPlan(items: seq<MsgItem>, sk: seq<SkRef>, first: int, unsafe: bool,
                           order: seq<MsgItem>, plans: seq<PlanRef>)
  {
    && |plans| == |order|
    && (forall i, j :: 0 <= i < j < |order| ==> order[i] != order[j])
    && (forall k :: 0 <= k < |order| ==> PlanRight(items, sk, first, unsafe, order, k, PlanAt(plans, k)))
  }

  lemma GrowPlan(items: seq<MsgItem>, sk: seq<SkRef>, first: int, unsafe: bool,
                 order: seq<MsgItem>, plans: seq<PlanRef>, m: MsgItem, p: PlanRef)
    requires GoodPlan(items, sk, first, unsafe, order, plans) && m !in order
    requires PlanRight(items, sk, first, unsafe, order + [m], |order|, p)
    ensures GoodPlan(items, sk, first, unsafe, order + [m], [p] + plans)
  {
    var order', plans' := order + [m], [p] + plans;
    forall k | 0 <= k < |order'| ensures PlanRight(items, sk, first, unsafe, order', k, PlanAt(plans', k)) {
      if k < |order| {
        var was := PlanAt(plans, k);
        assert PlanAt(plans', k) == was && PlanRight(items, sk, first, unsafe, order, k, was);
        if j :| 0 <= j < k && RepliesTo(order[k], order[j]) && was.parent == first + j {
          assert RepliesTo(order'[k], order'[j]);
        }
      }
    }
  }

  method FindPlanrefByFilename(plans: seq<PlanRef>, filename: string) returns (found: bool)
    requires filename != ""
    ensures found <==> exists i :: 0 <= i < |plans| && plans[i].filename == filename
  {
    var p := 0;
    while p < |plans|
      invariant 0 <= p <= |plans|
      invariant forall i :: 0 <= i < p ==> plans[i].filename != filename
    {
      if plans[p].filename == filename {
        return true;
      }
      p := p + 1;
    }
    return false;
  }

  method FindPlanrefByMsgid(plans: seq<PlanRef>, msgid: string) returns (textnum: int)
    requires forall i :: 0 <= i < |plans| ==> plans[i].planned > 0
    ensures textnum == 0 ==> msgid == "" || forall i :: 0 <= i < |plans| ==> plans[i].msgid != msgid
    ensures textnum != 0 ==>
              msgid != "" && exists i :: 0 <= i < |plans| && plans[i].msgid == msgid && plans[i].planned == textnum
    ensures textnum >= 0
  {
    if msgid == "" {
      return 0;
    }
    var p := 0;
    while p < |plans|
      invariant 0 <= p <= |plans|
      invariant forall i :: 0 <= i < p ==> plans[i].msgid != msgid
    {
      if plans[p].msgid != "" && plans[p].msgid == msgid {
        return plans[p].planned;
      }
      p := p + 1;
    }
    return 0;
  }

  /** A spool message has a plan under its file name iff it is in the order. */
  lemma PlannedByName(items: seq<MsgItem>, sk: seq<SkRef>, first: int, unsafe: bool,
                      order: seq<MsgItem>, plans: seq<PlanRef>, m: MsgItem)
    requires DistinctNames(items) && GoodPlan(items, sk, first, unsafe, order, plans) && m in items
    ensures (exists i :: 0 <= i < |plans| && plans[i].filename == m.filename) <==> m in order
  {
    if i :| 0 <= i < |plans| && plans[i].filename == m.filename {
      var k := |plans| - 1 - i;
      assert PlanAt(plans, k) == plans[i] && PlanRight(items, sk, first, unsafe, order, k, PlanAt(plans, k));
      var a :| 0 <= a < |items| && items[a] == m;
      var b :| 0 <= b < |items| && items[b] == order[k];
    }
    if m in order {
      var k :| 0 <= k < |order| && order[k] == m;
      assert PlanRight(items, sk, first, unsafe, order, k, PlanAt(plans, k));
      assert plans[|plans| - 1 - k].filename == m.filename;
    }
  }

  /** Planned as a thread start in pass 1. */
  predicate PlansOnTop(sk: seq<SkRef>, unsafe: bool, m: MsgItem) {
    !Stored(sk, m.msg.msgid) && m.msg.reply == "" && (unsafe || !LooksLikeReply(m.msg.subject))
  }

  /** Planned under a stored text in pass 1. */
  predicate PlansUnderStored(sk: seq<SkRef>, m: MsgItem) {
    !Stored(sk, m.msg.msgid) && m.msg.reply != "" && Stored(sk, m.msg.reply)
  }

  function TopCount(items: seq<MsgItem>, sk: seq<SkRef>, unsafe: bool): nat {
    if items == [] then 0 else
      TopCount(items[..|items| - 1], sk, unsafe) + if PlansOnTop(sk, unsafe, items[|items| - 1]) then 1 else 0
  }

  function UnderStoredCount(items: seq<MsgItem>, sk: seq<SkRef>): nat {
    if items == [] then 0 else
      UnderStoredCount(items[..|items| - 1], sk) + if PlansUnderStored(sk, items[|items| - 1]) then 1 else 0
  }

  lemma CountsStep(items: seq<MsgItem>, i: nat, sk: seq<SkRef>, unsafe: bool)
    requires i < |items|
    ensures TopCount(items[..i + 1], sk, unsafe) ==
            TopCount(items[..i], sk, unsafe) + if PlansOnTop(sk, unsafe, items[i]) then 1 else 0
    ensures UnderStoredCount(items[..i + 1], sk) ==
            UnderStoredCount(items[..i], sk) + if PlansUnderStored(sk, items[i]) then 1 else 0
  {
    hide PlansOnTop, PlansUnderStored;
    assert items[..i + 1][..i] == items[..i];
  }

  /** What the plan so far must hold after pass 1. */
  ghost predicate FirstPassDone(items: seq<MsgItem>, sk: seq<SkRef>, unsafe: bool, order: seq<MsgItem>) {
    forall m :: m in items && (PlansOnTop(sk, unsafe, m) || PlansUnderStored(sk, m)) ==> m in order
  }

  lemma NothingPlanned(items: seq<MsgItem>, sk: seq<SkRef>, first: int, unsafe: bool)
    ensures GoodPlan(items, sk, first, unsafe, [], []) && TopCount([], sk, unsafe) == 0 && UnderStoredCount([], sk) == 0
  {
  }

  /** Pass 1: thread starts and replies to stored texts. */
  method PlanFirstPass(items: seq<MsgItem>, sk: seq<SkRef>, first: int, unsafe: bool)
    returns (plans: seq<PlanRef>, next: int, top: int, underStored: int, ghost order: seq<MsgItem>)
    requires first > 0 && GoodRefs(sk, first) && DistinctNames(items)
    requires forall m :: m in items ==> m.filename != ""
    ensures GoodPlan(items, sk, first, unsafe, order, plans) && next == first + |order|
    ensures |order| == top + underStored
    ensures top == TopCount(items, sk, unsafe) && underStored == UnderStoredCount(items, sk)
    ensures FirstPassDone(items, sk, unsafe, order)
  {
    hide TopCount, UnderStoredCount, GoodPlan, GoodRefs, LooksLikeReply, Importable;
    plans, next, top, underStored, order := [], first, 0, 0, [];
    NothingPlanned(items, sk, first, unsafe);
    for i := 0 to |items|
      invariant GoodPlan(items, sk, first, unsafe, order, plans) && next == first + |order|
      invariant |order| == top + underStored
      invariant top == TopCount(items[..i], sk, unsafe) && underStored == UnderStoredCount(items[..i], sk)
      invariant FirstPassDone(items[..i], sk, unsafe, order)
      invariant forall m :: m in order ==> m in items[..i]
    {
      var m := items[i];
      CountsStep(items, i, sk, unsafe);
      assert items[..i + 1] == items[..i] + [m] && m !in items[..i];
      var known := FindPlanrefByFilename(plans, m.filename);
      PlannedByName(items, sk, first, unsafe, order, plans, m);
      if known {
        continue;
      }
      var own := FindSkref(sk, m.msg.msgid);
      if own > 0 {
        continue;
      }
      if m.msg.reply == "" {
        if LooksLikeReply(m.msg.subject) && !unsafe {
          continue;
        }
        var p := PlanRef(m.filename, m.msg.msgid, next, 0, LooksLikeReply(m.msg.subject));
        if !unsafe {
          AnchoredImportable(items, sk, m);
        }
        GrowPlan(items, sk, first, unsafe, order, plans, m, p);
        plans, next, top, order := [p] + plans, next + 1, top + 1, order + [m];
        continue;
      }
      var parent := FindSkref(sk, m.msg.reply);
      if parent > 0 {
        var p := PlanRef(m.filename, m.msg.msgid, next, parent, false);
        AnchoredImportable(items, sk, m);
        GrowPlan(items, sk, first, unsafe, order, plans, m, p);
        plans, next, underStored, order := [p] + plans, next + 1, underStored + 1, order + [m];
      }
    }
    assert items[..|items|] == items;
  }

  /** Every unstored reply to a planned message is planned. */
  ghost predicate RepliesPlanned(items: seq<MsgItem>, sk: seq<SkRef>, order: seq<MsgItem>) {
    forall m, p :: m in items && p in order && RepliesTo(m, p) && !Stored(sk, m.msg.msgid) ==> m in order
  }

  /** One of passes 2..N: replies to messages planned so far, this pass included. */
  method PlanReplyPass(items: seq<MsgItem>, sk: seq<SkRef>, first: int, unsafe: bool,
                       plans0: seq<PlanRef>, next0: int, ghost order0: seq<MsgItem>)
    returns (plans: seq<PlanRef>, next: int, added: int, changed: bool, ghost order: seq<MsgItem>)
    requires first > 0 && GoodRefs(sk, first) && DistinctNames(items)
    requires forall m :: m in items ==> m.filename != ""
    requires GoodPlan(items, sk, first, unsafe, order0, plans0) && next0 == first + |order0|
    requires FirstPassDone(items, sk, unsafe, order0)
    ensures GoodPlan(items, sk, first, unsafe, order, plans) && next == first + |order|
    ensures order0 <= order && added == |order| - |order0|
    ensures added == |plans| - |plans0| && next == next0 + added && (changed <==> added > 0)
    ensures changed <==> order != order0
    ensures !changed ==> RepliesPlanned(items, sk, order)
  {
    plans, next, added, changed, order := plans0, next0, 0, false, order0;
    for i := 0 to |items|
      invariant GoodPlan(items, sk, first, unsafe, order, plans) && next == first + |order|
      invariant order0 <= order && added == |order| - |order0|
      invariant changed <==> order != order0
      invariant !changed ==> RepliesPlanned(items[..i], sk, order)
    {
      var m := items[i];
      assert items[..i + 1] == items[..i] + [m];
      var known := FindPlanrefByFilename(plans, m.filename);
      PlannedByName(items, sk, first, unsafe, order, plans, m);
      if known {
        continue;
      }
      var own := FindSkref(sk, m.msg.msgid);
      if own > 0 || m.msg.reply == "" {
        continue;
      }
      PlannedNumbersPositive(items, sk, first, unsafe, order, plans);
      var parent := FindPlanrefByMsgid(plans, m.msg.reply);
      if parent > 0 {
        var p := PlanRef(m.filename, m.msg.msgid, next, parent, false);
        PlanUnderPlanned(items, sk, first, unsafe, order, plans, m, p);
        plans, next, added, changed, order := [p] + plans, next + 1, added + 1, true, order + [m];
      } else {
        NoPlanNoParent(items, sk, first, unsafe, order, plans, m);
      }
    }
    assert items[..|items|] == items;
  }

  lemma PlannedNumbersPositive(items: seq<MsgItem>, sk: seq<SkRef>, first: int, unsafe: bool,
                               order: seq<MsgItem>, plans: seq<PlanRef>)
    requires GoodPlan(items, sk, first, unsafe, order, plans) && first > 0
    ensures forall i :: 0 <= i < |plans| ==> plans[i].planned > 0
  {
    forall i | 0 <= i < |plans| ensures plans[i].planned > 0 {
      assert PlanRight(items, sk, first, unsafe, order, |plans| - 1 - i, PlanAt(plans, |plans| - 1 - i));
    }
  }

  lemma PlanUnderPlanned(items: seq<MsgItem>, sk: seq<SkRef>, first: int, unsafe: bool,
                         order: seq<MsgItem>, plans: seq<PlanRef>, m: MsgItem, p: PlanRef)
    requires GoodPlan(items, sk, first, unsafe, order, plans) && FirstPassDone(items, sk, unsafe, order)
    requires m in items && m !in order && !Stored(sk, m.msg.msgid) && m.msg.reply != ""
    requires p == PlanRef(m.filename, m.msg.msgid, first + |order|, p.parent, false)
    requires exists i :: 0 <= i < |plans| && plans[i].msgid == m.msg.reply && plans[i].planned == p.parent
    ensures GoodPlan(items, sk, first, unsafe, order + [m], [p] + plans)
  {
    var i :| 0 <= i < |plans| && plans[i].msgid == m.msg.reply && plans[i].planned == p.parent;
    var j := |plans| - 1 - i;
    assert PlanRight(items, sk, first, unsafe, order, j, PlanAt(plans, j));
    assert RepliesTo((order + [m])[|order|], (order + [m])[j]);
    assert !PlansUnderStored(sk, m);
    if !unsafe {
      ReplyImportable(items, sk, m, order[j]);
    }
    GrowPlan(items, sk, first, unsafe, order, plans, m, p);
  }

  lemma NoPlanNoParent(items: seq<MsgItem>, sk: seq<SkRef>, first: int, unsafe: bool,
                       order: seq<MsgItem>, plans: seq<PlanRef>, m: MsgItem)
    requires GoodPlan(items, sk, first, unsafe, order, plans)
    requires forall i :: 0 <= i < |plans| ==> plans[i].msgid != m.msg.reply
    ensures forall p :: p in order ==> !RepliesTo(m, p)
  {
    forall p | p in order ensures !RepliesTo(m, p) {
      var j :| 0 <= j < |order| && order[j] == p;
      assert PlanRight(items, sk, first, unsafe, order, j, PlanAt(plans, j));
      assert plans[|plans| - 1 - j].msgid == p.msg.msgid;
    }
  }

  /** Include-unsafe: whatever is left becomes a top-level orphan. */
  method PlanOrphans(items: seq<MsgItem>, sk: seq<SkRef>, first: int,
                     plans0: seq<PlanRef>, next0: int, ghost order0: seq<MsgItem>)
    returns (plans: seq<PlanRef>, next: int, orphans: int, ghost order: seq<MsgItem>)
    requires first > 0 && GoodRefs(sk, first) && DistinctNames(items)
    requires forall m :: m in items ==> m.filename != ""
    requires GoodPlan(items, sk, first, true, order0, plans0) && next0 == first + |order0|
    requires FirstPassDone(items, sk, true, order0)
    ensures GoodPlan(items, sk, first, true, order, plans) && next == first + |order|
    ensures order0 <= order && orphans == |order| - |order0|
    ensures orphans == |plans| - |plans0| && next == next0 + orphans
    ensures forall m :: m in items && !Stored(sk, m.msg.msgid) ==> m in order
  {
    plans, next, orphans, order := plans0, next0, 0, order0;
    for i := 0 to |items|
      invariant GoodPlan(items, sk, first, true, order, plans) && next == first + |order|
      invariant order0 <= order && orphans == |order| - |order0|
      invariant forall m :: m in items[..i] && !Stored(sk, m.msg.msgid) ==> m in order
    {
      var m := items[i];
      assert items[..i + 1] == items[..i] + [m];
      var known := FindPlanrefByFilename(plans, m.filename);
      PlannedByName(items, sk, first, true, order, plans, m);
      if known {
        continue;
      }
      var own := FindSkref(sk, m.msg.msgid);
      if own > 0 {
        continue;
      }
      var p := PlanRef(m.filename, m.msg.msgid, next, 0, true);
      assert !PlansOnTop(sk, true, m) && !PlansUnderStored(sk, m);
      GrowPlan(items, sk, first, true, order, plans, m, p);
      plans, next, orphans, order := [p] + plans, next + 1, orphans + 1, order + [m];
    }
  }

  /** The whole dry run. The planned messages are exactly the importable ones
      (with include-unsafe: every unstored one), numbered without gap from
      `first`, and every counter is the size of the class it names. */
  method BuildImportPlan(items: seq<MsgItem>, sk: seq<SkRef>, first: int, unsafe: bool)
    returns (plans: seq<PlanRef>, planned: int, next: int, top: int, replyExisting: int,
             replyPlanned: int, orphan: int, ghost order: seq<MsgItem>)
    requires first > 0 && GoodRefs(sk, first) && DistinctNames(items)
    requires forall m :: m in items ==> m.filename != ""
    ensures GoodPlan(items, sk, first, unsafe, order, plans)
    ensures planned == |plans| && next == first + planned
    ensures planned == top + replyExisting + replyPlanned + orphan
    ensures top == TopCount(items, sk, unsafe) && replyExisting == UnderStoredCount(items, sk)
    ensures replyPlanned >= 0 && orphan >= 0 && (!unsafe ==> orphan == 0)
    ensures forall m :: m in order <==> Selected(items, sk, unsafe, m)
    ensures !unsafe ==> forall m :: m in order && m.msg.reply == "" ==> !MarkedReply(m.msg.subject)
  {
    plans, next, top, replyExisting, order := PlanFirstPass(items, sk, first, unsafe);
    planned, replyPlanned, orphan := top + replyExisting, 0, 0;
    var changed := true;
    while changed
      invariant GoodPlan(items, sk, first, unsafe, order, plans) && next == first + |order|
      invariant planned == |order| == top + replyExisting + replyPlanned && replyPlanned >= 0
      invariant FirstPassDone(items, sk, unsafe, order)
      invariant !changed ==> RepliesPlanned(items, sk, order)
      decreases changed, set m | m in items && m !in order
    {
      ghost var before, left := order, set m | m in items && m !in order;
      var added;
      plans, next, added, changed, order := PlanReplyPass(items, sk, first, unsafe, plans, next, order);
      planned, replyPlanned := planned + added, replyPlanned + added;
      if changed {
        var m := order[|before|];
        assert PlanRight(items, sk, first, unsafe, order, |before|, PlanAt(plans, |before|));
        assert m in left && forall x :: x in before ==> x in order;
      }
    }
    if unsafe {
      plans, next, orphan, order := PlanOrphans(items, sk, first, plans, next, order);
      planned := planned + orphan;
      OnlyUnstoredPlanned(items, sk, first, unsafe, order, plans);
    } else {
      PlanIsImportable(items, sk, first, order, plans);
      forall m | m in order && m.msg.reply == "" ensures !MarkedReply(m.msg.subject) {
        StartImportableIff(items, sk, m);
      }
    }
  }

  lemma OnlyUnstoredPlanned(items: seq<MsgItem>, sk: seq<SkRef>, first: int, unsafe: bool,
                            order: seq<MsgItem>, plans: seq<PlanRef>)
    requires GoodPlan(items, sk, first, unsafe, order, plans)
    ensures forall m :: m in order ==> m in items && !Stored(sk, m.msg.msgid)
    ensures !unsafe ==> forall m :: m in order ==> Importable(items, sk, m)
  {
    forall m | m in order
      ensures m in items && !Stored(sk, m.msg.msgid) && (!unsafe ==> Importable(items, sk, m))
    {
      var k :| 0 <= k < |order| && order[k] == m;
      assert PlanRight(items, sk, first, unsafe, order, k, PlanAt(plans, k));
    }
  }

  /** A safe plan no pass can extend holds exactly the importable messages. */
  lemma PlanIsImportable(items: seq<MsgItem>, sk: seq<SkRef>, first: int, order: seq<MsgItem>, plans: seq<PlanRef>)
    requires GoodPlan(items, sk, first, false, order, plans)
    requires FirstPassDone(items, sk, false, order) && RepliesPlanned(items, sk, order)
    ensures forall m :: m in order <==> Importable(items, sk, m)
  {
    OnlyUnstoredPlanned(items, sk, first, false, order, plans);
    var s := set m | m in order;
    forall m | m in items && !Stored(sk, m.msg.msgid) && Anchored(sk, m) ensures m in s {
      assert PlansOnTop(sk, false, m) || PlansUnderStored(sk, m);
    }
    assert ClosedUnderPlacing(items, sk, s);
    forall m | Importable(items, sk, m) ensures m in order {
      var chain :| ReplyChain(items, sk, chain) && chain[0] == m;
      ChainInClosed(items, sk, chain, s);
    }
  }

  /** Every parent number a plan carries lies below the plan's own number. */
  lemma ParentBelowChild(items: seq<MsgItem>, sk: seq<SkRef>, first: int, unsafe: bool,
                         order: seq<MsgItem>, plans: seq<PlanRef>, i: nat)
    requires first > 0 && GoodRefs(sk, first)
    requires GoodPlan(items, sk, first, unsafe, order, plans) && i < |plans|
    ensures plans[i].parent != 0 ==> 0 < plans[i].parent < plans[i].planned
    ensures plans[i].planned == first + |plans| - 1 - i
  {
    var k := |plans| - 1 - i;
    assert PlanRight(items, sk, first, unsafe, order, k, PlanAt(plans, k));
    LookupFinds(sk, order[k].msg.reply, first);
  }
}
