/** The records ftntoss keeps while it works on one echomail area: spool
    messages, the index of stored texts by MSGID, and the import plan.
    Every list is grown at its head, so index 0 is the newest entry. */
module FtnIndex {
  import opened CText

  /** What read_fido_msg() delivers for one .MSG file. */
  datatype FidoMsg = FidoMsg(
    from: string, to: string, subject: string, date: string,
    chrs: string, msgid: string, reply: string, tid: string, tzutc: string,
    rawBody: string, cleanBody: string)

  /** One file of the spool together with its (fixed) parsed content. */
  datatype MsgItem = MsgItem(filename: string, msg: FidoMsg)

  datatype SkRef = SkRef(msgid: string, textnum: int)

  datatype PlanRef = PlanRef(filename: string, msgid: string, planned: int, parent: int, orphan: bool)

  /** The text number the first entry for `id` carries; 0 without one. */
  function LookupText(refs: seq<SkRef>, id: string): int {
    if id == "" || refs == [] then 0
    else if refs[0].msgid == id then refs[0].textnum
    else LookupText(refs[1..], id)
  }

  predicate Stored(refs: seq<SkRef>, id: string) {
    LookupText(refs, id) > 0
  }

  /** Entries as add_skref() lets them in, for texts below `bound`. */
  predicate GoodRefs(refs: seq<SkRef>, bound: int) {
    forall i :: 0 <= i < |refs| ==> refs[i].msgid != "" && 0 < refs[i].textnum < bound
  }

  method AddSkref(refs: seq<SkRef>, msgid: string, textnum: int) returns (grown: seq<SkRef>)
    ensures msgid == "" || textnum <= 0 ==> grown == refs
    ensures msgid != "" && textnum > 0 ==> grown == [SkRef(msgid, textnum)] + refs
  {
    if msgid == "" || textnum <= 0 {
      return refs;
    }
    grown := [SkRef(msgid, textnum)] + refs;
  }

  method FindSkref(refs: seq<SkRef>, msgid: string) returns (textnum: int)
    ensures textnum == LookupText(refs, msgid)
  {
    if msgid == "" {
      return 0;
    }
    var p := 0;
    while p < |refs|
      invariant 0 <= p <= |refs|
      invariant LookupText(refs, msgid) == LookupText(refs[p..], msgid)
    {
      if refs[p].msgid == msgid {
        return refs[p].textnum;
      }
      p := p + 1;
    }
    return 0;
  }

  /** A MSGID is found exactly when some entry carries it, and what is found is
      the entry nearest the head. */
  lemma {:induction false} LookupFinds(refs: seq<SkRef>, id: string, bound: int)
    requires GoodRefs(refs, bound)
    ensures 0 <= LookupText(refs, id)
    ensures Stored(refs, id) <==> exists i :: 0 <= i < |refs| && refs[i].msgid == id
    ensures Stored(refs, id) ==>
              exists i :: 0 <= i < |refs| && refs[i] == SkRef(id, LookupText(refs, id)) &&
                          forall j :: 0 <= j < i ==> refs[j].msgid != id
  {
    if refs != [] && id != "" && refs[0].msgid != id {
      LookupFinds(refs[1..], id, bound);
      if Stored(refs, id) {
        var i :| 0 <= i < |refs[1..]| && refs[1..][i] == SkRef(id, LookupText(refs[1..], id)) &&
                 forall j :: 0 <= j < i ==> refs[1..][j].msgid != id;
        assert refs[i + 1] == SkRef(id, LookupText(refs, id));
        assert forall j :: 0 < j < i + 1 ==> refs[j] == refs[1..][j - 1];
      }
      assert forall i :: 0 < i < |refs| ==> refs[i] == refs[1..][i - 1];
    }
  }

  /** subject_looks_like_reply(): "Re:" in any case after blanks. */
  predicate LooksLikeReply(subject: string) {
    var p := BlankEnd(subject, 0);
    p + 2 < |subject| && (subject[p] == 'R' || subject[p] == 'r') &&
      (subject[p + 1] == 'E' || subject[p + 1] == 'e') && subject[p + 2] == ':'
  }

  /** A subject that begins with "Re:", in capitals or not, behind any blanks. */
  ghost predicate MarkedReply(subject: string) {
    exists blanks, mark, rest ::
      subject == blanks + mark + rest && (forall c :: c in blanks ==> c in " \t") &&
      mark in {"Re:", "RE:", "rE:", "re:"}
  }

  lemma LooksLikeReplyIff(subject: string)
    ensures LooksLikeReply(subject) <==> MarkedReply(subject)
  {
    if LooksLikeReply(subject) {
      MarkFound(subject);
    }
    if blanks, mark, rest :| subject == blanks + mark + rest && (forall c :: c in blanks ==> c in " \t") &&
                             mark in {"Re:", "RE:", "rE:", "re:"} {
      MarkSeen(blanks, mark, rest);
    }
  }

  lemma MarkFound(subject: string)
    requires LooksLikeReply(subject)
    ensures MarkedReply(subject)
  {
    hide BlankEnd;
    var p := BlankEnd(subject, 0);
    var blanks, mark, rest := subject[..p], subject[p..p + 3], subject[p + 3..];
    assert subject == blanks + mark + rest;
    assert mark == [subject[p], subject[p + 1], subject[p + 2]];
  }

  lemma MarkSeen(blanks: string, mark: string, rest: string)
    requires (forall c :: c in blanks ==> c in " \t") && mark in {"Re:", "RE:", "rE:", "re:"}
    ensures LooksLikeReply(blanks + mark + rest)
  {
    hide BlankEnd;
    var s, p := blanks + mark + rest, |blanks|;
    assert s[p] == mark[0] && s[p + 1] == mark[1] && s[p + 2] == mark[2];
    forall k | 0 <= k < p ensures IsBlank(s[k]) {
      assert s[k] == blanks[k] && blanks[k] in blanks;
    }
    assert BlankEnd(s, 0) == p;
  }

  /** File names are unique in a directory. */
  predicate DistinctNames(items: seq<MsgItem>) {
    forall i, j :: 0 <= i < j < |items| ==> items[i].filename != items[j].filename
  }
}
