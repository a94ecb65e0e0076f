/** The incremental importer of the oneliner cache: run_import() over a spool, with its
    MSGID de-duplication and its checkpoint. */
module IbolImport {
  import opened CText
  import opened IbolDb
  import opened IbolTail

  /** What one .MSG file comes to: unreadable, no (usable) oneliner, or a record. */
  datatype Kind = Unparsable | Ignored | Entry(rec: Record)

  datatype MsgFile = MsgFile(number: nat, kind: Kind)

  /** The files of the spool as collect_msg_files() sorts them. */
  type Spool = seq<MsgFile>

  /** Numbered from 1, ascending; records as make_record() builds them. */
  ghost predicate GoodSpool(spool: Spool) {
    && (forall i :: 0 <= i < |spool| ==> spool[i].number >= 1)
    && (forall i, j :: 0 <= i < j < |spool| ==> spool[i].number <= spool[j].number)
    && (forall i :: 0 <= i < |spool| && spool[i].kind.Entry? ==>
          Fits(spool[i].kind.rec) && spool[i].kind.rec.msgid != "")
  }

  function Highest(spool: Spool): nat {
    if spool == [] then 0 else spool[|spool| - 1].number
  }

  /** The cache file and the checkpoint file. */
  datatype Disk = Disk(cache: Option<string>, state: Option<nat>)

  function Contents(cache: Option<string>): string {
    if cache.Some? then cache.value else ""
  }

  function Checkpoint(state: Option<nat>): nat {
    if state.Some? then state.value else 0
  }

  function Ids(recs: seq<Record>): set<string> {
    set r | r in recs :: r.msgid
  }

  /** In an ascending spool no file has a higher number, and one has it. */
  lemma HighestIsMax(spool: Spool)
    requires forall i, j :: 0 <= i < j < |spool| ==> spool[i].number <= spool[j].number
    ensures forall f :: f in spool ==> f.number <= Highest(spool)
    ensures spool == [] ==> Highest(spool) == 0
    ensures spool != [] ==> exists f :: f in spool && f.number == Highest(spool)
  {
    if spool != [] {
      assert spool[|spool| - 1] in spool;
    }
  }

  // ---------- What a run adds ----------

  /** The files above the checkpoint. */
  function Selected(spool: Spool, checkpoint: nat): Spool {
    if spool == [] then []
    else (if spool[0].number <= checkpoint then [] else [spool[0]]) + Selected(spool[1..], checkpoint)
  }

  /** The records written for `files` when `ids` are already known. */
  function Fresh(files: Spool, ids: set<string>): seq<Record> {
    if files == [] then []
    else if !files[0].kind.Entry? || files[0].kind.rec.msgid in ids then Fresh(files[1..], ids)
    else [files[0].kind.rec] + Fresh(files[1..], ids + {files[0].kind.rec.msgid})
  }

  function WrittenAll(recs: seq<Record>): string {
    if recs == [] then "" else Written(recs[0]) + WrittenAll(recs[1..])
  }

  predicate AnyUnparsable(files: Spool) {
    exists i :: 0 <= i < |files| && files[i].kind.Unparsable?
  }

  /** The line end put before new records when the cache lacks one. */
  function Separator(cache: string): string {
    if cache == "" || cache[|cache| - 1] == '\n' || cache[|cache| - 1] == '\r' then "" else "\n"
  }

  /** --update refuses a shrunken spool, and a checkpoint without its cache. */
  predicate Refuses(d: Disk, spool: Spool) {
    (Checkpoint(d.state) != 0 && Highest(spool) < Checkpoint(d.state)) || (d.state.Some? && d.cache.None?)
  }

  /** What --update appends to the cache. */
  function Appended(d: Disk, spool: Spool): string {
    var cache := Contents(d.cache);
    Separator(cache) + WrittenAll(Fresh(Selected(spool, Checkpoint(d.state)), Ids(Records(cache))))
  }

  /** The disk after a run that was not interrupted. */
  function AfterUpdate(d: Disk, spool: Spool): Disk {
    if Refuses(d, spool) then d
    else Disk(Some(Contents(d.cache) + Appended(d, spool)),
              if AnyUnparsable(Selected(spool, Checkpoint(d.state))) then d.state else Some(Highest(spool)))
  }

  function AfterRebuild(d: Disk, spool: Spool): Disk {
    Disk(Some(WrittenAll(Fresh(spool, {}))), if AnyUnparsable(spool) then d.state else Some(Highest(spool)))
  }

  // ---------- The importer ----------

  /** A set of MSGIDs, grown at its end. */
  class IdSet {
    var items: seq<string>

    constructor ()
      ensures items == []
    {
      items := [];
    }

    method Contains(id: string) returns (found: bool)
      ensures found <==> id in items
    {
      var i := 0;
      while i < |items|
        invariant 0 <= i <= |items|
        invariant id !in items[..i]
      {
        if items[i] == id {
          return true;
        }
        i := i + 1;
      }
      return false;
    }

    method Add(id: string)
      modifies this
      ensures items == if id in old(items) then old(items) else old(items) + [id]
    {
      var known := Contains(id);
      if !known {
        items := items + [id];
      }
    }
  }

  ghost function Members(items: seq<string>): set<string> {
    set s | s in items
  }

  /** load_cache_ids(): the MSGIDs of the valid lines, damaged ones skipped. */
  method LoadCacheIds(cache: string, ids: IdSet)
    modifies ids
    ensures Members(ids.items) == Members(old(ids.items)) + Ids(Records(cache))
  {
    hide ParseLine, LineEnd, Records, ValidOf, Ids;
    var rest := cache;
    while rest != ""
      invariant Members(ids.items) + Ids(Records(rest)) == Members(old(ids.items)) + Ids(Records(cache))
      decreases |rest|
    {
      var e := LineEnd(rest, 0);
      var n := if e == |rest| then e else e + 1;
      assert rest[..|rest|] == rest;
      var record := IbolDbParseLine(rest[..n]);
      IdsOfFirst(rest, n);
      IdsOfLine(rest[..n]);
      if record.Some? {
        ids.Add(record.value.msgid);
      }
      rest := rest[n..];
    }
    NoIds();
  }

  lemma NoIds()
    ensures Ids(Records("")) == {}
  {
  }

  lemma IdsOfLine(line: string)
    ensures Ids(ValidOf(line)) == if ParseLine(line).Some? then {ParseLine(line).value.msgid} else {}
  {
    hide ParseLine;
  }

  lemma IdsOfFirst(s: string, n: nat)
    requires s != "" && n == if LineEnd(s, 0) == |s| then |s| else LineEnd(s, 0) + 1
    ensures Ids(Records(s)) == Ids(ValidOf(s[..n])) + Ids(Records(s[n..]))
  {
    hide ParseLine;
    assert s[..|s|] == s;
  }

  /** The files a run looks at: --update skips those up to the checkpoint. */
  function Looked(spool: Spool, update: bool, checkpoint: nat): Spool {
    if update then Selected(spool, checkpoint) else spool
  }

  lemma LookedStep(spool: Spool, update: bool, checkpoint: nat)
    requires spool != []
    ensures Looked(spool, update, checkpoint) ==
            (if update && spool[0].number <= checkpoint then [] else [spool[0]]) +
            Looked(spool[1..], update, checkpoint)
  {
  }

  /** The state of the file loop: what is written and what is still to come. */
  ghost function Outlook(out: string, files: Spool, ids: set<string>): string {
    out + WrittenAll(Fresh(files, ids))
  }

  /** What one looked-at file adds. */
  lemma OutlookStep(out: string, f: MsgFile, rest: Spool, ids: set<string>)
    ensures Outlook(out, [f] + rest, ids) ==
            if f.kind.Entry? && f.kind.rec.msgid !in ids
            then Outlook(out + Written(f.kind.rec), rest, ids + {f.kind.rec.msgid}) else Outlook(out, rest, ids)
  {
    hide Written;
    assert ([f] + rest)[1..] == rest;
    if f.kind.Entry? && f.kind.rec.msgid !in ids {
      var later := Fresh(rest, ids + {f.kind.rec.msgid});
      assert ([f.kind.rec] + later)[1..] == later;
      ConcatAssociative(out, Written(f.kind.rec), WrittenAll(later));
    }
  }

  /** The loop over the spool: appends the records of new MSGIDs to `out`. */
  method ImportFiles(spool: Spool, update: bool, checkpoint: nat, ids: IdSet, start: string)
    returns (out: string, failed: bool)
    modifies ids
    ensures out == start + WrittenAll(Fresh(Looked(spool, update, checkpoint), Members(old(ids.items))))
    ensures failed <==> AnyUnparsable(Looked(spool, update, checkpoint))
  {
    hide Looked, Outlook, Written;
    out, failed := start, false;
    ghost var goal := Outlook(start, Looked(spool, update, checkpoint), Members(ids.items));
    OutlookIs(start, Looked(spool, update, checkpoint), Members(ids.items));
    assert spool[0..] == spool;
    for i := 0 to |spool|
      invariant Outlook(out, Looked(spool[i..], update, checkpoint), Members(ids.items)) == goal
      invariant AnyUnparsable(Looked(spool, update, checkpoint)) <==>
                  failed || AnyUnparsable(Looked(spool[i..], update, checkpoint))
    {
      var f := spool[i];
      ghost var rest := Looked(spool[i + 1..], update, checkpoint);
      assert spool[i..][1..] == spool[i + 1..];
      LookedStep(spool[i..], update, checkpoint);
      assert [] + rest == rest;
      if update && f.number <= checkpoint {
        continue;
      }
      OutlookStep(out, f, rest, Members(ids.items));
      UnparsableStep(f, rest);
      if f.kind.Unparsable? {
        failed := true;
        continue;
      }
      if f.kind.Ignored? {
        continue;
      }
      var known := ids.Contains(f.kind.rec.msgid);
      if known {
        continue;
      }
      ghost var before := ids.items;
      var line := WriteRecord(f.kind.rec);
      out := out + line;
      ids.Add(f.kind.rec.msgid);
      assert Members(ids.items) == Members(before) + {f.kind.rec.msgid};
    }
    NothingLooked(spool, update, checkpoint, out, Members(ids.items));
  }

  lemma UnparsableStep(f: MsgFile, rest: Spool)
    ensures AnyUnparsable([f] + rest) <==> f.kind.Unparsable? || AnyUnparsable(rest)
  {
    var files := [f] + rest;
    if i :| 0 <= i < |rest| && rest[i].kind.Unparsable? {
      assert files[i + 1].kind.Unparsable?;
    }
    if f.kind.Unparsable? {
      assert files[0].kind.Unparsable?;
    }
  }

  lemma OutlookIs(out: string, files: Spool, ids: set<string>)
    ensures Outlook(out, files, ids) == out + WrittenAll(Fresh(files, ids))
  {
  }

  lemma NothingLooked(spool: Spool, update: bool, checkpoint: nat, out: string, ids: set<string>)
    ensures Looked(spool[|spool|..], update, checkpoint) == [] && Outlook(out, [], ids) == out
  {
    assert spool[|spool|..] == [];
  }

  datatype Mode = Rebuild | Update

  /** run_import() on the cache and checkpoint files. */
  class Importer {
    var cache: Option<string>
    var state: Option<nat>

    ghost function OnDisk(): Disk
      reads this
    {
      Disk(cache, state)
    }

    constructor ()
      ensures OnDisk() == Disk(None, None)
    {
      cache, state := None, None;
    }

    /** The spool's last file is numbered below the checkpoint. */
    ghost predicate Shrunken(spool: Spool)
      reads this
    {
      state.Some? && 0 < state.value && (spool == [] || spool[|spool| - 1].number < state.value)
    }

    method RunImport(mode: Mode, spool: Spool) returns (rc: int)
      modifies this
      ensures mode.Rebuild? ==> OnDisk() == AfterRebuild(old(OnDisk()), spool)
      ensures mode.Update? ==> OnDisk() == AfterUpdate(old(OnDisk()), spool)
      ensures rc == 0 <==> !(mode.Update? && Refuses(old(OnDisk()), spool)) &&
                           !AnyUnparsable(Looked(spool, mode.Update?, Checkpoint(old(state))))
      ensures mode.Update? && (old(Shrunken(spool)) || (old(state).Some? && old(cache).None?)) ==>
                rc != 0 && OnDisk() == old(OnDisk())
      ensures mode.Update? && !old(Shrunken(spool)) && (old(state).Some? ==> old(cache).Some?) ==>
                cache.Some? &&
                (rc == 0 <==>
                 state == Some(Highest(spool)) && !AnyUnparsable(Selected(spool, Checkpoint(old(state)))))
      ensures mode.Update? && old(state).Some? ==> state.Some? && state.value >= old(state).value
      ensures mode.Rebuild? ==> cache.Some? && (rc == 0 <==> !AnyUnparsable(spool))
    {
      hide ParseLine, Fresh, Selected, Records, WrittenAll;
      var ids := new IdSet();
      var checkpoint := if mode.Update? then Checkpoint(state) else 0;
      var out := "";
      if mode.Update? {
        if (checkpoint != 0 && Highest(spool) < checkpoint) || (state.Some? && cache.None?) {
          return 1;
        }
        LoadCacheIds(Contents(cache), ids);
        assert Members(ids.items) == Ids(Records(Contents(cache)));
        out := Contents(cache) + Separator(Contents(cache));
      }
      var failed;
      ghost var known := Members(ids.items);
      assert mode.Rebuild? ==> known == {};
      out, failed := ImportFiles(spool, mode.Update?, checkpoint, ids, out);
      ghost var added := WrittenAll(Fresh(Looked(spool, mode.Update?, checkpoint), known));
      ConcatAssociative(Contents(cache), Separator(Contents(cache)), added);
      assert "" + added == added;
      cache := Some(out);
      if !failed {
        state := Some(Highest(spool));
      }
      rc := if failed then 1 else 0;
    }
  }
}
