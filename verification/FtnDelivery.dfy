/** From files to the importer and back: what read_fido_msg() delivers is what the import
    relies on, and what an export writes is not imported again. */
module FtnDelivery {
  import opened CText
  import opened FtnAddress
  import opened FtnIndex
  import opened FtnMsg
  import opened FtnMsgOut
  import opened FtnMsgRound
  import FtnEcho
  import FtnImport
  import FtnPlan
  import FtnScan
  import FtnStore

  // ---------- What the reader delivers ----------

  lemma FieldTextFits(field: string)
    ensures |FieldText(field)| <= |field| && CString(FieldText(field))
  {
    hide TrimSpace;
    var text := field[..IndexOf(field, '\0')];
    assert TrimSpace(text) <= text;
  }

  lemma {:induction false} CleanIsLines(lines: seq<string>)
    ensures FtnStore.WholeLines(Clean(lines))
  {
    hide Hidden, Stripped;
    if lines != [] {
      CleanIsLines(lines[1..]);
    }
  }

  /** A message as the reader can deliver it. */
  predicate Delivered(msg: FidoMsg) {
    && |msg.from| <= 36 && |msg.to| <= 36 && |msg.subject| <= 72 && |msg.date| <= 20
    && CString(msg.from) && CString(msg.to) && CString(msg.subject) && CString(msg.date)
    && DeliveredId(msg.msgid) && DeliveredId(msg.reply) && FtnStore.WholeLines(msg.cleanBody)
  }

  /** Whatever bytes a file holds. */
  lemma ReaderDelivers(file: string)
    requires ReadMsg(file).Some?
    ensures Delivered(ReadMsg(file).value)
  {
    hide FieldText, Lines, KludgesOf, Clean, Raw, DeliveredId, FtnStore.WholeLines;
    FieldTextFits(file[..36]);
    FieldTextFits(file[36..72]);
    FieldTextFits(file[72..144]);
    FieldTextFits(file[144..164]);
    var body := file[HEADER_SIZE..];
    assert DeliveredId("") by {
      EmptyDelivered();
    }
    IdsDelivered(body, "", NO_KLUDGES);
    CleanIsLines(Lines(body, ""));
  }

  lemma EmptyDelivered()
    ensures DeliveredId("")
  {
  }

  /** So a spool that was read meets what the import of it asks for: whole lines, and
      MSGIDs that fit one line. */
  lemma SpoolDelivered(items: seq<MsgItem>, sk: seq<SkRef>, first: int, unsafe: bool, run: seq<FtnImport.Placed>)
    requires forall m :: m in items ==> Delivered(m.msg)
    requires FtnImport.GoodRun(items, sk, first, unsafe, run)
    ensures FtnImport.WholeBodies(run)
    ensures forall k :: 0 <= k < |run| ==> FtnScan.IdBytes(run[k].item.msg.msgid)
  {
    hide FtnImport.Grown, FtnStore.WholeLines;
    forall k | 0 <= k < |run|
      ensures FtnStore.WholeLines(run[k].item.msg.cleanBody) && FtnScan.IdBytes(run[k].item.msg.msgid) {
      assert FtnImport.PlacedRight(items, sk, first, unsafe, run, k);
      assert Delivered(run[k].item.msg);
    }
  }

  /** Importing a spool that was read once more, from a fresh scan: idle if and only if the
      subject and the MSGID of every import let it be recognised. */
  lemma DeliveredReimportIff(files: map<int, string>, conf: nat, last: nat, aka: Address, area: string,
                             items: seq<MsgItem>, unsafe: bool, stamp: FidoMsg -> int, run: seq<FtnImport.Placed>)
    requires FtnEcho.WholeTexts(files) && FtnImport.WrongOnesUnknown(items, area, run)
    requires forall m :: m in items ==> Delivered(m.msg)
    requires var sk := FtnScan.ScanTexts(files, conf, last, aka);
             FtnImport.GoodRun(items, sk, last + 1, unsafe, run) &&
             FtnImport.Settled(items, FtnImport.Grown(sk, last + 1, run), unsafe)
    ensures var files' := FtnImport.StoreRun(files, last + 1, area, run, stamp);
            var refs := FtnScan.ScanTexts(files', conf, last + |run|, aka);
            var idle := FtnImport.NextRunIdle(items, refs, last + |run| + 1, unsafe);
            && (idle <==> forall k :: 0 <= k < |run| ==> FtnImport.Survives(area, run[k].item.msg))
            && ((forall k :: 0 <= k < |run| ==> FtnScan.PlainFields(area, run[k].item.msg)) ==>
                  (idle <==> forall k :: 0 <= k < |run| ==> FtnImport.PlainSurvives(run[k].item.msg)))
  {
    hide FtnScan.ScanTexts, FtnImport.StoreRun, FtnImport.Grown, FtnImport.Settled, FtnImport.GoodRun,
         FtnImport.NextRunIdle, FtnImport.Seen, FtnEcho.Front, FtnEcho.WholeTexts, FtnImport.WholeBodies,
         FtnImport.WrongOnesUnknown, FtnScan.PlainFields, FtnScan.ScannedMsgid, Delivered;
    SpoolDelivered(items, FtnScan.ScanTexts(files, conf, last, aka), last + 1, unsafe, run);
    FtnImport.ReimportIdleIff(files, conf, last, aka, area, items, unsafe, stamp, run);
    forall k | 0 <= k < |run|
      ensures FtnImport.Seen(area, run[k]) == run[k].item.msg.msgid <==> FtnImport.Survives(area, run[k].item.msg)
      ensures FtnScan.PlainFields(area, run[k].item.msg) ==>
                (FtnImport.Survives(area, run[k].item.msg) <==> FtnImport.PlainSurvives(run[k].item.msg)) {
      FtnImport.SeenIff(area, run[k]);
    }
  }

  // ---------- The MSGID of a local text ----------

  lemma FiveDigits(n: int)
    requires InRange(n)
    ensures |Signed(n)| <= 5 && Unbroken(Signed(n)) && IsDigit(Signed(n)[0])
  {
    assert Pow10(5) == 10 * (10 * (10 * (10 * (10 * Pow10(0)))));
    DecimalShort(n, 5);
    assert AllDigits(Signed(n));
  }

  lemma {:induction false} HexUnbroken(n: nat, width: nat)
    ensures Unbroken(FtnScan.Hex(n, width))
  {
    if width > 0 {
      HexUnbroken(n / 16, width - 1);
    }
  }

  /** Under an AKA a configuration can hold, the MSGID of a local text is short, one line
      and starts with a digit. */
  lemma LocalMsgidFits(aka: Address, conf: nat, i: nat)
    requires AddressInRange(aka)
    ensures var id := FtnScan.LocalMsgid(aka, conf, i); id != "" && |id| <= 32 && Unbroken(id) && IdFits(id)
  {
    hide Signed, FtnScan.Hex, FtnScan.ExportSerial;
    FiveDigits(aka.zone);
    FiveDigits(aka.net);
    FiveDigits(aka.node);
    FiveDigits(aka.point);
    var serial := FtnScan.ExportSerial(conf, i);
    HexUnbroken(serial % 0x1_0000_0000, 8);
    var address, hex := FormatAddress(aka), FtnScan.Hex(serial % 0x1_0000_0000, 8);
    assert |address| <= 23 && Unbroken(address) && address[0] == Signed(aka.zone)[0];
    assert FtnScan.LocalMsgid(aka, conf, i) == address + " " + hex;
  }

  // ---------- Echoes ----------

  /** The MSGID an export comes back with. */
  function EchoMsgid(m: Message): string {
    var last := LastValue("MSGID:", Cuts(Split(Newlines(m.body))));
    if last.Some? then last.value else m.msgid
  }

  /** The file an export writes comes back under the MSGID of its text, unless a control
      line of the body sets another; it is due if and only if no stored text is indexed
      under that MSGID - and, in safe mode, what it answers is there. */
  lemma EchoDueIff(files: map<int, string>, conf: nat, last: nat, aka: Address, i: nat, m: Message,
                   name: string, unsafe: bool)
    requires AddressInRange(aka) && m.msgid == FtnScan.LocalMsgid(aka, conf, i)
    requires Printable(m) && Unbroken(m.reply) && NoKludge(m.tear) && NoKludge(m.origin)
    ensures var refs, echo := FtnScan.ScanTexts(files, conf, last, aka), ReadMsg(Header(m) + BodyBytes(m));
            && echo.Some? && echo.value.msgid == EchoMsgid(m)
            && (FtnImport.Due(refs, MsgItem(name, echo.value), unsafe) <==>
                && EchoMsgid(m) != ""
                && (forall q :: 0 < q <= last ==> !FtnEcho.IndexedAs(files, conf, q, aka, EchoMsgid(m)))
                && (unsafe || FtnPlan.Anchored(refs, MsgItem(name, echo.value))))
  {
    LocalMsgidFits(aka, conf, i);
    hide ReadMsg, Header, BodyBytes, FtnScan.ScanTexts, FtnScan.LocalMsgid, LastValue, Cuts, Split, Newlines, NoKludge,
         Value, FtnEcho.IndexedAs, FtnPlan.Anchored;
    MsgidDelivered(m);
    ValueIff(m.msgid);
    if EchoMsgid(m) != "" {
      FtnEcho.StoredIff(files, conf, last, aka, EchoMsgid(m));
    }
  }

  /** For a body without control lines, and a text by a local author: the echo is due if
      and only if the scanner finds another MSGID in the text and no other text is indexed
      under that of the export. */
  lemma EchoOfTextDueIff(files: map<int, string>, conf: nat, last: nat, aka: Address, i: nat, m: Message, name: string)
    requires 0 < i <= last && i in files && FtnEcho.ByLocalAuthor(files[i])
    requires AddressInRange(aka) && m.msgid == FtnScan.LocalMsgid(aka, conf, i)
    requires Printable(m) && Unbroken(m.reply) && NoKludge(m.tear) && NoKludge(m.origin)
    requires NoKludges(Split(Newlines(m.body)))
    ensures var refs, echo := FtnScan.ScanTexts(files, conf, last, aka), ReadMsg(Header(m) + BodyBytes(m));
            var found := FtnScan.FirstMsgid(FtnScan.Scanner, files[i]);
            && echo.Some? && echo.value.msgid == m.msgid
            && (FtnImport.Due(refs, MsgItem(name, echo.value), true) <==>
                found !in {"", m.msgid} &&
                forall q :: 0 < q <= last && q != i ==> !FtnEcho.IndexedAs(files, conf, q, aka, m.msgid))
            && (found in {"", m.msgid} ==> !FtnImport.Due(refs, MsgItem(name, echo.value), false))
  {
    hide ReadMsg, Header, BodyBytes, FtnScan.ScanTexts, FtnScan.LocalMsgid, FtnScan.FirstMsgid, FtnEcho.IndexedAs,
         FtnEcho.ByLocalAuthor, LastValue, Cuts, Split, Newlines, NoKludge, FtnPlan.Anchored;
    NoControlLines("MSGID:", Split(Newlines(m.body)));
    EchoDueIff(files, conf, last, aka, i, m, name, true);
    EchoDueIff(files, conf, last, aka, i, m, name, false);
    FtnEcho.EchoRecognisedIff(files, conf, last, aka, i);
    LocalMsgidFits(aka, conf, i);
  }
}
