/** What is read of records that were written, whole or torn, and what de-duplication
    writes of a spool. */
module IbolHistory {
  import opened CText
  import opened IbolDb
  import opened IbolTail
  import opened IbolImport

  // ---------- Reading what was appended ----------

  predicate LineAligned(s: string) {
    s == "" || EndsLine(s)
  }

  lemma {:induction false} LineEndBefore(a: string, b: string, from: nat)
    requires from <= |a| && LineEnd(a, from) < |a|
    ensures LineEnd(a + b, from) == LineEnd(a, from)
    decreases |a| - from
  {
    if a[from] != '\n' {
      LineEndBefore(a, b, from + 1);
    }
  }

  lemma FirstRecord(s: string)
    requires LineEnd(s, 0) < |s|
    ensures Records(s) == ValidOf(s[..LineEnd(s, 0) + 1]) + Records(s[LineEnd(s, 0) + 1..])
  {
    hide *;
    RecordsFromLine(s);
    FirstRecordAt(s, LineEnd(s, 0));
  }

  lemma RecordsFromLine(s: string)
    ensures s != "" ==> Records(s) == RecordsBehind(s, LineEnd(s, 0))
  {
    hide RecordsBehind, LineEnd;
  }

  lemma FirstRecordAt(s: string, e: nat)
    requires e < |s|
    ensures RecordsBehind(s, e) == ValidOf(s[..e + 1]) + Records(s[e + 1..])
  {
    hide ValidOf, Records;
  }

  lemma NoRecords()
    ensures Records("") == []
  {
  }

  /** Records behind whole lines are read after theirs. */
  lemma {:induction false} RecordsConcat(a: string, b: string)
    requires LineAligned(a)
    ensures Records(a + b) == Records(a) + Records(b)
    decreases |a|
  {
    hide ValidOf, Records, LineEnd;
    if a == "" {
      assert a + b == b;
      NoRecords();
    } else {
      var e := LineEnd(a, 0);
      assert e <= |a| - 1;
      LineEndBefore(a, b, 0);
      FirstRecord(a);
      FirstRecord(a + b);
      assert (a + b)[..e + 1] == a[..e + 1] && (a + b)[e + 1..] == a[e + 1..] + b;
      RecordsConcat(a[e + 1..], b);
      RecordsAssociative(ValidOf(a[..e + 1]), Records(a[e + 1..]), Records(b));
    }
  }

  lemma RecordsOfLine(line: string)
    requires '\n' !in line && line != ""
    ensures Records(line) == ValidOf(line)
  {
    hide ValidOf;
    NoLineEnd(line, 0);
  }

  lemma {:induction false} NoLineEnd(line: string, from: nat)
    requires from <= |line| && '\n' !in line
    ensures LineEnd(line, from) == |line|
    decreases |line| - from
  {
    if from < |line| {
      assert line[from] in line;
      NoLineEnd(line, from + 1);
    }
  }

  /** A record the parser accepts once it is written. */
  predicate Readable(r: Record) {
    r.timestamp >= 0 && r.msgid != ""
  }

  function ReadableOnes(recs: seq<Record>): seq<Record> {
    if recs == [] then [] else (if Readable(recs[0]) then [recs[0]] else []) + ReadableOnes(recs[1..])
  }

  ghost predicate AllFit(recs: seq<Record>) {
    forall i :: 0 <= i < |recs| ==> Fits(recs[i])
  }

  lemma RecordsOfWritten(r: Record)
    requires Fits(r)
    ensures Records(Written(r)) == if Readable(r) then [r] else []
  {
    hide RecordLine, ParseLine, LineEnd, Records, ValidOf;
    RecordRoundTripIff(r);
    LineEndOfWritten(r);
    var w, n := Written(r), |RecordLine(r)| + 1;
    assert w[..n] == w && w[n..] == "";
    FirstRecord(w);
    NoRecords();
    ValidOfWritten(r);
    assert ValidOf(w) + [] == ValidOf(w);
  }

  lemma ValidOfWritten(r: Record)
    requires Fits(r)
    ensures ValidOf(Written(r)) == if Readable(r) then [r] else []
  {
    hide ParseLine, Written;
    RecordRoundTripIff(r);
  }

  lemma LineEndOfWritten(r: Record)
    requires '\n' !in RecordLine(r)
    ensures LineEnd(Written(r), 0) == |RecordLine(r)|
  {
    hide RecordLine;
    LineEndIs(Written(r), 0, |RecordLine(r)|);
  }

  lemma WrittenAligned(r: Record)
    ensures LineAligned(Written(r))
  {
  }

  /** Of the records written, the readable ones are read, in order. */
  lemma {:induction false} RecordsOfAll(recs: seq<Record>)
    requires AllFit(recs)
    ensures Records(WrittenAll(recs)) == ReadableOnes(recs)
    ensures LineAligned(WrittenAll(recs))
  {
    hide Written, Records, Fits, Readable;
    if recs == [] {
      NoRecords();
    } else {
      RecordsOfWritten(recs[0]);
      WrittenAligned(recs[0]);
      RecordsOfAll(recs[1..]);
      RecordsConcat(Written(recs[0]), WrittenAll(recs[1..]));
      assert WrittenAll(recs[1..]) == "" ==> WrittenAll(recs) == Written(recs[0]);
    }
  }

  /** What a torn append leaves: the readable records up to some point, and at most
      one more line that reads as the next record with its text cut short. */
  ghost predicate TornReading(recs: seq<Record>, read: seq<Record>, k: nat) {
    && k <= |recs|
    && var whole := ReadableOnes(recs[..k]);
       || read == whole
       || (k < |recs| &&
           exists text :: read == whole + [recs[k].(text := text)] && text <= recs[k].text && Readable(recs[k]))
  }

  lemma {:induction false} TornAppend(recs: seq<Record>, q: string) returns (k: nat)
    requires AllFit(recs) && q <= WrittenAll(recs)
    ensures TornReading(recs, Records(q), k)
    decreases recs
  {
    hide Written, Records, Fits, Readable, ValidOf;
    k := 0;
    if q == "" {
      NoRecords();
      assert recs[..0] == [];
    } else {
      var w := Written(recs[0]);
      if |q| < |w| {
        assert q == (w + WrittenAll(recs[1..]))[..|q|] == w[..|q|];
        TornRecord(recs[0], q);
        assert recs[..0] == [];
      } else {
        var q' := q[|w|..];
        assert q == w + q' && q' <= WrittenAll(recs[1..]);
        WrittenAligned(recs[0]);
        RecordsConcat(w, q');
        RecordsOfWritten(recs[0]);
        var n := TornAppend(recs[1..], q');
        k := n + 1;
        TornShift(recs, Records(q'), n);
      }
    }
  }

  lemma TornRecord(r: Record, q: string)
    requires Fits(r) && q != "" && q < Written(r)
    ensures Records(q) == [] || (exists text :: Records(q) == [r.(text := text)] && text <= r.text && Readable(r))
  {
    RecordOneLine(r);
    assert q <= RecordLine(r) by {
      assert q == Written(r)[..|q|];
    }
    TornLine(r, q);
    hide RecordLine, ParseLine;
    assert '\n' !in q;
    RecordsOfLine(q);
  }

  lemma TornShift(recs: seq<Record>, read: seq<Record>, n: nat)
    requires recs != [] && TornReading(recs[1..], read, n)
    ensures TornReading(recs, (if Readable(recs[0]) then [recs[0]] else []) + read, n + 1)
  {
    hide Readable;
    var head := if Readable(recs[0]) then [recs[0]] else [];
    assert recs[..n + 1][1..] == recs[1..][..n];
    var whole := ReadableOnes(recs[1..][..n]);
    assert ReadableOnes(recs[..n + 1]) == head + whole;
    if text :| n < |recs[1..]| && read == whole + [recs[1..][n].(text := text)] && text <= recs[1..][n].text &&
               Readable(recs[1..][n]) {
      assert head + read == head + whole + [recs[n + 1].(text := text)];
    }
  }

  // ---------- De-duplication ----------

  ghost predicate GoodEntries(files: Spool) {
    forall i :: 0 <= i < |files| && files[i].kind.Entry? ==> Fits(files[i].kind.rec) && files[i].kind.rec.msgid != ""
  }

  ghost predicate DistinctMsgids(recs: seq<Record>) {
    forall i, j :: 0 <= i < j < |recs| ==> recs[i].msgid != recs[j].msgid
  }

  /** The fresh records carry new MSGIDs, each once, and leave no entry out. */
  lemma {:induction false} FreshIsNew(files: Spool, ids: set<string>)
    requires GoodEntries(files)
    ensures var recs := Fresh(files, ids);
            && AllFit(recs) && DistinctMsgids(recs)
            && (forall r :: r in recs ==> r.msgid !in ids)
            && (forall f :: f in files && f.kind.Entry? ==> f.kind.rec.msgid in ids + Ids(recs))
  {
    hide Fits;
    if files != [] {
      var f, rest := files[0], files[1..];
      assert files == [f] + rest;
      if !f.kind.Entry? || f.kind.rec.msgid in ids {
        FreshIsNew(rest, ids);
      } else {
        FreshIsNew(rest, ids + {f.kind.rec.msgid});
        var later := Fresh(rest, ids + {f.kind.rec.msgid});
        assert Ids([f.kind.rec] + later) == {f.kind.rec.msgid} + Ids(later) by {
          IdsOfCons(f.kind.rec, later);
        }
      }
    }
  }

  lemma IdsOfCons(r: Record, recs: seq<Record>)
    ensures Ids([r] + recs) == {r.msgid} + Ids(recs)
  {
    assert ([r] + recs)[0] == r;
    forall x | x in recs ensures x in [r] + recs {
    }
  }

  lemma IdsOfConcat(a: seq<Record>, b: seq<Record>)
    ensures Ids(a + b) == Ids(a) + Ids(b)
  {
  }

  /** De-duplication distributes over concatenation. */
  lemma {:induction false} FreshConcat(a: Spool, b: Spool, ids: set<string>)
    ensures Fresh(a + b, ids) == Fresh(a, ids) + Fresh(b, ids + Ids(Fresh(a, ids)))
  {
    if a == [] {
      assert a + b == b && ids + Ids([]) == ids;
    } else {
      assert (a + b)[1..] == a[1..] + b;
      var f := a[0];
      if !f.kind.Entry? || f.kind.rec.msgid in ids {
        FreshConcat(a[1..], b, ids);
      } else {
        var ids' := ids + {f.kind.rec.msgid};
        FreshConcat(a[1..], b, ids');
        IdsOfCons(f.kind.rec, Fresh(a[1..], ids'));
        assert ids + ({f.kind.rec.msgid} + Ids(Fresh(a[1..], ids'))) == ids' + Ids(Fresh(a[1..], ids'));
      }
    }
  }

  /** Entry `i` is the first of the spool with its MSGID. */
  ghost predicate FirstAt(spool: Spool, i: nat)
    requires i < |spool|
  {
    spool[i].kind.Entry? &&
    forall j :: 0 <= j < i && spool[j].kind.Entry? ==> spool[j].kind.rec.msgid != spool[i].kind.rec.msgid
  }

  /** No MSGID makes its first appearance with a time before 1970. */
  ghost predicate StampsOk(spool: Spool) {
    forall i :: 0 <= i < |spool| && FirstAt(spool, i) ==> spool[i].kind.rec.timestamp >= 0
  }

  ghost predicate CoversUpTo(spool: Spool, i: nat, ids: set<string>)
    requires i <= |spool|
  {
    forall j :: 0 <= j < i && spool[j].kind.Entry? ==> spool[j].kind.rec.msgid in ids
  }

  /** Behind a covered part of the spool only first appearances are written. */
  lemma {:induction false} FreshReadable(spool: Spool, i: nat, ids: set<string>)
    requires GoodEntries(spool) && StampsOk(spool) && i <= |spool| && CoversUpTo(spool, i, ids)
    ensures ReadableOnes(Fresh(spool[i..], ids)) == Fresh(spool[i..], ids)
    decreases |spool| - i
  {
    hide Fits;
    if i < |spool| {
      var f := spool[i];
      assert spool[i..][1..] == spool[i + 1..];
      if !f.kind.Entry? || f.kind.rec.msgid in ids {
        FreshReadable(spool, i + 1, ids);
      } else {
        assert FirstAt(spool, i);
        FreshReadable(spool, i + 1, ids + {f.kind.rec.msgid});
      }
    }
  }

  /** A first appearance is written. */
  lemma {:induction false} FirstIsWritten(spool: Spool, i: nat, ids: set<string>)
    requires i < |spool| && FirstAt(spool, i) && spool[i].kind.rec.msgid !in ids
    ensures spool[i].kind.rec in Fresh(spool, ids)
    decreases i
  {
    if i > 0 {
      var f := spool[0];
      assert spool[1..][i - 1] == spool[i];
      assert FirstAt(spool[1..], i - 1) by {
        forall j | 0 <= j < i - 1 && spool[1..][j].kind.Entry?
          ensures spool[1..][j].kind.rec.msgid != spool[i].kind.rec.msgid {
          assert spool[1..][j] == spool[j + 1];
        }
      }
      if !f.kind.Entry? || f.kind.rec.msgid in ids {
        FirstIsWritten(spool[1..], i - 1, ids);
      } else {
        FirstIsWritten(spool[1..], i - 1, ids + {f.kind.rec.msgid});
      }
    }
  }

  // ---------- Selecting by the checkpoint ----------

  lemma {:induction false} SelectedIsSuffix(spool: Spool, checkpoint: nat) returns (i: nat)
    requires forall i, j :: 0 <= i < j < |spool| ==> spool[i].number <= spool[j].number
    ensures i <= |spool| && Selected(spool, checkpoint) == spool[i..]
    ensures forall j :: 0 <= j < |spool| ==> (spool[j].number <= checkpoint <==> j < i)
    decreases |spool|
  {
    i := 0;
    if spool != [] {
      if spool[0].number <= checkpoint {
        var k := SelectedIsSuffix(spool[1..], checkpoint);
        i := k + 1;
        assert spool[1..][k..] == spool[i..];
        forall j | 0 <= j < |spool| ensures spool[j].number <= checkpoint <==> j < i {
          assert j > 0 ==> spool[1..][j - 1] == spool[j];
        }
      } else {
        AllSelected(spool, checkpoint);
        assert spool[0..] == spool;
      }
    }
  }

  lemma {:induction false} AllSelected(spool: Spool, checkpoint: nat)
    requires forall i :: 0 <= i < |spool| ==> spool[i].number > checkpoint
    ensures Selected(spool, checkpoint) == spool
  {
    if spool != [] {
      assert forall i :: 0 <= i < |spool[1..]| ==> spool[1..][i] == spool[i + 1];
      AllSelected(spool[1..], checkpoint);
    }
  }
}
