/** Reading the cache: every valid line from the front, as the importer does, and
    the newest ones by scanning backwards from the end, as the viewers do. */
module IbolTail {
  import opened CText
  import opened IbolDb

  /** The record a line holds, if it holds one. */
  function ValidOf(line: string): seq<Record> {
    match ParseLine(line)
    case None => []
    case Some(r) => [r]
  }

  /** The valid records of a cache file, by getline(): lines end at '\n' only. */
  function Records(file: string): seq<Record>
    decreases |file|, 1
  {
    if file == "" then [] else RecordsBehind(file, LineEnd(file, 0))
  }

  /** The records of a file whose first line ends at `e`. */
  function RecordsBehind(file: string, e: nat): seq<Record>
    requires e <= |file|
    decreases |file|, 0
  {
    if e == |file| then ValidOf(file) else ValidOf(file[..e + 1]) + Records(file[e + 1..])
  }

  predicate IsEol(c: char) {
    c == '\n' || c == '\r'
  }

  function PhysicalEnd(s: string, from: nat): (e: nat)
    requires from <= |s|
    ensures from <= e <= |s| && (e < |s| ==> IsEol(s[e]))
    ensures forall k :: from <= k < e ==> !IsEol(s[k])
    decreases |s| - from
  {
    if from == |s| || IsEol(s[from]) then from else PhysicalEnd(s, from + 1)
  }

  /** The valid records of a cache file whose lines end at CR or LF. */
  function PhysicalRecords(file: string): seq<Record>
    decreases |file|, 1
  {
    if file == "" then [] else PhysicalBehind(file, PhysicalEnd(file, 0))
  }

  function PhysicalBehind(file: string, e: nat): seq<Record>
    requires e <= |file|
    decreases |file|, 0
  {
    ValidOf(file[..e]) + if e == |file| then [] else PhysicalRecords(file[e + 1..])
  }

  lemma BlankLineInvalid()
    ensures ValidOf("") == []
  {
  }

  /** Without CR bytes both views of a cache agree. */
  lemma {:induction false} ViewsAgree(file: string)
    requires '\r' !in file
    ensures PhysicalRecords(file) == Records(file)
    decreases |file|
  {
    hide ParseLine;
    if file != "" {
      var e := LineEnd(file, 0);
      SameEnd(file, 0);
      if e < |file| {
        LineWithEnd(file[..e], "\n");
        assert file[..e] + "\n" == file[..e + 1];
        ViewsAgree(file[e + 1..]);
      } else {
        assert file[..e] == file && ValidOf(file) + [] == ValidOf(file);
      }
    }
  }

  lemma {:induction false} SameEnd(s: string, from: nat)
    requires from <= |s| && '\r' !in s
    ensures PhysicalEnd(s, from) == LineEnd(s, from)
    decreases |s| - from
  {
    if from < |s| && s[from] != '\n' {
      assert s[from] in s;
      SameEnd(s, from + 1);
    }
  }

  lemma {:induction false} PhysicalEndIs(s: string, from: nat, e: nat)
    requires from <= e <= |s| && (e < |s| ==> IsEol(s[e])) && forall k :: from <= k < e ==> !IsEol(s[k])
    ensures PhysicalEnd(s, from) == e
    decreases e - from
  {
    if from < e {
      PhysicalEndIs(s, from + 1, e);
    }
  }

  lemma {:induction false} PhysicalEndBefore(a: string, b: string, from: nat)
    requires from <= |a| && PhysicalEnd(a, from) < |a|
    ensures PhysicalEnd(a + b, from) == PhysicalEnd(a, from)
  {
    PhysicalEndIs(a + b, from, PhysicalEnd(a, from));
  }

  /** A line of a file, without its end. */
  predicate EolFree(line: string) {
    line != "" && forall k :: 0 <= k < |line| ==> !IsEol(line[k])
  }

  lemma OnePhysicalLine(line: string)
    requires EolFree(line)
    ensures PhysicalRecords(line) == ValidOf(line)
  {
    hide ValidOf;
    PhysicalEndIs(line, 0, |line|);
    assert line[..|line|] == line && ValidOf(line) + [] == ValidOf(line);
  }

  lemma FirstPhysicalLine(s: string)
    requires PhysicalEnd(s, 0) < |s|
    ensures PhysicalRecords(s) == ValidOf(s[..PhysicalEnd(s, 0)]) + PhysicalRecords(s[PhysicalEnd(s, 0) + 1..])
  {
    hide *;
    PhysicalFromLine(s);
    FirstPhysicalAt(s, PhysicalEnd(s, 0));
  }

  lemma PhysicalFromLine(s: string)
    ensures s != "" ==> PhysicalRecords(s) == PhysicalBehind(s, PhysicalEnd(s, 0))
  {
    hide PhysicalBehind, PhysicalEnd;
  }

  lemma FirstPhysicalAt(s: string, e: nat)
    requires e < |s|
    ensures PhysicalBehind(s, e) == ValidOf(s[..e]) + PhysicalRecords(s[e + 1..])
  {
    hide ValidOf, PhysicalRecords;
  }

  lemma EndInside(a: string)
    requires a != "" && IsEol(a[|a| - 1])
    ensures PhysicalEnd(a, 0) < |a|
  {
    hide PhysicalEnd;
  }

  /** A line behind whole lines comes last. */
  lemma {:induction false} LastPhysicalLine(a: string, line: string)
    requires a == "" || IsEol(a[|a| - 1])
    requires EolFree(line)
    ensures PhysicalRecords(a + line) == PhysicalRecords(a) + ValidOf(line)
    decreases |a|
  {
    hide *;
    if a == "" {
      assert a + line == line && [] + ValidOf(line) == ValidOf(line);
      OnePhysicalLine(line);
      NoPhysicalRecords();
    } else {
      var e := PhysicalEnd(a, 0);
      EndInside(a);
      PhysicalEndBefore(a, line, 0);
      FirstPhysicalLine(a);
      FirstPhysicalLine(a + line);
      SliceConcat(a, line, e);
      LastPhysicalLine(a[e + 1..], line);
      RecordsAssociative(ValidOf(a[..e]), PhysicalRecords(a[e + 1..]), ValidOf(line));
    }
  }

  lemma SliceConcat(a: string, b: string, e: nat)
    requires e < |a|
    ensures (a + b)[..e] == a[..e] && (a + b)[e + 1..] == a[e + 1..] + b
    ensures a[e + 1..] == "" || a[e + 1..][|a[e + 1..]| - 1] == a[|a| - 1]
  {
  }

  lemma RecordsAssociative(a: seq<Record>, b: seq<Record>, c: seq<Record>)
    ensures a + (b + c) == (a + b) + c
  {
  }

  /** A line end at the end adds nothing. */
  lemma {:induction false} TrailingEol(a: string, c: char)
    requires IsEol(c)
    ensures PhysicalRecords(a + [c]) == PhysicalRecords(a)
    decreases |a|
  {
    hide *;
    var e, b := PhysicalEnd(a, 0), a + [c];
    if e < |a| {
      PhysicalEndBefore(a, [c], 0);
      FirstPhysicalLine(a);
      FirstPhysicalLine(b);
      SliceConcat(a, [c], e);
      TrailingEol(a[e + 1..], c);
    } else {
      PhysicalEndIs(b, 0, |a|);
      FirstPhysicalLine(b);
      assert b[..|a|] == a && b[|a| + 1..] == "" && ValidOf(a) + [] == ValidOf(a);
      NoPhysicalRecords();
      BlankLineInvalid();
      if a != "" {
        EndOutside(a);
        OnePhysicalLine(a);
      }
    }
  }

  lemma EndOutside(a: string)
    requires a != "" && PhysicalEnd(a, 0) == |a|
    ensures EolFree(a)
  {
    hide PhysicalEnd;
  }

  /** read_previous_physical_line(): the last non-blank line before `scan`. */
  method ReadPreviousPhysicalLine(file: string, scan: nat) returns (found: bool, line: string, start: nat)
    requires scan <= |file|
    ensures start <= scan
    ensures found ==> start < scan && PhysicalRecords(file[..scan]) == PhysicalRecords(file[..start]) + ValidOf(line)
    ensures !found ==> start == 0 && PhysicalRecords(file[..scan]) == []
  {
    hide ValidOf, PhysicalRecords, PhysicalEnd;
    var s := scan;
    while s > 0 && IsEol(file[s - 1])
      invariant 0 <= s <= scan
      invariant PhysicalRecords(file[..scan]) == PhysicalRecords(file[..s])
    {
      assert file[..s] == file[..s - 1] + [file[s - 1]];
      TrailingEol(file[..s - 1], file[s - 1]);
      s := s - 1;
    }
    if s == 0 {
      NoPhysicalRecords();
      return false, "", 0;
    }
    start := s;
    while start > 0 && !IsEol(file[start - 1])
      invariant 0 <= start <= s
      invariant forall k :: start <= k < s ==> !IsEol(file[k])
    {
      start := start - 1;
    }
    found, line := true, file[start..s];
    assert file[..start] + line == file[..s];
    assert start > 0 ==> file[..start][|file[..start]| - 1] == file[start - 1];
    LastPhysicalLine(file[..start], line);
  }

  lemma NoPhysicalRecords()
    ensures PhysicalRecords("") == []
  {
  }

  function Reversed(s: seq<Record>): (r: seq<Record>)
    ensures |r| == |s|
  {
    if s == [] then [] else Reversed(s[1..]) + [s[0]]
  }

  lemma {:induction false} ReversedIndex(s: seq<Record>, k: nat)
    requires k < |s|
    ensures Reversed(s)[k] == s[|s| - 1 - k]
  {
    if k < |s| - 1 {
      ReversedIndex(s[1..], k);
    }
  }

  lemma IsReversed(s: seq<Record>, r: seq<Record>)
    requires |r| == |s| && forall k :: 0 <= k < |s| ==> r[k] == s[|s| - 1 - k]
    ensures r == Reversed(s)
  {
    hide Reversed;
    forall k | 0 <= k < |s| ensures r[k] == Reversed(s)[k] {
      ReversedIndex(s, k);
    }
  }

  lemma {:induction false} ReversedSnoc(s: seq<Record>, x: Record)
    ensures Reversed(s + [x]) == [x] + Reversed(s)
  {
    if s == [] {
      assert Reversed([x]) == Reversed([]) + [x] == [x];
    } else {
      assert (s + [x])[1..] == s[1..] + [x];
      ReversedSnoc(s[1..], x);
    }
  }

  /** The last `k` records, or all when there are fewer. */
  function LastOf(s: seq<Record>, k: nat): seq<Record> {
    if |s| <= k then s else s[|s| - k..]
  }

  /** The backward scan: newest record first. */
  method ScanBackwards(file: string, records: array<Record>, max: nat) returns (found: nat)
    requires max <= records.Length
    modifies records
    ensures found <= max && Reversed(records[..found]) == LastOf(PhysicalRecords(file), max)
  {
    hide ParseLine, PhysicalRecords, Reversed;
    var scan := |file|;
    found := 0;
    assert file[..|file|] == file && records[..0] == [] && PhysicalRecords(file) + [] == PhysicalRecords(file);
    NothingReversed();
    while scan > 0 && found < max
      invariant 0 <= scan <= |file| && found <= max
      invariant PhysicalRecords(file) == PhysicalRecords(file[..scan]) + Reversed(records[..found])
      decreases scan
    {
      ghost var before, sofar := PhysicalRecords(file[..scan]), records[..found];
      var some, line, start := ReadPreviousPhysicalLine(file, scan);
      if !some {
        scan := 0;
        assert file[..0] == "";
        NoPhysicalRecords();
        break;
      }
      var record := IbolDbParseLine(line);
      ghost var older := PhysicalRecords(file[..start]);
      if record.Some? {
        records[found] := record.value;
        assert records[..found + 1] == sofar + [record.value];
        ReversedSnoc(sofar, record.value);
        assert (older + [record.value]) + Reversed(sofar) == older + ([record.value] + Reversed(sofar));
        found := found + 1;
      } else {
        assert older + [] == older;
      }
      scan := start;
    }
    if scan == 0 {
      assert file[..0] == "";
      NoPhysicalRecords();
    }
    LastOfSplit(PhysicalRecords(file[..scan]), Reversed(records[..found]), max);
  }

  lemma LastOfSplit(older: seq<Record>, newer: seq<Record>, max: nat)
    requires |newer| <= max && (older == [] || |newer| == max)
    ensures LastOf(older + newer, max) == newer
  {
  }

  lemma NothingReversed()
    ensures Reversed([]) == []
  {
  }

  /** Oldest first: the scanned records reversed where they are. */
  method ReverseInPlace(records: array<Record>, found: nat)
    requires found <= records.Length
    modifies records
    ensures records[..found] == Reversed(old(records[..found]))
  {
    hide Reversed;
    ghost var was := records[..found];
    var i := 0;
    while i < found / 2
      invariant 0 <= i <= found / 2
      invariant forall k :: 0 <= k < i || found - i <= k < found ==> records[k] == was[found - 1 - k]
      invariant forall k :: i <= k < found - i ==> records[k] == was[k]
    {
      var tmp := records[i];
      records[i] := records[found - 1 - i];
      records[found - 1 - i] := tmp;
      i := i + 1;
    }
    assert forall k :: 0 <= k < found ==> records[..found][k] == was[found - 1 - k];
    IsReversed(was, records[..found]);
  }

  /** ibol_db_read_recent(): exactly the last valid records of the file, in file order,
      whatever damaged or blank lines lie between or behind them. */
  method ReadRecent(file: string, records: array<Record>, max: nat) returns (count: nat)
    requires max <= records.Length
    modifies records
    ensures count <= max && records[..count] == LastOf(PhysicalRecords(file), max)
  {
    hide PhysicalRecords;
    count := ScanBackwards(file, records, max);
    if count == 0 {
      assert records[..0] == [] && Reversed([]) == [];
      return;
    }
    ReverseInPlace(records, count);
  }

  /** ibol_db_read_latest(): the newest valid record, if there is any. */
  method ReadLatest(file: string) returns (record: Option<Record>)
    ensures var all := PhysicalRecords(file);
            record == if all == [] then None else Some(all[|all| - 1])
  {
    hide PhysicalRecords;
    var records := new Record[1](_ => Record(0, "", "", "", ""));
    var count := ReadRecent(file, records, 1);
    ghost var all := PhysicalRecords(file);
    assert |LastOf(all, 1)| == |records[..count]| == count;
    if count != 1 {
      return None;
    }
    assert records[..1][0] == records[0];
    return Some(records[0]);
  }
}
