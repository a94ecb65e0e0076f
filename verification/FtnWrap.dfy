/** How ftntoss re-flows a message body before storing it: quote prefixes,
    wrapping one long line into a bounded buffer, and the whole body. */
module FtnWrap {
  import opened CText

  const WRAP_COL := 78
  const PREFIX_MAX := 31
  const LINE_BUFFER := 4096

  predicate IsAlpha(c: char) {
    'a' <= c <= 'z' || 'A' <= c <= 'Z'
  }

  /** What a reader sees of a text: everything but blanks and line ends. */
  function Ink(s: string): string {
    if s == "" then ""
    else if IsBlank(s[0]) || s[0] == '\n' then Ink(s[1..])
    else [s[0]] + Ink(s[1..])
  }

  lemma {:induction false} InkConcat(a: string, b: string)
    ensures Ink(a + b) == Ink(a) + Ink(b)
  {
    if a == "" {
      assert a + b == b;
    } else {
      assert (a + b)[1..] == a[1..] + b;
      InkConcat(a[1..], b);
    }
  }

  lemma {:induction false} InkIff(s: string, c: char)
    ensures c in Ink(s) <==> c in s && c != ' ' && c != '\t' && c != '\n'
  {
    if s != "" {
      InkIff(s[1..], c);
      assert c in s <==> c == s[0] || c in s[1..];
    }
  }

  // ---------- Quote prefixes ----------

  /** Where a run of '>' marks, each with at most one space after it, ends. */
  function MarksEnd(line: string, i: nat): (n: nat)
    requires i <= |line|
    ensures i <= n <= |line|
    decreases |line| - i
  {
    if i == |line| || line[i] != '>' then i
    else if i + 1 < |line| && line[i + 1] == ' ' then MarksEnd(line, i + 2)
    else MarksEnd(line, i + 1)
  }

  function AlphaEnd(line: string, i: nat, limit: nat): (n: nat)
    requires i <= |line|
    ensures i <= n <= |line| && n <= i + limit
    decreases limit
  {
    if i == |line| || limit == 0 || !IsAlpha(line[i]) then i else AlphaEnd(line, i + 1, limit - 1)
  }

  function ArrowEnd(line: string, i: nat): (n: nat)
    requires i <= |line|
    ensures i <= n <= |line|
    decreases |line| - i
  {
    if i == |line| || line[i] != '>' then i else ArrowEnd(line, i + 1)
  }

  function OneBlank(line: string, i: nat): (n: nat)
    requires i <= |line|
    ensures i <= n <= |line|
  {
    if i < |line| && IsBlank(line[i]) then i + 1 else i
  }

  function Cut(line: string, n: nat): (s: string)
    requires n <= |line|
    ensures s <= line && |s| <= PREFIX_MAX
  {
    if n <= PREFIX_MAX then line[..n] else line[..PREFIX_MAX]
  }

  predicate EndsMark(c: char) {
    IsBlank(c) || c == '\r' || c == '\n'
  }

  /** "> ", "> > ", "Ni>> " and the like at the start of a line; "" when the line
      is no quote. */
  function QuotePrefix(line: string): (s: string)
    ensures s <= line && |s| <= PREFIX_MAX
  {
    var b := BlankEnd(line, 0);
    if b < |line| && line[b] == '>' then Cut(line, OneBlank(line, MarksEnd(line, b)))
    else
      var a := AlphaEnd(line, b, 3);
      var e := ArrowEnd(line, a);
      if a == b || e == a || (e < |line| && !EndsMark(line[e])) then ""
      else Cut(line, OneBlank(line, e))
  }

  // ---------- Which lines are quotes ----------

  predicate Blanks(s: string) {
    forall i :: 0 <= i < |s| ==> s[i] == ' ' || s[i] == '\t'
  }

  predicate Letters(s: string) {
    forall i :: 0 <= i < |s| ==> 'a' <= s[i] <= 'z' || 'A' <= s[i] <= 'Z'
  }

  /** Marks, each with a space behind it or not. */
  function MarksText(spaced: seq<bool>): string {
    if spaced == [] then "" else (if spaced[0] then "> " else ">") + MarksText(spaced[1..])
  }

  function Arrows(n: nat): (s: string)
    ensures |s| == n
  {
    if n == 0 then "" else ">" + Arrows(n - 1)
  }

  function BlankOf(rest: string): string {
    if rest != "" && (rest[0] == ' ' || rest[0] == '\t') then rest[..1] else ""
  }

  lemma {:induction false} MarksEndAt(head: string, spaced: seq<bool>, rest: string)
    requires rest == "" || (rest[0] != '>' && (rest[0] == ' ' ==> spaced == [] || spaced[|spaced| - 1]))
    ensures MarksEnd(head + MarksText(spaced) + rest, |head|) == |head + MarksText(spaced)|
    decreases |spaced|
  {
    var line := head + MarksText(spaced) + rest;
    if spaced == [] {
      assert MarksText(spaced) == "" && (rest != "" ==> line[|head|] == rest[0]);
    } else {
      var unit := if spaced[0] then "> " else ">";
      assert line == head + unit + MarksText(spaced[1..]) + rest;
      assert line[|head|] == '>';
      MarksEndAt(head + unit, spaced[1..], rest);
      if !spaced[0] {
        NextIsNoSpace(head + unit, spaced[1..], rest);
      } else {
        assert line[|head| + 1] == ' ';
      }
    }
  }

  lemma NextIsNoSpace(head: string, spaced: seq<bool>, rest: string)
    requires rest == "" || spaced != [] || rest[0] != ' '
    ensures var line := head + MarksText(spaced) + rest; |head| == |line| || line[|head|] != ' '
  {
    var line := head + MarksText(spaced) + rest;
    if spaced == [] {
      assert rest != "" ==> line[|head|] == rest[0];
    } else {
      assert MarksText(spaced)[0] == '>' && line[|head|] == MarksText(spaced)[0];
    }
  }

  lemma {:induction false} ArrowsAt(head: string, n: nat, rest: string)
    requires rest == "" || rest[0] != '>'
    ensures ArrowEnd(head + Arrows(n) + rest, |head|) == |head| + n
    decreases n
  {
    var line := head + Arrows(n) + rest;
    if n == 0 {
      assert rest != "" ==> line[|head|] == rest[0];
    } else {
      assert line == head + ">" + Arrows(n - 1) + rest && line[|head|] == '>';
      ArrowsAt(head + ">", n - 1, rest);
    }
  }

  lemma {:induction false} AlphaAt(head: string, ini: string, rest: string, limit: nat)
    requires Letters(ini) && |ini| <= limit && (rest == "" || |ini| == limit || !IsAlpha(rest[0]))
    ensures AlphaEnd(head + ini + rest, |head|, limit) == |head + ini|
    decreases |ini|
  {
    var line := head + ini + rest;
    if ini == "" {
      assert rest != "" ==> line[|head|] == rest[0];
    } else {
      assert line == head + [ini[0]] + ini[1..] + rest && line[|head|] == ini[0];
      AlphaAt(head + [ini[0]], ini[1..], rest, limit - 1);
    }
  }

  lemma BlanksAt(b: string, rest: string)
    requires Blanks(b) && (rest == "" || (rest[0] != ' ' && rest[0] != '\t'))
    ensures BlankEnd(b + rest, 0) == |b|
  {
    hide BlankEnd;
    assert rest != "" ==> (b + rest)[|b|] == rest[0];
    assert forall i :: 0 <= i < |b| ==> (b + rest)[i] == b[i];
  }

  lemma CutAt(head: string, rest: string)
    ensures Cut(head + rest, OneBlank(head + rest, |head|)) == Upto(head + BlankOf(rest), 31)
  {
    var line := head + rest;
    assert rest != "" ==> line[|head|] == rest[0];
    var n := OneBlank(line, |head|);
    assert line[..n] == head + BlankOf(rest);
    assert n > 31 ==> line[..31] == line[..n][..31];
  }

  lemma PrefixOfMarks(line: string, b: nat, n: nat)
    requires BlankEnd(line, 0) == b < |line| && line[b] == '>' && MarksEnd(line, b) == n
    ensures QuotePrefix(line) == Cut(line, OneBlank(line, n))
  {
    hide BlankEnd, MarksEnd, Cut, OneBlank, AlphaEnd, ArrowEnd;
  }

  lemma PrefixOfInitials(line: string, b: nat, a: nat, e: nat)
    requires BlankEnd(line, 0) == b && (b < |line| ==> line[b] != '>')
    requires AlphaEnd(line, b, 3) == a && ArrowEnd(line, a) == e
    ensures QuotePrefix(line) ==
            if a == b || e == a || (e < |line| && !EndsMark(line[e])) then "" else Cut(line, OneBlank(line, e))
  {
    hide BlankEnd, MarksEnd, Cut, OneBlank, AlphaEnd, ArrowEnd, EndsMark;
  }

  /** ">" marks behind blanks: the prefix is all of them with a blank behind, within 31 bytes. */
  lemma MarksAreQuote(b: string, spaced: seq<bool>, rest: string)
    requires Blanks(b) && spaced != []
    requires rest == "" || (rest[0] != '>' && (rest[0] == ' ' ==> spaced[|spaced| - 1]))
    ensures QuotePrefix(b + MarksText(spaced) + rest) == Upto(b + MarksText(spaced) + BlankOf(rest), 31)
    ensures QuotePrefix(b + MarksText(spaced) + rest) != ""
  {
    MarksFirst(spaced);
    hide MarksEnd, BlankEnd, OneBlank, Cut, QuotePrefix, MarksText, BlankOf, Blanks;
    var marks := MarksText(spaced);
    BehindPart(b, marks, rest);
    BlanksAt(b, marks + rest);
    MarksEndAt(b, spaced, rest);
    CutAt(b + marks, rest);
    PrefixOfMarks(b + marks + rest, |b|, |b + marks|);
  }

  lemma MarksFirst(spaced: seq<bool>)
    requires spaced != []
    ensures MarksText(spaced) != "" && MarksText(spaced)[0] == '>'
  {
  }

  lemma BehindPart(b: string, c: string, rest: string)
    ensures b + c + rest == b + (c + rest)
    ensures c != "" ==> (b + c + rest)[|b|] == c[0] == (c + rest)[0]
    ensures c == "" && rest != "" ==> (b + c + rest)[|b|] == rest[0]
    ensures rest != "" ==> (b + c + rest)[|b + c|] == rest[0]
  {
    assert b + c + rest == b + (c + rest);
  }

  lemma InitialsBegin(b: string, ini: string, tail: string)
    requires Blanks(b) && Letters(ini) && ini != ""
    ensures var line := b + ini + tail; BlankEnd(line, 0) == |b| < |line| && line[|b|] != '>'
  {
    BehindPart(b, ini, tail);
    BlanksAt(b, ini + tail);
  }

  lemma ArrowsBehind(head: string, n: nat, rest: string)
    requires n > 0 && (rest == "" || rest[0] != '>')
    ensures var line := head + (Arrows(n) + rest);
            && ArrowEnd(line, |head|) == |head| + n <= |line| && (rest != "" ==> line[|head| + n] == rest[0])
            && (|line| == |head| + n <==> rest == "")
            && Cut(line, OneBlank(line, |head| + n)) == Upto(head + Arrows(n) + BlankOf(rest), 31)
            && Arrows(n) + rest != "" && !IsAlpha((Arrows(n) + rest)[0])
  {
    hide ArrowEnd, Cut, OneBlank, BlankOf;
    ArrowsAt(head, n, rest);
    BehindPart(head, Arrows(n), rest);
    CutAt(head + Arrows(n), rest);
  }

  /** One to three letters with ">" behind them: a quote exactly when a blank or the end of
      the line follows. */
  lemma InitialsAreQuoteIff(b: string, ini: string, n: nat, rest: string)
    requires Blanks(b) && Letters(ini) && 1 <= |ini| <= 3 && n > 0 && (rest == "" || rest[0] != '>')
    ensures QuotePrefix(b + ini + (Arrows(n) + rest)) ==
            if rest == "" || rest[0] in " \t\r\n" then Upto(b + ini + Arrows(n) + BlankOf(rest), 31) else ""
  {
    hide BlankEnd, OneBlank, Cut, AlphaEnd, ArrowEnd, QuotePrefix, Arrows, BlankOf, Blanks, Letters, Upto, IsAlpha;
    var head, tail := b + ini, Arrows(n) + rest;
    ArrowsBehind(head, n, rest);
    InitialsBegin(b, ini, tail);
    AlphaAt(b, ini, tail, 3);
    PrefixOfInitials(head + tail, |b|, |head|, |head| + n);
  }

  /** Any other line is none. */
  lemma OthersAreNoQuote(b: string, ini: string, rest: string)
    requires Blanks(b) && Letters(ini) && |ini| <= 3 && (rest == "" || rest[0] != '>')
    requires rest == "" || |ini| == 3 || !Letters(rest[..1])
    requires ini == "" && rest != "" ==> rest[0] != ' ' && rest[0] != '\t'
    ensures QuotePrefix(b + ini + rest) == ""
  {
    assert ini != "" ==> ini[0] != '>' && ini[0] != ' ' && ini[0] != '\t';
    hide MarksEnd, BlankEnd, OneBlank, Cut, AlphaEnd, ArrowEnd, QuotePrefix, Blanks, Letters;
    BehindPart(b, ini, rest);
    BlanksAt(b, ini + rest);
    AlphaAt(b, ini, rest, 3);
    NoArrow(b + ini, rest);
    PrefixOfInitials(b + ini + rest, |b|, |b + ini|, |b + ini|);
  }

  lemma NoArrow(head: string, rest: string)
    requires rest == "" || rest[0] != '>'
    ensures ArrowEnd(head + rest, |head|) == |head|
  {
    assert rest != "" ==> (head + rest)[|head|] == rest[0];
  }

  method SkipMarks(line: string, from: nat) returns (i: nat)
    requires from <= |line|
    ensures i == MarksEnd(line, from)
  {
    i := from;
    while i < |line| && line[i] == '>'
      invariant from <= i <= |line|
      invariant MarksEnd(line, i) == MarksEnd(line, from)
    {
      i := i + 1;
      if i < |line| && line[i] == ' ' {
        i := i + 1;
      }
    }
  }

  method SkipInitials(line: string, from: nat) returns (i: nat, initials: nat)
    requires from <= |line|
    ensures i == AlphaEnd(line, from, 3) && initials == i - from
  {
    i, initials := from, 0;
    while i < |line| && IsAlpha(line[i]) && initials < 3
      invariant from <= i <= |line| && initials == i - from <= 3
      invariant AlphaEnd(line, i, 3 - initials) == AlphaEnd(line, from, 3)
    {
      i, initials := i + 1, initials + 1;
    }
  }

  method SkipArrows(line: string, from: nat) returns (i: nat, depth: nat)
    requires from <= |line|
    ensures i == ArrowEnd(line, from) && depth == i - from
  {
    i, depth := from, 0;
    while i < |line| && line[i] == '>'
      invariant from <= i <= |line| && depth == i - from
      invariant ArrowEnd(line, i) == ArrowEnd(line, from)
    {
      i, depth := i + 1, depth + 1;
    }
  }

  method FtnQuotePrefix(line: string) returns (prefix: string)
    ensures prefix == QuotePrefix(line)
  {
    var i := SkipBlanks(line, 0);
    if i < |line| && line[i] == '>' {
      i := SkipMarks(line, i);
      return Cut(line, OneBlank(line, i));
    }
    var initials, depth;
    i, initials := SkipInitials(line, i);
    if initials == 0 {
      return "";
    }
    i, depth := SkipArrows(line, i);
    if depth == 0 || (i < |line| && !EndsMark(line[i])) {
      return "";
    }
    return Cut(line, OneBlank(line, i));
  }

  // ---------- Wrapping one line ----------

  /** The last blank strictly after `b` and at most at `i`; `b` without one. */
  function LastBlank(s: string, b: nat, i: nat): (n: nat)
    requires b <= i < |s|
    ensures b <= n <= i && (n > b ==> IsBlank(s[n]))
    ensures forall j :: n < j <= i ==> !IsBlank(s[j])
    decreases i
  {
    if i == b || IsBlank(s[i]) then i else LastBlank(s, b, i - 1)
  }

  function ColumnsLeft(prefix: string, first: bool): (n: nat)
    ensures 0 < n <= WRAP_COL
    ensures !first && |prefix| < WRAP_COL ==> n + |prefix| == WRAP_COL
  {
    if !first && 0 < |prefix| < WRAP_COL then WRAP_COL - |prefix| else WRAP_COL
  }

  /** Where a row that begins with ink at `b` ends: at the last blank within `col`
      columns, or after `col` columns when the word must be cut. */
  function RowEnd(seg: string, b: nat, col: nat): (e: nat)
    requires b < |seg| && col > 0
    ensures b < e <= |seg| && e <= b + col
    ensures |seg| <= b + col ==> e == |seg|
    ensures e < |seg| ==> IsBlank(seg[e]) || (e == b + col && forall i :: b < i < e ==> !IsBlank(seg[i]))
    ensures e < |seg| ==> forall i :: e < i <= b + col ==> !IsBlank(seg[i])
  {
    if |seg| - b <= col then |seg| else
      var n := LastBlank(seg, b, b + col);
      if n == b then b + col else n
  }

  /** The rows seg[pos..] is broken into, without the prefix continuation rows get. */
  function Pieces(seg: string, pos: nat, prefix: string, first: bool): (rows: seq<string>)
    requires pos <= |seg|
    decreases |seg| - pos
  {
    var b := BlankEnd(seg, pos);
    if b == |seg| then [] else
      var e := RowEnd(seg, b, ColumnsLeft(prefix, first));
      [seg[b..e]] + Pieces(seg, e, prefix, false)
  }

  function Row(prefix: string, first: bool, piece: string): string {
    (if first then "" else prefix) + piece + "\n"
  }

  function Render(rows: seq<string>, prefix: string, first: bool): string {
    if rows == [] then "" else Row(prefix, first, rows[0]) + Render(rows[1..], prefix, false)
  }

  function Join(rows: seq<string>): string {
    if rows == [] then "" else rows[0] + Join(rows[1..])
  }

  /** What a buffer of `size` bytes that already holds `out` takes of the rows: it
      stops at the first row that does not fit, possibly right after its prefix. */
  function Fill(out: string, rows: seq<string>, prefix: string, first: bool, size: nat): string
    decreases |rows|
  {
    if rows == [] then out
    else if !first && prefix != "" && |out| + |prefix| + 1 >= size then out
    else
      var start := out + if first then "" else prefix;
      if |start| + |rows[0]| + 2 >= size then start
      else Fill(start + rows[0] + "\n", rows[1..], prefix, false, size)
  }

  method FindRowEnd(seg: string, b: nat, col: nat) returns (e: nat)
    requires b < |seg| && col > 0
    ensures e == RowEnd(seg, b, col)
  {
    e := |seg|;
    if e - b > col {
      e := b + col;
      while e > b && !IsBlank(seg[e])
        invariant b <= e <= b + col
        invariant LastBlank(seg, b, e) == LastBlank(seg, b, b + col)
      {
        e := e - 1;
      }
      if e == b {
        e := b + col;
      }
    }
  }

  /** append_wrapped_segment(): fills a buffer of `size` bytes. */
  method AppendWrappedSegment(seg: string, prefix: string, size: nat) returns (out: string)
    requires size > 0
    ensures out == Fill("", Pieces(seg, 0, prefix, true), prefix, true, size)
  {
    out := "";
    var pos, first := 0, true;
    while pos < |seg|
      invariant 0 <= pos <= |seg|
      invariant Fill(out, Pieces(seg, pos, prefix, first), prefix, first, size)
             == Fill("", Pieces(seg, 0, prefix, true), prefix, true, size)
      decreases |seg| - pos
    {
      var b := SkipBlanks(seg, pos);
      if b == |seg| {
        return;
      }
      var e := FindRowEnd(seg, b, ColumnsLeft(prefix, first));
      ghost var rest := Pieces(seg, e, prefix, false);
      assert Pieces(seg, pos, prefix, first) == [seg[b..e]] + rest;
      assert ([seg[b..e]] + rest)[1..] == rest;
      if !first && |prefix| > 0 && |out| + |prefix| + 1 >= size {
        return;
      }
      out := out + if first then "" else prefix;
      if |out| + (e - b) + 2 >= size {
        return;
      }
      out := out + seg[b..e] + "\n";
      pos, first := e, false;
    }
  }

  /** Every row is a non-empty stretch that starts with ink and, with the prefix
      continuation rows repeat, stays within 78 columns. */
  lemma {:induction false} PiecesWithinColumns(seg: string, pos: nat, prefix: string, first: bool, k: nat)
    requires pos <= |seg| && |prefix| <= PREFIX_MAX && k < |Pieces(seg, pos, prefix, first)|
    ensures var piece := Pieces(seg, pos, prefix, first)[k];
            piece != "" && !IsBlank(piece[0]) && |Row(prefix, first && k == 0, piece)| <= 79
    decreases |seg| - pos
  {
    var b := BlankEnd(seg, pos);
    var e := RowEnd(seg, b, ColumnsLeft(prefix, first));
    var rest := Pieces(seg, e, prefix, false);
    assert Pieces(seg, pos, prefix, first) == [seg[b..e]] + rest;
    if k > 0 {
      PiecesWithinColumns(seg, e, prefix, false, k - 1);
      assert ([seg[b..e]] + rest)[k] == rest[k - 1];
    }
  }

  lemma {:induction false} BlanksHaveNoInk(s: string)
    requires forall i :: 0 <= i < |s| ==> IsBlank(s[i])
    ensures Ink(s) == ""
  {
    if s != "" {
      BlanksHaveNoInk(s[1..]);
    }
  }

  lemma InkSlices(s: string, a: nat, b: nat)
    requires a <= b <= |s|
    ensures Ink(s[a..]) == Ink(s[a..b]) + Ink(s[b..])
  {
    InkConcat(s[a..b], s[b..]);
    assert s[a..b] + s[b..] == s[a..];
  }

  lemma JoinCons(piece: string, rest: seq<string>)
    ensures Ink(Join([piece] + rest)) == Ink(piece) + Ink(Join(rest))
  {
    assert ([piece] + rest)[1..] == rest;
    InkConcat(piece, Join(rest));
  }

  lemma PiecesUnfold(seg: string, pos: nat, prefix: string, first: bool)
    requires pos <= |seg|
    ensures var b := BlankEnd(seg, pos);
            Pieces(seg, pos, prefix, first) ==
            if b == |seg| then []
            else
              var e := RowEnd(seg, b, ColumnsLeft(prefix, first));
              [seg[b..e]] + Pieces(seg, e, prefix, false)
  {
    hide BlankEnd, RowEnd, ColumnsLeft;
  }

  lemma InkBehindBlanks(seg: string, pos: nat)
    requires pos <= |seg|
    ensures Ink(seg[pos..]) == Ink(seg[BlankEnd(seg, pos)..])
  {
    hide Ink, BlankEnd;
    var b := BlankEnd(seg, pos);
    InkSlices(seg, pos, b);
    BlanksHaveNoInk(seg[pos..b]);
    assert "" + Ink(seg[b..]) == Ink(seg[b..]);
  }

  lemma NoPieces()
    ensures Ink(Join([])) == "" && Ink("") == ""
  {
  }

  /** Breaking a line loses and invents no ink. */
  lemma {:induction false} PiecesKeepInk(seg: string, pos: nat, prefix: string, first: bool)
    requires pos <= |seg|
    ensures Ink(Join(Pieces(seg, pos, prefix, first))) == Ink(seg[pos..])
    decreases |seg| - pos
  {
    hide Ink, Join, BlankEnd, RowEnd, Pieces, ColumnsLeft;
    PiecesUnfold(seg, pos, prefix, first);
    var b := BlankEnd(seg, pos);
    InkBehindBlanks(seg, pos);
    if b == |seg| {
      NoPieces();
      assert seg[b..] == "";
    } else {
      var e := RowEnd(seg, b, ColumnsLeft(prefix, first));
      PiecesKeepInk(seg, e, prefix, false);
      InkSlices(seg, b, e);
      JoinCons(seg[b..e], Pieces(seg, e, prefix, false));
    }
  }

  lemma {:induction false} FillFits(out: string, rows: seq<string>, prefix: string, first: bool, size: nat)
    requires rows != []
    ensures var whole := out + Render(rows, prefix, first);
            && (|whole| + 1 < size ==> Fill(out, rows, prefix, first, size) == whole)
            && (|whole| + 1 >= size ==> |Fill(out, rows, prefix, first, size)| < |whole|)
    decreases |rows|
  {
    var start := out + if first then "" else prefix;
    var next := start + rows[0] + "\n";
    assert out + Render(rows, prefix, first) == next + Render(rows[1..], prefix, false);
    if |next| + 1 < size {
      if rows[1..] != [] {
        FillFits(next, rows[1..], prefix, false, size);
      } else {
        assert next + "" == next;
      }
    }
  }

  /** A wrapped line is stored whole exactly when all its rows and their line ends
      leave two bytes of the buffer free. */
  lemma WrappedWholeIff(seg: string, prefix: string, size: nat)
    requires Pieces(seg, 0, prefix, true) != []
    ensures var rows := Pieces(seg, 0, prefix, true);
            Fill("", rows, prefix, true, size) == Render(rows, prefix, true)
            <==> |Render(rows, prefix, true)| + 1 < size
  {
    var rows := Pieces(seg, 0, prefix, true);
    FillFits("", rows, prefix, true, size);
    assert "" + Render(rows, prefix, true) == Render(rows, prefix, true);
  }

  // ---------- The whole body ----------

  predicate IsMarker(c: char) {
    c == '>' || c == '|' || c == '*' || c == '-' || c as int == 1
  }

  predicate KeptVerbatim(line: string) {
    line != "" && IsMarker(line[0])
  }

  predicate WrapsAsQuote(line: string) {
    QuotePrefix(line) != "" && |line| > WRAP_COL
  }

  predicate WrapsAsProse(line: string) {
    !WrapsAsQuote(line) && !KeptVerbatim(line) && |line| > WRAP_COL
  }

  /** What is stored as it is: lines of at most 78 bytes, and longer ones that begin with
      "|", "*", "-" or a control-A, or with initials no quote - but not those that begin
      with ">". */
  lemma KeptIff(line: string)
    ensures !WrapsAsQuote(line) && !WrapsAsProse(line) <==>
            |line| <= 78 || (QuotePrefix(line) == "" && line[0] in [SOH, '>', '|', '*', '-'])
    ensures line != "" && line[0] == '>' && |line| > 78 ==> WrapsAsQuote(line)
  {
    hide QuotePrefix;
    if line != "" && line[0] == '>' {
      ArrowQuotes(line);
    }
  }

  lemma ArrowQuotes(line: string)
    requires line != "" && line[0] == '>'
    ensures QuotePrefix(line) != ""
  {
    hide Cut, OneBlank, AlphaEnd, ArrowEnd;
    assert BlankEnd(line, 0) == 0 && MarksEnd(line, 0) > 0;
    CutSome(line, OneBlank(line, MarksEnd(line, 0)));
  }

  lemma CutSome(line: string, n: nat)
    requires 0 < n <= |line|
    ensures Cut(line, n) != ""
  {
  }

  /** The prefix that continuation rows of `line` repeat. */
  function RowPrefix(line: string): string {
    if WrapsAsQuote(line) then QuotePrefix(line) else ""
  }

  /** What one body line (without its line end) becomes. */
  function WrapLine(line: string): string {
    if WrapsAsQuote(line) || WrapsAsProse(line)
    then Fill("", Pieces(line, 0, RowPrefix(line), true), RowPrefix(line), true, LINE_BUFFER)
    else line + "\n"
  }

  /** The body's lines from `from` on; the part after the last '\n' counts as a line. */
  function WrapFrom(body: string, from: nat): string
    requires from <= |body|
    decreases |body| - from
  {
    var e := LineEnd(body, from);
    if e == |body| then WrapLine(body[from..e]) else WrapLine(body[from..e]) + WrapFrom(body, e + 1)
  }

  function WrapBody(body: string): string {
    WrapFrom(body, 0)
  }

  /** One line further: from text `out` for everything before `from` to the text
      that includes the line ending at `p`. */
  lemma WrapOneFurther(body: string, from: nat, p: nat, out: string, wrapped: string)
    requires from <= |body| && p == LineEnd(body, from) && wrapped == WrapLine(body[from..p])
    ensures p == |body| ==> out + WrapFrom(body, from) == out + wrapped
    ensures p < |body| ==> out + WrapFrom(body, from) == (out + wrapped) + WrapFrom(body, p + 1)
  {
    hide WrapLine;
    if p < |body| {
      var rest := WrapFrom(body, p + 1);
      assert WrapFrom(body, from) == wrapped + rest;
      ConcatAssociative(out, wrapped, rest);
    }
  }

  function EachLine(lines: seq<string>): string {
    if lines == [] then "" else lines[0] + "\n" + EachLine(lines[1..])
  }

  function EachWrapped(lines: seq<string>): string {
    if lines == [] then "" else WrapLine(lines[0]) + EachWrapped(lines[1..])
  }

  lemma {:induction false} LinesWrapped(body: string, from: nat, lines: seq<string>, last: string)
    requires from <= |body| && body[from..] == EachLine(lines) + last
    requires (forall i :: 0 <= i < |lines| ==> OneLine(lines[i])) && OneLine(last)
    ensures WrapFrom(body, from) == EachWrapped(lines) + WrapLine(last)
    decreases |lines|
  {
    hide WrapLine, WrapFrom, LineEnd;
    WrapFromUnfold(body, from);
    if lines == [] {
      assert "" + last == last && "" + WrapLine(last) == WrapLine(last);
      LastLineAt(body, from);
    } else {
      var line, more := lines[0], EachLine(lines[1..]) + last;
      assert body[from..] == line + "\n" + more;
      LineAt(body, from, line, more);
      LinesWrapped(body, from + |line| + 1, lines[1..], last);
      ConcatAssociative(WrapLine(line), EachWrapped(lines[1..]), WrapLine(last));
    }
  }

  lemma WrapFromUnfold(body: string, from: nat)
    requires from <= |body|
    ensures var e := LineEnd(body, from);
            WrapFrom(body, from) == if e == |body| then WrapLine(body[from..e])
                                    else WrapLine(body[from..e]) + WrapFrom(body, e + 1)
  {
    hide WrapLine, LineEnd;
  }

  lemma LastLineAt(body: string, from: nat)
    requires from <= |body| && OneLine(body[from..])
    ensures LineEnd(body, from) == |body| && body[from..|body|] == body[from..]
  {
    hide LineEnd;
    var last := body[from..];
    assert forall k :: from <= k < |body| ==> body[k] == last[k - from] != '\n';
  }

  lemma LineAt(body: string, from: nat, line: string, rest: string)
    requires from <= |body| && body[from..] == line + "\n" + rest && OneLine(line)
    ensures var e := LineEnd(body, from); e == from + |line| < |body| && body[from..e] == line && body[e + 1..] == rest
  {
    hide LineEnd;
    var s := body[from..];
    assert s[..|line|] == line && s[|line|] == '\n' && s[|line| + 1..] == rest;
    assert forall k :: from <= k < from + |line| ==> body[k] == line[k - from];
    LineEndIs(body, from, from + |line|);
  }

  /** A body is wrapped line by line; what follows its last line end, nothing included, is a
      line, too. */
  lemma BodyWrapped(lines: seq<string>, last: string)
    requires (forall i :: 0 <= i < |lines| ==> OneLine(lines[i])) && OneLine(last)
    ensures WrapBody(EachLine(lines) + last) == EachWrapped(lines) + WrapLine(last)
  {
    hide WrapFrom, EachLine, EachWrapped, WrapLine;
    var body := EachLine(lines) + last;
    assert body[0..] == body;
    LinesWrapped(body, 0, lines, last);
  }

  method FindLineEnd(body: string, from: nat) returns (p: nat)
    requires from <= |body|
    ensures p == LineEnd(body, from)
  {
    p := from;
    while p < |body| && body[p] != '\n'
      invariant from <= p <= |body|
      invariant LineEnd(body, p) == LineEnd(body, from)
    {
      p := p + 1;
    }
  }

  method WrapFtnBodyForSkom(body: string) returns (out: string)
    ensures out == WrapBody(body)
  {
    hide WrapLine;
    out := "";
    var lineStart := 0;
    ghost var whole := WrapFrom(body, 0);
    assert out + whole == whole;
    while true
      invariant lineStart <= |body|
      invariant out + WrapFrom(body, lineStart) == whole
      decreases |body| - lineStart
    {
      var p := FindLineEnd(body, lineStart);
      var wrapped := WrapOneLine(body[lineStart..p]);
      WrapOneFurther(body, lineStart, p, out, wrapped);
      out := out + wrapped;
      if p == |body| {
        return;
      }
      lineStart := p + 1;
    }
  }

  method WrapOneLine(line: string) returns (out: string)
    ensures out == WrapLine(line)
  {
    var prefix := FtnQuotePrefix(line);
    if line == "" {
      out := "\n";
    } else if prefix != "" && |line| > WRAP_COL {
      out := AppendWrappedSegment(line, prefix, LINE_BUFFER);
    } else if KeptVerbatim(line) || |line| <= WRAP_COL {
      out := line + "\n";
    } else {
      out := AppendWrappedSegment(line, "", LINE_BUFFER);
    }
  }

  /** A line the 4096-byte row buffer can hold once it is broken up. */
  predicate FitsBuffer(line: string) {
    WrapsAsQuote(line) || WrapsAsProse(line) ==>
      |Render(Pieces(line, 0, RowPrefix(line), true), RowPrefix(line), true)| + 1 < 4096
  }

  /** The rows a line is stored as, before prefixes and line ends are added. */
  function LineRows(line: string): seq<string> {
    if WrapsAsQuote(line) || WrapsAsProse(line) then Pieces(line, 0, RowPrefix(line), true) else [line]
  }

  /** A stored line is its rows, each continuation of a quote over 78 bytes behind the quote
      prefix; they carry the line's ink unchanged, and no re-flowed row passes column 78.
      For a re-flowed line the first clause holds only if the rows fit the buffer. */
  lemma LineConserved(line: string)
    ensures var prefix := if |line| > 78 then QuotePrefix(line) else "";
            && (WrapLine(line) == Render(LineRows(line), prefix, true) <==> FitsBuffer(line))
            && (!KeptVerbatim(line) || WrapsAsQuote(line) ==>
                  forall k :: 0 <= k < |LineRows(line)| ==> |Row(prefix, k == 0, LineRows(line)[k])| <= 79)
    ensures Ink(Join(LineRows(line))) == Ink(line)
  {
    var prefix, rows := RowPrefix(line), LineRows(line);
    if WrapsAsQuote(line) || WrapsAsProse(line) {
      PiecesKeepInk(line, 0, prefix, true);
      assert line[0..] == line;
      forall k | 0 <= k < |rows| ensures |Row(prefix, k == 0, rows[k])| <= 79 {
        PiecesWithinColumns(line, 0, prefix, true, k);
      }
      if rows != [] {
        WrappedWholeIff(line, prefix, LINE_BUFFER);
      }
    } else {
      assert Render([line], prefix, true) == line + "\n" + Render([], prefix, false) == line + "\n";
      assert Join([line]) == line + Join([]) == line;
    }
  }

  /** A body as read_fido_msg() delivers it is stored with a final line end, so
      whatever is appended to the stored text starts a line of its own. */
  lemma {:induction false} WrapEndsLine(body: string, from: nat)
    requires from <= |body| && (from == |body| || EndsLine(body))
    ensures EndsLine(WrapFrom(body, from))
    decreases |body| - from
  {
    EmptyLineKept();
    hide WrapLine;
    var e := LineEnd(body, from);
    if from == |body| {
      assert body[from..e] == "";
    } else {
      assert e <= |body| - 1;
      WrapEndsLine(body, e + 1);
      EndsLineAfter(WrapLine(body[from..e]), WrapFrom(body, e + 1));
    }
  }

  lemma EmptyLineKept()
    ensures WrapLine("") == "\n"
  {
    assert "" + "\n" == "\n";
  }

  lemma EndsLineAfter(a: string, b: string)
    requires EndsLine(b)
    ensures EndsLine(a + b)
  {
  }
}
