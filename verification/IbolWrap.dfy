/** The wrapping of an oneliner's text for display, append_wrapped(): rows of at most
    `width` characters into a buffer of fixed size. */
module IbolWrap {
  import opened CText

  /** The last space of `line` in 1..i, 0 without one. */
  function SpaceBefore(line: string, i: nat): (n: nat)
    requires i < |line|
    ensures n <= i && (n > 0 ==> line[n] == ' ') && forall k :: n < k <= i ==> line[k] != ' '
  {
    if i == 0 then 0 else if line[i] == ' ' then i else SpaceBefore(line, i - 1)
  }

  /** How long the next row of a line that is too long becomes. */
  function RowLength(line: string, width: nat): (cut: nat)
    requires 0 < width < |line|
    ensures 0 < cut <= width
  {
    if SpaceBefore(line, width) > 0 then SpaceBefore(line, width) else width
  }

  /** Where the row after a row of `cut` characters starts: one space is skipped. */
  function NextRow(line: string, cut: nat): (n: nat)
    requires cut < |line|
    ensures cut <= n <= cut + 1
  {
    if line[cut] == ' ' then cut + 1 else cut
  }

  function Rows(line: string, width: nat): (rows: seq<string>)
    requires width > 0
    ensures rows != []
    decreases |line|
  {
    if |line| <= width then [line]
    else
      var cut := RowLength(line, width);
      [line[..cut]] + Rows(line[NextRow(line, cut)..], width)
  }

  function Printed(rows: seq<string>): string {
    if rows == [] then "" else rows[0] + "\n" + Printed(rows[1..])
  }

  /** All rows of a text, line by line. */
  function Layout(text: string, from: nat, width: nat): string
    requires from <= |text| && width > 0
    decreases |text| - from
  {
    var e := LineEnd(text, from);
    Printed(Rows(text[from..e], width)) + if e == |text| then "" else Layout(text, e + 1, width)
  }

  lemma LayoutUnfold(text: string, from: nat, width: nat)
    requires from <= |text| && width > 0
    ensures var e := LineEnd(text, from);
            Layout(text, from, width) ==
            Printed(Rows(text[from..e], width)) + if e == |text| then "" else Layout(text, e + 1, width)
  {
    hide LineEnd, Rows, Printed;
  }

  // ---------- The buffer ----------

  /** What a buffer of `size` bytes holds of `s`. */
  function Held(s: string, size: nat): string
    requires size > 0
  {
    if |s| < size then s else s[..size - 1]
  }

  /** append_output(): all of `piece`, or what fits of it and an error. */
  method AppendOutput(out: string, piece: string, size: nat) returns (now: string, ok: bool)
    requires |out| < size
    ensures now == Held(out + piece, size) && ok == (|out + piece| < size)
  {
    now, ok := out + piece, true;
    if |piece| >= size - |out| {
      now, ok := now[..size - 1], false;
    }
  }

  lemma HeldLonger(s: string, more: string, size: nat)
    requires |s| >= size > 0
    ensures Held(s + more, size) == Held(s, size) && |s + more| >= size
  {
  }

  method AppendWrapped(out: string, text: string, width: nat, size: nat) returns (now: string, ok: bool)
    requires |out| < size && width > 0
    ensures var all := out + Layout(text, 0, width);
            now == Held(all, size) && ok == (|all| < size)
  {
    hide Rows, Printed, RowLength, LineEnd, Held, Layout;
    ghost var all := out + Layout(text, 0, width);
    now, ok := out, true;
    var from := 0;
    while true
      invariant 0 <= from <= |text| && |now| < size
      invariant all == now + Layout(text, from, width)
      decreases |text| - from
    {
      LayoutUnfold(text, from, width);
      var p := LineEnd(text, from);
      ghost var rest := if p == |text| then "" else Layout(text, p + 1, width);
      ConcatAssociative(now, Printed(Rows(text[from..p], width)), rest);
      now, ok := AppendRows(now, text[from..p], width, size, rest);
      if !ok {
        return;
      }
      if p == |text| {
        HeldWhole(all, size);
        return;
      }
      from := p + 1;
    }
  }

  lemma HeldWhole(s: string, size: nat)
    requires size > 0
    ensures |s| < size ==> Held(s, size) == s
  {
  }

  /** The rows of one line; `rest` is what is to follow them. */
  method AppendRows(out: string, text: string, width: nat, size: nat, ghost rest: string)
    returns (now: string, ok: bool)
    requires |out| < size && width > 0
    ensures var rows := Printed(Rows(text, width));
            if ok then now == out + rows && |now| < size
            else now == Held(out + rows + rest, size) && |out + rows + rest| >= size
  {
    hide Printed, RowLength, Rows, Held;
    ghost var all := out + Printed(Rows(text, width));
    now := out;
    var line := text;
    while |line| > width
      invariant |now| < size && all == now + Printed(Rows(line, width))
      decreases |line|
    {
      FirstRow(line, width);
      var cut := SpaceBefore(line, width);
      if cut == 0 {
        cut := width;
      }
      ghost var before, row, more := now, line[..cut] + "\n", Printed(Rows(line[NextRow(line, cut)..], width));
      now, ok := AppendOutput(now, line[..cut] + "\n", size);
      ConcatAssociative(before, row, more);
      if !ok {
        ConcatAssociative(before + row, more, rest);
        HeldLonger(before + row, more + rest, size);
        return;
      }
      HeldWhole(before + row, size);
      line := line[cut..];
      if |line| > 0 && line[0] == ' ' {
        line := line[1..];
      }
    }
    FirstRow(line, width);
    ghost var before := now;
    now, ok := AppendOutput(now, line + "\n", size);
    if !ok {
      HeldLonger(all, rest, size);
    } else {
      HeldWhole(all, size);
    }
  }

  lemma FirstRow(line: string, width: nat)
    requires width > 0
    ensures |line| <= width ==> Printed(Rows(line, width)) == line + "\n"
    ensures |line| > width ==>
              var cut := RowLength(line, width);
              && cut == (if SpaceBefore(line, width) > 0 then SpaceBefore(line, width) else width)
              && line[NextRow(line, cut)..] == (if line[cut] == ' ' then line[cut..][1..] else line[cut..])
              && Printed(Rows(line, width)) == line[..cut] + "\n" + Printed(Rows(line[NextRow(line, cut)..], width))
  {
    if |line| <= width {
      assert Rows(line, width)[1..] == [];
    } else {
      var cut := RowLength(line, width);
      assert Rows(line, width)[1..] == Rows(line[NextRow(line, cut)..], width);
    }
  }

  // ---------- What wrapping keeps ----------

  /** Puts rows together again: a space at each soft break, nothing at a hard one. */
  function Rejoin(rows: seq<string>, soft: seq<bool>): string
    requires |rows| == |soft| + 1
    decreases |soft|
  {
    if soft == [] then rows[0] else rows[0] + (if soft[0] then " " else "") + Rejoin(rows[1..], soft[1..])
  }

  /** A break without a space lies behind `width` characters of which only the first
      may be a space; at a break with one, the next word did not fit. */
  predicate GoodBreak(row: string, next: string, soft: bool, width: nat) {
    if soft then |row| + 1 + IndexOf(next, ' ') > width
    else |row| == width && ' ' !in row[if row == "" then 0 else 1..]
  }

  lemma FirstRowBreaks(line: string, width: nat)
    requires 0 < width < |line|
    ensures var cut := RowLength(line, width);
            var rest := line[NextRow(line, cut)..];
            && GoodBreak(line[..cut], Rows(rest, width)[0], line[cut] == ' ', width)
            && line == line[..cut] + (if line[cut] == ' ' then " " else "") + rest
  {
    hide SpaceBefore, Rows;
    var cut := RowLength(line, width);
    var rest := line[NextRow(line, cut)..];
    if line[cut] == ' ' {
      assert forall k :: 0 <= k < width - cut && k < |rest| ==> rest[k] == line[cut + 1 + k] != ' ';
      WordGoesOn(rest, width, width - cut);
    } else {
      assert forall k :: 0 < k < cut ==> line[..cut][k] == line[k] != ' ';
    }
  }

  /** The first row of a rest without a space among its first `n` characters has none
      there either. */
  lemma WordGoesOn(rest: string, width: nat, n: nat)
    requires n <= width && forall k :: 0 <= k < n && k < |rest| ==> rest[k] != ' '
    requires |rest| >= n
    ensures width > 0 ==> IndexOf(Rows(rest, width)[0], ' ') >= n
  {
    hide IndexOf, SpaceBefore;
  }

  /** Each row fits, the rows give the line again with at most one space lost at a
      break, and no row has room for one word more. */
  lemma {:induction false} RowsRejoin(line: string, width: nat) returns (soft: seq<bool>)
    requires width > 0
    ensures var rows := Rows(line, width);
            && |rows| == |soft| + 1 && Rejoin(rows, soft) == line
            && (forall i :: 0 <= i < |rows| ==> |rows[i]| <= width)
            && (forall i :: 0 <= i < |soft| ==> GoodBreak(rows[i], rows[i + 1], soft[i], width))
    decreases |line|
  {
    hide GoodBreak, RowLength;
    if |line| <= width {
      soft := [];
    } else {
      var cut := RowLength(line, width);
      var rest := line[NextRow(line, cut)..];
      var more := RowsRejoin(rest, width);
      soft := [line[cut] == ' '] + more;
      FirstRowBreaks(line, width);
      var rows := Rows(line, width);
      assert rows == [line[..cut]] + Rows(rest, width);
      assert rows[1..] == Rows(rest, width) && soft[1..] == more;
    }
  }
}
