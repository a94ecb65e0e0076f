/** Quoting a text in the line editor: source lines are collected into paragraphs and
    each paragraph is wrapped into "> " lines, without leaving one word on the last. */
module QuoteWrap {
  import opened CText
  import opened FtnWrap

  const TEXT_WIDTH := 71

  // ---------- Words ----------

  /** The first blank from `i` on. */
  function WordEnd(s: string, i: nat): (e: nat)
    requires i <= |s|
    ensures i <= e <= |s| && (e < |s| ==> IsBlank(s[e]))
    ensures forall k :: i <= k < e ==> !IsBlank(s[k])
    decreases |s| - i
  {
    if i == |s| || IsBlank(s[i]) then i else WordEnd(s, i + 1)
  }

  function Words(s: string): (w: seq<string>)
    decreases |s|
  {
    if s == "" then []
    else if IsBlank(s[0]) then Words(s[1..])
    else [s[..WordEnd(s, 0)]] + Words(s[WordEnd(s, 0)..])
  }

  function WordsOf(lines: seq<string>): seq<string> {
    if lines == [] then [] else WordsOf(lines[..|lines| - 1]) + Words(lines[|lines| - 1])
  }

  function InkOf(lines: seq<string>): string {
    if lines == [] then "" else InkOf(lines[..|lines| - 1]) + Ink(lines[|lines| - 1])
  }

  predicate BlankOnly(s: string) {
    forall i :: 0 <= i < |s| ==> IsBlank(s[i])
  }

  /** No word runs from `a` into `b`. */
  predicate Apart(a: string, b: string) {
    a == "" || b == "" || IsBlank(a[|a| - 1]) || IsBlank(b[0])
  }

  lemma WordEndPrefix(a: string, b: string)
    ensures WordEnd(a, 0) < |a| || Apart(a, b) ==> WordEnd(a + b, 0) == WordEnd(a, 0) || a == ""
    ensures a != "" && !Apart(a, b) && WordEnd(a, 0) == |a| ==> WordEnd(a + b, 0) == |a| + WordEnd(b, 0)
  {
    hide WordEnd;
    assert forall k :: 0 <= k < |a| ==> (a + b)[k] == a[k];
    assert forall k :: 0 <= k < |b| ==> (a + b)[|a| + k] == b[k];
    var e, f := WordEnd(a, 0), WordEnd(b, 0);
    var w := WordEnd(a + b, 0);
    if e < |a| {
      assert IsBlank((a + b)[e]);
    } else if b != "" && f < |b| {
      assert IsBlank((a + b)[|a| + f]);
      assert b[0] == (a + b)[|a|];
    }
  }

  lemma WordsUnfold(s: string)
    ensures s == "" ==> Words(s) == []
    ensures s != "" && IsBlank(s[0]) ==> Words(s) == Words(s[1..])
    ensures s != "" && !IsBlank(s[0]) ==> Words(s) == [s[..WordEnd(s, 0)]] + Words(s[WordEnd(s, 0)..])
  {
    hide WordEnd;
  }

  lemma {:induction false} WordsApart(a: string, b: string)
    requires Apart(a, b)
    ensures Words(a + b) == Words(a) + Words(b)
    decreases |a|
  {
    hide Words, WordEnd;
    WordsUnfold(a);
    WordsUnfold(a + b);
    if a == "" {
      assert a + b == b;
    } else if IsBlank(a[0]) {
      assert (a + b)[1..] == a[1..] + b;
      WordsApart(a[1..], b);
    } else {
      WordEndPrefix(a, b);
      var e := WordEnd(a, 0);
      assert (a + b)[..e] == a[..e] && (a + b)[e..] == a[e..] + b;
      WordsApart(a[e..], b);
      ConcatWords([a[..e]], Words(a[e..]), Words(b));
    }
  }

  lemma ConcatWords(a: seq<string>, b: seq<string>, c: seq<string>)
    ensures a + (b + c) == a + b + c
  {
  }

  /** A word of `a` and one of `b` become one. */
  lemma {:induction false} WordsGlued(a: string, b: string)
    requires !Apart(a, b)
    ensures |Words(a + b)| == |Words(a)| + |Words(b)| - 1
    decreases |a|
  {
    hide Words, WordEnd;
    WordsUnfold(a);
    WordsUnfold(a + b);
    if IsBlank(a[0]) {
      assert (a + b)[1..] == a[1..] + b;
      WordsGlued(a[1..], b);
    } else {
      WordEndPrefix(a, b);
      var e := WordEnd(a, 0);
      if e < |a| {
        assert (a + b)[e..] == a[e..] + b;
        WordsGlued(a[e..], b);
      } else {
        WordsUnfold(b);
        var f := WordEnd(b, 0);
        assert a[e..] == "" && (a + b)[e + f..] == b[f..];
        WordsUnfold("");
      }
    }
  }

  lemma {:induction false} BlanksHaveNoWords(s: string)
    requires BlankOnly(s)
    ensures Words(s) == [] && Ink(s) == ""
  {
    if s != "" {
      BlanksHaveNoWords(s[1..]);
    }
  }

  lemma Snoc<T>(a: seq<T>, x: T)
    ensures (a + [x])[..|a + [x]| - 1] == a
  {
  }

  /** One line more, one line's words and ink more. */
  lemma OneLineMore(lines: seq<string>, line: string)
    ensures WordsOf(lines + [line]) == WordsOf(lines) + Words(line)
    ensures InkOf(lines + [line]) == InkOf(lines) + Ink(line)
  {
    Snoc(lines, line);
  }

  // ---------- The wrapping, as a function ----------

  /** The last blank of `s` at `i` or before, 0 when there is none behind the first. */
  function BlankBefore(s: string, i: nat): (n: nat)
    requires i < |s|
    ensures n <= i && (n > 0 ==> IsBlank(s[n])) && forall k :: n < k <= i ==> !IsBlank(s[k])
  {
    if i == 0 || IsBlank(s[i]) then i else BlankBefore(s, i - 1)
  }

  /** How much of `start` goes on the next line. */
  function Advance(start: string): (n: nat)
    requires start != ""
    ensures 0 < n <= |start| && n <= TEXT_WIDTH
  {
    if |start| <= TEXT_WIDTH then |start|
    else if BlankBefore(start, TEXT_WIDTH) > 0 then BlankBefore(start, TEXT_WIDTH)
    else TEXT_WIDTH
  }

  /** All that fits 71 columns, else up to the last blank within them, else 71 characters of
      the word. */
  lemma AdvanceIs(start: string)
    requires start != ""
    ensures var n := Advance(start);
            && (|start| <= 71 ==> n == |start|)
            && (|start| > 71 ==>
                  && (IsBlank(start[n]) || (n == 71 && forall k :: 0 < k < n ==> !IsBlank(start[k])))
                  && forall k :: n < k <= 71 ==> !IsBlank(start[k]))
  {
  }

  function TrimBlanks(s: string): (t: string)
    ensures t <= s && BlankOnly(s[|t|..]) && (t != "" ==> !IsBlank(t[|t| - 1]))
  {
    if s != "" && IsBlank(s[|s| - 1]) then
      var t := TrimBlanks(s[..|s| - 1]);
      assert s[|t|..] == s[..|s| - 1][|t|..] + [s[|s| - 1]];
      t
    else s
  }

  function TrimSpaces(s: string): (t: string)
    ensures t <= s && BlankOnly(s[|t|..])
  {
    if s != "" && s[|s| - 1] == ' ' then
      var t := TrimSpaces(s[..|s| - 1]);
      assert s[|t|..] == s[..|s| - 1][|t|..] + [s[|s| - 1]];
      t
    else s
  }

  /** strrchr(s, ' '); the length of `s` without one. */
  function LastSpace(s: string): (n: nat)
    ensures n <= |s| && (n < |s| ==> s[n] == ' ')
  {
    if s == "" then 0
    else if s[|s| - 1] == ' ' then |s| - 1
    else
      var n := LastSpace(s[..|s| - 1]);
      if n == |s| - 1 then |s| else n
  }

  /** The rest is one word and the last line can spare one for it. */
  predicate Steals(done: seq<string>, start: string) {
    && done != [] && |start| <= TEXT_WIDTH && WordEnd(start, 0) == |start|
    && var last := done[|done| - 1];
       LastSpace(last) < |last| && |last| - LastSpace(last) + |start| <= TEXT_WIDTH
  }

  /** The lines of one paragraph, `done` written and `start` to go. */
  function Wrap(done: seq<string>, start: string): (lines: seq<string>)
    decreases |start|
  {
    if start == "" then done
    else if Steals(done, start) then
      var last, split := done[|done| - 1], LastSpace(done[|done| - 1]);
      done[..|done| - 1] + [TrimSpaces(last[..split]), last[split + 1..] + " " + start]
    else
      var n := Advance(start);
      Wrap(done + [TrimBlanks(start[..n])], start[BlankEnd(start, n)..])
  }

  lemma NothingToSteal(start: string)
    ensures !Steals([], start)
  {
  }

  lemma WrapStep(done: seq<string>, start: string)
    ensures start == "" ==> Wrap(done, start) == done
    ensures start != "" && Steals(done, start) ==>
              var last, split := done[|done| - 1], LastSpace(done[|done| - 1]);
              Wrap(done, start) ==
              done[..|done| - 1] + [TrimSpaces(last[..split]), last[split + 1..] + " " + start]
    ensures start != "" && !Steals(done, start) ==>
              Wrap(done, start) == Wrap(done + [TrimBlanks(start[..Advance(start)])],
                                        start[BlankEnd(start, Advance(start))..])
  {
  }

  function Quoted(lines: seq<string>): (q: seq<string>)
    ensures |q| == |lines| && forall i :: 0 <= i < |q| ==> q[i] == "> " + lines[i]
  {
    seq(|lines|, i requires 0 <= i < |lines| => "> " + lines[i])
  }

  lemma NoneQuoted()
    ensures Quoted([]) == []
  {
  }

  /** The line above the current one is the last one quoted. */
  lemma LineAbove(head: seq<string>, done: seq<string>)
    requires done != []
    ensures var written := head + Quoted(done);
            written != [] && written[|written| - 1] == "> " + done[|done| - 1] &&
              written[|written| - 1][2..] == done[|done| - 1]
  {
  }

  /** The line above replaced, and one more written. */
  lemma QuotedSteal(head: seq<string>, done: seq<string>, cut: string, tail: string)
    requires done != []
    ensures var written := head + Quoted(done);
            written[|written| - 1 := "> " + cut] + ["> " + tail] == head + Quoted(done[..|done| - 1] + [cut, tail])
  {
  }

  lemma QuotedMore(head: seq<string>, done: seq<string>, line: string)
    ensures head + Quoted(done + [line]) == head + Quoted(done) + ["> " + line]
  {
  }

  // ---------- What wrapping keeps ----------

  predicate AllShort(words: seq<string>) {
    forall i :: 0 <= i < |words| ==> |words[i]| <= 71
  }

  /** Every line stays within the editor's 73 columns. */
  lemma {:induction false} WrapWithinColumns(done: seq<string>, start: string)
    requires AllShort(done)
    ensures forall i :: 0 <= i < |Wrap(done, start)| ==> |"> " + Wrap(done, start)[i]| <= 73
    decreases |start|
  {
    hide Wrap, TrimBlanks, TrimSpaces, BlankBefore, LastSpace, BlankEnd, WordEnd;
    WrapStep(done, start);
    if start != "" && !Steals(done, start) {
      var n := Advance(start);
      WrapWithinColumns(done + [TrimBlanks(start[..n])], start[BlankEnd(start, n)..]);
    }
  }

  lemma TrimmedSame(t: string, s: string)
    requires t <= s && BlankOnly(s[|t|..])
    ensures Words(t) == Words(s) && Ink(t) == Ink(s)
  {
    hide Words, Ink;
    var b := s[|t|..];
    assert s == t + b;
    BlanksHaveNoWords(b);
    InkConcat(t, b);
    WordsApart(t, b);
  }

  /** What stealing a word back does to the last line. */
  lemma StealKeeps(last: string, start: string)
    requires LastSpace(last) < |last|
    ensures var split := LastSpace(last);
            var cut, tail := TrimSpaces(last[..split]), last[split + 1..] + " " + start;
            Words(cut) + Words(tail) == Words(last) + Words(start) && Ink(cut) + Ink(tail) == Ink(last) + Ink(start)
  {
    hide Words, Ink, TrimSpaces, LastSpace, BlankOnly;
    var split := LastSpace(last);
    var a, word := last[..split], last[split + 1..];
    TrimmedSame(TrimSpaces(a), a);
    SpaceBetween(a, word);
    SpaceBetween(word, start);
    assert last == a + " " + word;
  }

  lemma SpaceBetween(a: string, b: string)
    ensures Words(a + " " + b) == Words(a) + Words(b) && Ink(a + " " + b) == Ink(a) + Ink(b)
  {
    hide Words, Ink;
    WordsApart(a + " ", b);
    WordsApart(a, " ");
    InkConcat(a + " ", b);
    InkConcat(a, " ");
    BlanksHaveNoWords(" ");
  }

  /** A word is split exactly here: a long rest without a blank behind its first
      character. */
  predicate Splits(start: string) {
    |start| > TEXT_WIDTH && BlankBefore(start, TEXT_WIDTH) == 0
  }

  /** A line and a rest with only blanks between them. */
  lemma CutKeeps(line: string, gap: string, rest: string)
    requires BlankOnly(gap)
    ensures Ink(line) + Ink(rest) == Ink(line + (gap + rest))
    ensures Apart(line, gap + rest) ==> Words(line) + Words(rest) == Words(line + (gap + rest))
    ensures !Apart(line, gap + rest) ==> |Words(line)| + |Words(rest)| == |Words(line + (gap + rest))| + 1
  {
    hide Words, Ink, BlankOnly;
    BlanksHaveNoWords(gap);
    InkConcat(line, gap + rest);
    InkConcat(gap, rest);
    BlanksApart(gap, rest);
    WordsApart(gap, rest);
    assert [] + Words(rest) == Words(rest) && "" + Ink(rest) == Ink(rest);
    if Apart(line, gap + rest) {
      WordsApart(line, gap + rest);
    } else {
      WordsGlued(line, gap + rest);
    }
  }

  lemma BlanksApart(gap: string, rest: string)
    requires BlankOnly(gap)
    ensures Apart(gap, rest)
  {
  }

  /** One line taken off `start`: the ink is kept, and the words too unless one is split. */
  lemma TakeKeeps(start: string)
    requires start != ""
    ensures var n := Advance(start);
            var line, rest := TrimBlanks(start[..n]), start[BlankEnd(start, n)..];
            && Ink(line) + Ink(rest) == Ink(start)
            && (!Splits(start) ==> Words(line) + Words(rest) == Words(start))
            && (Splits(start) ==> |Words(line)| + |Words(rest)| == |Words(start)| + 1)
            && |rest| < |start| && (rest != "" ==> !IsBlank(rest[0]))
  {
    hide Words, Ink, TrimBlanks, BlankBefore, BlankEnd, Advance, Splits, Apart;
    var n := Advance(start);
    var b := BlankEnd(start, n);
    var line, gap, rest := start[..n], start[n..b], start[b..];
    TrimmedSame(TrimBlanks(line), line);
    assert gap + rest == start[n..] && start == line + start[n..];
    assert BlankOnly(gap);
    CutKeeps(line, gap, rest);
    SplitsIsGlued(start);
  }

  /** Exactly a split leaves a word on both sides of the cut. */
  lemma SplitsIsGlued(start: string)
    requires start != ""
    ensures Splits(start) <==> !Apart(start[..Advance(start)], start[Advance(start)..])
  {
    hide BlankBefore;
    var n := Advance(start);
    if n < |start| {
      assert start[n..][0] == start[n] && start[..n][n - 1] == start[n - 1];
    }
  }

  lemma {:induction false} WordsBounded(s: string, k: nat)
    requires k < |Words(s)|
    ensures 0 < |Words(s)[k]| <= |s|
    decreases |s|
  {
    if IsBlank(s[0]) {
      WordsBounded(s[1..], k);
    } else if k > 0 {
      WordsBounded(s[WordEnd(s, 0)..], k - 1);
    }
  }

  lemma {:induction false} WordsOfShort(lines: seq<string>)
    requires AllShort(lines)
    ensures AllShort(WordsOf(lines))
  {
    hide Words;
    if lines != [] {
      WordsOfShort(lines[..|lines| - 1]);
      var last := lines[|lines| - 1];
      forall k | 0 <= k < |Words(last)| ensures |Words(last)[k]| <= TEXT_WIDTH {
        WordsBounded(last, k);
      }
    }
  }

  /** Splitting needs a word of more than 71 characters, or one of 71 behind a single
      leading blank. */
  lemma SplitsMeans(start: string)
    requires Splits(start)
    ensures if IsBlank(start[0]) then WordEnd(start, 1) > TEXT_WIDTH else !AllShort(Words(start))
  {
    hide Words, BlankBefore, WordEnd;
    assert forall k :: 1 <= k <= TEXT_WIDTH ==> !IsBlank(start[k]);
    if !IsBlank(start[0]) {
      WordsUnfold(start);
      assert WordEnd(start, 0) > TEXT_WIDTH;
      assert |Words(start)[0]| == WordEnd(start, 0);
    }
  }

  lemma StealMore(done: seq<string>, cut: string, tail: string, start: string)
    requires done != []
    requires Words(cut) + Words(tail) == Words(done[|done| - 1]) + Words(start)
    requires Ink(cut) + Ink(tail) == Ink(done[|done| - 1]) + Ink(start)
    ensures var lines := done[..|done| - 1] + [cut, tail];
            WordsOf(lines) == WordsOf(done) + Words(start) && InkOf(lines) == InkOf(done) + Ink(start)
  {
    hide Words, Ink;
    var init := done[..|done| - 1];
    OneLineMore(init, cut);
    OneLineMore(init + [cut], tail);
    assert init + [cut, tail] == init + [cut] + [tail];
    var last := done[|done| - 1];
    Regroup(WordsOf(init), Words(cut), Words(tail), Words(last), Words(start));
    Regroup(InkOf(init), Ink(cut), Ink(tail), Ink(last), Ink(start));
  }

  lemma Regroup<T>(a: seq<T>, b: seq<T>, c: seq<T>, d: seq<T>, e: seq<T>)
    requires b + c == d + e
    ensures a + b + c == a + d + e
  {
    assert a + b + c == a + (b + c);
    assert a + d + e == a + (d + e);
  }

  /** No ink is lost, no words are lost, and the words are the same ones unless one is
      split. */
  lemma {:induction false} WrapKeeps(done: seq<string>, start: string)
    ensures InkOf(Wrap(done, start)) == InkOf(done) + Ink(start)
    ensures |WordsOf(Wrap(done, start))| >= |WordsOf(done)| + |Words(start)| + if Splits(start) then 1 else 0
    ensures AllShort(Words(start)) && !Splits(start) ==> WordsOf(Wrap(done, start)) == WordsOf(done) + Words(start)
    decreases |start|
  {
    hide Wrap, Words, Ink, WordsOf, InkOf, TrimBlanks, TrimSpaces, BlankBefore, LastSpace, BlankEnd, WordEnd,
         AllShort, Advance;
    WrapStep(done, start);
    if start == "" {
      BlanksHaveNoWords("");
    } else if Steals(done, start) {
      var last, split := done[|done| - 1], LastSpace(done[|done| - 1]);
      StealKeeps(last, start);
      StealMore(done, TrimSpaces(last[..split]), last[split + 1..] + " " + start, start);
    } else {
      var n := Advance(start);
      var line, rest := TrimBlanks(start[..n]), start[BlankEnd(start, n)..];
      TakeKeeps(start);
      OneLineMore(done, line);
      WrapKeeps(done + [line], rest);
      if AllShort(Words(start)) && !Splits(start) {
        RestShort(Words(line), Words(rest));
        if Splits(rest) {
          SplitsMeans(rest);
        }
      }
    }
  }

  lemma RestShort(a: seq<string>, b: seq<string>)
    requires AllShort(a + b)
    ensures AllShort(b)
  {
    forall i | 0 <= i < |b| ensures |b[i]| <= TEXT_WIDTH {
      assert (a + b)[|a| + i] == b[i];
    }
  }

  /** A quoted paragraph keeps every non-blank character in order; it keeps its words
      if and only if none is longer than 71 characters and the first is not of 71
      behind one leading blank. */
  lemma QuoteKeepsWordsIff(text: string)
    ensures InkOf(Wrap([], text)) == Ink(text)
    ensures WordsOf(Wrap([], text)) == Words(text) <==>
            AllShort(Words(text)) && !(text != "" && IsBlank(text[0]) && WordEnd(text, 1) > 71)
  {
    hide Wrap, Words, Ink, WordEnd;
    WrapKeeps([], text);
    WrapWithinColumns([], text);
    WordsOfShort(Wrap([], text));
    if Splits(text) {
      SplitsMeans(text);
    }
    SplitsBehindBlank(text);
  }

  lemma SplitsBehindBlank(text: string)
    ensures text != "" && WordEnd(text, 1) > TEXT_WIDTH ==> Splits(text)
  {
    hide WordEnd;
    if |text| > TEXT_WIDTH {
      var n := BlankBefore(text, TEXT_WIDTH);
      assert n > 0 ==> WordEnd(text, 1) <= n;
    }
  }

  // ---------- The last line ----------

  /** No blank in it. */
  predicate OneWord(s: string) {
    s != "" && forall i :: 0 <= i < |s| ==> !IsBlank(s[i])
  }

  lemma {:induction false} LastSpaceAt(front: string, word: string)
    requires ' ' !in word
    ensures LastSpace(front + " " + word) == |front| && LastSpace(word) == |word|
    decreases |word|
  {
    var s := front + " " + word;
    if word == "" {
      assert s == front + " ";
    } else {
      var init := word[..|word| - 1];
      LastSpaceAt(front, init);
      assert s[..|s| - 1] == front + " " + init && s[|s| - 1] == word[|word| - 1];
    }
  }

  /** A rest takes a word back exactly when it is one word and the last word behind a space
      of the line above, a space and it have at most 71 characters. */
  lemma StealsIff(done: seq<string>, front: string, word: string, start: string)
    requires done != [] && ' ' !in word && start != ""
    ensures done[|done| - 1] == front + " " + word ==>
              (Steals(done, start) <==> OneWord(start) && |word + " " + start| <= 71)
    ensures done[|done| - 1] == word ==> !Steals(done, start)
  {
    hide LastSpace, WordEnd;
    LastSpaceAt(front, word);
  }

  /** So a last line of one word is left only where the last word of the line above had no
      room next to it. */
  lemma {:induction false} LastWordNotAlone(done: seq<string>, start: string, front: string, word: string)
    requires start != "" && !IsBlank(start[|start| - 1])
    requires var lines := Wrap(done, start); |lines| >= 2 && lines[|lines| - 2] == front + " " + word && ' ' !in word
    ensures var lines := Wrap(done, start);
            OneWord(lines[|lines| - 1]) ==> |word + " " + lines[|lines| - 1]| > 71
    decreases |start|
  {
    hide Wrap, TrimBlanks, TrimSpaces, BlankBefore, LastSpace, BlankEnd, WordEnd, Advance;
    WrapStep(done, start);
    if Steals(done, start) {
      SpaceInside(done[|done| - 1][LastSpace(done[|done| - 1]) + 1..], start);
    } else {
      var n := Advance(start);
      var line, rest := TrimBlanks(start[..n]), start[BlankEnd(start, n)..];
      if rest == "" {
        WholeRest(start);
        WrapStep(done + [line], rest);
        assert start[..n] == start == line;
        StealsIff(done, front, word, start);
      } else {
        LastWordNotAlone(done + [line], rest, front, word);
      }
    }
  }

  lemma SpaceInside(a: string, b: string)
    ensures !OneWord(a + " " + b)
  {
    assert (a + " " + b)[|a|] == ' ';
  }

  /** A text that ends in ink is taken whole when nothing is left of it. */
  lemma WholeRest(start: string)
    requires start != "" && !IsBlank(start[|start| - 1]) && BlankEnd(start, Advance(start)) == |start|
    ensures Advance(start) == |start| && TrimBlanks(start) == start
  {
    hide Advance;
  }

  // ---------- A whole text ----------

  /** add_quote_source_line(). */
  function AddSourceLine(paragraph: string, line: string): string {
    if paragraph == "" then line else paragraph + " " + line
  }

  /** The lines that quoting leaves, `paragraph` pending. */
  function QuoteAll(paragraph: string, src: seq<string>, yes: seq<bool>): seq<string>
    requires |yes| == |src|
    decreases |src|
  {
    if src == [] then Wrap([], paragraph)
    else if !yes[0] then Wrap([], paragraph) + QuoteAll("", src[1..], yes[1..])
    else if src[0] == "" then Wrap([], paragraph) + [""] + QuoteAll("", src[1..], yes[1..])
    else QuoteAll(AddSourceLine(paragraph, src[0]), src[1..], yes[1..])
  }

  lemma QuoteStep(paragraph: string, src: seq<string>, yes: seq<bool>)
    requires |yes| == |src| && src != []
    ensures QuoteAll(paragraph, src, yes) ==
            if yes[0] && src[0] != "" then QuoteAll(AddSourceLine(paragraph, src[0]), src[1..], yes[1..])
            else (if yes[0] then Wrap([], paragraph) + [""] else Wrap([], paragraph)) + QuoteAll("", src[1..], yes[1..])
  {
    hide Wrap;
  }

  lemma QuoteNext(paragraph: string, src: seq<string>, yes: seq<bool>, i: nat, out: seq<string>)
    requires |yes| == |src| && i < |src|
    ensures out + QuoteAll(paragraph, src[i..], yes[i..]) ==
            if yes[i] && src[i] != "" then out + QuoteAll(AddSourceLine(paragraph, src[i]), src[i + 1..], yes[i + 1..])
            else if yes[i] then out + Wrap([], paragraph) + [""] + QuoteAll("", src[i + 1..], yes[i + 1..])
            else out + Wrap([], paragraph) + QuoteAll("", src[i + 1..], yes[i + 1..])
  {
    hide Wrap, QuoteAll;
    QuoteStep(paragraph, src[i..], yes[i..]);
    assert src[i..][1..] == src[i + 1..] && yes[i..][1..] == yes[i + 1..];
  }

  lemma QuoteEnd(paragraph: string)
    ensures QuoteAll(paragraph, [], []) == Wrap([], paragraph)
  {
  }

  lemma OneQuoted(line: string)
    ensures Quoted([line]) == ["> " + line]
  {
  }

  lemma QuotedConcat(head: seq<string>, a: seq<string>, b: seq<string>)
    ensures head + Quoted(a + b) == head + Quoted(a) + Quoted(b)
  {
  }

  /** Lines with a space between them. */
  function Spaced(lines: seq<string>): string {
    if lines == [] then ""
    else if |lines| == 1 then lines[0]
    else Spaced(lines[..|lines| - 1]) + " " + lines[|lines| - 1]
  }

  predicate NoneEmpty(lines: seq<string>) {
    forall i :: 0 <= i < |lines| ==> lines[i] != ""
  }

  lemma SpacedMore(lines: seq<string>, line: string)
    requires NoneEmpty(lines)
    ensures Spaced(lines + [line]) == AddSourceLine(Spaced(lines), line)
  {
    Snoc(lines, line);
    assert lines != [] ==> lines[|lines| - 1] != "";
  }

  lemma {:induction false} ParagraphTaken(done: seq<string>, para: seq<string>, src: seq<string>, yes: seq<bool>)
    requires |yes| == |src| && NoneEmpty(done + para)
    ensures QuoteAll(Spaced(done), para + src, seq(|para|, _ => true) + yes) == QuoteAll(Spaced(done + para), src, yes)
    decreases |para|
  {
    hide QuoteAll, Spaced;
    if para == [] {
      assert done + para == done && para + src == src && seq(|para|, _ => true) + yes == yes;
    } else {
      var line, more := para[0], para[1..];
      var accepted := seq(|para|, _ => true) + yes;
      assert accepted[1..] == seq(|more|, _ => true) + yes && (para + src)[1..] == more + src;
      assert done + para == done + [line] + more && (done + para)[|done|] == line;
      assert NoneEmpty(done) by {
        assert forall i :: 0 <= i < |done| ==> (done + para)[i] == done[i];
      }
      QuoteStep(Spaced(done), para + src, accepted);
      SpacedMore(done, line);
      ParagraphTaken(done + [line], more, src, yes);
    }
  }

  /** Accepted lines with no empty one among them are wrapped as one text, a space between
      them; a rejected line ends it, and an accepted empty one leaves an empty line too. */
  lemma ParagraphQuoted(para: seq<string>, src: seq<string>, yes: seq<bool>)
    requires |yes| == |src| && NoneEmpty(para) && (src == [] || !yes[0] || src[0] == "")
    ensures QuoteAll("", para + src, seq(|para|, _ => true) + yes) ==
            Wrap([], Spaced(para)) +
            (if src == [] then [] else (if yes[0] then [""] else []) + QuoteAll("", src[1..], yes[1..]))
  {
    hide QuoteAll, Wrap;
    assert [] + para == para && Spaced([]) == "";
    ParagraphTaken([], para, src, yes);
    if src == [] {
      QuoteEnd(Spaced(para));
    } else {
      QuoteStep(Spaced(para), src, yes);
    }
  }

  function AcceptedInk(src: seq<string>, yes: seq<bool>): string
    requires |yes| == |src|
    decreases |src|
  {
    if src == [] then "" else (if yes[0] then Ink(src[0]) else "") + AcceptedInk(src[1..], yes[1..])
  }

  lemma {:induction false} InkOfConcat(a: seq<string>, b: seq<string>)
    ensures InkOf(a + b) == InkOf(a) + InkOf(b)
  {
    hide Ink;
    if b == [] {
      assert a + b == a;
    } else {
      assert (a + b)[..|a + b| - 1] == a + b[..|b| - 1];
      InkOfConcat(a, b[..|b| - 1]);
      ConcatAssociative(InkOf(a), InkOf(b[..|b| - 1]), Ink(b[|b| - 1]));
    }
  }

  lemma AcceptedUnfold(src: seq<string>, yes: seq<bool>)
    requires |yes| == |src|
    ensures AcceptedInk(src, yes) ==
            if src == [] then "" else (if yes[0] then Ink(src[0]) else "") + AcceptedInk(src[1..], yes[1..])
  {
    hide Ink;
  }

  /** Quoting a text keeps every non-blank character of the accepted lines, in order,
      and adds none; all lines fit the editor. */
  lemma {:induction false} QuoteKeepsInk(paragraph: string, src: seq<string>, yes: seq<bool>)
    requires |yes| == |src|
    ensures InkOf(QuoteAll(paragraph, src, yes)) == Ink(paragraph) + AcceptedInk(src, yes)
    ensures AllShort(QuoteAll(paragraph, src, yes))
    decreases |src|
  {
    hide Ink, InkOf, Wrap, AcceptedInk, QuoteAll, AllShort;
    ParagraphKeeps(paragraph);
    AcceptedUnfold(src, yes);
    if src == [] {
      QuoteEnd(paragraph);
    } else {
      QuoteStep(paragraph, src, yes);
      if yes[0] && src[0] != "" {
        QuoteKeepsInk(AddSourceLine(paragraph, src[0]), src[1..], yes[1..]);
        AddedInk(paragraph, src[0], AcceptedInk(src[1..], yes[1..]));
      } else {
        var more := QuoteAll("", src[1..], yes[1..]);
        var flushed := if yes[0] then Wrap([], paragraph) + [""] else Wrap([], paragraph);
        QuoteKeepsInk("", src[1..], yes[1..]);
        InkOfConcat(flushed, more);
        ShortConcat(flushed, more);
      }
    }
  }

  lemma ParagraphKeeps(paragraph: string)
    ensures var w := Wrap([], paragraph);
            InkOf(w) == Ink(paragraph) && AllShort(w) && InkOf(w + [""]) == Ink(paragraph) && AllShort(w + [""])
    ensures Ink("") == ""
  {
    hide Ink, InkOf, Wrap;
    WrapKeeps([], paragraph);
    WrapWithinColumns([], paragraph);
    NoInk();
    OneLineMore(Wrap([], paragraph), "");
  }

  lemma AddedInk(paragraph: string, line: string, more: string)
    ensures Ink(AddSourceLine(paragraph, line)) + more == Ink(paragraph) + (Ink(line) + more)
  {
    hide Ink;
    NoInk();
    SpaceBetween(paragraph, line);
    ConcatAssociative(Ink(paragraph), Ink(line), more);
  }

  lemma ShortConcat(a: seq<string>, b: seq<string>)
    requires AllShort(a) && AllShort(b)
    ensures AllShort(a + b)
  {
  }

  lemma NoInk()
    ensures Ink("") == "" && InkOf([]) == ""
  {
  }

  // ---------- The editor buffer ----------

  /** The editor's lines up to the current, last and still empty one; each line but it
      has been written. */
  class Editor {
    var lines: seq<string>
    var size: nat

    ghost predicate Valid()
      reads this
    {
      |lines| > 0
    }

    /** The lines that are complete. */
    ghost function Written(): seq<string>
      requires Valid()
      reads this
    {
      lines[..|lines| - 1]
    }

    constructor ()
      ensures Valid() && lines == [""] && size == 1
    {
      lines, size := [""], 1;
    }

    /** append_quote_line(): fills the current line and starts a new one. */
    method AppendQuoteLine(text: string)
      requires Valid()
      modifies this
      ensures Valid() && size == old(size) + 1
      ensures Written() == old(Written()) + ["> " + if |text| > TEXT_WIDTH then text[..TEXT_WIDTH] else text]
      ensures lines == Written() + [""]
    {
      var textlen := |text|;
      if textlen > TEXT_WIDTH {
        textlen := TEXT_WIDTH;
      }
      assert textlen == |text| ==> text[..textlen] == text;
      lines := lines[..|lines| - 1] + ["> " + text[..textlen], ""];
      size := size + 1;
    }

    /** A rest of one word takes the last word of the line above with it. */
    method StealWord(start: string, ghost head: seq<string>, ghost done: seq<string>) returns (stolen: bool)
      requires Valid() && start != "" && done != [] && Written() == head + Quoted(done) && lines == Written() + [""]
      modifies this
      ensures Valid() && stolen == Steals(done, start)
      ensures !stolen ==> lines == old(lines) && Written() == old(Written()) && size == old(size)
      ensures stolen ==> Written() == head + Quoted(Wrap(done, start)) && lines == Written() + [""]
      ensures stolen ==> size == old(size) + 1 && |Wrap(done, start)| == |done| + 1
    {
      hide Wrap, TrimSpaces, LastSpace, WordEnd, Quoted;
      WrapStep(done, start);
      stolen := false;
      if |start| <= TEXT_WIDTH && WordEnd(start, 0) == |start| {
        LineAbove(head, done);
        var previous := lines[|lines| - 2];
        var split := LastSpace(previous[2..]);
        if split < |previous| - 2 && |previous| - 2 - split + |start| <= TEXT_WIDTH {
          var word, cut := previous[2..][split + 1..], TrimSpaces(previous[2..][..split]);
          lines := lines[|lines| - 2 := "> " + cut];
          AppendQuoteLine(word + " " + start);
          QuotedSteal(head, done, cut, word + " " + start);
          stolen := true;
        }
      }
    }

    /** append_wrapped_quote(). */
    method AppendWrappedQuote(text: string)
      requires Valid()
      modifies this
      ensures Valid()
      ensures Written() == old(Written()) + Quoted(Wrap([], text))
      ensures lines == if text == "" then old(lines) else Written() + [""]
      ensures size == old(size) + |Wrap([], text)|
    {
      hide Wrap, TrimBlanks, BlankBefore, Advance, BlankEnd, Quoted, Steals, Written;
      ghost var head := Written();
      ghost var done: seq<string> := [];
      var start, wroteLine := text, false;
      NoneQuoted();
      while start != ""
        invariant Valid() && wroteLine == (done != []) && (start != text ==> done != [])
        invariant Written() == head + Quoted(done)
        invariant if done == [] then lines == old(lines) else text != "" && lines == Written() + [""]
        invariant size == old(size) + |done|
        invariant Wrap(done, start) == Wrap([], text)
        decreases |start|
      {
        WrapStep(done, start);
        if wroteLine {
          var stolen := StealWord(start, head, done);
          if stolen {
            return;
          }
        } else {
          NothingToSteal(start);
        }
        var advance := Advance(start);
        var take := TrimBlanks(start[..advance]);
        AppendQuoteLine(take);
        QuotedMore(head, done, take);
        done := done + [take];
        wroteLine := true;
        advance := BlankEnd(start, advance);
        start := start[advance..];
      }
      WrapStep(done, start);
    }

    /** The quoting loop: accepted lines collect in a paragraph; an empty or refused line
        and the end flush it, and an accepted empty line is quoted itself. */
    method QuoteText(src: seq<string>, yes: seq<bool>)
      requires Valid() && |yes| == |src|
      modifies this
      ensures Valid()
      ensures Written() == old(Written()) + Quoted(QuoteAll("", src, yes))
    {
      hide Wrap, QuoteAll, Quoted, Written, AddSourceLine;
      ghost var head := Written();
      ghost var out: seq<string> := [];
      var paragraph := "";
      var i := 0;
      NoneQuoted();
      assert src[0..] == src && yes[0..] == yes;
      while i < |src|
        invariant 0 <= i <= |src| && Valid()
        invariant Written() == head + Quoted(out)
        invariant out + QuoteAll(paragraph, src[i..], yes[i..]) == QuoteAll("", src, yes)
      {
        QuoteNext(paragraph, src, yes, i, out);
        if yes[i] && src[i] != "" {
          paragraph := AddSourceLine(paragraph, src[i]);
        } else {
          AppendWrappedQuote(paragraph);
          QuotedConcat(head, out, Wrap([], paragraph));
          out := out + Wrap([], paragraph);
          paragraph := "";
          if yes[i] {
            AppendQuoteLine("");
            OneQuoted("");
            QuotedConcat(head, out, [""]);
            out := out + [""];
          }
        }
        i := i + 1;
      }
      QuoteEnd(paragraph);
      AppendWrappedQuote(paragraph);
      QuotedConcat(head, out, Wrap([], paragraph));
    }
  }
}
