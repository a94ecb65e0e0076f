/** Decoding a mail header with encoded-words (RFC 2047), mail_rfc2047_decode_utf8_dup(). */
module MailHeader {
  import opened CText
  import opened MailWords
  import Utf8

  // ---------- Character sets ----------

  /** The character set that is converted; words in UTF-8, and in any other, are kept as
      they are. */
  predicate IsLatin1(charset: string) {
    var c := Lower(charset);
    c == "iso-8859-1" || c == "latin1" || c == "latin-1"
  }

  /** Its names, in capitals or not. */
  lemma Latin1Iff(charset: string)
    ensures IsLatin1(charset) <==>
            SameWord(charset, "iso-8859-1") || SameWord(charset, "latin1") || SameWord(charset, "latin-1")
  {
    hide SameWord, Lower;
    KeywordIs(charset, "iso-8859-1");
    KeywordIs(charset, "latin1");
    KeywordIs(charset, "latin-1");
  }

  /** A byte of ISO-8859-1 as UTF-8. */
  function Latin1Char(c: char): string {
    var n := c as int;
    if n < 0x80 || n > 0xFF then [c] else [(0xC0 + n / 64) as char, (0x80 + n % 64) as char]
  }

  function Latin1(s: string): string {
    if s == "" then "" else Latin1Char(s[0]) + Latin1(s[1..])
  }

  method Latin1ToUtf8(s: string) returns (out: string)
    ensures out == Latin1(s)
  {
    hide Latin1Char;
    out := "";
    var i := 0;
    assert s[0..] == s;
    while i < |s|
      invariant 0 <= i <= |s| && out + Latin1(s[i..]) == Latin1(s)
    {
      assert s[i..][1..] == s[i + 1..];
      ConcatAssociative(out, Latin1Char(s[i]), Latin1(s[i + 1..]));
      out := out + Latin1Char(s[i]);
      i := i + 1;
    }
    assert s[i..] == "";
  }

  /** What ISO-8859-1 becomes is UTF-8, one character a byte. */
  lemma {:induction false} Latin1IsUtf8(s: string)
    requires Bytes(s)
    ensures Utf8.Valid(Latin1(s))
  {
    if s != "" {
      Latin1IsUtf8(s[1..]);
      var c, rest := Latin1Char(s[0]), Latin1(s[1..]);
      var t := c + rest;
      assert t[|c|..] == rest;
      assert Utf8.CharLen(t) == |c| by {
        assert |c| == 2 ==> t[1] == c[1] && Utf8.IsTail(t[1]);
      }
    }
  }

  /** The characters of a UTF-8 text, as far as it has one and two bytes for each
      (section 3 of RFC 3629). */
  function Codes(s: string): seq<int> {
    if s == "" then []
    else if s[0] as int < 0x80 then [s[0] as int] + Codes(s[1..])
    else if |s| >= 2 && 0xC0 <= s[0] as int < 0xE0 && 0x80 <= s[1] as int < 0xC0
    then [(s[0] as int - 0xC0) * 0x40 + (s[1] as int - 0x80)] + Codes(s[2..])
    else []
  }

  /** Each byte of ISO-8859-1 becomes the character of that number. */
  lemma {:induction false} Latin1Codes(s: string)
    requires Bytes(s)
    ensures Codes(Latin1(s)) == seq(|s|, i requires 0 <= i < |s| => s[i] as int)
  {
    if s != "" {
      Latin1Codes(s[1..]);
      var c, rest := Latin1Char(s[0]), Latin1(s[1..]);
      var t := c + rest;
      assert t[|c|..] == rest && t[0] == c[0] && (|c| == 2 ==> t[1] == c[1]);
      assert |c| == 2 ==> t[1..][1..] == t[2..];
    }
  }

  function ToUtf8(charset: string, decoded: string): string {
    if IsLatin1(charset) then Latin1(CStr(decoded)) else CStr(decoded)
  }

  // ---------- One encoded-word ----------

  /** The first "?=". */
  function EndMark(s: string): (n: nat)
    ensures n <= |s| && (n < |s| ==> n + 2 <= |s|)
  {
    if |s| < 2 then |s| else if s[0] == '?' && s[1] == '=' then 0 else 1 + EndMark(s[1..])
  }

  datatype Word = Word(text: string, consumed: nat)

  /** The encoding letter, the text and the end of a word in `charset`. */
  function TextAt(charset: string, enc: string): (w: Option<Word>)
    ensures w.Some? ==> 4 <= w.value.consumed <= |enc|
  {
    if |enc| < 2 || enc[1] != '?' then None
    else
      var text := enc[2..];
      var t := EndMark(text);
      if t == |text| then None
      else if enc[0] == 'B' || enc[0] == 'b' then Some(Word(ToUtf8(charset, Base64Text(text[..t], [])), t + 4))
      else if enc[0] == 'Q' || enc[0] == 'q' then Some(Word(ToUtf8(charset, QText(text[..t])), t + 4))
      else None
  }

  /** mail_decode_encoded_word_dup(): the text of the word that `s` starts with and how
      long the word is. */
  function WordAt(s: string): (w: Option<Word>)
    ensures w.Some? ==> s != "" && s[0] == '=' && 0 < w.value.consumed <= |s|
  {
    if |s| < 2 || s[0] != '=' || s[1] != '?' then None
    else
      var charset := s[2..];
      var e := IndexOf(charset, '?');
      if e == |charset| || e == 0 then None
      else
        match TextAt(charset[..e], charset[e + 1..])
        case None => None
        case Some(w) => Some(Word(w.text, e + 3 + w.consumed))
  }

  method DecodeEncodedWord(s: string) returns (w: Option<Word>)
    ensures w == WordAt(s)
  {
    hide Base64Text, QText, IsLatin1, Latin1, EndMark;
    if |s| < 2 || s[0] != '=' || s[1] != '?' {
      return None;
    }
    var charset := s[2..];
    var e := IndexOf(charset, '?');
    if e == |charset| || e == 0 {
      return None;
    }
    var enc := charset[e + 1..];
    if |enc| < 2 || enc[1] != '?' {
      return None;
    }
    var text := enc[2..];
    var t := EndMark(text);
    if t == |text| {
      return None;
    }
    var decoded;
    if enc[0] == 'B' || enc[0] == 'b' {
      decoded := Base64Decode(text[..t]);
    } else if enc[0] == 'Q' || enc[0] == 'q' {
      decoded := QDecodeWord(text[..t]);
    } else {
      return None;
    }
    decoded := CStr(decoded);
    if IsLatin1(charset[..e]) {
      decoded := Latin1ToUtf8(decoded);
    }
    w := Some(Word(decoded, e + t + 7));
  }

  // ---------- The header ----------

  /** The decoded text from `p` on; `after` when an encoded-word ends in front of it. */
  function Decoded(p: string, after: bool): string
    decreases |p|
  {
    if p == "" then ""
    else
      var w := WordAt(p);
      if w.Some? then w.value.text + Decoded(p[w.value.consumed..], true)
      else if IsSpace(p[0]) then
        var q := SpaceRun(p);
        if after && WordAt(p[q..]).Some? then Decoded(p[q..], after)
        else p[..q] + Decoded(p[q..], false)
      else [p[0]] + Decoded(p[1..], false)
  }

  method Rfc2047Decode(src: string) returns (out: string)
    ensures out == Decoded(src, false)
  {
    hide WordAt;
    out := "";
    var p, lastWasEncoded := src, false;
    while p != ""
      invariant out + Decoded(p, lastWasEncoded) == Decoded(src, false)
      decreases |p|
    {
      var word := DecodeEncodedWord(p);
      if word.Some? {
        ConcatAssociative(out, word.value.text, Decoded(p[word.value.consumed..], true));
        out := out + word.value.text;
        p := p[word.value.consumed..];
        lastWasEncoded := true;
      } else if IsSpace(p[0]) {
        var q := SpaceRun(p);
        var next := DecodeEncodedWord(p[q..]);
        if !(next.Some? && lastWasEncoded) {
          ConcatAssociative(out, p[..q], Decoded(p[q..], false));
          out := out + p[..q];
          lastWasEncoded := false;
        }
        p := p[q..];
      } else {
        ConcatAssociative(out, [p[0]], Decoded(p[1..], false));
        out := out + [p[0]];
        p := p[1..];
        lastWasEncoded := false;
      }
    }
  }

  // ---------- What a header means ----------

  /** A header as it is written: plain text, and words in B or Q encoding. The bytes of a
      Q word are written each in a style of its own. */
  datatype Item =
    | Plain(text: string)
    | BWord(charset: string, lower: bool, text: string)
    | QWord(charset: string, lower: bool, text: string, styles: seq<Style>)

  predicate HasMark(s: string) {
    exists i :: 0 < i < |s| && s[i - 1] == '=' && s[i] == '?'
  }

  /** Words in any character set, of bytes without NUL; plain text without "=?". */
  predicate GoodItem(it: Item) {
    match it
    case Plain(t) => t != "" && !HasMark(t)
    case BWord(c, _, t) => c != "" && '?' !in c && Bytes(t) && '\0' !in t
    case QWord(c, _, t, styles) => c != "" && '?' !in c && Bytes(t) && '\0' !in t && |styles| == |t|
  }

  /** Plain texts do not follow one another. */
  predicate GoodItems(items: seq<Item>) {
    && (forall i :: 0 <= i < |items| ==> GoodItem(items[i]))
    && (forall i :: 0 < i < |items| && items[i].Plain? ==> !items[i - 1].Plain?)
  }

  function Printed(it: Item): string
    requires GoodItem(it)
  {
    match it
    case Plain(t) => t
    case BWord(c, lower, t) => "=?" + c + "?" + (if lower then "b" else "B") + "?" + Base64Of(t) + "?="
    case QWord(c, lower, t, styles) => "=?" + c + "?" + (if lower then "q" else "Q") + "?" + QOf(t, styles) + "?="
  }

  function Source(items: seq<Item>): string
    requires GoodItems(items)
  {
    if items == [] then "" else Printed(items[0]) + Source(items[1..])
  }

  /** Its meaning: the words' texts, those in ISO-8859-1 converted, and the plain text,
      without the white space that only separates two words (RFC 2047, section 6.2). */
  function Meaning(items: seq<Item>, after: bool): string {
    if items == [] then ""
    else match items[0]
      case Plain(t) =>
        if after && AllSpace(t) && |items| > 1 then Meaning(items[1..], true)
        else t + Meaning(items[1..], false)
      case BWord(c, _, t) => (if IsLatin1(c) then Latin1(t) else t) + Meaning(items[1..], true)
      case QWord(c, _, t, _) => (if IsLatin1(c) then Latin1(t) else t) + Meaning(items[1..], true)
  }

  // ---------- Decoding gives the meaning ----------

  predicate HasEnd(s: string) {
    exists i :: 0 < i < |s| && s[i - 1] == '?' && s[i] == '='
  }

  lemma {:induction false} EndMarkOf(text: string, rest: string)
    requires !HasEnd(text)
    ensures EndMark(text + "?=" + rest) == |text|
  {
    var s := text + "?=" + rest;
    if text != "" {
      assert s[1..] == text[1..] + "?=" + rest && s[0] == text[0];
      assert |text| > 1 ==> s[1] == text[1] && !(text[1 - 1] == '?' && text[1] == '=');
      assert |text| == 1 ==> s[1] == '?';
      assert !HasEnd(text[1..]) by {
        assert forall i :: 0 < i < |text[1..]| ==> text[1..][i - 1] == text[i] && text[1..][i] == text[i + 1];
        assert forall i :: 0 < i < |text| ==> !(text[i - 1] == '?' && text[i] == '=');
      }
      EndMarkOf(text[1..], rest);
    }
  }

  lemma NoNul(s: string)
    requires '\0' !in s
    ensures CStr(s) == s
  {
    assert IndexOf(s, '\0') == |s|;
  }

  /** The bytes behind the character set of a word. */
  function Behind(enc: char, body: string, rest: string): string {
    [enc, '?'] + (body + "?=" + rest)
  }

  lemma TextParts(charset: string, enc: char, body: string, rest: string)
    requires !HasEnd(body)
    ensures TextAt(charset, Behind(enc, body, rest)) ==
            if enc == 'B' || enc == 'b' then Some(Word(ToUtf8(charset, Base64Text(body, [])), |body| + 4))
            else if enc == 'Q' || enc == 'q' then Some(Word(ToUtf8(charset, QText(body)), |body| + 4))
            else None
  {
    hide Base64Text, QText, ToUtf8, EndMark, TextAt;
    var text := body + "?=" + rest;
    EndMarkOf(body, rest);
    assert text[..|body|] == body && |text| > |body|;
    TextUnfold(charset, enc, text, |body|);
    assert Behind(enc, body, rest) == [enc, '?'] + text;
  }

  lemma TextUnfold(charset: string, enc: char, text: string, t: nat)
    requires t == EndMark(text) && t < |text|
    ensures TextAt(charset, [enc, '?'] + text) ==
            if enc == 'B' || enc == 'b' then Some(Word(ToUtf8(charset, Base64Text(text[..t], [])), t + 4))
            else if enc == 'Q' || enc == 'q' then Some(Word(ToUtf8(charset, QText(text[..t])), t + 4))
            else None
  {
    hide Base64Text, QText, ToUtf8, EndMark;
    assert ([enc, '?'] + text)[2..] == text;
  }

  lemma WordStep(s: string, e: nat)
    requires |s| >= 2 && s[0] == '=' && s[1] == '?' && e == IndexOf(s[2..], '?') && 0 < e < |s[2..]|
    ensures var w := TextAt(s[2..][..e], s[2..][e + 1..]);
            WordAt(s) == if w.Some? then Some(Word(w.value.text, e + 3 + w.value.consumed)) else None
  {
    hide TextAt;
  }

  lemma WordBehind(charset: string, behind: string)
    requires charset != "" && '?' !in charset
    ensures var w := TextAt(charset, behind);
            WordAt("=?" + (charset + "?" + behind)) ==
            if w.Some? then Some(Word(w.value.text, |charset| + 3 + w.value.consumed)) else None
  {
    hide TextAt, IndexOf, WordAt;
    var c := charset + ['?'] + behind;
    var s := "=?" + c;
    IndexOfAppend(charset, '?', behind);
    assert s[2..] == c;
    WordStep(s, |charset|);
    assert c[|charset| + 1..] == behind;
    assert c[..|charset|] == charset;
  }

  /** The parts of a word are found again. */
  lemma WordParts(charset: string, enc: char, body: string, rest: string)
    requires charset != "" && '?' !in charset && !HasEnd(body)
    ensures var w := WordAt("=?" + (charset + "?" + Behind(enc, body, rest)));
            && (enc == 'B' || enc == 'b' ==>
                  w == Some(Word(ToUtf8(charset, Base64Text(body, [])), |charset| + |body| + 7)))
            && (enc == 'Q' || enc == 'q' ==> w == Some(Word(ToUtf8(charset, QText(body)), |charset| + |body| + 7)))
  {
    hide *;
    TextParts(charset, enc, body, rest);
    WordBehind(charset, Behind(enc, body, rest));
  }

  /** An encoded-word at the start of `s`, by its parts. */
  predicate IsWord(s: string, charset: string, enc: char, body: string, rest: string) {
    && charset != "" && '?' !in charset && enc in "BbQq" && !HasEnd(body)
    && s == "=?" + (charset + "?" + Behind(enc, body, rest))
  }

  lemma {:induction false} EndMarkIs(s: string)
    ensures var n := EndMark(s); n < |s| ==> s[n] == '?' && s[n + 1] == '='
    ensures !HasEnd(s[..EndMark(s)])
  {
    if |s| >= 2 && !(s[0] == '?' && s[1] == '=') {
      EndMarkIs(s[1..]);
      var head, tail := s[..EndMark(s)], s[1..][..EndMark(s[1..])];
      forall i | 0 < i < |head| ensures !(head[i - 1] == '?' && head[i] == '=') {
        assert i > 1 ==> tail[i - 2] == head[i - 1] && tail[i - 1] == head[i];
      }
    }
  }

  /** The decoder takes a word exactly where there is one: a character set, one of the
      letters B, b, Q and q, and a text up to the first "?=". */
  lemma WordIff(s: string)
    ensures WordAt(s).Some? <==> exists charset, enc, body, rest :: IsWord(s, charset, enc, body, rest)
  {
    if WordAt(s).Some? {
      var charset, enc, body, rest := PartsOf(s);
    }
    forall charset, enc, body, rest | IsWord(s, charset, enc, body, rest) ensures WordAt(s).Some? {
      WordParts(charset, enc, body, rest);
    }
  }

  lemma PartsOf(s: string) returns (charset: string, enc: char, body: string, rest: string)
    requires WordAt(s).Some?
    ensures IsWord(s, charset, enc, body, rest)
  {
    hide TextAt, HasEnd, IndexOf, Behind;
    var e := IndexOf(s[2..], '?');
    charset := s[2..][..e];
    enc, body, rest := PartsBehind(charset, s[2..][e + 1..]);
    assert s[2..] == charset + "?" + s[2..][e + 1..];
    assert s == "=?" + s[2..];
  }

  lemma PartsBehind(charset: string, behind: string) returns (enc: char, body: string, rest: string)
    requires TextAt(charset, behind).Some?
    ensures enc in "BbQq" && !HasEnd(body) && behind == Behind(enc, body, rest)
  {
    hide Base64Text, QText, ToUtf8, EndMark, HasEnd;
    var text := behind[2..];
    var t := EndMark(text);
    EndMarkIs(text);
    enc, body, rest := behind[0], text[..t], text[t + 2..];
    assert text == body + "?=" + rest;
    assert behind == [enc, '?'] + text;
  }

  lemma WordShape(charset: string, enc: string, body: string, rest: string)
    requires |enc| == 1
    ensures "=?" + charset + "?" + enc + "?" + body + "?=" + rest == "=?" + (charset + "?" + Behind(enc[0], body, rest))
    ensures |"=?" + charset + "?" + enc + "?" + body + "?="| == |charset| + |body| + 7
  {
  }

  function WordText(it: Item): string
    requires !it.Plain?
  {
    if IsLatin1(it.charset) then Latin1(it.text) else it.text
  }

  lemma WordRead(it: Item, rest: string)
    requires GoodItem(it) && !it.Plain?
    ensures WordAt(Printed(it) + rest) == Some(Word(WordText(it), |Printed(it)|))
    ensures Printed(it) != "" && Printed(it)[0] == '='
  {
    hide Base64Text, QText, WordAt, Base64Of, QOf, IsLatin1, Latin1, CStr;
    NoNul(it.text);
    var enc, body;
    match it {
      case BWord(c, lower, t) =>
        Base64RoundTrip(t);
        Base64NoMark(t);
        enc, body := if lower then "b" else "B", Base64Of(t);
      case QWord(c, lower, t, styles) =>
        QRoundTrip(t, styles);
        enc, body := if lower then "q" else "Q", QOf(t, styles);
    }
    WordParts(it.charset, enc[0], body, rest);
    WordShape(it.charset, enc, body, rest);
    assert ToUtf8(it.charset, it.text) == WordText(it);
  }

  lemma NoWordInPlain(t: string, rest: string)
    requires t != "" && !HasMark(t) && (rest == "" || rest[0] == '=')
    ensures WordAt(t + rest) == None
  {
    var s := t + rest;
    if |t| >= 2 {
      assert !(t[1 - 1] == '=' && t[1] == '?');
    }
  }

  lemma MarkInRest(t: string, k: nat)
    requires !HasMark(t) && k <= |t|
    ensures !HasMark(t[k..])
  {
    var u := t[k..];
    forall i | 0 < i < |u| ensures !(u[i - 1] == '=' && u[i] == '?') {
      assert u[i - 1] == t[k + i - 1] && u[i] == t[k + i];
    }
  }

  lemma DecodedStep(p: string, after: bool)
    requires p != "" && WordAt(p).None?
    ensures !IsSpace(p[0]) ==> Decoded(p, after) == [p[0]] + Decoded(p[1..], false)
    ensures IsSpace(p[0]) ==>
              var q := SpaceRun(p);
              Decoded(p, after) ==
              if after && WordAt(p[q..]).Some? then Decoded(p[q..], after) else p[..q] + Decoded(p[q..], false)
  {
    hide WordAt;
  }

  /** Plain text is kept, but white space between two words is dropped. */
  lemma {:induction false} PlainRead(t: string, rest: string, after: bool)
    requires t != "" && !HasMark(t) && (rest == "" || (rest[0] == '=' && WordAt(rest).Some?))
    ensures Decoded(t + rest, after) ==
            if after && AllSpace(t) && rest != "" then Decoded(rest, true) else t + Decoded(rest, false)
    decreases |t|
  {
    hide WordAt, HasMark, Decoded, SpaceRun, AllSpace;
    NoWordInPlain(t, rest);
    SpaceRunStarts(t);
    PlainStep(t, rest, after);
    var r := if IsSpace(t[0]) then SpaceRun(t) else 1;
    if r < |t| {
      MarkInRest(t, r);
      NoWordInPlain(t[r..], rest);
      PlainRead(t[r..], rest, false);
      Cut(t, r, Decoded(rest, false));
    } else {
      assert t[r..] + rest == rest && t[..r] == t;
      EmptyIsNoWord();
    }
  }

  lemma Cut(t: string, r: nat, rest: string)
    requires r <= |t|
    ensures t[..r] + (t[r..] + rest) == t + rest
  {
  }

  lemma SplitInFront(t: string, rest: string, r: nat)
    requires r <= |t|
    ensures (t + rest)[r..] == t[r..] + rest && (t + rest)[..r] == t[..r] && (t != "" ==> (t + rest)[0] == t[0])
  {
  }

  /** The decoder's step at plain text: one run of white space, or one byte. */
  lemma PlainStep(t: string, rest: string, after: bool)
    requires t != "" && WordAt(t + rest).None? && (rest == "" || rest[0] == '=')
    ensures var r := if IsSpace(t[0]) then SpaceRun(t) else 1;
            Decoded(t + rest, after) ==
            if IsSpace(t[0]) && after && WordAt(t[r..] + rest).Some? then Decoded(t[r..] + rest, after)
            else t[..r] + Decoded(t[r..] + rest, false)
  {
    hide WordAt, Decoded, SpaceRun;
    var s, r := t + rest, if IsSpace(t[0]) then SpaceRun(t) else 1;
    SplitInFront(t, rest, r);
    SpaceRunOf(t, rest);
    DecodedStep(s, after);
  }

  lemma SpaceRunStarts(t: string)
    requires t != ""
    ensures IsSpace(t[0]) ==> SpaceRun(t) > 0 && (AllSpace(t) <==> SpaceRun(t) == |t|)
    ensures !IsSpace(t[0]) ==> !AllSpace(t)
  {
  }

  lemma EmptyIsNoWord()
    ensures WordAt("") == None
  {
  }

  lemma SourceStarts(items: seq<Item>)
    requires GoodItems(items) && items != [] && !items[0].Plain?
    ensures var s := Source(items);
            s != "" && s[0] == '=' && WordAt(s) == Some(Word(WordText(items[0]), |Printed(items[0])|))
  {
    hide WordAt, Printed, GoodItem;
    WordRead(items[0], Source(items[1..]));
  }

  /** For every header made of plain text and encoded-words, in any encoding style and
      with any white space between words, the decoder gives its meaning. */
  lemma {:induction false} DecodedIsMeaning(items: seq<Item>, after: bool)
    requires GoodItems(items)
    ensures Decoded(Source(items), after) == Meaning(items, after)
    decreases |items|
  {
    hide WordAt, Printed, Latin1, HasMark, IsLatin1, Decoded;
    if items == [] {
      NothingDecoded(after);
    } else {
      var it, more := items[0], items[1..];
      assert GoodItems(more);
      assert forall i :: 0 <= i < |more| ==> more[i] == items[i + 1];
      if it.Plain? {
        if more != [] {
          assert !items[1].Plain?;
          SourceStarts(more);
        }
        PrintedPlain(it);
        PlainRead(it.text, Source(more), after);
        DecodedIsMeaning(more, true);
        DecodedIsMeaning(more, false);
      } else {
        SourceStarts(items);
        WordDecoded(Source(items), after);
        assert Source(items)[|Printed(it)|..] == Source(more);
        DecodedIsMeaning(more, true);
      }
    }
  }

  lemma NothingDecoded(after: bool)
    ensures Decoded("", after) == ""
  {
  }

  lemma PrintedPlain(it: Item)
    requires GoodItem(it) && it.Plain?
    ensures Printed(it) == it.text && it.text != "" && !HasMark(it.text)
  {
  }

  lemma WordDecoded(p: string, after: bool)
    requires WordAt(p).Some?
    ensures Decoded(p, after) == WordAt(p).value.text + Decoded(p[WordAt(p).value.consumed..], true)
  {
    hide WordAt;
  }

  /** Text in which no encoded-word begins comes back unchanged, broken words and all ... */
  lemma {:induction false} NoWordUnchanged(t: string, after: bool)
    requires forall k :: 0 <= k <= |t| ==> WordAt(t[k..]).None?
    ensures Decoded(t, after) == t
    decreases |t|
  {
    hide Decoded, WordAt, SpaceRun;
    if t == "" {
      NothingDecoded(after);
    } else {
      assert t[0..] == t;
      SpaceRunStarts(t);
      DecodedStep(t, after);
      var r := if IsSpace(t[0]) then SpaceRun(t) else 1;
      assert forall k :: 0 <= k <= |t| - r ==> t[r..][k..] == t[r + k..];
      NoWordUnchanged(t[r..], false);
      assert t[..r] + t[r..] == t;
    }
  }

  /** ... such as text without "=?". */
  lemma PlainUnchanged(t: string)
    requires !HasMark(t)
    ensures Decoded(t, false) == t
  {
    hide Decoded, HasMark, WordAt;
    EmptyIsNoWord();
    forall k | 0 <= k <= |t| ensures WordAt(t[k..]).None? {
      MarkInRest(t, k);
      if k < |t| {
        NoWordInPlain(t[k..], "");
        assert t[k..] + "" == t[k..];
      }
    }
    NoWordUnchanged(t, false);
  }

  /** The texts of all words of a header, put together. */
  function Texts(items: seq<Item>): string {
    if items == [] then ""
    else (if items[0].Plain? then "" else WordText(items[0])) + Texts(items[1..])
  }

  predicate OnlyWords(items: seq<Item>) {
    && (forall i :: 0 <= i < |items| && items[i].Plain? ==> AllSpace(items[i].text))
    && (items != [] ==> !items[|items| - 1].Plain?)
  }

  lemma {:induction false} MeaningOfWords(items: seq<Item>)
    requires OnlyWords(items)
    ensures Meaning(items, true) == Texts(items)
  {
    hide IsLatin1, AllSpace;
    if items != [] {
      var more := items[1..];
      assert forall i :: 0 <= i < |more| ==> more[i] == items[i + 1];
      assert |items| > 1 ==> more[|more| - 1] == items[|items| - 1];
      assert items[0].Plain? ==> |items| > 1;
      MeaningOfWords(more);
    }
  }

  /** Encoded-words separated by any white space, or none, give their texts joined. */
  lemma WordsJoined(items: seq<Item>)
    requires GoodItems(items) && items != [] && !items[0].Plain? && OnlyWords(items)
    ensures Decoded(Source(items), false) == Texts(items)
  {
    hide Decoded, Source, GoodItems, IsLatin1, OnlyWords;
    DecodedIsMeaning(items, false);
    MeaningOfWords(items);
  }
}
