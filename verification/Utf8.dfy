/** Cutting UTF-8 text without leaving half a character: write_fixed_field() does it by
    looking at the byte behind the cut, utf8_safe_end() by looking at the last character
    before it. On the byte sequences of RFC 3629, section 4, both cut at the same place. */
module Utf8 {

  predicate IsTail(c: char) {
    0x80 <= c as int < 0xC0
  }

  predicate Tails(s: string, n: nat) {
    n <= |s| && forall i :: 1 <= i < n ==> IsTail(s[i])
  }

  /** The length of the character that `s` starts with, 0 when there is none. */
  function CharLen(s: string): (n: nat)
    ensures n <= |s| && (n > 0 ==> !IsTail(s[0]) && Tails(s, n))
  {
    if s == "" then 0
    else
      var lead := s[0] as int;
      if lead < 0x80 then 1
      else if 0xC2 <= lead <= 0xDF && Tails(s, 2) then 2
      else if 0xE0 <= lead <= 0xEF && Tails(s, 3) && SecondFits(lead, s[1] as int) then 3
      else if 0xF0 <= lead <= 0xF4 && Tails(s, 4) && SecondFits(lead, s[1] as int) then 4
      else 0
  }

  /** No overlong forms, no surrogates, nothing above U+10FFFF. */
  predicate SecondFits(lead: int, second: int) {
    && (lead == 0xE0 ==> second >= 0xA0) && (lead == 0xED ==> second < 0xA0)
    && (lead == 0xF0 ==> second >= 0x90) && (lead == 0xF4 ==> second < 0x90)
  }

  // ---------- Which sequences are characters ----------

  /** What Unicode calls a scalar value. */
  predicate Scalar(n: nat) {
    n < 0xD800 || 0xE000 <= n < 0x11_0000
  }

  /** Its UTF-8 form, by the table in section 3 of RFC 3629. */
  function Encoded(n: nat): (s: string)
    requires Scalar(n)
    ensures |s| > 0
  {
    if n < 0x80 then [n as char]
    else if n < 0x800 then [(0xC0 + n / 64) as char, (0x80 + n % 64) as char]
    else if n < 0x1_0000 then [(0xE0 + n / 4096) as char, (0x80 + n / 64 % 64) as char, (0x80 + n % 64) as char]
    else [(0xF0 + n / 262144) as char, (0x80 + n / 4096 % 64) as char, (0x80 + n / 64 % 64) as char,
          (0x80 + n % 64) as char]
  }

  lemma EncodedIsChar(n: nat, rest: string)
    requires Scalar(n)
    ensures CharLen(Encoded(n) + rest) == |Encoded(n)|
  {
    EncodedFits(n);
    hide SecondFits, Encoded;
    var e := Encoded(n);
    var s := e + rest;
    assert forall i :: 0 <= i < |e| ==> s[i] == e[i];
  }

  lemma EncodedFits(n: nat)
    requires Scalar(n)
    ensures var e := Encoded(n);
            var lead := e[0] as int;
            && (|e| == 1 ==> lead < 0x80) && (|e| == 2 ==> 0xC2 <= lead <= 0xDF)
            && (|e| == 3 ==> 0xE0 <= lead <= 0xEF && SecondFits(lead, e[1] as int))
            && (|e| == 4 ==> 0xF0 <= lead <= 0xF4 && SecondFits(lead, e[1] as int))
            && 1 <= |e| <= 4 && forall i :: 1 <= i < |e| ==> IsTail(e[i])
  {
    if n >= 0x1_0000 {
      assert n / 4096 / 64 == n / 262144;
    }
  }

  function Six(c: char): nat
    requires IsTail(c)
  {
    c as int - 0x80
  }

  /** A character is the encoding of a scalar value, and nothing else is one. */
  lemma CharIsScalar(s: string) returns (n: nat)
    requires CharLen(s) > 0
    ensures Scalar(n) && s[..CharLen(s)] == Encoded(n)
  {
    var lead, k := s[0] as int, CharLen(s);
    if k == 1 {
      n := lead;
    } else if k == 2 {
      n := (lead - 0xC0) * 64 + Six(s[1]);
      SixMore(lead - 0xC0, Six(s[1]));
    } else if k == 3 {
      n := ThreeBytes(s);
    } else {
      n := FourBytes(s);
    }
  }

  lemma ThreeBytes(s: string) returns (n: nat)
    requires CharLen(s) == 3
    ensures Scalar(n) && s[..3] == Encoded(n)
  {
    var a, b, c := s[0] as int - 0xE0, Six(s[1]), Six(s[2]);
    n := (a * 64 + b) * 64 + c;
    ThreeSixes(a, b, c);
    assert Encoded(n) == [s[0], s[1], s[2]];
  }

  lemma FourBytes(s: string) returns (n: nat)
    requires CharLen(s) == 4
    ensures Scalar(n) && s[..4] == Encoded(n)
  {
    var a, b, c, d := s[0] as int - 0xF0, Six(s[1]), Six(s[2]), Six(s[3]);
    n := ((a * 64 + b) * 64 + c) * 64 + d;
    FourSixes(a, b, c, d);
    assert Encoded(n) == [s[0], s[1], s[2], s[3]];
  }

  lemma SixMore(m: nat, d: nat)
    requires d < 64
    ensures (m * 64 + d) / 64 == m && (m * 64 + d) % 64 == d
  {
  }

  lemma ThreeSixes(a: nat, b: nat, c: nat)
    requires b < 64 && c < 64
    ensures var n := (a * 64 + b) * 64 + c; n / 4096 == a && n / 64 % 64 == b && n % 64 == c
  {
    SixMore(a, b);
    SixMore(a * 64 + b, c);
  }

  lemma FourSixes(a: nat, b: nat, c: nat, d: nat)
    requires b < 64 && c < 64 && d < 64
    ensures var n := ((a * 64 + b) * 64 + c) * 64 + d;
            n / 262144 == a && n / 4096 % 64 == b && n / 64 % 64 == c && n % 64 == d
  {
    var m := (a * 64 + b) * 64 + c;
    ThreeSixes(a, b, c);
    SixMore(m, d);
    assert (m * 64 + d) / 4096 == m / 64 && (m * 64 + d) / 262144 == m / 4096;
  }

  predicate Valid(s: string)
    decreases |s|
  {
    s == "" || (CharLen(s) > 0 && Valid(s[CharLen(s)..]))
  }

  /** The longest run of whole characters of `s` within `n` bytes. */
  function Whole(s: string, n: nat): (w: nat)
    requires Valid(s)
    ensures w <= n && w <= |s| && Valid(s[..w])
    ensures n >= |s| ==> w == |s|
    decreases |s|
  {
    if s == "" || CharLen(s) > n then 0
    else
      var c := CharLen(s);
      var w := c + Whole(s[c..], n - c);
      assert s[..w][c..] == s[c..][..w - c];
      SamePrefix(s, w);
      w
  }

  lemma SamePrefix(s: string, w: nat)
    requires CharLen(s) <= w <= |s|
    ensures CharLen(s) > 0 ==> CharLen(s[..w]) == CharLen(s)
  {
    var t := s[..w];
    assert forall i :: 0 <= i < w ==> t[i] == s[i];
  }

  /** It is the longest: no valid prefix within `n` bytes is longer. */
  lemma {:induction false} WholeIsLongest(s: string, n: nat, w: nat)
    requires Valid(s) && w <= n && w <= |s| && Valid(s[..w])
    ensures w <= Whole(s, n)
    decreases |s|
  {
    hide CharLen;
    if w > 0 {
      var c := CharLen(s[..w]);
      CharOfPrefix(s, w);
      assert s[..w][c..] == s[c..][..w - c];
      WholeIsLongest(s[c..], n - c, w - c);
    }
  }

  lemma CharOfPrefix(s: string, w: nat)
    requires w <= |s| && CharLen(s[..w]) > 0
    ensures CharLen(s) == CharLen(s[..w])
  {
    var t := s[..w];
    assert forall i :: 0 <= i < w ==> t[i] == s[i];
  }

  // ---------- write_fixed_field() ----------

  /** Back from `n` over tail bytes. */
  function CutBack(s: string, n: nat): (k: nat)
    requires n < |s|
    ensures k <= n
  {
    if n > 0 && IsTail(s[n]) then CutBack(s, n - 1) else n
  }

  function FieldLen(src: string, len: nat): (n: nat)
    requires len > 0
    ensures n <= |src| && n < len
  {
    if |src| >= len then CutBack(src, len - 1) else |src|
  }

  /** The field as it stands in the header: the text, then NULs. */
  function Field(src: string, len: nat): (f: string)
    requires len > 0
    ensures |f| == len
  {
    src[..FieldLen(src, len)] + seq(len - FieldLen(src, len), _ => '\0')
  }

  lemma FieldAt(src: string, len: nat, k: nat)
    requires k < len
    ensures Field(src, len)[k] == if k < FieldLen(src, len) then src[k] else '\0'
  {
  }

  method WriteFixedField(dst: array<char>, at: nat, len: nat, src: string)
    requires len > 0 && at + len <= dst.Length
    modifies dst
    ensures dst[at..at + len] == Field(src, len)
    ensures dst[..at] == old(dst[..at]) && dst[at + len..] == old(dst[at + len..])
  {
    var n := |src|;
    if n >= len {
      n := len - 1;
      while n > 0 && IsTail(src[n])
        invariant 0 <= n < len
        invariant CutBack(src, n) == CutBack(src, len - 1)
      {
        n := n - 1;
      }
    }
    var i := 0;
    while i < len
      invariant 0 <= i <= len
      invariant forall j :: at <= j < at + i ==> dst[j] == if j - at < n then src[j - at] else '\0'
      invariant dst[..at] == old(dst[..at]) && dst[at + len..] == old(dst[at + len..])
    {
      dst[at + i] := if i < n then src[i] else '\0';
      i := i + 1;
    }
    assert n == FieldLen(src, len);
    forall k | 0 <= k < len ensures dst[at..at + len][k] == Field(src, len)[k] {
      assert dst[at..at + len][k] == dst[at + k];
      FieldAt(src, len, k);
    }
  }

  lemma {:induction false} CutBackIsWhole(s: string, n: nat)
    requires Valid(s) && n < |s|
    ensures CutBack(s, n) == Whole(s, n)
    decreases |s|
  {
    hide CharLen, CutBack;
    var c := CharLen(s);
    if n < c {
      CutBackToStart(s, n);
    } else {
      assert s[c..][0] == s[c];
      CutBackShift(s, c, n);
      CutBackIsWhole(s[c..], n - c);
    }
  }

  lemma {:induction false} CutBackToStart(s: string, n: nat)
    requires Tails(s, n + 1)
    ensures CutBack(s, n) == 0
  {
    if n > 0 {
      CutBackToStart(s, n - 1);
    }
  }

  /** A character start stops the way back. */
  lemma {:induction false} CutBackShift(s: string, c: nat, n: nat)
    requires c <= n < |s| && !IsTail(s[c])
    ensures CutBack(s, n) == c + CutBack(s[c..], n - c)
  {
    if n > c && IsTail(s[n]) {
      CutBackShift(s, c, n - 1);
    }
  }

  // ---------- utf8_safe_end() ----------

  /** How many bytes the lead byte asks for, 0 for a byte that is none. */
  function Expected(lead: char): nat {
    var c := lead as int;
    if c < 0x80 then 1 else if 0xC0 <= c < 0xE0 then 2 else if 0xE0 <= c < 0xF0 then 3
    else if 0xF0 <= c < 0xF8 then 4 else 0
  }

  function SafeEnd(s: string): (end: nat)
    ensures end <= |s|
  {
    if s == "" then 0
    else
      var start := CutBack(s, |s| - 1);
      var expected := Expected(s[start]);
      if expected == 0 || |s| - start < expected then start else |s|
  }

  /** Cuts its argument where the result says. */
  method Utf8SafeEnd(s: string) returns (t: string)
    ensures t == s[..SafeEnd(s)]
  {
    t := s;
    if |s| == 0 {
      return;
    }
    var start := |s| - 1;
    while start > 0 && IsTail(s[start])
      invariant 0 <= start < |s|
      invariant CutBack(s, start) == CutBack(s, |s| - 1)
    {
      start := start - 1;
    }
    var lead := s[start] as int;
    var expected;
    if lead < 0x80 {
      expected := 1;
    } else if 0xC0 <= lead < 0xE0 {
      expected := 2;
    } else if 0xE0 <= lead < 0xF0 {
      expected := 3;
    } else if 0xF0 <= lead < 0xF8 {
      expected := 4;
    } else {
      t := s[..start];
      return;
    }
    if |s| - start < expected {
      t := s[..start];
    }
  }

  /** Whatever the bytes in front: the last lead byte stays with its tail bytes when they
      are as many as it asks for, or more, and goes with them otherwise. */
  lemma SafeEndIff(head: string, lead: char, tails: string)
    requires !(0x80 <= lead as int <= 0xBF) && forall i :: 0 <= i < |tails| ==> 0x80 <= tails[i] as int <= 0xBF
    ensures SafeEnd(head + [lead] + tails) ==
            if lead as int <= 0x7F || (0xC0 <= lead as int <= 0xDF && |tails| >= 1) ||
               (0xE0 <= lead as int <= 0xEF && |tails| >= 2) || (0xF0 <= lead as int <= 0xF7 && |tails| >= 3)
            then |head + [lead] + tails| else |head|
  {
    var s := head + [lead] + tails;
    assert s[|head|..] == [lead] + tails && s[|head|] == lead;
    CutBackShift(s, |head|, |s| - 1);
    assert forall i :: 1 <= i < |[lead] + tails| ==> ([lead] + tails)[i] == tails[i - 1];
    CutBackToStart([lead] + tails, |tails|);
  }

  lemma {:induction false} SafeEndIsWhole(s: string, n: nat)
    requires Valid(s) && n <= |s|
    ensures SafeEnd(s[..n]) == Whole(s, n)
    decreases |s|
  {
    hide CharLen, SafeEnd;
    if n > 0 {
      var c := CharLen(s);
      if n <= c {
        SafeEndInFirst(s, n);
        assert n == c ==> Whole(s[c..], 0) == 0;
      } else {
        SafeEndShift(s, n);
        SafeEndIsWhole(s[c..], n - c);
      }
    } else {
      SafeEndOfEmpty(s[..n]);
    }
  }

  lemma SafeEndOfEmpty(s: string)
    requires s == ""
    ensures SafeEnd(s) == 0
  {
  }

  lemma SafeEndInFirst(s: string, n: nat)
    requires 0 < n <= CharLen(s)
    ensures SafeEnd(s[..n]) == if n == CharLen(s) then n else 0
  {
    hide CharLen;
    assert forall i :: 0 <= i < n ==> s[..n][i] == s[i];
    CutBackToStart(s[..n], n - 1);
    FirstCharExpects(s);
  }

  lemma SafeEndShift(s: string, n: nat)
    requires 0 < CharLen(s) < n <= |s| && !IsTail(s[CharLen(s)])
    ensures SafeEnd(s[..n]) == CharLen(s) + SafeEnd(s[CharLen(s)..][..n - CharLen(s)])
  {
    hide CharLen;
    var t, c := s[..n], CharLen(s);
    assert t[c..] == s[c..][..n - c];
    CutBackShift(t, c, n - 1);
  }

  lemma FirstCharExpects(s: string)
    requires CharLen(s) > 0
    ensures Expected(s[0]) == CharLen(s)
  {
  }

  /** Header fields and oneliner texts are cut alike: on valid UTF-8 both keep the longest
      run of whole characters that fits into `len` bytes with a NUL. */
  lemma SameCut(s: string, len: nat)
    requires Valid(s) && len > 0
    ensures FieldLen(s, len) == Whole(s, len - 1)
    ensures SafeEnd(if |s| >= len then s[..len - 1] else s) == Whole(s, len - 1)
  {
    hide Valid, Whole, SafeEnd;
    if |s| >= len {
      CutBackIsWhole(s, len - 1);
      SafeEndIsWhole(s, len - 1);
    } else {
      assert s[..|s|] == s;
      SafeEndIsWhole(s, |s|);
    }
  }
}
