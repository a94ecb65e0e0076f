/** The C string idioms the program is built on, as functions on `string`.
    A character stands for one byte; a C string is a `string` without '\0'. */
module CText {
  datatype Option<T> = None | Some(value: T)

  /** The byte that starts a control line of an FTN message. */
  const SOH := 1 as char

  predicate IsDigit(c: char) {
    '0' <= c <= '9'
  }

  predicate IsBlank(c: char) {
    c == ' ' || c == '\t'
  }

  /** isspace() in the C locale. */
  predicate IsSpace(c: char) {
    IsBlank(c) || c == '\n' || c == '\r' || c as int == 11 || c as int == 12
  }

  predicate AllDigits(s: string) {
    forall i :: 0 <= i < |s| ==> IsDigit(s[i])
  }

  function DigitChar(d: nat): char
    requires d < 10
  {
    ('0' as int + d) as char
  }

  function DigitValue(c: char): nat
    requires IsDigit(c)
  {
    c as int - '0' as int
  }

  /** printf("%ld") of a non-negative number. */
  function Decimal(n: nat): (s: string)
    ensures |s| > 0 && AllDigits(s)
  {
    if n < 10 then [DigitChar(n)] else Decimal(n / 10) + [DigitChar(n % 10)]
  }

  /** printf("%ld"). */
  function Signed(n: int): (s: string)
    ensures |s| > 0 && forall i :: 0 <= i < |s| ==> IsDigit(s[i]) || s[i] == '-'
  {
    if n < 0 then "-" + Decimal(-n) else Decimal(n)
  }

  function NatOf(s: string): nat
    requires AllDigits(s)
  {
    if s == "" then 0 else NatOf(s[..|s| - 1]) * 10 + DigitValue(s[|s| - 1])
  }

  /** How many digits `s` starts with. */
  function DigitRun(s: string): (n: nat)
    ensures n <= |s| && AllDigits(s[..n]) && (n < |s| ==> !IsDigit(s[n]))
  {
    if s == "" || !IsDigit(s[0]) then 0 else
      var n := 1 + DigitRun(s[1..]);
      assert s[..n] == [s[0]] + s[1..][..n - 1];
      n
  }

  function SpaceRun(s: string): (n: nat)
    ensures n <= |s| && (n < |s| ==> !IsSpace(s[n]))
    ensures forall i :: 0 <= i < n ==> IsSpace(s[i])
  {
    if s == "" || !IsSpace(s[0]) then 0 else 1 + SpaceRun(s[1..])
  }

  function LeftTrimmed(s: string): (r: string)
    ensures r == "" || !IsSpace(r[0])
  {
    s[SpaceRun(s)..]
  }

  lemma SpaceInFront(s: string)
    ensures SpaceRun(" " + s) == 1 + SpaceRun(s) && LeftTrimmed(" " + s) == LeftTrimmed(s)
  {
    var t := " " + s;
    assert t[1..] == s;
  }

  /** White space, then something that is no white space. */
  lemma {:induction false} SpaceRunOf(t: string, rest: string)
    requires rest == "" || !IsSpace(rest[0])
    ensures SpaceRun(t + rest) == SpaceRun(t)
  {
    if t == "" {
      assert t + rest == rest;
    } else {
      assert (t + rest)[1..] == t[1..] + rest;
      SpaceRunOf(t[1..], rest);
    }
  }

  /** The blank, and the characters from tab to carriage return. */
  lemma SpaceIff(c: char)
    ensures IsSpace(c) <==> c == ' ' || 9 <= c as int <= 13
  {
  }

  /** Where the digits of a strtol() conversion begin: white space, one sign. */
  function NumberStart(s: string): (n: nat)
    ensures n <= |s|
  {
    var w := SpaceRun(s);
    if w < |s| && (s[w] == '-' || s[w] == '+') then w + 1 else w
  }

  /** How many characters strtol(s, &end, 10) consumes; 0 when it converts nothing. */
  function StrtolLen(s: string): (n: nat)
    ensures n <= |s|
  {
    var b := NumberStart(s);
    var d := DigitRun(s[b..]);
    if d == 0 then 0 else b + d
  }

  /** The value of strtol(s, &end, 10) (and of atol), on unbounded integers. */
  function Strtol(s: string): int {
    var b := NumberStart(s);
    var v: int := NatOf(s[b..][..DigitRun(s[b..])]);
    if b > 0 && s[b - 1] == '-' then -v else v
  }

  lemma {:induction false} DecimalValue(n: nat)
    ensures NatOf(Decimal(n)) == n
  {
    if n >= 10 {
      DecimalValue(n / 10);
      var s := Decimal(n);
      assert s[..|s| - 1] == Decimal(n / 10);
    }
  }

  function Pow10(k: nat): nat {
    if k == 0 then 1 else 10 * Pow10(k - 1)
  }

  /** A number below 10^k has at most `k` digits. */
  lemma {:induction false} DecimalShort(n: nat, k: nat)
    requires k > 0 && n < Pow10(k)
    ensures |Decimal(n)| <= k
  {
    if n >= 10 {
      DecimalShort(n / 10, k - 1);
    }
  }

  lemma {:induction false} DigitRunOf(digits: string, rest: string)
    requires AllDigits(digits) && (rest == "" || !IsDigit(rest[0]))
    ensures DigitRun(digits + rest) == |digits|
  {
    if digits == "" {
      assert digits + rest == rest;
    } else {
      assert (digits + rest)[1..] == digits[1..] + rest;
      DigitRunOf(digits[1..], rest);
    }
  }

  predicate AllSpace(s: string) {
    forall i :: 0 <= i < |s| ==> IsSpace(s[i])
  }

  lemma NumberStartOf(spaces: string, sign: string, more: string)
    requires AllSpace(spaces) && sign in {"", "+", "-"}
    requires sign == "" && more != "" ==> !IsSpace(more[0]) && more[0] != '+' && more[0] != '-'
    ensures var s, b := spaces + sign + more, |spaces + sign|;
            NumberStart(s) == b && s[b..] == more && (b > 0 && s[b - 1] == '-' <==> sign == "-")
  {
    hide SpaceRun, IsSpace;
    var s, b := spaces + sign + more, |spaces + sign|;
    assert s == spaces + (sign + more);
    SpaceIff('+');
    SpaceIff('-');
    SpaceRunOf(spaces, sign + more);
    AllSpaceRun(spaces);
    assert b > 0 ==> s[b - 1] == (spaces + sign)[b - 1];
    assert sign + more != "" ==> s[|spaces|] == (sign + more)[0];
    assert sign == "" && b > 0 ==> IsSpace(s[b - 1]);
  }

  /** Every text begins with some white space, a sign or none, and some digits. */
  lemma NumberParts(s: string) returns (spaces: string, sign: string, digits: string, rest: string)
    ensures s == spaces + sign + (digits + rest)
    ensures AllSpace(spaces) && sign in {"", "+", "-"} && AllDigits(digits) && (rest == "" || !IsDigit(rest[0]))
    ensures sign + digits == "" && rest != "" ==> !IsSpace(rest[0]) && rest[0] != '+' && rest[0] != '-'
  {
    hide SpaceRun, DigitRun, IsSpace, IsDigit, AllDigits;
    var w := SpaceRun(s);
    var b := if w < |s| && (s[w] == '-' || s[w] == '+') then w + 1 else w;
    var d := DigitRun(s[b..]);
    spaces, sign, digits, rest := s[..w], s[w..b], s[b..][..d], s[b..][d..];
    assert sign == if b == w then "" else [s[w]];
    assert s[b..] == digits + rest && s == spaces + sign + s[b..];
    assert rest != "" ==> rest[0] == s[b + d];
  }

  /** White space, a sign or none, and digits are converted, whatever follows them; without
      digits nothing is, and the value is 0. */
  lemma StrtolOf(spaces: string, sign: string, digits: string, rest: string)
    requires AllSpace(spaces) && sign in {"", "+", "-"} && AllDigits(digits) && (rest == "" || !IsDigit(rest[0]))
    requires sign + digits == "" && rest != "" ==> !IsSpace(rest[0]) && rest[0] != '+' && rest[0] != '-'
    ensures var s, value: int := spaces + sign + (digits + rest), NatOf(digits);
            && StrtolLen(s) == (if digits == "" then 0 else |spaces + sign + digits|)
            && Strtol(s) == if sign == "-" then -value else value
  {
    DigitIsNoSpace(digits);
    hide *;
    var s, b := spaces + sign + (digits + rest), |spaces + sign|;
    assert digits + rest != "" ==> (digits + rest)[0] == if digits != "" then digits[0] else rest[0];
    NumberStartOf(spaces, sign, digits + rest);
    StrtolAt(s, b, digits, rest);
  }

  lemma DigitIsNoSpace(digits: string)
    requires AllDigits(digits)
    ensures digits != "" ==> !IsSpace(digits[0]) && digits[0] != '+' && digits[0] != '-'
  {
    assert digits != "" ==> IsDigit(digits[0]);
  }

  lemma StrtolAt(s: string, b: nat, digits: string, rest: string)
    requires NumberStart(s) == b && s[b..] == digits + rest && AllDigits(digits) && (rest == "" || !IsDigit(rest[0]))
    ensures StrtolLen(s) == if digits == "" then 0 else b + |digits|
    ensures var value: int := NatOf(digits); Strtol(s) == if b > 0 && s[b - 1] == '-' then -value else value
  {
    hide NumberStart, DigitRun, NatOf;
    DigitRunOf(digits, rest);
    assert s[b..][..|digits|] == digits;
  }

  lemma {:induction false} AllSpaceRun(s: string)
    requires AllSpace(s)
    ensures SpaceRun(s) == |s|
  {
    if s != "" {
      AllSpaceRun(s[1..]);
    }
  }

  /** strtol() inverts "%ld" whatever non-digit follows the number. */
  lemma {:induction false} StrtolOfSigned(n: int, rest: string)
    requires rest == "" || !IsDigit(rest[0])
    ensures StrtolLen(Signed(n) + rest) == |Signed(n)|
    ensures Strtol(Signed(n) + rest) == n
  {
    var m := if n < 0 then -n else n;
    var s := Signed(n) + rest;
    var b := if n < 0 then 1 else 0;
    assert SpaceRun(s) == 0;
    assert NumberStart(s) == b;
    assert s[b..] == Decimal(m) + rest;
    DigitRunOf(Decimal(m), rest);
    assert s[b..][..DigitRun(s[b..])] == Decimal(m);
    DecimalValue(m);
  }

  /** strchr() as an index; the length of `s` when `c` does not occur. */
  function IndexOf(s: string, c: char): (n: nat)
    ensures n <= |s| && (n < |s| ==> s[n] == c)
    ensures c !in s[..n]
  {
    if s == "" || s[0] == c then 0 else
      var n := 1 + IndexOf(s[1..], c);
      assert s[..n] == [s[0]] + s[1..][..n - 1];
      n
  }

  lemma {:induction false} IndexOfAppend(head: string, c: char, rest: string)
    requires c !in head
    ensures IndexOf(head + [c] + rest, c) == |head|
  {
    if head == "" {
    } else {
      assert (head + [c] + rest)[1..] == head[1..] + [c] + rest;
      IndexOfAppend(head[1..], c, rest);
    }
  }

  function LowerChar(c: char): char {
    if 'A' <= c <= 'Z' then (c as int + 32) as char else c
  }

  /** What strcasecmp() compares. */
  function Lower(s: string): (t: string)
    ensures |t| == |s|
  {
    if s == "" then "" else [LowerChar(s[0])] + Lower(s[1..])
  }

  /** The same word, whatever letters are capitals. */
  predicate SameWord(a: string, b: string) {
    |a| == |b| && forall i :: 0 <= i < |a| ==> SameLetter(a[i], b[i])
  }

  predicate SameLetter(a: char, b: char) {
    a == b || ('A' <= a <= 'Z' && b as int == a as int + 32) || ('A' <= b <= 'Z' && a as int == b as int + 32)
  }

  lemma {:induction false} LowerIff(a: string, b: string)
    ensures Lower(a) == Lower(b) <==> SameWord(a, b)
  {
    if a != "" && b != "" {
      LowerIff(a[1..], b[1..]);
      assert Lower(a)[0] == LowerChar(a[0]) && Lower(a)[1..] == Lower(a[1..]);
      assert Lower(b)[0] == LowerChar(b[0]) && Lower(b)[1..] == Lower(b[1..]);
      assert LowerChar(a[0]) == LowerChar(b[0]) <==> SameLetter(a[0], b[0]);
      SameWordCons(a, b);
    }
  }

  lemma SameWordCons(a: string, b: string)
    requires a != "" && b != ""
    ensures SameWord(a, b) <==> SameLetter(a[0], b[0]) && SameWord(a[1..], b[1..])
  {
    hide SameLetter;
    if SameLetter(a[0], b[0]) && SameWord(a[1..], b[1..]) {
      forall i | 0 <= i < |a| ensures SameLetter(a[i], b[i]) {
        if i > 0 {
          assert SameLetter(a[1..][i - 1], b[1..][i - 1]);
        }
      }
    }
    if SameWord(a, b) {
      forall i | 0 <= i < |a[1..]| ensures SameLetter(a[1..][i], b[1..][i]) {
        assert SameLetter(a[i + 1], b[i + 1]);
      }
    }
  }

  lemma {:induction false} NoCapitals(s: string)
    requires forall i :: 0 <= i < |s| ==> !('A' <= s[i] <= 'Z')
    ensures Lower(s) == s
  {
    if s != "" {
      NoCapitals(s[1..]);
    }
  }

  lemma KeywordIs(word: string, keyword: string)
    requires forall i :: 0 <= i < |keyword| ==> !('A' <= keyword[i] <= 'Z')
    ensures Lower(word) == keyword <==> SameWord(word, keyword)
  {
    hide SameWord, Lower;
    NoCapitals(keyword);
    LowerIff(word, keyword);
  }

  /** The first position from `i` on that holds no blank. */
  function BlankEnd(s: string, i: nat): (n: nat)
    requires i <= |s|
    ensures i <= n <= |s| && (n < |s| ==> !IsBlank(s[n]))
    ensures forall k :: i <= k < n ==> IsBlank(s[k])
    decreases |s| - i
  {
    if i == |s| || !IsBlank(s[i]) then i else BlankEnd(s, i + 1)
  }

  method SkipBlanks(s: string, from: nat) returns (i: nat)
    requires from <= |s|
    ensures i == BlankEnd(s, from)
  {
    i := from;
    while i < |s| && IsBlank(s[i])
      invariant from <= i <= |s|
      invariant BlankEnd(s, i) == BlankEnd(s, from)
    {
      i := i + 1;
    }
  }

  /** The first line end at or after `from`. */
  function LineEnd(s: string, from: nat): (e: nat)
    requires from <= |s|
    ensures from <= e <= |s| && (e < |s| ==> s[e] == '\n')
    ensures forall k :: from <= k < e ==> s[k] != '\n'
    decreases |s| - from
  {
    if from == |s| || s[from] == '\n' then from else LineEnd(s, from + 1)
  }

  lemma {:induction false} LineEndIs(s: string, from: nat, e: nat)
    requires from <= e < |s| && s[e] == '\n' && forall k :: from <= k < e ==> s[k] != '\n'
    ensures LineEnd(s, from) == e
    decreases e - from
  {
    if from < e {
      LineEndIs(s, from + 1, e);
    }
  }

  /** No byte of it ends it early. */
  predicate CString(s: string) {
    '\0' !in s
  }

  predicate OneLine(s: string) {
    forall i :: 0 <= i < |s| ==> s[i] != '\n'
  }

  lemma ConcatAssociative(a: string, b: string, c: string)
    ensures a + (b + c) == (a + b) + c
  {
  }

  /** The first `n` bytes. */
  function Upto(s: string, n: nat): (t: string)
    ensures t <= s && |t| <= n
  {
    if |s| <= n then s else s[..n]
  }

  predicate EndsLine(s: string) {
    |s| > 0 && s[|s| - 1] == '\n'
  }
}
