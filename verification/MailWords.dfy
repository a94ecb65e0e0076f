/** The encoded-words of mail headers (RFC 2047): their two encodings, their character
    sets, and the decoder of one word, mail_decode_encoded_word_dup(). */
module MailWords {
  import opened CText

  predicate Bytes(s: string) {
    forall i :: 0 <= i < |s| ==> s[i] as int < 256
  }

  /** The C string that starts a buffer. */
  function CStr(s: string): string {
    s[..IndexOf(s, '\0')]
  }

  // ---------- Base64 (RFC 2045, section 6.8) ----------

  function B64Val(c: char): (v: int)
    ensures -1 <= v < 64
  {
    if 'A' <= c <= 'Z' then c as int - 'A' as int
    else if 'a' <= c <= 'z' then c as int - 'a' as int + 26
    else if '0' <= c <= '9' then c as int - '0' as int + 52
    else if c == '+' then 62
    else if c == '/' then 63
    else -1
  }

  function B64Char(v: nat): (c: char)
    requires v < 64
    ensures B64Val(c) == v && c != '=' && c != '?' && c != '\0'
  {
    if v < 26 then ('A' as int + v) as char
    else if v < 52 then ('a' as int + (v - 26)) as char
    else if v < 62 then ('0' as int + (v - 52)) as char
    else if v == 62 then '+'
    else '/'
  }

  /** The alphabet and its values (table 1 of RFC 2045). */
  predicate InAlphabet(c: char) {
    c in "+/" || 'A' <= c <= 'Z' || 'a' <= c <= 'z' || IsDigit(c)
  }

  lemma AlphabetIff(c: char, v: nat)
    ensures B64Val(c) >= 0 <==> InAlphabet(c)
    ensures B64Val(c) == v <==>
            (v <= 25 && c as int == 65 + v) || (26 <= v <= 51 && c as int == 71 + v) ||
            (52 <= v <= 61 && c as int == v - 4) || (v == 62 && c == '+') || (v == 63 && c == '/')
  {
  }

  /** A quantum character: a value, or -2 for padding. */
  type Sextet = v: int | -2 <= v < 64 && v != -1 witness 0

  /** The bytes of four quantum characters; bit masks of a padding value are those of
      two's complement. */
  function Quantum(a: Sextet, b: Sextet, c: Sextet, d: Sextet): string {
    (if a >= 0 && b >= 0 then [(a * 4 + b / 16) as char] else "") +
    (if c >= 0 then [(b % 16 * 16 + c / 4) as char] else "") +
    (if d >= 0 then [(c % 4 * 64 + d) as char] else "")
  }

  function Base64Text(s: string, vals: seq<Sextet>): string
    requires |vals| < 4
  {
    if s == "" then ""
    else if s[0] != '=' && B64Val(s[0]) < 0 then Base64Text(s[1..], vals)
    else
      var v: Sextet := if s[0] == '=' then -2 else B64Val(s[0]);
      if |vals| == 3 then Quantum(vals[0], vals[1], vals[2], v) + Base64Text(s[1..], [])
      else Base64Text(s[1..], vals + [v])
  }

  method Base64Decode(src: string) returns (out: string)
    ensures out == Base64Text(src, [])
  {
    hide Quantum, B64Val;
    out := "";
    var vals: seq<Sextet> := [];
    var i := 0;
    assert src[0..] == src;
    while i < |src|
      invariant 0 <= i <= |src| && |vals| < 4
      invariant out + Base64Text(src[i..], vals) == Base64Text(src, [])
    {
      assert src[i..][1..] == src[i + 1..];
      if src[i] == '=' || B64Val(src[i]) >= 0 {
        var v: Sextet := if src[i] == '=' then -2 else B64Val(src[i]);
        if |vals| == 3 {
          ConcatAssociative(out, Quantum(vals[0], vals[1], vals[2], v), Base64Text(src[i + 1..], []));
          out := out + Quantum(vals[0], vals[1], vals[2], v);
          vals := [];
        } else {
          vals := vals + [v];
        }
      }
      i := i + 1;
    }
    assert src[i..] == "";
  }

  function OnlyBase64(s: string): string {
    if s == "" then "" else (if InAlphabet(s[0]) || s[0] == '=' then [s[0]] else "") + OnlyBase64(s[1..])
  }

  /** Characters outside the alphabet are ignored. */
  lemma {:induction false} OthersIgnored(s: string, vals: seq<Sextet>)
    requires |vals| < 4
    ensures Base64Text(s, vals) == Base64Text(OnlyBase64(s), vals)
    decreases |s|
  {
    hide Quantum, B64Val, InAlphabet;
    if s != "" {
      AlphabetIff(s[0], 0);
      var rest := OnlyBase64(s[1..]);
      if s[0] == '=' || B64Val(s[0]) >= 0 {
        OneRead(s, vals);
        OneRead([s[0]] + rest, vals);
        assert ([s[0]] + rest)[1..] == rest;
        OthersIgnored(s[1..], if |vals| == 3 then [] else vals + [SextetOf(s[0])]);
      } else {
        OthersIgnored(s[1..], vals);
        assert "" + rest == rest;
      }
    }
  }

  function Base64Of(t: string): string
    requires Bytes(t)
  {
    if t == "" then ""
    else
      var x := t[0] as int;
      if |t| == 1 then [B64Char(x / 4), B64Char(x % 4 * 16), '=', '=']
      else
        var y := t[1] as int;
        if |t| == 2 then [B64Char(x / 4), B64Char(x % 4 * 16 + y / 16), B64Char(y % 16 * 4), '=']
        else
          var z := t[2] as int;
          [B64Char(x / 4), B64Char(x % 4 * 16 + y / 16), B64Char(y % 16 * 4 + z / 64), B64Char(z % 64)] +
          Base64Of(t[3..])
  }

  function SextetOf(c: char): Sextet
    requires c == '=' || B64Val(c) >= 0
  {
    if c == '=' then -2 else B64Val(c)
  }

  lemma OneRead(s: string, vals: seq<Sextet>)
    requires |vals| < 4 && s != "" && (s[0] == '=' || B64Val(s[0]) >= 0)
    ensures Base64Text(s, vals) ==
            if |vals| == 3 then Quantum(vals[0], vals[1], vals[2], SextetOf(s[0])) + Base64Text(s[1..], [])
            else Base64Text(s[1..], vals + [SextetOf(s[0])])
  {
    hide Quantum, B64Val;
  }

  lemma FourRead(s: string)
    requires |s| >= 4 && forall i :: 0 <= i < 4 ==> s[i] == '=' || B64Val(s[i]) >= 0
    ensures Base64Text(s, []) ==
            Quantum(SextetOf(s[0]), SextetOf(s[1]), SextetOf(s[2]), SextetOf(s[3])) + Base64Text(s[4..], [])
  {
    hide Quantum, B64Val, Base64Text, SextetOf;
    var a, b, c := SextetOf(s[0]), SextetOf(s[1]), SextetOf(s[2]);
    assert s[1..][1..] == s[2..] && s[2..][1..] == s[3..] && s[3..][1..] == s[4..];
    OneRead(s, []);
    assert [] + [a] == [a];
    OneRead(s[1..], [a]);
    assert [a] + [b] == [a, b];
    OneRead(s[2..], [a, b]);
    assert [a, b] + [c] == [a, b, c];
    OneRead(s[3..], [a, b, c]);
  }

  lemma QuantumOfBytes(x: nat, y: nat, z: nat)
    requires x < 256 && y < 256 && z < 256
    ensures x / 4 < 64 && x % 4 * 16 + y / 16 < 64 && y % 16 * 4 + z / 64 < 64
    ensures Quantum(x / 4, x % 4 * 16 + y / 16, y % 16 * 4 + z / 64, z % 64) == [x as char, y as char, z as char]
    ensures Quantum(x / 4, x % 4 * 16, -2, -2) == [x as char]
    ensures Quantum(x / 4, x % 4 * 16 + y / 16, y % 16 * 4, -2) == [x as char, y as char]
  {
    assert (x % 4 * 16 + y / 16) / 16 == x % 4 && (x % 4 * 16 + y / 16) % 16 == y / 16;
    assert (y % 16 * 4 + z / 64) / 4 == y % 16 && (y % 16 * 4 + z / 64) % 4 == z / 64;
  }

  lemma FourEncoded(a: nat, b: nat, c: Option<nat>, d: Option<nat>, rest: string)
    requires a < 64 && b < 64 && (c.Some? ==> c.value < 64) && (d.Some? ==> d.value < 64)
    ensures var s := [B64Char(a), B64Char(b),
                      if c.Some? then B64Char(c.value) else '=', if d.Some? then B64Char(d.value) else '='] + rest;
            Base64Text(s, []) ==
            Quantum(a, b, if c.Some? then c.value else -2, if d.Some? then d.value else -2) + Base64Text(rest, [])
  {
    hide Quantum, B64Val, B64Char, Base64Text;
    var s := [B64Char(a), B64Char(b),
              if c.Some? then B64Char(c.value) else '=', if d.Some? then B64Char(d.value) else '='] + rest;
    assert s[4..] == rest;
    FourRead(s);
  }

  lemma {:induction false} Base64RoundTrip(t: string)
    requires Bytes(t)
    ensures Base64Text(Base64Of(t), []) == t
    decreases |t|
  {
    hide B64Val, B64Char, Base64Text, Quantum;
    NoneRead();
    if t != "" {
      var x := t[0] as int;
      var y := if |t| > 1 then t[1] as int else 0;
      var z := if |t| > 2 then t[2] as int else 0;
      QuantumOfBytes(x, y, z);
      if |t| == 1 {
        FourEncoded(x / 4, x % 4 * 16, None, None, "");
        assert Base64Of(t) + "" == Base64Of(t) && t == [t[0]];
      } else if |t| == 2 {
        FourEncoded(x / 4, x % 4 * 16 + y / 16, Some(y % 16 * 4), None, "");
        assert Base64Of(t) + "" == Base64Of(t) && t == [t[0], t[1]];
      } else {
        Base64RoundTrip(t[3..]);
        FourEncoded(x / 4, x % 4 * 16 + y / 16, Some(y % 16 * 4 + z / 64), Some(z % 64), Base64Of(t[3..]));
        assert t == [t[0], t[1], t[2]] + t[3..];
      }
    }
  }

  lemma NoneRead()
    ensures Base64Text("", []) == ""
  {
  }

  lemma {:induction false} Base64NoMark(t: string)
    requires Bytes(t)
    ensures '?' !in Base64Of(t) && '\0' !in Base64Of(t)
    decreases |t|
  {
    hide B64Val;
    if |t| >= 3 {
      Base64NoMark(t[3..]);
    }
  }

  // ---------- Q (RFC 2047, section 4.2) ----------

  function HexVal(c: char): (v: int)
    ensures -1 <= v < 16
  {
    if '0' <= c <= '9' then c as int - '0' as int
    else if 'A' <= c <= 'F' then c as int - 'A' as int + 10
    else if 'a' <= c <= 'f' then c as int - 'a' as int + 10
    else -1
  }

  predicate IsHexCode(s: string) {
    |s| >= 3 && s[0] == '=' && HexVal(s[1]) >= 0 && HexVal(s[2]) >= 0
  }

  function QText(s: string): string {
    if s == "" then ""
    else if s[0] == '_' then " " + QText(s[1..])
    else if IsHexCode(s) then [(HexVal(s[1]) * 16 + HexVal(s[2])) as char] + QText(s[3..])
    else [s[0]] + QText(s[1..])
  }

  method QDecodeWord(src: string) returns (out: string)
    ensures out == QText(src)
  {
    hide HexVal;
    out := "";
    var i := 0;
    assert src[0..] == src;
    while i < |src|
      invariant 0 <= i <= |src| && out + QText(src[i..]) == QText(src)
    {
      QStep(src, i);
      if src[i] == '_' {
        ConcatAssociative(out, " ", QText(src[i + 1..]));
        out := out + " ";
      } else if src[i] == '=' && i + 2 < |src| && HexVal(src[i + 1]) >= 0 && HexVal(src[i + 2]) >= 0 {
        var c := (HexVal(src[i + 1]) * 16 + HexVal(src[i + 2])) as char;
        ConcatAssociative(out, [c], QText(src[i + 3..]));
        out := out + [c];
        i := i + 2;
      } else {
        ConcatAssociative(out, [src[i]], QText(src[i + 1..]));
        out := out + [src[i]];
      }
      i := i + 1;
    }
    assert src[i..] == "";
  }

  lemma QStep(s: string, i: nat)
    requires i < |s|
    ensures QText(s[i..]) ==
            if s[i] == '_' then " " + QText(s[i + 1..])
            else if s[i] == '=' && i + 2 < |s| && HexVal(s[i + 1]) >= 0 && HexVal(s[i + 2]) >= 0
            then [(HexVal(s[i + 1]) * 16 + HexVal(s[i + 2])) as char] + QText(s[i + 3..])
            else [s[i]] + QText(s[i + 1..])
  {
    hide HexVal;
    assert s[i..][1..] == s[i + 1..];
    assert i + 2 < |s| ==> s[i..][3..] == s[i + 3..];
  }

  predicate HexLetter(c: char) {
    IsDigit(c) || 'A' <= c <= 'F' || 'a' <= c <= 'f'
  }

  /** An equals sign without two hexadecimal digits behind it stays. */
  lemma EqualsStays(rest: string)
    requires !(|rest| >= 2 && HexLetter(rest[0]) && HexLetter(rest[1]))
    ensures QText("=" + rest) == "=" + QText(rest)
  {
    assert ("=" + rest)[1..] == rest;
  }

  /** How the writer of a Q word chose to write a byte. */
  datatype Style = Short | UpperHex | LowerHex

  function HexChar(v: nat, style: Style): (c: char)
    requires v < 16
    ensures HexVal(c) == v && c != '?'
  {
    if v < 10 then ('0' as int + v) as char
    else if style.LowerHex? then ('a' as int + (v - 10)) as char
    else ('A' as int + (v - 10)) as char
  }

  /** Printable characters that may stand for themselves. */
  predicate Literal(c: char) {
    ' ' < c <= '~' && c != '=' && c != '?' && c != '_'
  }

  function QByte(c: char, style: Style): (s: string)
    requires c as int < 256
    ensures '?' !in s
  {
    if style.Short? && c == ' ' then "_"
    else if style.Short? && Literal(c) then [c]
    else ['=', HexChar(c as int / 16, style), HexChar(c as int % 16, style)]
  }

  /** `t` as Q text, each byte in the style chosen for it. */
  function QOf(t: string, styles: seq<Style>): string
    requires Bytes(t) && |styles| == |t|
  {
    if t == "" then "" else QByte(t[0], styles[0]) + QOf(t[1..], styles[1..])
  }

  lemma {:induction false} QRoundTrip(t: string, styles: seq<Style>)
    requires Bytes(t) && |styles| == |t|
    ensures QText(QOf(t, styles)) == t
    ensures '?' !in QOf(t, styles)
  {
    if t != "" {
      QRoundTrip(t[1..], styles[1..]);
      QByteRead(t[0], styles[0], QOf(t[1..], styles[1..]));
      assert t == [t[0]] + t[1..];
    }
  }

  lemma QByteRead(c: char, style: Style, rest: string)
    requires c as int < 256
    ensures QText(QByte(c, style) + rest) == [c] + QText(rest)
  {
    hide HexVal;
    var q := QByte(c, style);
    var s := q + rest;
    if |q| == 1 {
      assert s[1..] == rest;
    } else {
      assert s[3..] == rest;
      assert c as int / 16 * 16 + c as int % 16 == c as int;
    }
  }
}
