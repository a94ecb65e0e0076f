/** FTN addresses "zone:net/node.point": ftn_address_parse() and ftn_address_format(). */
module FtnAddress {
  import opened CText

  datatype Address = Address(zone: int, net: int, node: int, point: int)

  datatype Number = Number(value: int, rest: string)

  /** A number of 0..65535 and what is behind it. */
  function ParseNumber(text: string): (n: Option<Number>)
    ensures n.Some? ==> 0 <= n.value.value <= 65535
  {
    if StrtolLen(text) == 0 || Strtol(text) < 0 || Strtol(text) > 65535 then None
    else Some(Number(Strtol(text), text[StrtolLen(text)..]))
  }

  /** A number that `end` must follow. */
  function ParseNumberUpTo(text: string, end: char): (n: Option<Number>)
    ensures n.Some? ==> 0 <= n.value.value <= 65535
  {
    match ParseNumber(text)
    case None => None
    case Some(n) => if n.rest != "" && n.rest[0] == end then Some(Number(n.value, n.rest[1..])) else None
  }

  function ParseAddress(text: string): Option<Address> {
    match ParseNumberUpTo(text, ':')
    case None => None
    case Some(zone) =>
      match ParseNumberUpTo(zone.rest, '/')
      case None => None
      case Some(net) =>
        match ParseNumber(net.rest)
        case None => None
        case Some(node) =>
          if node.rest == "" then Some(Address(zone.value, net.value, node.value, 0))
          else if node.rest[0] != '.' then None
          else
            match ParseNumber(node.rest[1..])
            case None => None
            case Some(point) =>
              if point.rest == "" then Some(Address(zone.value, net.value, node.value, point.value)) else None
  }

  function FormatAddress(a: Address): string {
    Signed(a.zone) + ":" + Signed(a.net) + "/" + Signed(a.node) + if a.point == 0 then "" else "." + Signed(a.point)
  }

  predicate InRange(n: int) {
    0 <= n <= 65535
  }

  predicate AddressInRange(a: Address) {
    InRange(a.zone) && InRange(a.net) && InRange(a.node) && InRange(a.point)
  }

  lemma NumberOfSigned(n: int, rest: string)
    requires rest == "" || !IsDigit(rest[0])
    ensures ParseNumber(Signed(n) + rest) == if InRange(n) then Some(Number(n, rest)) else None
  {
    hide Signed, Strtol, StrtolLen;
    StrtolOfSigned(n, rest);
    assert (Signed(n) + rest)[|Signed(n)|..] == rest;
  }

  lemma NumberUpToOfSigned(n: int, end: char, rest: string)
    requires !IsDigit(end)
    ensures ParseNumberUpTo(Signed(n) + [end] + rest, end) == if InRange(n) then Some(Number(n, rest)) else None
  {
    hide Signed, ParseNumber;
    assert Signed(n) + [end] + rest == Signed(n) + ([end] + rest);
    NumberOfSigned(n, [end] + rest);
    assert ([end] + rest)[1..] == rest;
  }

  /** Parsing inverts formatting, if and only if every component is in 0..65535. */
  lemma AddressRoundTripIff(a: Address)
    ensures ParseAddress(FormatAddress(a)) == if AddressInRange(a) then Some(a) else None
  {
    hide Signed, ParseNumber, ParseNumberUpTo;
    var tail := if a.point == 0 then "" else "." + Signed(a.point);
    var node := Signed(a.node) + tail;
    var net := Signed(a.net) + "/" + node;
    assert FormatAddress(a) == Signed(a.zone) + ":" + net;
    NumberUpToOfSigned(a.zone, ':', net);
    NumberUpToOfSigned(a.net, '/', node);
    NumberOfSigned(a.node, tail);
    if a.point != 0 {
      assert tail[1..] == Signed(a.point) + "";
      NumberOfSigned(a.point, "");
    }
  }
}
