/** The order in which a spool is planned and imported: by file number. */
module FtnSpool {
  import opened CText
  import opened FtnIndex

  // ---------- File numbers ----------

  predicate IsMsgSuffix(s: string) {
    |s| == 4 && s[0] == '.' && LowerChar(s[1]) == 'm' && LowerChar(s[2]) == 's' && LowerChar(s[3]) == 'g'
  }

  /** msgitem_filename_number(): 0 for a name that is no number with ".msg". */
  function FileNumber(filename: string): int {
    var n := StrtolLen(filename);
    if n == 0 || !IsMsgSuffix(filename[n..]) then 0 else Strtol(filename)
  }

  /** The number of a name is that of its digits when exactly ".msg" follows them, in
      capitals or not, and 0 otherwise. */
  lemma FileNumberIs(filename: string) returns (spaces: string, sign: string, digits: string, rest: string)
    ensures filename == spaces + sign + (digits + rest) && AllSpace(spaces) && sign in {"", "+", "-"}
    ensures AllDigits(digits) && (rest == "" || !IsDigit(rest[0]))
    ensures FileNumber(filename) ==
            if digits == "" || !SameWord(rest, ".msg") then 0
            else if sign == "-" then 0 - NatOf(digits) else NatOf(digits)
  {
    hide Strtol, StrtolLen, NatOf, AllSpace, AllDigits, SameWord, IsMsgSuffix;
    spaces, sign, digits, rest := NumberParts(filename);
    StrtolOf(spaces, sign, digits, rest);
    SuffixIff(rest);
    assert filename[|spaces + sign + digits|..] == rest;
  }

  lemma SuffixIff(s: string)
    ensures IsMsgSuffix(s) <==> SameWord(s, ".msg")
  {
    var msg := ".msg";
    if SameWord(s, msg) {
      assert SameLetter(s[0], msg[0]) && SameLetter(s[1], msg[1]);
      assert SameLetter(s[2], msg[2]) && SameLetter(s[3], msg[3]);
    }
  }

  // ---------- Insertion sort ----------

  /** Where the insertion of a number stops: in front of `other`. */
  predicate StopsAt(n: int, other: int) {
    (n > 0 && other > 0 && n < other) || (n == 0 && other > 0)
  }

  function Number(m: MsgItem): int {
    FileNumber(m.filename)
  }

  function Numbers(items: seq<MsgItem>): (ns: seq<int>)
    ensures |ns| == |items|
  {
    if items == [] then [] else [Number(items[0])] + Numbers(items[1..])
  }

  /** How many numbers the insertion of `n` passes. */
  function Place(ns: seq<int>, n: int): (p: nat)
    ensures p <= |ns| && (p < |ns| ==> StopsAt(n, ns[p]))
    ensures forall i :: 0 <= i < p ==> !StopsAt(n, ns[i])
  {
    if ns == [] || StopsAt(n, ns[0]) then 0 else 1 + Place(ns[1..], n)
  }

  function Inserted(sorted: seq<MsgItem>, item: MsgItem): seq<MsgItem> {
    var p := Place(Numbers(sorted), Number(item));
    sorted[..p] + [item] + sorted[p..]
  }

  function Sorted(list: seq<MsgItem>): seq<MsgItem> {
    if list == [] then [] else Inserted(Sorted(list[..|list| - 1]), list[|list| - 1])
  }

  lemma {:induction false} NumbersAt(items: seq<MsgItem>, i: nat)
    requires i < |items|
    ensures Numbers(items)[i] == Number(items[i])
  {
    hide Number;
    if i > 0 {
      NumbersAt(items[1..], i - 1);
    }
  }

  method Insert(sorted: seq<MsgItem>, item: MsgItem) returns (grown: seq<MsgItem>)
    ensures grown == Inserted(sorted, item)
  {
    hide Number, StopsAt;
    var itemnum := Number(item);
    var p := 0;
    while p < |sorted| && !StopsAt(itemnum, Number(sorted[p]))
      invariant 0 <= p <= |sorted|
      invariant forall i :: 0 <= i < p ==> !StopsAt(itemnum, Numbers(sorted)[i])
    {
      NumbersAt(sorted, p);
      p := p + 1;
    }
    if p < |sorted| {
      NumbersAt(sorted, p);
    }
    assert p == Place(Numbers(sorted), itemnum);
    grown := sorted[..p] + [item] + sorted[p..];
  }

  /** sort_msgitems_by_number(): insertion sort of the list readdir() produced. */
  method SortByNumber(list: seq<MsgItem>) returns (sorted: seq<MsgItem>)
    ensures sorted == Sorted(list)
  {
    hide Inserted;
    sorted := [];
    for i := 0 to |list|
      invariant sorted == Sorted(list[..i])
    {
      assert list[..i + 1][..i] == list[..i];
      sorted := Insert(sorted, list[i]);
    }
    assert list[..|list|] == list;
  }

  // ---------- What the order is ----------

  predicate Ascending(ns: seq<int>) {
    forall i, j :: 0 <= i < j < |ns| ==> ns[i] <= ns[j]
  }

  /** Ascending, negative numbers left aside. */
  predicate Rising(ns: seq<int>) {
    forall i, j :: 0 <= i < j < |ns| && ns[i] >= 0 && ns[j] >= 0 ==> ns[i] <= ns[j]
  }

  /** Only lower numbers are in front of a negative one. */
  predicate NegativesInPlace(ns: seq<int>) {
    forall i, j :: 0 <= i < j < |ns| && ns[j] < 0 ==> ns[i] <= ns[j]
  }

  predicate AtMost(ns: seq<int>, n: int) {
    forall i :: 0 <= i < |ns| ==> ns[i] <= n
  }

  function Grown(ns: seq<int>, n: int): seq<int> {
    ns[..Place(ns, n)] + [n] + ns[Place(ns, n)..]
  }

  lemma GrownRises(ns: seq<int>, n: int)
    requires Rising(ns)
    ensures Rising(Grown(ns, n))
  {
    hide Place;
    var p := Place(ns, n);
    assert forall i :: p <= i < |ns| && ns[i] >= 0 ==> n <= ns[i];
  }

  lemma GrownAscendsIff(ns: seq<int>, n: int)
    requires Rising(ns)
    ensures Ascending(Grown(ns, n)) <==> Ascending(ns) && (n < 0 ==> AtMost(ns, n))
  {
    hide Place;
    var p, grown := Place(ns, n), Grown(ns, n);
    assert grown[p] == n;
    if Ascending(grown) {
      forall i, j | 0 <= i < j < |ns| ensures ns[i] <= ns[j] {
        assert grown[if i < p then i else i + 1] == ns[i] && grown[if j < p then j else j + 1] == ns[j];
      }
      assert forall i :: 0 <= i < p ==> grown[i] == ns[i];
    }
  }

  lemma {:induction false} NumbersConcat(a: seq<MsgItem>, b: seq<MsgItem>)
    ensures Numbers(a + b) == Numbers(a) + Numbers(b)
  {
    hide Number;
    if a == [] {
      assert a + b == b;
    } else {
      assert (a + b)[1..] == a[1..] + b;
      NumbersConcat(a[1..], b);
    }
  }

  lemma NumbersInserted(sorted: seq<MsgItem>, item: MsgItem)
    ensures Numbers(Inserted(sorted, item)) == Grown(Numbers(sorted), Number(item))
  {
    hide Number, Place, Numbers;
    var p := Place(Numbers(sorted), Number(item));
    var a, b := sorted[..p], sorted[p..];
    assert a + b == sorted;
    NumbersConcat(a, b);
    NumbersConcat(a + [item], b);
    NumbersConcat(a, [item]);
    OneNumber(item);
  }

  lemma OneNumber(item: MsgItem)
    ensures Numbers([item]) == [Number(item)]
  {
  }

  lemma LastInPlace(init: seq<int>, n: int)
    ensures NegativesInPlace(init + [n]) <==>
            NegativesInPlace(init) && (n < 0 ==> AtMost(init, n))
  {
    var list := init + [n];
    assert list[|init|] == n && forall i :: 0 <= i < |init| ==> list[i] == init[i];
  }

  /** The spool is in the order of the numbers if and only if each name with a negative one
      is listed behind lower numbers only; whatever the names, those with other numbers are
      in order, and nothing is lost or doubled. */
  lemma {:induction false} SortedIff(list: seq<MsgItem>)
    ensures multiset(Sorted(list)) == multiset(list) && Rising(Numbers(Sorted(list)))
    ensures Ascending(Numbers(Sorted(list))) <==> NegativesInPlace(Numbers(list))
  {
    hide Number, Numbers, Ascending, Rising, NegativesInPlace, Inserted, Grown, AtMost;
    if list == [] {
      NothingToSort();
    } else {
      var init, item := list[..|list| - 1], list[|list| - 1];
      var s := Sorted(init);
      SortedIff(init);
      NumbersInserted(s, item);
      GrownRises(Numbers(s), Number(item));
      GrownAscendsIff(Numbers(s), Number(item));
      assert list == init + [item];
      NumbersConcat(init, [item]);
      OneNumber(item);
      LastInPlace(Numbers(init), Number(item));
      SameBound(s, init, Number(item));
      InsertedPermutes(s, item);
    }
  }

  lemma NothingToSort()
    ensures Sorted([]) == [] && Numbers([]) == [] && Ascending([]) && Rising([]) && NegativesInPlace([])
  {
  }

  lemma InsertedPermutes(sorted: seq<MsgItem>, item: MsgItem)
    ensures multiset(Inserted(sorted, item)) == multiset(sorted + [item])
  {
    hide Number, Place, Numbers;
    var p := Place(Numbers(sorted), Number(item));
    assert sorted[..p] + sorted[p..] == sorted;
  }

  lemma SameBound(a: seq<MsgItem>, b: seq<MsgItem>, n: int)
    requires multiset(a) == multiset(b)
    ensures AtMost(Numbers(a), n) <==> AtMost(Numbers(b), n)
  {
    hide Numbers, AtMost;
    if AtMost(Numbers(a), n) {
      BoundKept(a, b, n);
    }
    if AtMost(Numbers(b), n) {
      BoundKept(b, a, n);
    }
  }

  lemma BoundKept(a: seq<MsgItem>, b: seq<MsgItem>, n: int)
    requires multiset(a) == multiset(b) && AtMost(Numbers(a), n)
    ensures AtMost(Numbers(b), n)
  {
    hide Number, Numbers;
    forall i | 0 <= i < |b| ensures Numbers(b)[i] <= n {
      NumbersAt(b, i);
      assert b[i] in multiset(b) && b[i] in multiset(a);
      var j :| 0 <= j < |a| && a[j] == b[i];
      NumbersAt(a, j);
    }
  }

  // ---------- Files of the same number ----------

  /** The items with number `n`, in their order. */
  function OfNumber(items: seq<MsgItem>, n: int): seq<MsgItem> {
    if items == [] then [] else Only(items[0], n) + OfNumber(items[1..], n)
  }

  function Only(m: MsgItem, n: int): seq<MsgItem> {
    if Number(m) == n then [m] else []
  }

  lemma {:induction false} OfNumberConcat(a: seq<MsgItem>, b: seq<MsgItem>, n: int)
    ensures OfNumber(a + b, n) == OfNumber(a, n) + OfNumber(b, n)
  {
    hide Only;
    if a == [] {
      assert a + b == b;
    } else {
      assert (a + b)[1..] == a[1..] + b;
      OfNumberConcat(a[1..], b, n);
      var x, y, z := Only(a[0], n), OfNumber(a[1..], n), OfNumber(b, n);
      assert x + (y + z) == x + y + z;
    }
  }

  lemma {:induction false} NoneOfNumber(items: seq<MsgItem>, n: int)
    requires forall i :: 0 <= i < |items| ==> Numbers(items)[i] != n
    ensures OfNumber(items, n) == []
  {
    hide Number;
    if items != [] {
      assert Numbers(items)[0] == Number(items[0]);
      assert forall i :: 0 <= i < |items| - 1 ==> Numbers(items[1..])[i] == Numbers(items)[i + 1];
      NoneOfNumber(items[1..], n);
    }
  }

  lemma InsertedOfNumber(s: seq<MsgItem>, item: MsgItem, n: int)
    requires Rising(Numbers(s))
    ensures OfNumber(Inserted(s, item), n) == OfNumber(s, n) + OfNumber([item], n)
  {
    hide Number, Numbers, OfNumber, Place, Rising;
    var p := Place(Numbers(s), Number(item));
    var a, b := s[..p], s[p..];
    assert a + b == s;
    OfNumberConcat(a, b, n);
    OfNumberConcat(a + [item], b, n);
    OfNumberConcat(a, [item], n);
    NoneBehind(s, item, n);
  }

  /** Files of the same number stay in the order in which they are listed. */
  lemma {:induction false} SortIsStable(list: seq<MsgItem>, n: int)
    ensures OfNumber(Sorted(list), n) == OfNumber(list, n)
  {
    hide OfNumber, Inserted, Numbers, Rising, Ascending, NegativesInPlace, Sorted;
    SortedUnfold(list);
    if list != [] {
      var init, item := list[..|list| - 1], list[|list| - 1];
      SortIsStable(init, n);
      SortedIff(init);
      InsertedOfNumber(Sorted(init), item, n);
      assert list == init + [item];
      OfNumberConcat(init, [item], n);
    }
  }

  lemma SortedUnfold(list: seq<MsgItem>)
    ensures Sorted(list) == if list == [] then [] else Inserted(Sorted(list[..|list| - 1]), list[|list| - 1])
  {
    hide Inserted;
  }

  lemma NoneBehind(s: seq<MsgItem>, item: MsgItem, n: int)
    requires Rising(Numbers(s))
    ensures var p := Place(Numbers(s), Number(item)); OfNumber([item], n) == [] || OfNumber(s[p..], n) == []
  {
    hide Number, Place, Numbers;
    var ns, k := Numbers(s), Number(item);
    var p := Place(ns, k);
    if k == n {
      NumbersConcat(s[..p], s[p..]);
      assert s[..p] + s[p..] == s;
      assert forall i :: 0 <= i < |s[p..]| ==> Numbers(s[p..])[i] == ns[p + i];
      NoneOfNumber(s[p..], n);
    } else {
      OnlyOne(item, n);
    }
  }

  lemma OnlyOne(item: MsgItem, n: int)
    requires Number(item) != n
    ensures OfNumber([item], n) == []
  {
    hide Number;
  }

  // ---------- The order of a directory ----------

  predicate SameOfNumber(a: seq<MsgItem>, b: seq<MsgItem>, n: int) {
    OfNumber(a, n) == OfNumber(b, n)
  }

  lemma {:induction false} IndexOfNumber(items: seq<MsgItem>, n: int) returns (i: nat)
    requires OfNumber(items, n) != []
    ensures i < |items| && Number(items[i]) == n
  {
    hide Number;
    if Number(items[0]) == n {
      i := 0;
    } else {
      i := IndexOfNumber(items[1..], n);
      i := i + 1;
    }
  }

  lemma FirstOfNumber(a: seq<MsgItem>)
    requires a != []
    ensures OfNumber(a, Number(a[0])) == [a[0]] + OfNumber(a[1..], Number(a[0]))
    ensures forall n :: n != Number(a[0]) ==> OfNumber(a, n) == OfNumber(a[1..], n)
  {
    hide Number;
  }

  /** The first of `a` has a number that is not above the first of `b`. */
  lemma FirstNotAbove(a: seq<MsgItem>, b: seq<MsgItem>)
    requires Ascending(Numbers(a)) && b != [] && SameOfNumber(a, b, Number(b[0]))
    ensures a != [] && Number(a[0]) <= Number(b[0])
  {
    hide Number, Numbers, OfNumber, Ascending;
    FirstOfNumber(b);
    if a == [] {
      NoneInEmpty(Number(b[0]));
    }
    var i := IndexOfNumber(a, Number(b[0]));
    TailAscends(a);
  }

  lemma NoneInEmpty(n: int)
    ensures OfNumber([], n) == []
  {
  }

  lemma {:induction false} AscendingUnique(a: seq<MsgItem>, b: seq<MsgItem>)
    requires Ascending(Numbers(a)) && Ascending(Numbers(b)) && forall n :: SameOfNumber(a, b, n)
    ensures a == b
  {
    hide Number, Numbers, OfNumber, Ascending, SameOfNumber;
    if a == [] && b == [] {
    } else {
      if b != [] {
        FirstNotAbove(a, b);
      }
      SameSwapped(a, b);
      FirstNotAbove(b, a);
      SameFirst(a, b);
      TailAscends(a);
      TailAscends(b);
      AscendingUnique(a[1..], b[1..]);
      assert a == [a[0]] + a[1..] && b == [b[0]] + b[1..];
    }
  }

  lemma SameSwapped(a: seq<MsgItem>, b: seq<MsgItem>)
    requires forall n :: SameOfNumber(a, b, n)
    ensures forall n :: SameOfNumber(b, a, n)
  {
    hide OfNumber;
    forall n ensures SameOfNumber(b, a, n) {
      assert SameOfNumber(a, b, n);
    }
  }

  lemma SameFirst(a: seq<MsgItem>, b: seq<MsgItem>)
    requires a != [] && b != [] && Number(a[0]) == Number(b[0]) && forall n :: SameOfNumber(a, b, n)
    ensures a[0] == b[0] && forall n :: SameOfNumber(a[1..], b[1..], n)
  {
    hide Number, OfNumber;
    FirstOfNumber(a);
    FirstOfNumber(b);
    var n0 := Number(a[0]);
    assert SameOfNumber(a, b, n0);
    BehindFirst(a[0], b[0], OfNumber(a[1..], n0), OfNumber(b[1..], n0));
    forall n ensures SameOfNumber(a[1..], b[1..], n) {
      assert SameOfNumber(a, b, n);
      BehindFirst(a[0], b[0], OfNumber(a[1..], n), OfNumber(b[1..], n));
    }
  }

  lemma BehindFirst(x: MsgItem, y: MsgItem, a: seq<MsgItem>, b: seq<MsgItem>)
    ensures [x] + a == [y] + b <==> x == y && a == b
  {
    assert ([x] + a)[0] == x && ([x] + a)[1..] == a && ([y] + b)[0] == y && ([y] + b)[1..] == b;
  }

  /** So planning and import do not depend on the order readdir() lists a spool in, as long
      as files of the same number, if any, are listed in the same order. */
  lemma ListingIrrelevantIff(list: seq<MsgItem>, other: seq<MsgItem>)
    requires NegativesInPlace(Numbers(list)) && NegativesInPlace(Numbers(other))
    ensures Sorted(list) == Sorted(other) <==> forall n :: SameOfNumber(list, other, n)
  {
    hide Number, Numbers, OfNumber, Ascending, NegativesInPlace, Sorted;
    SortedIff(list);
    SortedIff(other);
    forall n ensures SameOfNumber(Sorted(list), Sorted(other), n) <==> SameOfNumber(list, other, n) {
      SortIsStable(list, n);
      SortIsStable(other, n);
    }
    if forall n :: SameOfNumber(list, other, n) {
      AscendingUnique(Sorted(list), Sorted(other));
    } else {
      assert forall n :: SameOfNumber(Sorted(list), Sorted(list), n);
    }
  }

  lemma TailAscends(a: seq<MsgItem>)
    requires a != [] && Ascending(Numbers(a))
    ensures Ascending(Numbers(a[1..])) && forall i :: 0 <= i < |a| ==> Number(a[0]) <= Number(a[i])
  {
    NumbersTail(a);
    hide Number, Numbers;
    AscendsBehind(Numbers(a));
    forall i | 0 <= i < |a| ensures Number(a[0]) <= Number(a[i]) {
      NumbersAt(a, 0);
      NumbersAt(a, i);
    }
  }

  lemma NumbersTail(a: seq<MsgItem>)
    requires a != []
    ensures Numbers(a)[1..] == Numbers(a[1..])
  {
    hide Number;
  }

  lemma AscendsBehind(ns: seq<int>)
    requires ns != [] && Ascending(ns)
    ensures Ascending(ns[1..]) && forall i :: 0 <= i < |ns| ==> ns[0] <= ns[i]
  {
  }
}
