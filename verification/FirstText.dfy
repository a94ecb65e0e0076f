/** The search for the first surviving text of a conference, first_text(): a binary
    search over numbers whose "exists" is not monotone, forgiving short gaps. */
module FirstText {
  /** How far below `ptr` the first of the four probes that finds a text is; 4 when
      all of them fail. */
  function Probe(texts: set<int>, ptr: int): (k: nat)
    ensures k <= 4 && (k < 4 ==> ptr - k in texts)
    ensures forall t :: t in texts ==> !(ptr - k < t <= ptr)
  {
    if ptr in texts then 0 else if ptr - 1 in texts then 1 else if ptr - 2 in texts then 2
    else if ptr - 3 in texts then 3 else 4
  }

  /** Where the search between `first` and `last` ends, last probe at `ptr`. */
  function Search(texts: set<int>, first: int, last: int, ptr: int): int
    decreases last - first
  {
    if last <= first then ptr
    else
      var mid := (first + last) / 2;
      var k := Probe(texts, mid);
      if k == 4 then Search(texts, mid + 1, last, mid + 1) else Search(texts, first, mid - k, mid - k)
  }

  /** One round of the search. */
  lemma Round(texts: set<int>, first: int, last: int, ptr: int)
    ensures last <= first ==> Search(texts, first, last, ptr) == ptr
    ensures last > first ==>
              var mid := (first + last) / 2;
              var k := Probe(texts, mid);
              && first <= mid < last
              && Search(texts, first, last, ptr) ==
                 if k == 4 then Search(texts, mid + 1, last, mid + 1) else Search(texts, first, mid - k, mid - k)
  {
    hide Probe;
  }

  function FirstOf(texts: set<int>, last: int): int {
    Search(texts, 1, last, 1)
  }

  /** The texts of a conference have numbers from 1 on. */
  predicate TextNumbers(texts: set<int>) {
    forall n :: n in texts ==> n >= 1
  }

  method FindFirst(texts: set<int>, lastText: int) returns (ptr: int)
    requires TextNumbers(texts)
    ensures ptr == FirstOf(texts, lastText)
  {
    hide Search;
    var first, last := 1, lastText;
    ptr := 1;
    while last > first
      invariant first >= 1
      invariant Search(texts, first, last, ptr) == FirstOf(texts, lastText)
      decreases last - first
    {
      Round(texts, first, last, ptr);
      ptr := (first + last) / 2;
      if ptr !in texts {
        if ptr - 1 !in texts {
          if ptr - 2 !in texts {
            if ptr - 3 !in texts {
              first := ptr + 1;
              ptr := first;
            } else {
              last := ptr - 3;
              ptr := last;
            }
          } else {
            last := ptr - 2;
            ptr := last;
          }
        } else {
          last := ptr - 1;
          ptr := last;
        }
      } else {
        last := ptr;
      }
    }
    Round(texts, first, last, ptr);
  }

  predicate NoneBelow(texts: set<int>, n: int) {
    forall t :: t in texts ==> !(n - 4 <= t < n)
  }

  /** `n` may be a first text: it exists or nothing up to `last` does not rule it out,
      and the four numbers below it are gone. */
  predicate ClusterStart(texts: set<int>, last: int, n: int) {
    && 1 <= n <= last && (n in texts || n == last)
    && (n == 1 || NoneBelow(texts, n))
  }

  lemma {:induction false} SearchLands(texts: set<int>, first: int, last: int, top: int, ptr: int)
    requires TextNumbers(texts) && 1 <= first <= last <= top && (last in texts || last == top)
    requires first == 1 || NoneBelow(texts, first)
    requires last == first ==> ptr == first
    ensures ClusterStart(texts, top, Search(texts, first, last, ptr))
    ensures first <= Search(texts, first, last, ptr) <= last
    decreases last - first
  {
    hide Search, Probe;
    Round(texts, first, last, ptr);
    if last > first {
      var mid := (first + last) / 2;
      var k := Probe(texts, mid);
      if k == 4 {
        SearchLands(texts, mid + 1, last, top, mid + 1);
      } else {
        SearchLands(texts, first, mid - k, top, mid - k);
      }
    }
  }

  /** Whatever texts are gone, the search ends on the first number of a cluster: a text
      (or the last number) with four missing numbers right below it, or number 1. */
  lemma SearchEndsOnCluster(texts: set<int>, last: int)
    requires TextNumbers(texts) && last >= 1
    ensures ClusterStart(texts, last, FirstOf(texts, last))
  {
    SearchLands(texts, 1, last, last, 1);
  }

  ghost predicate Lowest(texts: set<int>, last: int, f: int) {
    1 <= f <= last && f in texts && forall n :: 1 <= n < f ==> n !in texts
  }

  /** From the lowest text on, up to `last`, no more than `g` numbers in a row are gone. */
  ghost predicate GapsAtMost(texts: set<int>, last: int, f: int, g: nat) {
    forall n :: f <= n && n + g <= last ==> HasText(texts, n, g)
  }

  ghost predicate HasText(texts: set<int>, n: int, g: nat) {
    exists t :: t in texts && n <= t <= n + g
  }

  /** With gaps of at most three numbers the lowest text is found. */
  lemma ShortGapsFound(texts: set<int>, last: int, f: int)
    requires TextNumbers(texts) && Lowest(texts, last, f) && GapsAtMost(texts, last, f, 3)
    ensures FirstOf(texts, last) == f
  {
    SearchEndsOnCluster(texts, last);
    var r := FirstOf(texts, last);
    assert r >= f by {
      assert r in texts || r == last;
    }
    assert HasText(texts, r - 4, 3) || r - 4 < f;
  }

  ghost predicate AlwaysFound(g: nat) {
    forall texts: set<int>, last, f :: TextNumbers(texts) && Lowest(texts, last, f) && GapsAtMost(texts, last, f, g) ==>
      FirstOf(texts, last) == f
  }

  function Upwards(from: int, count: nat): (s: seq<int>)
    ensures |s| == count && forall i :: 0 <= i < count ==> s[i] == from + i
  {
    seq(count, i => from + i)
  }

  function SetOf(s: seq<int>): set<int> {
    set n | n in s
  }

  /** One text, then `g` missing numbers around the middle, then texts to the end. */
  function MiddleGap(g: nat): set<int> {
    {1} + SetOf(Upwards(g + 2, g))
  }

  lemma MiddleGapMisses(g: nat)
    requires g >= 4
    ensures TextNumbers(MiddleGap(g)) && Lowest(MiddleGap(g), 2 * g + 1, 1)
    ensures GapsAtMost(MiddleGap(g), 2 * g + 1, 1, g)
    ensures FirstOf(MiddleGap(g), 2 * g + 1) > 1
  {
    hide Search;
    var texts, last := MiddleGap(g), 2 * g + 1;
    forall n | 1 <= n && n + g <= last ensures HasText(texts, n, g) {
      if n > 1 {
        assert Upwards(g + 2, g)[n - 2] == n + g;
        assert n + g in texts;
      } else {
        assert 1 in texts;
      }
    }
    Round(texts, 1, last, 1);
    SearchLands(texts, g + 2, last, last, g + 2);
  }

  /** Three is the exact limit: first_text() is right on every conference whose gaps
      have at most `g` numbers if and only if `g` is at most 3. */
  lemma GapLimit(g: nat)
    ensures AlwaysFound(g) <==> g <= 3
  {
    if g <= 3 {
      forall texts: set<int>, last, f | TextNumbers(texts) && Lowest(texts, last, f) && GapsAtMost(texts, last, f, g)
        ensures FirstOf(texts, last) == f {
        SmallerGaps(texts, last, f, g);
        ShortGapsFound(texts, last, f);
      }
    } else {
      MiddleGapMisses(g);
      assert FirstOf(MiddleGap(g), 2 * g + 1) != 1;
    }
  }

  lemma SmallerGaps(texts: set<int>, last: int, f: int, g: nat)
    requires GapsAtMost(texts, last, f, g) && g <= 3
    ensures GapsAtMost(texts, last, f, 3)
  {
    forall n | f <= n && n + 3 <= last ensures HasText(texts, n, 3) {
      assert HasText(texts, n, g);
    }
  }
}
