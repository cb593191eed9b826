/** The scan for innermost angle brackets (svf-llvm/lib/CppUtil.cpp). */
module InnermostBrackets {

  predicate Opens(s: string, i: int) { 0 <= i < |s| && s[i] == '<' }

  /** A '>' that does not end an arrow and is not the first character. */
  predicate Closes(s: string, i: int) { 0 < i < |s| && s[i] == '>' && s[i - 1] != '-' }

  // ---------------------------------------------------------------- nesting, independently of the scan

  /** Openings minus closings in s[a..b]. */
  function Depth(s: string, a: int, b: int): int
    decreases b - a
  {
    if b <= a then 0
    else Depth(s, a, b - 1) + if Opens(s, b - 1) then 1 else if Closes(s, b - 1) then -1 else 0
  }

  /** Up to b, nothing has closed the bracket opened at o. */
  ghost predicate Unclosed(s: string, o: nat, b: int) {
    var a := o + 1;
    Opens(s, o) && o < b && forall j | a <= j <= b :: Depth(s, a, j) >= 0
  }

  /** What lies between o and c is balanced. */
  ghost predicate Matched(s: string, o: nat, c: nat) {
    Unclosed(s, o, c) && Closes(s, c) && Depth(s, o + 1, c) == 0
  }

  /** A matched pair that encloses no other. */
  ghost predicate Innermost(s: string, o: nat, c: nat) {
    Matched(s, o, c) && forall p: nat, d: nat | o < p && d < c :: !Matched(s, p, d)
  }

  lemma {:induction false} DepthSplits(s: string, a: int, m: int, b: int)
    requires a <= m <= b
    ensures Depth(s, a, b) == Depth(s, a, m) + Depth(s, m, b)
    decreases b - m
  {
    if m < b {
      DepthSplits(s, a, m, b - 1);
    }
  }

  lemma DepthStep(s: string, o: nat, i: nat)
    requires o < i
    ensures Depth(s, o + 1, i + 1) == Depth(s, o + 1, i) + if Opens(s, i) then 1 else if Closes(s, i) then -1 else 0
    ensures Unclosed(s, o, i + 1) <==> Unclosed(s, o, i) && Depth(s, o + 1, i + 1) >= 0
  {
  }

  /** Matched pairs do not cross. */
  lemma PairsNest(s: string, o: nat, c: nat, p: nat, d: nat)
    requires Matched(s, o, c) && Matched(s, p, d) && o < p < c
    ensures d < c
  {
    if c <= d {
      DepthSplits(s, o + 1, p, c);
      DepthSplits(s, p, p + 1, c);
    }
  }

  /** Every matched pair is or encloses an innermost one. */
  lemma {:induction false} InnermostWithin(s: string, o: nat, c: nat) returns (p: nat, d: nat)
    requires Matched(s, o, c)
    ensures o <= p && d <= c && Innermost(s, p, d)
    decreases c - o
  {
    if q: nat, e: nat :| o < q && e < c && Matched(s, q, e) {
      p, d := InnermostWithin(s, q, e);
    } else {
      p, d := o, c;
    }
  }

  /** An opening inside a matched pair is matched inside it. */
  lemma OpeningIsMatched(s: string, o: nat, c: nat, i: nat) returns (d: nat)
    requires Matched(s, o, c) && o < i < c && Opens(s, i)
    ensures Matched(s, i, d) && d < c
  {
    DepthSplits(s, o + 1, i, c);
    DepthSplits(s, i, i + 1, c);
    assert Depth(s, i, i + 1) == 1 && Depth(s, i + 1, c) < 0;
    var a := i + 1;
    d := a;
    while !(Closes(s, d) && Depth(s, a, d) == 0)
      invariant a <= d <= c && forall j | a <= j <= d :: Depth(s, a, j) >= 0
      decreases c - d
    {
      DepthStep(s, i, d);
      d := d + 1;
    }
  }

  lemma {:induction false} DepthWithoutOpenings(s: string, a: int, b: int)
    requires forall j | a <= j < b :: !Opens(s, j)
    ensures Depth(s, a, b) <= 0
    ensures (forall j | a <= j < b :: !Closes(s, j)) ==> Depth(s, a, b) == 0
    decreases b - a
  {
    if a < b {
      DepthWithoutOpenings(s, a, b - 1);
    }
  }

  /** MAIN RESULT: the innermost pairs in terms of characters: nothing but arrows has an angle bracket
      between the two. */
  lemma InnermostByCharacters(s: string, o: nat, c: nat)
    ensures Innermost(s, o, c) <==>
            && o < c < |s| && s[o] == '<' && s[c] == '>' && s[c - 1] != '-'
            && forall j | o < j < c :: s[j] != '<' && (s[j] == '>' ==> s[j - 1] == '-')
  {
    if Innermost(s, o, c) {
      forall j | o < j < c ensures !Opens(s, j) {
        if Opens(s, j) {
          var d := OpeningIsMatched(s, o, c, j);
        }
      }
      forall j | o < j < c ensures s[j] != '<' && (s[j] == '>' ==> s[j - 1] == '-') {
        DepthWithoutOpenings(s, o + 1, j);
        DepthStep(s, o, j);
        assert !Opens(s, j) && !Closes(s, j);
      }
    } else if o < c && Opens(s, o) && Closes(s, c) && forall j | o < j < c :: !Opens(s, j) && !Closes(s, j) {
      var a := o + 1;
      forall j | a <= j <= c ensures Depth(s, a, j) == 0 {
        DepthWithoutOpenings(s, a, j);
      }
      assert Matched(s, o, c);
    }
  }

  // ---------------------------------------------------------------- the scan

  /** The stack holds the unclosed openings, outermost first, each as deep as its place says. */
  ghost predicate StackIsUnclosed(s: string, stack: seq<nat>, i: int) {
    && (forall k: nat | k < |stack| :: Unclosed(s, stack[k], i) && Depth(s, stack[k] + 1, i) == |stack| - 1 - k)
    && (forall o: nat | Unclosed(s, o, i) :: o in stack)
  }

  lemma PushOpening(s: string, stack: seq<nat>, i: nat)
    requires StackIsUnclosed(s, stack, i) && Opens(s, i)
    ensures StackIsUnclosed(s, stack + [i], i + 1)
  {
    var more := stack + [i];
    forall k: nat | k < |more| ensures Unclosed(s, more[k], i + 1) && Depth(s, more[k] + 1, i + 1) == |more| - 1 - k {
      if k < |stack| {
        DepthStep(s, stack[k], i);
      }
    }
    forall o: nat | Unclosed(s, o, i + 1) ensures o in more {
      if o < i {
        DepthStep(s, o, i);
      }
    }
  }

  lemma SkipOther(s: string, stack: seq<nat>, i: nat)
    requires StackIsUnclosed(s, stack, i) && !Opens(s, i) && (Closes(s, i) ==> stack == [])
    ensures StackIsUnclosed(s, stack, i + 1)
  {
    forall k: nat | k < |stack|
      ensures Unclosed(s, stack[k], i + 1) && Depth(s, stack[k] + 1, i + 1) == |stack| - 1 - k
    {
      DepthStep(s, stack[k], i);
    }
    forall o: nat | Unclosed(s, o, i + 1) ensures o in stack {
      if o < i {
        DepthStep(s, o, i);
      }
    }
  }

  /** A closing bracket is matched with the top of the stack, and with nothing else. */
  lemma PopClosing(s: string, stack: seq<nat>, i: nat)
    requires StackIsUnclosed(s, stack, i) && Closes(s, i) && stack != []
    ensures StackIsUnclosed(s, stack[..|stack| - 1], i + 1)
    ensures forall o: nat :: Matched(s, o, i) <==> o == stack[|stack| - 1]
  {
    var rest := stack[..|stack| - 1];
    forall k: nat | k < |rest| ensures Unclosed(s, rest[k], i + 1) && Depth(s, rest[k] + 1, i + 1) == |rest| - 1 - k {
      DepthStep(s, stack[k], i);
    }
    forall o: nat | Unclosed(s, o, i + 1) ensures o in rest {
      if o < i {
        DepthStep(s, o, i);
        var k: nat :| k < |stack| && stack[k] == o;
        assert k < |rest| && rest[k] == o;
      }
    }
    forall o: nat | Matched(s, o, i) ensures o == stack[|stack| - 1] {
      var k: nat :| k < |stack| && stack[k] == o;
    }
  }

  type Pair = (nat, nat)

  /** The innermost pairs closed before i, in closing order. */
  ghost predicate IsInnermostList(s: string, pairs: seq<Pair>, i: int) {
    && (forall o: nat, c: nat :: (o, c) in pairs <==> Innermost(s, o, c) && c < i)
    && (forall j, k | 0 <= j < k < |pairs| :: pairs[j].1 < pairs[k].1)
  }

  /** Marked are the ends of the pairs found so far. */
  ghost predicate Marks(used: seq<bool>, pairs: seq<Pair>) {
    forall j | 0 <= j < |used| :: used[j] <==> exists p | p in pairs :: p.0 == j || p.1 == j
  }

  /** MAIN RESULT: although only innermost pairs are marked, the marks between two brackets tell whether
      the pair is innermost. */
  lemma MarksDecide(s: string, used: seq<bool>, pairs: seq<Pair>, o: nat, c: nat)
    requires |used| == |s| && Marks(used, pairs) && IsInnermostList(s, pairs, c) && Matched(s, o, c)
    ensures (forall j | o < j < c :: !used[j]) <==> Innermost(s, o, c)
  {
    if !Innermost(s, o, c) {
      var q: nat, e: nat :| o < q && e < c && Matched(s, q, e);
      var p, d := InnermostWithin(s, q, e);
      assert (p, d) in pairs && used[p];
    } else {
      forall j | o < j < c ensures !used[j] {
        if used[j] {
          var p :| p in pairs && (p.0 == j || p.1 == j);
          assert Innermost(s, p.0, p.1) && p.1 < c;
          if p.0 <= o {
            EndInsideStartInside(s, o, c, p.0, p.1);
          }
        }
      }
    }
  }

  lemma EndInsideStartInside(s: string, o: nat, c: nat, p: nat, d: nat)
    requires Matched(s, o, c) && Matched(s, p, d) && o < d < c
    ensures o < p
  {
    if p < o {
      PairsNest(s, p, d, o, c);
    } else if p == o {
      DepthSplits(s, o + 1, d + 1, c);
    }
  }

  lemma PairAdded(s: string, pairs: seq<Pair>, i: nat, o: nat)
    requires IsInnermostList(s, pairs, i)
    requires forall x: nat :: Matched(s, x, i) <==> x == o
    ensures Innermost(s, o, i) ==> IsInnermostList(s, pairs + [(o, i)], i + 1)
    ensures !Innermost(s, o, i) ==> IsInnermostList(s, pairs, i + 1)
  {
    forall j | 0 <= j < |pairs| ensures pairs[j].1 < i {
      assert (pairs[j].0, pairs[j].1) in pairs;
    }
  }

  lemma MarksAdded(used: seq<bool>, pairs: seq<Pair>, o: nat, c: nat)
    requires Marks(used, pairs) && o < |used| && c < |used|
    ensures Marks(used[o := true][c := true], pairs + [(o, c)])
  {
    var more, marked := pairs + [(o, c)], used[o := true][c := true];
    assert (o, c) in more;
    forall j | 0 <= j < |marked| ensures marked[j] <==> exists p | p in more :: p.0 == j || p.1 == j {
      if used[j] {
        var p :| p in pairs && (p.0 == j || p.1 == j);
        assert p in more;
      }
    }
  }

  /** The scan of findInnermostBrackets. */
  method InnermostPairs(input: string) returns (innerMostPairs: seq<Pair>)
    ensures IsInnermostList(input, innerMostPairs, |input|)
  {
    var stack: seq<nat> := [];
    var used := seq(|input|, _ => false);
    innerMostPairs := [];
    for i := 0 to |input|
      invariant StackIsUnclosed(input, stack, i)
      invariant |used| == |input| && Marks(used, innerMostPairs)
      invariant IsInnermostList(input, innerMostPairs, i)
    {
      if input[i] == '<' {
        PushOpening(input, stack, i);
        stack := stack + [i];
      } else if input[i] == '>' && i > 0 && input[i - 1] != '-' && stack != [] {
        var openIndex := stack[|stack| - 1];
        PopClosing(input, stack, i);
        stack := stack[..|stack| - 1];
        MarksDecide(input, used, innerMostPairs, openIndex, i);
        PairAdded(input, innerMostPairs, i, openIndex);
        var isInnermost := NoneUsed(used, openIndex, i);
        if isInnermost {
          MarksAdded(used, innerMostPairs, openIndex, i);
          innerMostPairs := innerMostPairs + [(openIndex, i)];
          used := used[openIndex := true][i := true];
        }
      } else {
        SkipOther(input, stack, i);
        NothingMatched(input, stack, i);
      }
    }
  }

  lemma NothingMatched(s: string, stack: seq<nat>, i: nat)
    requires StackIsUnclosed(s, stack, i) && (Closes(s, i) ==> stack == [])
    ensures forall o: nat :: !Matched(s, o, i)
  {
  }

  /** The inner loop over the marks. */
  method NoneUsed(used: seq<bool>, openIndex: nat, i: nat) returns (isInnermost: bool)
    requires openIndex < i <= |used|
    ensures isInnermost <==> forall j | openIndex < j < i :: !used[j]
  {
    isInnermost := true;
    var j := openIndex + 1;
    while j < i && isInnermost
      invariant openIndex < j <= i
      invariant isInnermost ==> forall k | openIndex < k < j :: !used[k]
      invariant !isInnermost ==> exists k | openIndex < k < j :: used[k]
    {
      if used[j] {
        isInnermost := false;
      }
      j := j + 1;
    }
  }

  /** findInnermostBrackets: the texts inside the innermost pairs, in closing order. */
  method FindInnermostBrackets(input: string) returns (ans: seq<string>)
    ensures exists pairs :: IsInnermostList(input, pairs, |input|) && AreInside(input, pairs, ans)
  {
    var innerMostPairs := InnermostPairs(input);
    ans := [];
    for k := 0 to |innerMostPairs|
      invariant AreInside(input, innerMostPairs[..k], ans)
    {
      var p := innerMostPairs[k];
      assert (p.0, p.1) in innerMostPairs;
      ans := ans + [input[p.0 + 1..p.1]];
    }
    assert innerMostPairs[..|innerMostPairs|] == innerMostPairs;
  }

  predicate AreInside(input: string, pairs: seq<Pair>, ans: seq<string>) {
    |ans| == |pairs| && forall k | 0 <= k < |pairs| ::
      pairs[k].0 < pairs[k].1 <= |input| && ans[k] == input[pairs[k].0 + 1..pairs[k].1]
  }

  /** The list is determined: the answer cannot be another. */
  lemma InnermostListIsUnique(s: string, a: seq<Pair>, b: seq<Pair>, i: int)
    requires IsInnermostList(s, a, i) && IsInnermostList(s, b, i)
    ensures a == b
  {
    forall p ensures p in a <==> p in b {
      assert (p.0, p.1) in a <==> (p.0, p.1) in b;
    }
    SortedByEndIsUnique(a, b);
  }

  lemma {:induction false} SortedByEndIsUnique(a: seq<Pair>, b: seq<Pair>)
    requires forall p :: p in a <==> p in b
    requires forall j, k | 0 <= j < k < |a| :: a[j].1 < a[k].1
    requires forall j, k | 0 <= j < k < |b| :: b[j].1 < b[k].1
    ensures a == b
    decreases |a|
  {
    if a == [] {
      assert forall k | 0 <= k < |b| :: b[k] in a;
    } else {
      assert a[|a| - 1] in b;
      var x, y := a[|a| - 1], b[|b| - 1];
      assert y in a && x in b;
      assert x == y;
      var a0, b0 := a[..|a| - 1], b[..|b| - 1];
      forall p ensures p in a0 <==> p in b0 {
        assert p in a0 <==> p in a && p != x;
        assert p in b0 <==> p in b && p != y;
      }
      SortedByEndIsUnique(a0, b0);
    }
  }
}
