/** Inserting and replacing lines of a source file by original line number, and filling holes in it
    (svf-llvm/lib/SYN/LightAnalysis.cpp). */
module LineEdits {
  import opened HoleFilling
  import opened TextLines

  /** lineOffsetMap: pairs (line, number of lines inserted for it), in the order of an ordered map. */
  type Offsets = seq<(int, int)>

  predicate Ordered(m: Offsets) {
    && (forall i, j | 0 <= i < j < |m| :: m[i].0 < m[j].0)
    && (forall i | 0 <= i < |m| :: m[i].1 > 0)
  }

  /** What the map adds up to for all lines up to x. */
  function SumUpTo(m: Offsets, x: int): int {
    if m == [] then 0
    else SumUpTo(m[..|m| - 1], x) + if m[|m| - 1].0 <= x then m[|m| - 1].1 else 0
  }

  /** lineOffsetMap[t] += 1 */
  function Bump(m: Offsets, t: int): Offsets {
    if m == [] then [(t, 1)]
    else
      var n := |m| - 1;
      if m[n].0 < t then m + [(t, 1)]
      else if m[n].0 == t then m[..n] + [(t, m[n].1 + 1)]
      else Bump(m[..n], t) + [m[n]]
  }

  /** The loop that moves the keys behind the insertion by one. */
  function Rekey(m: Offsets, adjusted: int): Offsets {
    if m == [] then []
    else
      var n := |m| - 1;
      Rekey(m[..n], adjusted) + [if m[n].0 > adjusted then (m[n].0 + 1, m[n].1) else m[n]]
  }

  datatype Context = Context(workText: string, lineOffsetMap: Offsets)

  function Adjusted(c: Context, targetLine: int): int {
    targetLine + SumUpTo(c.lineOffsetMap, targetLine)
  }

  function InsertAt(lines: seq<string>, k: int, str: string): seq<string> {
    if 0 <= k < |lines| then lines[..k] + [str] + lines[k..] else lines
  }

  /** The same with the end of the text as a possible place. */
  function InsertUpTo(lines: seq<string>, k: int, str: string): seq<string> {
    if k == |lines| then lines + [str] else InsertAt(lines, k, str)
  }

  /** What addNewCodeSnippetAfter makes of a file. */
  function AfterInsert(c: Context, targetLine: int, str: string): Context {
    var adjusted := Adjusted(c, targetLine);
    Context(Join(InsertAt(Lines(c.workText), adjusted, str)), Bump(Rekey(c.lineOffsetMap, adjusted), targetLine))
  }

  /** What addNewCodeSnippetBefore makes of a file. */
  function AfterInsertBefore(c: Context, targetLine: int, str: string): Context {
    var adjusted := targetLine + SumUpTo(c.lineOffsetMap, targetLine - 1);
    Context(Join(InsertUpTo(Lines(c.workText), adjusted - 1, str)),
            Bump(Rekey(c.lineOffsetMap, adjusted - 1), targetLine - 1))
  }

  lemma InsertedBefore(c: Context, now: Context, targetLine: int, adjusted: int, str: string)
    requires adjusted == targetLine + SumUpTo(c.lineOffsetMap, targetLine - 1)
    requires now.workText == Join(InsertUpTo(Lines(c.workText), adjusted - 1, str))
    requires now.lineOffsetMap == Bump(Rekey(c.lineOffsetMap, adjusted - 1), targetLine - 1)
    ensures now == AfterInsertBefore(c, targetLine, str)
  {
  }

  /** What replace makes of a file. */
  function AfterReplace(c: Context, targetLine: int, str: string): Context {
    var adjusted := targetLine + SumUpTo(c.lineOffsetMap, targetLine - 1);
    var lines := Lines(c.workText);
    Context(Join(if 1 <= adjusted <= |lines| then lines[adjusted - 1 := str] else lines), c.lineOffsetMap)
  }

  /** What setHoleFilling makes of a file. */
  function AfterFilling(c: Context, holeNumber: int, varName: string): Context {
    Context(Filled(c.workText, holeNumber, varName), c.lineOffsetMap)
  }

  // ---------------------------------------------------------------- the methods

  class Modification {
    var workText: string
    var lineOffsetMap: Offsets

    function Now(): Context
      reads this
    {
      Context(workText, lineOffsetMap)
    }

    constructor (text: string)
      ensures Now() == Context(text, [])
    {
      workText, lineOffsetMap := text, [];
    }

    /** The loop over the ordered map; `strict` leaves out the target line itself. */
    method Adjust(targetLine: int, strict: bool) returns (adjusted: int)
      requires Ordered(lineOffsetMap)
      ensures adjusted == targetLine + SumUpTo(lineOffsetMap, if strict then targetLine - 1 else targetLine)
      ensures adjusted >= targetLine
    {
      adjusted := targetLine;
      var x := if strict then targetLine - 1 else targetLine;
      var i := 0;
      while i < |lineOffsetMap| &&
            (if strict then lineOffsetMap[i].0 < targetLine else lineOffsetMap[i].0 <= targetLine)
        invariant 0 <= i <= |lineOffsetMap|
        invariant adjusted == targetLine + SumUpTo(lineOffsetMap[..i], x) >= targetLine
      {
        assert lineOffsetMap[..i + 1][..i] == lineOffsetMap[..i];
        adjusted := adjusted + lineOffsetMap[i].1;
        i := i + 1;
      }
      SumStops(lineOffsetMap, i, x);
    }

    /** addNewCodeSnippetAfter */
    method AddNewCodeSnippetAfter(targetLine: int, str: string)
      requires targetLine >= 0 && Ordered(lineOffsetMap)
      modifies this
      ensures Now() == AfterInsert(old(Now()), targetLine, str) && Ordered(lineOffsetMap)
    {
      ghost var c := Now();
      var adjusted := Adjust(targetLine, false);
      assert adjusted == Adjusted(c, targetLine);
      InsertLine(adjusted, str);
      assert workText == AfterInsert(c, targetLine, str).workText;
      Record(adjusted, targetLine);
    }

    method InsertLine(adjusted: int, str: string)
      requires 0 <= adjusted
      modifies this`workText
      ensures workText == Join(InsertAt(Lines(old(workText)), adjusted, str))
    {
      var lines := SplitLines(workText);
      if adjusted < |lines| {
        lines := lines[..adjusted] + [str] + lines[adjusted..];
      }
      workText := JoinLines(lines);
    }

    method Record(adjusted: int, targetLine: int)
      requires Ordered(lineOffsetMap)
      modifies this`lineOffsetMap
      ensures lineOffsetMap == Bump(Rekey(old(lineOffsetMap), adjusted), targetLine) && Ordered(lineOffsetMap)
    {
      var newOffsetMap := Rekeyed(adjusted);
      RekeyOrdered(lineOffsetMap, adjusted);
      BumpOrdered(newOffsetMap, targetLine);
      lineOffsetMap := Bump(newOffsetMap, targetLine);
    }

    /** The loop that fills the new map. */
    method Rekeyed(adjusted: int) returns (newOffsetMap: Offsets)
      ensures newOffsetMap == Rekey(lineOffsetMap, adjusted)
    {
      newOffsetMap := [];
      for i := 0 to |lineOffsetMap|
        invariant newOffsetMap == Rekey(lineOffsetMap[..i], adjusted)
      {
        assert lineOffsetMap[..i + 1][..i] == lineOffsetMap[..i];
        var pair := lineOffsetMap[i];
        if pair.0 > adjusted {
          newOffsetMap := newOffsetMap + [(pair.0 + 1, pair.1)];
        } else {
          newOffsetMap := newOffsetMap + [pair];
        }
      }
      assert lineOffsetMap[..|lineOffsetMap|] == lineOffsetMap;
    }

    /** addNewCodeSnippetBefore; an insertion further behind the end of the text is undefined. */
    method AddNewCodeSnippetBefore(targetLine: int, str: string)
      requires targetLine >= 0 && Ordered(lineOffsetMap)
      requires targetLine + SumUpTo(lineOffsetMap, targetLine - 1) <= |Lines(workText)| + 1
      modifies this
      ensures Now() == AfterInsertBefore(old(Now()), targetLine, str) && Ordered(lineOffsetMap)
    {
      ghost var c := Now();
      var adjusted := Adjust(targetLine, true);
      InsertBefore(adjusted, str);
      RecordBefore(adjusted, targetLine);
      InsertedBefore(c, Now(), targetLine, adjusted, str);
    }

    method InsertBefore(adjusted: int, str: string)
      requires 0 <= adjusted <= |Lines(workText)| + 1
      modifies this`workText
      ensures workText == Join(InsertUpTo(Lines(old(workText)), adjusted - 1, str))
    {
      var lines := SplitLines(workText);
      ghost var before := lines;
      if adjusted > 0 {
        lines := lines[..adjusted - 1] + [str] + lines[adjusted - 1..];
      }
      assert lines == InsertUpTo(before, adjusted - 1, str);
      workText := JoinLines(lines);
    }

    method RecordBefore(adjusted: int, targetLine: int)
      requires Ordered(lineOffsetMap)
      modifies this`lineOffsetMap
      ensures lineOffsetMap == Bump(Rekey(old(lineOffsetMap), adjusted - 1), targetLine - 1) && Ordered(lineOffsetMap)
    {
      var newOffsetMap := RekeyedFrom(adjusted);
      RekeyOrdered(lineOffsetMap, adjusted - 1);
      BumpOrdered(newOffsetMap, targetLine - 1);
      lineOffsetMap := Bump(newOffsetMap, targetLine - 1);
    }

    /** The loop that fills the new map, here with the adjusted line included. */
    method RekeyedFrom(adjusted: int) returns (newOffsetMap: Offsets)
      ensures newOffsetMap == Rekey(lineOffsetMap, adjusted - 1)
    {
      newOffsetMap := [];
      for i := 0 to |lineOffsetMap|
        invariant newOffsetMap == Rekey(lineOffsetMap[..i], adjusted - 1)
      {
        assert lineOffsetMap[..i + 1][..i] == lineOffsetMap[..i];
        var pair := lineOffsetMap[i];
        if pair.0 >= adjusted {
          newOffsetMap := newOffsetMap + [(pair.0 + 1, pair.1)];
        } else {
          newOffsetMap := newOffsetMap + [pair];
        }
      }
      assert lineOffsetMap[..|lineOffsetMap|] == lineOffsetMap;
    }

    /** replace */
    method Replace(targetLine: int, str: string)
      requires targetLine >= 1 && Ordered(lineOffsetMap)
      modifies this`workText
      ensures Now() == AfterReplace(old(Now()), targetLine, str)
    {
      var adjusted := Adjust(targetLine, true);
      var lines := SplitLines(workText);
      if adjusted <= |lines| {
        lines := lines[adjusted - 1 := str];
      }
      workText := JoinLines(lines);
    }

    /** setHoleFilling with a variable name */
    method SetHoleFilling(holeNumber: int, varName: string)
      modifies this`workText
      ensures Now() == AfterFilling(old(Now()), holeNumber, varName)
      ensures forall d | Writes(d, holeNumber) :: workText == Join(FillAll(Lines(old(workText)), "$" + d, varName))
    {
      forall d | Writes(d, holeNumber) ensures "$" + d == Placeholder(holeNumber) {
        WrittenExactlyAs(d, holeNumber);
      }
      var lines := SplitLines(workText);
      lines := FillLines(lines, Placeholder(holeNumber), varName);
      workText := JoinLines(lines);
    }
  }

  lemma {:induction false} SumStops(m: Offsets, i: int, x: int)
    requires 0 <= i <= |m| && forall j | i <= j < |m| :: m[j].0 > x
    ensures SumUpTo(m, x) == SumUpTo(m[..i], x)
    decreases |m|
  {
    if i < |m| {
      SumStops(m[..|m| - 1], i, x);
      assert m[..|m| - 1][..i] == m[..i];
    } else {
      assert m[..i] == m;
    }
  }

  lemma {:induction false} RekeyAt(m: Offsets, a: int)
    ensures |Rekey(m, a)| == |m|
    ensures forall i | 0 <= i < |m| :: Rekey(m, a)[i] == if m[i].0 > a then (m[i].0 + 1, m[i].1) else m[i]
  {
    if m != [] {
      RekeyAt(m[..|m| - 1], a);
    }
  }

  lemma RekeyOrdered(m: Offsets, a: int)
    requires Ordered(m)
    ensures Ordered(Rekey(m, a))
  {
    RekeyAt(m, a);
  }

  lemma OrderedAppend(m: Offsets, p: (int, int))
    requires Ordered(m) && p.1 > 0 && forall i | 0 <= i < |m| :: m[i].0 < p.0
    ensures Ordered(m + [p])
  {
  }

  /** operator[] of an ordered map, then += 1. */
  lemma {:induction false} BumpOrdered(m: Offsets, t: int)
    requires Ordered(m)
    ensures Ordered(Bump(m, t))
  {
    if m != [] {
      var n := |m| - 1;
      if m[n].0 < t {
        OrderedAppend(m, (t, 1));
      } else if m[n].0 == t {
        OrderedAppend(m[..n], (t, m[n].1 + 1));
      } else {
        BumpOrdered(m[..n], t);
        BumpBelow(m[..n], t, m[n].0);
        OrderedAppend(Bump(m[..n], t), m[n]);
      }
    }
  }

  lemma {:induction false} BumpBelow(m: Offsets, t: int, x: int)
    requires t < x && forall i | 0 <= i < |m| :: m[i].0 < x
    ensures forall i | 0 <= i < |Bump(m, t)| :: Bump(m, t)[i].0 < x
  {
    if m != [] && m[|m| - 1].0 > t {
      BumpBelow(m[..|m| - 1], t, x);
    }
  }

  lemma {:induction false} SumOfBump(m: Offsets, t: int, x: int)
    ensures SumUpTo(Bump(m, t), x) == SumUpTo(m, x) + if t <= x then 1 else 0
  {
    if m != [] {
      var n := |m| - 1;
      if m[n].0 < t {
        assert (m + [(t, 1)])[..n + 1] == m;
      } else if m[n].0 > t {
        SumOfBump(m[..n], t, x);
        assert Bump(m, t)[..|Bump(m, t)| - 1] == Bump(m[..n], t);
      } else {
        assert Bump(m, t)[..n] == m[..n];
      }
    }
  }

  // ---------------------------------------------------------------- where lines should be

  /** A snippet inserted after an original line (0 is before the first). */
  datatype Edit = Edit(line: int, snippet: string)

  function CountUpTo(edits: seq<Edit>, x: int): nat {
    if edits == [] then 0
    else CountUpTo(edits[..|edits| - 1], x) + if edits[|edits| - 1].line <= x then 1 else 0
  }

  function CountAt(edits: seq<Edit>, x: int): nat {
    if edits == [] then 0
    else CountAt(edits[..|edits| - 1], x) + if edits[|edits| - 1].line == x then 1 else 0
  }

  /** Index of the original line with index k: the insertions for the lines up to it come first. */
  function LineIndex(edits: seq<Edit>, k: nat): nat { k + CountUpTo(edits, k) }

  /** Index of the i-th snippet: behind its line and the earlier snippets for that line. */
  function SnippetIndex(edits: seq<Edit>, i: nat): int
    requires i < |edits|
  {
    edits[i].line + CountUpTo(edits, edits[i].line - 1) + CountAt(edits[..i], edits[i].line)
  }

  predicate LineAt(lines: seq<string>, i: int, line: string) {
    0 <= i < |lines| && lines[i] == line
  }

  ghost predicate Placed(orig: seq<string>, edits: seq<Edit>, lines: seq<string>) {
    && |lines| == |orig| + |edits|
    && (forall i: nat | i < |edits| :: 0 <= edits[i].line < |orig|)
    && (forall k: nat | k < |orig| :: LineAt(lines, LineIndex(edits, k), orig[k]))
    && (forall i: nat | i < |edits| :: LineAt(lines, SnippetIndex(edits, i), edits[i].snippet))
  }

  ghost predicate OffsetsExact(m: Offsets, edits: seq<Edit>) {
    forall x: int :: SumUpTo(m, x) == CountUpTo(edits, x)
  }

  ghost predicate Tracks(orig: seq<string>, edits: seq<Edit>, c: Context) {
    && Ordered(c.lineOffsetMap) && OffsetsExact(c.lineOffsetMap, edits)
    && Placed(orig, edits, Lines(c.workText))
  }

  // ---------------------------------------------------------------- counting

  lemma {:induction false} CountGrows(edits: seq<Edit>, x: int, y: int)
    requires x <= y
    ensures CountUpTo(edits, x) <= CountUpTo(edits, y) <= |edits|
  {
    if edits != [] {
      CountGrows(edits[..|edits| - 1], x, y);
    }
  }

  lemma {:induction false} CountSplits(edits: seq<Edit>, x: int)
    ensures CountUpTo(edits, x) == CountUpTo(edits, x - 1) + CountAt(edits, x)
  {
    if edits != [] {
      CountSplits(edits[..|edits| - 1], x);
    }
  }

  /** There are fewer earlier snippets for a line than snippets for it in all. */
  lemma {:induction false} EarlierAreFewer(edits: seq<Edit>, i: nat)
    requires i < |edits|
    ensures CountAt(edits[..i], edits[i].line) < CountAt(edits, edits[i].line)
  {
    var n := |edits| - 1;
    if i < n {
      EarlierAreFewer(edits[..n], i);
      assert edits[..n][..i] == edits[..i];
    }
  }

  lemma SnippetRange(edits: seq<Edit>, i: nat)
    requires i < |edits|
    ensures var t := edits[i].line;
            t + CountUpTo(edits, t - 1) <= SnippetIndex(edits, i) < t + CountUpTo(edits, t)
  {
    EarlierAreFewer(edits, i);
    CountSplits(edits, edits[i].line);
  }

  /** A snippet never sits where an original line does. */
  lemma SnippetsAndLinesApart(edits: seq<Edit>, i: nat, k: nat)
    requires i < |edits|
    ensures SnippetIndex(edits, i) < LineIndex(edits, k) <==> edits[i].line <= k
    ensures SnippetIndex(edits, i) != LineIndex(edits, k)
  {
    SnippetRange(edits, i);
    if edits[i].line <= k {
      CountGrows(edits, edits[i].line, k);
    } else {
      CountGrows(edits, k, edits[i].line - 1);
    }
  }

  lemma WithEdit(edits: seq<Edit>, e: Edit, x: int)
    ensures CountUpTo(edits + [e], x) == CountUpTo(edits, x) + if e.line <= x then 1 else 0
    ensures CountAt(edits + [e], x) == CountAt(edits, x) + if e.line == x then 1 else 0
  {
    assert (edits + [e])[..|edits|] == edits;
  }

  // ---------------------------------------------------------------- one insertion

  lemma LineMoves(edits: seq<Edit>, e: Edit, k: nat)
    ensures var adjusted := e.line + CountUpTo(edits, e.line);
            LineIndex(edits + [e], k) ==
            if LineIndex(edits, k) < adjusted then LineIndex(edits, k) else LineIndex(edits, k) + 1
  {
    WithEdit(edits, e, k);
    if k < e.line {
      CountGrows(edits, k, e.line);
    } else {
      CountGrows(edits, e.line, k);
    }
  }

  lemma PrefixOfLonger(edits: seq<Edit>, e: Edit, i: nat)
    requires i < |edits|
    ensures (edits + [e])[..i] == edits[..i] && (edits + [e])[i] == edits[i]
  {
  }

  lemma {:induction false} SnippetMoves(edits: seq<Edit>, e: Edit, i: nat)
    requires i < |edits|
    ensures var adjusted := e.line + CountUpTo(edits, e.line);
            SnippetIndex(edits + [e], i) ==
            if SnippetIndex(edits, i) < adjusted then SnippetIndex(edits, i) else SnippetIndex(edits, i) + 1
  {
    var t := edits[i].line;
    PrefixOfLonger(edits, e, i);
    WithEdit(edits, e, t - 1);
    SnippetRange(edits, i);
    if t <= e.line {
      CountGrows(edits, t, e.line);
    } else {
      CountGrows(edits, e.line, t - 1);
    }
  }

  /** Inserting behind the earlier insertions for a line leaves every line where it should be. */
  lemma InsertPlaces(orig: seq<string>, edits: seq<Edit>, lines: seq<string>, e: Edit)
    requires Placed(orig, edits, lines) && 0 <= e.line < |orig|
    ensures Placed(orig, edits + [e], InsertAt(lines, e.line + CountUpTo(edits, e.line), e.snippet))
  {
    var more, now := edits + [e], InsertAt(lines, e.line + CountUpTo(edits, e.line), e.snippet);
    CountGrows(edits, e.line, e.line);
    forall k: nat | k < |orig| ensures LineAt(now, LineIndex(more, k), orig[k]) {
      LinePlaced(orig, edits, lines, e, k);
    }
    forall i: nat | i < |more| ensures LineAt(now, SnippetIndex(more, i), more[i].snippet) {
      SnippetPlaced(orig, edits, lines, e, i);
    }
  }

  /** An insertion moves the lines from its place on. */
  lemma InsertMoves(lines: seq<string>, a: int, str: string, i: int, line: string)
    requires LineAt(lines, i, line) && 0 <= a < |lines|
    ensures LineAt(InsertAt(lines, a, str), if i < a then i else i + 1, line)
  {
  }

  lemma LinePlaced(orig: seq<string>, edits: seq<Edit>, lines: seq<string>, e: Edit, k: nat)
    requires Placed(orig, edits, lines) && 0 <= e.line < |orig| && k < |orig|
    ensures LineAt(InsertAt(lines, e.line + CountUpTo(edits, e.line), e.snippet), LineIndex(edits + [e], k), orig[k])
  {
    CountGrows(edits, e.line, e.line);
    LineMoves(edits, e, k);
    InsertMoves(lines, e.line + CountUpTo(edits, e.line), e.snippet, LineIndex(edits, k), orig[k]);
  }

  lemma SnippetPlaced(orig: seq<string>, edits: seq<Edit>, lines: seq<string>, e: Edit, i: nat)
    requires Placed(orig, edits, lines) && 0 <= e.line < |orig| && i < |edits + [e]|
    ensures LineAt(InsertAt(lines, e.line + CountUpTo(edits, e.line), e.snippet),
                   SnippetIndex(edits + [e], i), (edits + [e])[i].snippet)
  {
    CountGrows(edits, e.line, e.line);
    if i < |edits| {
      SnippetMoves(edits, e, i);
      InsertMoves(lines, e.line + CountUpTo(edits, e.line), e.snippet, SnippetIndex(edits, i), edits[i].snippet);
    } else {
      NewSnippet(edits, e);
    }
  }

  lemma {:induction false} NewSnippet(edits: seq<Edit>, e: Edit)
    ensures SnippetIndex(edits + [e], |edits|) == e.line + CountUpTo(edits, e.line)
  {
    assert (edits + [e])[..|edits|] == edits;
    WithEdit(edits, e, e.line - 1);
    CountSplits(edits, e.line);
  }

  predicate NoLaterKey(m: Offsets, adjusted: int) {
    forall i | 0 <= i < |m| :: m[i].0 <= adjusted
  }

  lemma {:induction false} RekeySum(m: Offsets, a: int, x: int)
    requires forall i | 0 <= i < |m| :: m[i].0 < x
    ensures SumUpTo(Rekey(m, a), x) == SumUpTo(m, x)
  {
    if m != [] {
      var n := |m| - 1;
      RekeySum(m[..n], a, x);
      assert Rekey(m, a)[..|Rekey(m, a)| - 1] == Rekey(m[..n], a);
    }
  }

  /** Moving a key loses lines: what was inserted for it no longer counts for the line after it. */
  lemma RekeyLoses(m: Offsets, a: int)
    requires Ordered(m) && m != [] && m[|m| - 1].0 > a
    ensures SumUpTo(Rekey(m, a), m[|m| - 1].0) < SumUpTo(m, m[|m| - 1].0)
  {
    var n := |m| - 1;
    RekeySum(m[..n], a, m[n].0);
    assert Rekey(m, a)[..|Rekey(m, a)| - 1] == Rekey(m[..n], a);
  }

  lemma RekeyNothing(m: Offsets, a: int)
    requires NoLaterKey(m, a)
    ensures Rekey(m, a) == m
  {
    RekeyAt(m, a);
  }

  /** The keys of an exact map are lines that something was inserted for. */
  lemma KeysAreTargets(m: Offsets, edits: seq<Edit>, i: nat)
    requires Ordered(m) && OffsetsExact(m, edits) && i < |m|
    ensures exists j: nat | j < |edits| :: edits[j].line == m[i].0
  {
    var k := m[i].0;
    SumAtKey(m, i);
    CountSplits(edits, k);
    CountedIsThere(edits, k);
  }

  /** And every such line is a key. */
  lemma TargetsAreKeys(m: Offsets, edits: seq<Edit>, j: nat)
    requires OffsetsExact(m, edits) && j < |edits|
    ensures exists i: nat | i < |m| :: m[i].0 == edits[j].line
  {
    var x := edits[j].line;
    EarlierAreFewer(edits, j);
    CountSplits(edits, x);
    KeyOfSum(m, x);
  }

  lemma {:induction false} KeyOfSum(m: Offsets, x: int)
    requires SumUpTo(m, x) != SumUpTo(m, x - 1)
    ensures exists i: nat | i < |m| :: m[i].0 == x
  {
    var n := |m| - 1;
    if m[n].0 != x {
      KeyOfSum(m[..n], x);
      var i: nat :| i < n && m[..n][i].0 == x;
      assert m[i].0 == x;
    }
  }

  lemma {:induction false} SumAtKey(m: Offsets, i: nat)
    requires Ordered(m) && i < |m|
    ensures SumUpTo(m, m[i].0) > SumUpTo(m, m[i].0 - 1)
  {
    var n := |m| - 1;
    if i < n {
      SumAtKey(m[..n], i);
    } else {
      SumGrows(m[..n], m[n].0 - 1, m[n].0);
    }
  }

  lemma {:induction false} SumGrows(m: Offsets, x: int, y: int)
    requires Ordered(m) && x <= y
    ensures SumUpTo(m, x) <= SumUpTo(m, y)
  {
    if m != [] {
      SumGrows(m[..|m| - 1], x, y);
    }
  }

  lemma {:induction false} CountedIsThere(edits: seq<Edit>, x: int)
    requires CountAt(edits, x) > 0
    ensures exists j: nat | j < |edits| :: edits[j].line == x
  {
    var n := |edits| - 1;
    if edits[n].line != x {
      CountedIsThere(edits[..n], x);
      var j: nat :| j < n && edits[..n][j].line == x;
      assert edits[j].line == x;
    }
  }

  /** The offsets stay right if and only if no recorded line lies behind the adjusted target. */
  lemma OffsetsStayExactExactlyWhen(m: Offsets, edits: seq<Edit>, e: Edit, adjusted: int)
    requires Ordered(m) && OffsetsExact(m, edits) && adjusted == e.line + SumUpTo(m, e.line)
    ensures OffsetsExact(Bump(Rekey(m, adjusted), e.line), edits + [e]) <==> NoLaterKey(m, adjusted)
  {
    var now := Bump(Rekey(m, adjusted), e.line);
    if NoLaterKey(m, adjusted) {
      RekeyNothing(m, adjusted);
      forall x: int ensures SumUpTo(now, x) == CountUpTo(edits + [e], x) {
        SumOfBump(m, e.line, x);
        WithEdit(edits, e, x);
      }
    } else {
      assert m[|m| - 1].0 > adjusted;
      var x := m[|m| - 1].0;
      RekeyLoses(m, adjusted);
      SumOfBump(Rekey(m, adjusted), e.line, x);
      WithEdit(edits, e, x);
    }
  }

  lemma InsertedLines(c: Context, t: int, snippet: string)
    requires '\n' !in snippet || !(0 <= Adjusted(c, t) < |Lines(c.workText)|)
    ensures Lines(AfterInsert(c, t, snippet).workText) == InsertAt(Lines(c.workText), Adjusted(c, t), snippet)
  {
    LinesAreSingle(c.workText);
    LinesOfJoin(InsertAt(Lines(c.workText), Adjusted(c, t), snippet));
  }

  /** A snippet of several lines adds more lines than are recorded for it. */
  lemma InsertedCount(c: Context, t: int, snippet: string)
    requires 0 <= Adjusted(c, t) < |Lines(c.workText)|
    ensures |Lines(AfterInsert(c, t, snippet).workText)| == |Lines(c.workText)| + 1 + Breaks(snippet)
  {
    var lines, k := Lines(c.workText), Adjusted(c, t);
    var now := InsertAt(lines, k, snippet);
    LinesAreSingle(c.workText);
    BreaksOfJoin(now, k);
    LinesOfAnyJoin(now);
  }

  /** MAIN RESULT, for targets in any order: an insertion puts the snippet behind the earlier ones for its
      line and leaves all lines in place if and only if the target lies before the last line and the
      snippet is a single line; otherwise a snippet is dropped, or moves the lines behind it by too much.
      The offsets stay right for every later edit if, besides, no line recorded so far lies behind the
      adjusted target, and only then. */
  lemma InsertTracksExactlyWhen(orig: seq<string>, edits: seq<Edit>, c: Context, e: Edit)
    requires Tracks(orig, edits, c) && e.line >= 0
    ensures Placed(orig, edits + [e], Lines(AfterInsert(c, e.line, e.snippet).workText)) <==>
            e.line < |orig| && '\n' !in e.snippet
    ensures Tracks(orig, edits + [e], AfterInsert(c, e.line, e.snippet)) <==>
            e.line < |orig| && '\n' !in e.snippet && NoLaterKey(c.lineOffsetMap, Adjusted(c, e.line))
    ensures e.line >= |orig| ==> Lines(AfterInsert(c, e.line, e.snippet).workText) == Lines(c.workText)
  {
    PlacedExactlyWhen(orig, edits, c, e);
    var m, adjusted := c.lineOffsetMap, Adjusted(c, e.line);
    assert Ordered(Bump(Rekey(m, adjusted), e.line)) by {
      RekeyOrdered(m, adjusted);
      BumpOrdered(Rekey(m, adjusted), e.line);
    }
    OffsetsStayExactExactlyWhen(m, edits, e, adjusted);
  }

  lemma PlacedExactlyWhen(orig: seq<string>, edits: seq<Edit>, c: Context, e: Edit)
    requires Tracks(orig, edits, c) && e.line >= 0
    ensures Placed(orig, edits + [e], Lines(AfterInsert(c, e.line, e.snippet).workText)) <==>
            e.line < |orig| && '\n' !in e.snippet
    ensures e.line >= |orig| ==> Lines(AfterInsert(c, e.line, e.snippet).workText) == Lines(c.workText)
  {
    if e.line >= |orig| {
      DroppedBehindEnd(orig, edits, c, e);
      assert (edits + [e])[|edits|] == e;
    } else if '\n' in e.snippet {
      MisplacedBySeveralLines(orig, edits, c, e);
    } else {
      CountGrows(edits, e.line, e.line);
      InsertedLines(c, e.line, e.snippet);
      InsertPlaces(orig, edits, Lines(c.workText), e);
    }
  }

  lemma DroppedBehindEnd(orig: seq<string>, edits: seq<Edit>, c: Context, e: Edit)
    requires Tracks(orig, edits, c) && e.line >= |orig|
    ensures Lines(AfterInsert(c, e.line, e.snippet).workText) == Lines(c.workText)
  {
    AllCounted(edits, e.line);
    InsertedLines(c, e.line, e.snippet);
  }

  lemma MisplacedBySeveralLines(orig: seq<string>, edits: seq<Edit>, c: Context, e: Edit)
    requires Tracks(orig, edits, c) && 0 <= e.line < |orig| && '\n' in e.snippet
    ensures |Lines(AfterInsert(c, e.line, e.snippet).workText)| > |orig| + |edits + [e]|
  {
    CountGrows(edits, e.line, e.line);
    InsertedCount(c, e.line, e.snippet);
    NoBreaksMeans(e.snippet);
  }

  lemma {:induction false} AllCounted(edits: seq<Edit>, x: int)
    requires forall i | 0 <= i < |edits| :: edits[i].line <= x
    ensures CountUpTo(edits, x) == |edits|
  {
    if edits != [] {
      AllCounted(edits[..|edits| - 1], x);
    }
  }

  /** MAIN RESULT: inserting before a line and inserting after the line above it are the same, text and
      offsets, if and only if the place is not the very end of the text, where only the former inserts. */
  lemma BeforeIsAfterExactlyWhen(c: Context, t: int, str: string)
    requires t >= 1 && Ordered(c.lineOffsetMap) && t - 1 + SumUpTo(c.lineOffsetMap, t - 1) <= |Lines(c.workText)|
    ensures AfterInsertBefore(c, t, str) == AfterInsert(c, t - 1, str) <==>
            t - 1 + SumUpTo(c.lineOffsetMap, t - 1) < |Lines(c.workText)|
  {
    var lines, k := Lines(c.workText), Adjusted(c, t - 1);
    SumNotNegative(c.lineOffsetMap, t - 1);
    if k == |lines| {
      var longer := lines + [str];
      assert longer[..|longer| - 1] == lines;
      assert |Join(longer)| == |Join(lines)| + |str| + 1;
    }
  }

  lemma {:induction false} SumNotNegative(m: Offsets, x: int)
    requires Ordered(m)
    ensures SumUpTo(m, x) >= 0
  {
    if m != [] {
      SumNotNegative(m[..|m| - 1], x);
    }
  }

  // ---------------------------------------------------------------- whole runs

  function Run(c: Context, edits: seq<Edit>): Context {
    if edits == [] then c
    else AfterInsert(Run(c, edits[..|edits| - 1]), edits[|edits| - 1].line, edits[|edits| - 1].snippet)
  }

  predicate NonDecreasing(edits: seq<Edit>) {
    forall i, j | 0 <= i < j < |edits| :: edits[i].line <= edits[j].line
  }

  predicate SingleLinesBefore(edits: seq<Edit>, count: nat) {
    forall i | 0 <= i < |edits| :: 0 <= edits[i].line < count && '\n' !in edits[i].snippet
  }

  lemma UneditedTracks(text: string)
    ensures Tracks(Lines(text), [], Context(text, []))
  {
    forall x: int ensures SumUpTo([], x) == CountUpTo([], x) {}
  }

  ghost predicate TracksAfter(text: string, edits: seq<Edit>) {
    Tracks(Lines(text), edits, Run(Context(text, []), edits))
  }

  /** Every state of a run is right, the first and the last included. */
  ghost predicate RunTracks(text: string, edits: seq<Edit>) {
    forall k: nat | k <= |edits| :: TracksAfter(text, edits[..k])
  }

  /** No earlier target lies behind the place where the insertion for line t goes. */
  ghost predicate BehindAll(edits: seq<Edit>, t: int) {
    forall i | 0 <= i < |edits| :: edits[i].line <= t + CountUpTo(edits, t)
  }

  ghost predicate SafeNext(before: seq<Edit>, e: Edit, count: nat) {
    0 <= e.line < count && '\n' !in e.snippet && BehindAll(before, e.line)
  }

  /** Every snippet is a single line for a target before the last line, and no earlier target lies behind
      the place of a later insertion. */
  ghost predicate SafeRun(edits: seq<Edit>, count: nat) {
    forall k: nat | k < |edits| :: SafeNext(edits[..k], edits[k], count)
  }

  lemma AllPrefixes(good: seq<Edit> -> bool, safe: (seq<Edit>, Edit) -> bool, edits: seq<Edit>)
    requires good([])
    requires forall k: nat | k < |edits| && good(edits[..k]) :: good(edits[..k + 1]) <==> safe(edits[..k], edits[k])
    ensures (forall k: nat | k <= |edits| :: good(edits[..k])) <==>
            (forall k: nat | k < |edits| :: safe(edits[..k], edits[k]))
  {
    assert edits[..0] == [];
    if forall k: nat | k < |edits| :: safe(edits[..k], edits[k]) {
      for n := 0 to |edits|
        invariant forall k: nat | k <= n :: good(edits[..k])
      {
        assert safe(edits[..n], edits[n]);
      }
    }
    if forall k: nat | k <= |edits| :: good(edits[..k]) {
      forall k: nat | k < |edits| ensures safe(edits[..k], edits[k]) {
        assert good(edits[..k]) && good(edits[..k + 1]);
      }
    }
  }

  /** MAIN RESULT, on the targets alone: after every insertion of a run, original lines and snippets are
      where they should be and the offsets are exact, if and only if the snippets are single lines, the
      targets lie before the last line, and no earlier target lies behind the place of a later insertion. */
  lemma RunTracksExactlyWhen(text: string, edits: seq<Edit>)
    requires forall i | 0 <= i < |edits| :: edits[i].line >= 0
    ensures RunTracks(text, edits) <==> SafeRun(edits, |Lines(text)|)
  {
    var count := |Lines(text)|;
    EmptyRunTracks(text);
    EveryNextTracksExactlyWhen(text, edits);
    AllPrefixes((p: seq<Edit>) => TracksAfter(text, p), (p: seq<Edit>, e: Edit) => SafeNext(p, e, count), edits);
  }

  lemma EmptyRunTracks(text: string)
    ensures TracksAfter(text, [])
  {
    UneditedTracks(text);
  }

  lemma EveryNextTracksExactlyWhen(text: string, edits: seq<Edit>)
    requires forall i | 0 <= i < |edits| :: edits[i].line >= 0
    ensures forall k: nat | k < |edits| && TracksAfter(text, edits[..k]) ::
              TracksAfter(text, edits[..k + 1]) <==> SafeNext(edits[..k], edits[k], |Lines(text)|)
  {
    forall k: nat | k < |edits| && TracksAfter(text, edits[..k])
      ensures TracksAfter(text, edits[..k + 1]) <==> SafeNext(edits[..k], edits[k], |Lines(text)|)
    {
      NextPrefix(edits, k);
      NextTracksExactlyWhen(text, edits[..k], edits[k], edits[..k + 1]);
    }
  }

  lemma NextPrefix(edits: seq<Edit>, k: nat)
    requires k < |edits|
    ensures edits[..k + 1] == edits[..k] + [edits[k]]
  {
  }

  lemma NextTracksExactlyWhen(text: string, before: seq<Edit>, e: Edit, edits: seq<Edit>)
    requires TracksAfter(text, before) && e.line >= 0 && edits == before + [e]
    ensures TracksAfter(text, edits) <==>
            e.line < |Lines(text)| && '\n' !in e.snippet && BehindAll(before, e.line)
  {
    var c := Run(Context(text, []), before);
    RunOfOneMore(Context(text, []), before, e);
    InsertTracksExactlyWhen(Lines(text), before, c, e);
    KeysBehindExactlyWhen(c, before, e.line);
  }

  /** The keys of an exact map are the targets. */
  lemma KeysBehindExactlyWhen(c: Context, edits: seq<Edit>, t: int)
    requires Ordered(c.lineOffsetMap) && OffsetsExact(c.lineOffsetMap, edits)
    ensures NoLaterKey(c.lineOffsetMap, Adjusted(c, t)) <==> BehindAll(edits, t)
  {
    var m := c.lineOffsetMap;
    forall i: nat | i < |m| ensures exists j: nat | j < |edits| :: edits[j].line == m[i].0 {
      KeysAreTargets(m, edits, i);
    }
    forall j: nat | j < |edits| ensures exists i: nat | i < |m| :: m[i].0 == edits[j].line {
      TargetsAreKeys(m, edits, j);
    }
  }

  lemma RunOfOneMore(c: Context, edits: seq<Edit>, e: Edit)
    ensures Run(c, edits + [e]) == AfterInsert(Run(c, edits), e.line, e.snippet)
  {
    assert (edits + [e])[..|edits|] == edits;
  }

  /** So insertions with non-decreasing targets before the last line are safe. */
  lemma NonDecreasingRunTracks(text: string, edits: seq<Edit>)
    requires NonDecreasing(edits) && SingleLinesBefore(edits, |Lines(text)|)
    ensures Tracks(Lines(text), edits, Run(Context(text, []), edits))
  {
    RunTracksExactlyWhen(text, edits);
    NonDecreasingIsSafe(edits, |Lines(text)|);
    assert edits[..|edits|] == edits;
    assert TracksAfter(text, edits[..|edits|]);
  }

  lemma NonDecreasingIsSafe(edits: seq<Edit>, count: nat)
    requires NonDecreasing(edits) && SingleLinesBefore(edits, count)
    ensures SafeRun(edits, count)
  {
  }

  /** MAIN RESULT: while the offsets are exact, replace(L) rewrites original line L and no other line. */
  lemma ReplaceHitsOriginalLine(orig: seq<string>, edits: seq<Edit>, c: Context, line: nat, str: string)
    requires Tracks(orig, edits, c) && 1 <= line <= |orig| && '\n' !in str
    ensures LineIndex(edits, line - 1) < |Lines(c.workText)|
    ensures Lines(AfterReplace(c, line, str).workText) == Lines(c.workText)[LineIndex(edits, line - 1) := str]
    ensures Tracks(orig[line - 1 := str], edits, AfterReplace(c, line, str))
  {
    var at := LineIndex(edits, line - 1);
    assert LineAt(Lines(c.workText), at, orig[line - 1]);
    ReplacedLines(c, line, str, at);
    ReplaceTracks(orig, edits, c, AfterReplace(c, line, str), line - 1, str);
  }

  lemma ReplaceTracks(orig: seq<string>, edits: seq<Edit>, c: Context, c': Context, l: nat, str: string)
    requires Tracks(orig, edits, c) && l < |orig| && LineIndex(edits, l) < |Lines(c.workText)|
    requires c'.lineOffsetMap == c.lineOffsetMap && Lines(c'.workText) == Lines(c.workText)[LineIndex(edits, l) := str]
    ensures Tracks(orig[l := str], edits, c')
  {
    ReplacePlaces(orig, edits, Lines(c.workText), l, str);
  }

  lemma ReplacedLines(c: Context, line: nat, str: string, at: nat)
    requires '\n' !in str && at < |Lines(c.workText)| && at == line - 1 + SumUpTo(c.lineOffsetMap, line - 1)
    ensures Lines(AfterReplace(c, line, str).workText) == Lines(c.workText)[at := str]
  {
    LinesAreSingle(c.workText);
    LinesOfJoin(Lines(c.workText)[at := str]);
  }

  lemma ReplacePlaces(orig: seq<string>, edits: seq<Edit>, lines: seq<string>, l: nat, str: string)
    requires Placed(orig, edits, lines) && l < |orig| && LineIndex(edits, l) < |lines|
    ensures Placed(orig[l := str], edits, lines[LineIndex(edits, l) := str])
  {
    var now := lines[LineIndex(edits, l) := str];
    forall k: nat | k < |orig| ensures LineAt(now, LineIndex(edits, k), orig[l := str][k]) {
      assert LineAt(lines, LineIndex(edits, k), orig[k]);
      if k < l {
        CountGrows(edits, k, l);
      } else {
        CountGrows(edits, l, k);
      }
    }
    forall i: nat | i < |edits| ensures LineAt(now, SnippetIndex(edits, i), edits[i].snippet) {
      assert LineAt(lines, SnippetIndex(edits, i), edits[i].snippet);
      SnippetsAndLinesApart(edits, i, l);
    }
  }

  ghost predicate ReplaceHits(edits: seq<Edit>, c: Context, line: nat)
    requires line >= 1
  {
    var lines, at := Lines(c.workText), LineIndex(edits, line - 1);
    at < |lines| && forall str | '\n' !in str :: Lines(AfterReplace(c, line, str).workText) == lines[at := str]
  }

  /** What replace makes of the lines, in range or not. */
  lemma ReplacedAnyhow(c: Context, line: nat, str: string, hit: nat)
    requires '\n' !in str && line >= 1 && hit == line - 1 + SumUpTo(c.lineOffsetMap, line - 1)
    ensures Lines(AfterReplace(c, line, str).workText) ==
            if hit < |Lines(c.workText)| then Lines(c.workText)[hit := str] else Lines(c.workText)
  {
    if hit < |Lines(c.workText)| {
      ReplacedLines(c, line, str, hit);
    } else {
      LinesAreSingle(c.workText);
      LinesOfJoin(Lines(c.workText));
    }
  }

  lemma ReplaceMisses(c: Context, line: nat, hit: nat, at: nat) returns (str: string)
    requires line >= 1 && hit == line - 1 + SumUpTo(c.lineOffsetMap, line - 1)
    requires at < |Lines(c.workText)| && at != hit
    ensures '\n' !in str && Lines(AfterReplace(c, line, str).workText) != Lines(c.workText)[at := str]
  {
    var lines := Lines(c.workText);
    str := lines[at] + "x";
    LinesAreSingle(c.workText);
    ReplacedAnyhow(c, line, str, hit);
    assert lines[at := str][at] != lines[at];
  }

  /** MAIN RESULT: while the lines are in place, whatever the offsets say, replace(L) rewrites original line
      L and no other if and only if the offsets before it add up to the lines inserted before it. */
  lemma ReplaceHitsExactlyWhen(orig: seq<string>, edits: seq<Edit>, c: Context, line: nat)
    requires Ordered(c.lineOffsetMap) && Placed(orig, edits, Lines(c.workText)) && 1 <= line <= |orig|
    ensures ReplaceHits(edits, c, line) <==> SumUpTo(c.lineOffsetMap, line - 1) == CountUpTo(edits, line - 1)
  {
    var at := LineIndex(edits, line - 1);
    assert LineAt(Lines(c.workText), at, orig[line - 1]);
    SumNotNegative(c.lineOffsetMap, line - 1);
    var hit: nat := line - 1 + SumUpTo(c.lineOffsetMap, line - 1);
    if hit == at {
      forall str: string | '\n' !in str
        ensures Lines(AfterReplace(c, line, str).workText) == Lines(c.workText)[at := str]
      {
        ReplacedLines(c, line, str, at);
      }
    } else {
      var str := ReplaceMisses(c, line, hit, at);
    }
  }

  /** With targets out of order the offsets can go wrong: an insertion after line 1 moves the record of
      the one after line 5, and replacing line 6 then overwrites the snippet in front of it. */
  lemma OutOfOrderTargetMisleads(text: string, late: Edit, early: Edit, str: string)
    requires |Lines(text)| >= 6 && late.line == 5 && early.line == 1
    requires '\n' !in late.snippet && '\n' !in early.snippet && '\n' !in str
    ensures var edits, end := [late, early], Run(Context(text, []), [late, early]);
            var at := SnippetIndex(edits, 0);
            && Placed(Lines(text), edits, Lines(end.workText))
            && LineAt(Lines(end.workText), at, late.snippet)
            && Lines(AfterReplace(end, 6, str).workText) == Lines(end.workText)[at := str]
            && !ReplaceHits(edits, end, 6)
  {
    var edits, end := [late, early], Run(Context(text, []), [late, early]);
    LateThenEarly(text, late, early);
    CountsOfTwo(late, early);
    assert LineAt(Lines(end.workText), SnippetIndex(edits, 0), edits[0].snippet);
    ReplacedLines(end, 6, str, 6);
    ReplaceHitsExactlyWhen(Lines(text), edits, end, 6);
  }

  lemma TwoEdits(late: Edit, early: Edit)
    ensures [] + [late] == [late] && [late] + [early] == [late, early]
  {
  }

  lemma LateThenEarly(text: string, late: Edit, early: Edit)
    requires |Lines(text)| >= 6 && late.line == 5 && early.line == 1
    requires '\n' !in late.snippet && '\n' !in early.snippet
    ensures var end := Run(Context(text, []), [late, early]);
            && Placed(Lines(text), [late, early], Lines(end.workText))
            && Ordered(end.lineOffsetMap) && SumUpTo(end.lineOffsetMap, 5) == 1
  {
    var start := Context(text, []);
    var c := AfterInsert(start, 5, late.snippet);
    LateFirst(text, late);
    TwoEdits(late, early);
    RunOfOneMore(start, [late], early);
    PlacedExactlyWhen(Lines(text), [late], c, early);
    EarlyOffsets(c, early);
  }

  lemma EarlyOffsets(c: Context, early: Edit)
    requires c.lineOffsetMap == [(5, 1)] && early.line == 1
    ensures var m := AfterInsert(c, 1, early.snippet).lineOffsetMap; Ordered(m) && SumUpTo(m, 5) == 1
  {
    MovedOffsets(c.lineOffsetMap, [(6, 1)]);
  }

  lemma LateFirst(text: string, late: Edit)
    requires 0 <= late.line < |Lines(text)| && '\n' !in late.snippet
    ensures var c := AfterInsert(Context(text, []), late.line, late.snippet);
            && Run(Context(text, []), [late]) == c && c.lineOffsetMap == [(late.line, 1)]
            && Tracks(Lines(text), [late], c)
  {
    UneditedTracks(text);
    TwoEdits(late, late);
    RunOfOneMore(Context(text, []), [], late);
    InsertTracksExactlyWhen(Lines(text), [], Context(text, []), late);
  }

  /** The record of the late snippet moves to line 6. */
  lemma MovedOffsets(m: Offsets, m': Offsets)
    requires m == [(5, 1)] && m' == [(6, 1)]
    ensures SumUpTo(m, 1) == 0 && Rekey(m, 1) == m'
    ensures Ordered(Bump(m', 1)) && SumUpTo(Bump(m', 1), 5) == 1
  {
    assert m[..0] == [] && m'[..0] == [];
    BumpOrdered(m', 1);
    SumOfBump(m', 1, 5);
  }

  lemma CountsOfTwo(late: Edit, early: Edit)
    requires late.line == 5 && early.line == 1
    ensures SnippetIndex([late, early], 0) == 6 && CountUpTo([late, early], 5) == 2
  {
    var edits := [late, early];
    TwoEdits(late, early);
    assert edits[..0] == [];
    WithEdit([], late, 4);
    WithEdit([], late, 5);
    WithEdit([late], early, 4);
    WithEdit([late], early, 5);
  }

  // ---------------------------------------------------------------- filling holes

  function FillEdits(edits: seq<Edit>, ph: string, v: string): seq<Edit>
    requires ph != ""
  {
    seq(|edits|, i requires 0 <= i < |edits| => Edit(edits[i].line, Fill(edits[i].snippet, ph, v)))
  }

  lemma {:induction false} SameCounts(edits: seq<Edit>, edits': seq<Edit>, x: int)
    requires |edits| == |edits'| && forall i | 0 <= i < |edits| :: edits[i].line == edits'[i].line
    ensures CountUpTo(edits, x) == CountUpTo(edits', x) && CountAt(edits, x) == CountAt(edits', x)
  {
    if edits != [] {
      SameCounts(edits[..|edits| - 1], edits'[..|edits| - 1], x);
    }
  }

  /** MAIN RESULT: filling a hole with an identifier keeps everything in place, with the hole filled in
      original lines and snippets, and the offsets need no change. */
  lemma FillingTracks(orig: seq<string>, edits: seq<Edit>, c: Context, holeNumber: int, varName: string)
    requires Tracks(orig, edits, c) && IsIdentifier(varName)
    ensures var ph := Placeholder(holeNumber);
            Tracks(FillAll(orig, ph, varName), FillEdits(edits, ph, varName), AfterFilling(c, holeNumber, varName))
  {
    var ph := Placeholder(holeNumber);
    var lines, edits' := Lines(c.workText), FillEdits(edits, ph, varName);
    LinesOfFilled(c.workText, holeNumber, varName);
    forall x: int ensures SumUpTo(c.lineOffsetMap, x) == CountUpTo(edits', x) {
      SameCounts(edits, edits', x);
    }
    FillingPlaces(orig, edits, lines, ph, varName);
  }

  lemma FilledLine(orig: seq<string>, edits: seq<Edit>, lines: seq<string>, ph: string, v: string, k: nat)
    requires Placed(orig, edits, lines) && ph != "" && k < |orig|
    ensures LineAt(FillAll(lines, ph, v), LineIndex(FillEdits(edits, ph, v), k), Fill(orig[k], ph, v))
  {
    SameCounts(edits, FillEdits(edits, ph, v), k);
    assert LineAt(lines, LineIndex(edits, k), orig[k]);
  }

  lemma SameSnippetIndex(edits: seq<Edit>, edits': seq<Edit>, i: nat)
    requires |edits| == |edits'| && forall i | 0 <= i < |edits| :: edits[i].line == edits'[i].line
    requires i < |edits|
    ensures SnippetIndex(edits, i) == SnippetIndex(edits', i)
  {
    SameCounts(edits, edits', edits[i].line - 1);
    SameCounts(edits[..i], edits'[..i], edits[i].line);
  }

  lemma FilledSnippet(orig: seq<string>, edits: seq<Edit>, lines: seq<string>, ph: string, v: string, i: nat)
    requires Placed(orig, edits, lines) && ph != "" && i < |edits|
    ensures LineAt(FillAll(lines, ph, v), SnippetIndex(FillEdits(edits, ph, v), i), Fill(edits[i].snippet, ph, v))
  {
    SameSnippetIndex(edits, FillEdits(edits, ph, v), i);
    assert LineAt(lines, SnippetIndex(edits, i), edits[i].snippet);
  }

  lemma FillingPlaces(orig: seq<string>, edits: seq<Edit>, lines: seq<string>, ph: string, v: string)
    requires Placed(orig, edits, lines) && ph != ""
    ensures Placed(FillAll(orig, ph, v), FillEdits(edits, ph, v), FillAll(lines, ph, v))
  {
    var orig', edits', lines' := FillAll(orig, ph, v), FillEdits(edits, ph, v), FillAll(lines, ph, v);
    forall k: nat | k < |orig'| ensures LineAt(lines', LineIndex(edits', k), orig'[k]) {
      FilledLine(orig, edits, lines, ph, v, k);
    }
    forall i: nat | i < |edits'| ensures LineAt(lines', SnippetIndex(edits', i), edits'[i].snippet) {
      FilledSnippet(orig, edits, lines, ph, v, i);
    }
  }
}
