/** Filling numbered holes of a code snippet with variable names (svf-llvm/lib/SYN/LightAnalysis.cpp). */
module HoleFilling {
  import opened TextLines

  predicate IsDigit(c: char) { '0' <= c <= '9' }

  predicate IsNameChar(c: char) { IsDigit(c) || 'a' <= c <= 'z' || 'A' <= c <= 'Z' || c == '_' }

  /** A C identifier. */
  predicate IsIdentifier(v: string) {
    v != "" && !IsDigit(v[0]) && forall i | 0 <= i < |v| :: IsNameChar(v[i])
  }

  /** What std::to_string consists of. */
  predicate NumberText(d: string) {
    forall i | 0 <= i < |d| :: IsDigit(d[i]) || d[i] == '-'
  }

  /** std::to_string. */
  function Decimal(n: int): (d: string)
    ensures d != "" && NumberText(d)
    decreases n < 0, if n < 0 then -n else n
  {
    if n < 0 then "-" + Decimal(-n)
    else if n < 10 then [DigitChar(n)] else Decimal(n / 10) + [DigitChar(n % 10)]
  }

  function DigitChar(n: nat): (c: char)
    requires n < 10
    ensures IsDigit(c)
  {
    "0123456789"[n]
  }

  function Placeholder(holeNumber: int): string { "$" + Decimal(holeNumber) }

  // ---------------------------------------------------------------- reading numbers

  function DigitValue(c: char): (n: nat)
    requires IsDigit(c)
    ensures n < 10
  {
    c as int - '0' as int
  }

  /** The number that digits spell, read from left to right after `read`. */
  function ReadDigits(d: string, read: nat): nat
    requires forall i | 0 <= i < |d| :: IsDigit(d[i])
  {
    if d == "" then read else ReadDigits(d[1..], 10 * read + DigitValue(d[0]))
  }

  /** Digits without a leading zero. */
  predicate IsNumeral(d: string) {
    d != "" && (forall i | 0 <= i < |d| :: IsDigit(d[i])) && (d[0] == '0' ==> |d| == 1)
  }

  /** `d` is how n is written: digits without a leading zero, behind a minus sign if n is negative. */
  predicate Writes(d: string, n: int) {
    if n >= 0 then IsNumeral(d) && ReadDigits(d, 0) == n
    else d != "" && d[0] == '-' && IsNumeral(d[1..]) && ReadDigits(d[1..], 0) == -n
  }

  lemma {:induction false} ReadAppended(d: string, c: char, read: nat)
    requires IsDigit(c) && forall i | 0 <= i < |d| :: IsDigit(d[i])
    ensures ReadDigits(d + [c], read) == 10 * ReadDigits(d, read) + DigitValue(c)
  {
    if d == "" {
      assert d + [c] == [c];
    } else {
      assert (d + [c])[1..] == d[1..] + [c];
      ReadAppended(d[1..], c, 10 * read + DigitValue(d[0]));
    }
  }

  lemma {:induction false} ReadGrows(d: string, read: nat)
    requires forall i | 0 <= i < |d| :: IsDigit(d[i])
    ensures ReadDigits(d, read) >= read
  {
    if d != "" {
      ReadGrows(d[1..], 10 * read + DigitValue(d[0]));
    }
  }

  lemma DigitCharReads(n: nat)
    requires n < 10
    ensures DigitValue(DigitChar(n)) == n
  {
  }

  lemma {:induction false} DecimalOfNat(n: nat)
    ensures IsNumeral(Decimal(n)) && ReadDigits(Decimal(n), 0) == n
  {
    DigitCharReads(n % 10);
    if n >= 10 {
      DecimalOfNat(n / 10);
      ReadAppended(Decimal(n / 10), DigitChar(n % 10), 0);
      NotZero(Decimal(n / 10));
    }
  }

  lemma NotZero(d: string)
    requires IsNumeral(d)
    ensures ReadDigits(d, 0) == 0 <==> d[0] == '0'
  {
    if d[0] != '0' {
      ReadGrows(d[1..], DigitValue(d[0]));
    }
  }

  lemma FrontOfNumeral(d: string)
    requires IsNumeral(d) && |d| > 1
    ensures IsNumeral(d[..|d| - 1]) && d[0] != '0' && IsDigit(d[|d| - 1]) && d == d[..|d| - 1] + [d[|d| - 1]]
  {
  }

  lemma CharOfValue(c: char)
    requires IsDigit(c)
    ensures DigitChar(DigitValue(c)) == c
  {
  }

  lemma {:induction false} NumeralIsDecimal(d: string)
    requires IsNumeral(d)
    ensures d == Decimal(ReadDigits(d, 0))
  {
    if |d| == 1 {
      assert d == [d[0]] && d[1..] == "";
      CharOfValue(d[0]);
    } else {
      var front, c := d[..|d| - 1], d[|d| - 1];
      FrontOfNumeral(d);
      ReadAppended(front, c, 0);
      NotZero(front);
      CharOfValue(c);
      NumeralIsDecimal(front);
      DecimalAppended(front, c, ReadDigits(front, 0));
    }
  }

  lemma DecimalAppended(front: string, c: char, n: nat)
    requires n > 0 && front == Decimal(n) && IsDigit(c) && DigitChar(DigitValue(c)) == c
    ensures Decimal(10 * n + DigitValue(c)) == front + [c]
  {
    var m := 10 * n + DigitValue(c);
    assert m >= 10 && m / 10 == n && m % 10 == DigitValue(c);
  }

  /** MAIN RESULT: `Decimal(n)` is how n is written, and nothing else is. */
  lemma WrittenExactlyAs(d: string, n: int)
    ensures Writes(d, n) <==> d == Decimal(n)
  {
    if n >= 0 {
      DecimalOfNat(n);
      if Writes(d, n) {
        NumeralIsDecimal(d);
      }
    } else {
      DecimalOfNat(-n);
      assert Decimal(n)[1..] == Decimal(-n);
      if Writes(d, n) {
        NumeralIsDecimal(d[1..]);
        assert d == "-" + d[1..];
      }
    }
  }

  /** Different holes have different placeholders. */
  lemma PlaceholdersDiffer(m: int, n: int)
    requires Placeholder(m) == Placeholder(n)
    ensures m == n
  {
    WrittenExactlyAs(Decimal(m), m);
    WrittenExactlyAs(Decimal(n), n);
    assert Placeholder(m)[1..] == Decimal(m) && Placeholder(n)[1..] == Decimal(n);
  }

  /** Replacing the occurrences from left to right, never looking into what was put in. */
  function Fill(s: string, ph: string, v: string): string
    requires ph != ""
    decreases |s|
  {
    if ph <= s then v + Fill(s[|ph|..], ph, v)
    else if s == "" then ""
    else [s[0]] + Fill(s[1..], ph, v)
  }

  predicate OccursAt(s: string, ph: string, i: int) {
    0 <= i <= |s| && ph <= s[i..]
  }

  ghost predicate Contains(s: string, ph: string) {
    exists i :: OccursAt(s, ph, i)
  }

  // ---------------------------------------------------------------- the methods

  /** std::string::find; -1 stands for npos. */
  method Find(s: string, ph: string, start: nat) returns (pos: int)
    requires start <= |s| && ph != ""
    ensures pos == -1 || start <= pos < |s|
    ensures pos != -1 ==> OccursAt(s, ph, pos)
    ensures forall i | start <= i < (if pos == -1 then |s| else pos) :: !OccursAt(s, ph, i)
  {
    pos := start;
    while pos < |s|
      invariant start <= pos <= |s|
      invariant forall i | start <= i < pos :: !OccursAt(s, ph, i)
    {
      if ph <= s[pos..] {
        return;
      }
      pos := pos + 1;
    }
    pos := -1;
  }

  lemma Regroup(a: string, b: string, c: string, d: string)
    ensures a + (b + (c + d)) == (a + b) + c + d
  {
  }

  lemma NoneInRest(s: string, ph: string, done: nat, k: nat)
    requires done + k <= |s| && forall i | done <= i < done + k :: !OccursAt(s, ph, i)
    ensures forall i | 0 <= i < k :: !OccursAt(s[done..], ph, i)
  {
    forall i | 0 <= i < k ensures !OccursAt(s[done..], ph, i) {
      assert s[done..][i..] == s[done + i..];
      assert !OccursAt(s, ph, done + i);
    }
  }

  lemma {:induction false} FillSkips(s: string, ph: string, v: string, k: nat)
    requires ph != "" && k <= |s| && forall i | 0 <= i < k :: !OccursAt(s, ph, i)
    ensures Fill(s, ph, v) == s[..k] + Fill(s[k..], ph, v)
  {
    if k == 0 {
      assert s[0..] == s && s[..0] == "";
    } else {
      assert !OccursAt(s, ph, 0) && s[0..] == s;
      NoneInRest(s, ph, 1, k - 1);
      FillSkips(s[1..], ph, v, k - 1);
      assert s[1..][k - 1..] == s[k..] && s[..k] == [s[0]] + s[1..][..k - 1];
      Regroup([s[0]], s[1..][..k - 1], "", Fill(s[k..], ph, v));
      assert "" + Fill(s[k..], ph, v) == Fill(s[k..], ph, v);
      assert s[..k] + "" == s[..k];
    }
  }

  /** The find-and-replace loop on one line. */
  method FillLine(line: string, placeholder: string, varName: string) returns (currentLine: string)
    requires placeholder != ""
    ensures currentLine == Fill(line, placeholder, varName)
  {
    currentLine := line;
    ghost var done: nat := 0;
    var startPos := Find(currentLine, placeholder, 0);
    while startPos != -1
      invariant done <= |currentLine|
      invariant Fill(line, placeholder, varName) ==
                currentLine[..done] + Fill(currentLine[done..], placeholder, varName)
      invariant startPos == -1 || (done <= startPos < |currentLine| && OccursAt(currentLine, placeholder, startPos))
      invariant forall i | done <= i < (if startPos == -1 then |currentLine| else startPos) ::
                  !OccursAt(currentLine, placeholder, i)
      decreases |currentLine| - done, startPos
    {
      ghost var before := currentLine;
      FillOnce(before, placeholder, varName, done, startPos);
      currentLine := currentLine[..startPos] + varName + currentLine[startPos + |placeholder|..];
      done := startPos + |varName|;
      assert currentLine[..done] == before[..startPos] + varName;
      assert currentLine[done..] == before[startPos + |placeholder|..];
      startPos := Find(currentLine, placeholder, startPos + |varName|);
    }
    FillRest(currentLine, placeholder, varName, done);
  }

  lemma FillOnce(s: string, ph: string, v: string, done: nat, pos: nat)
    requires ph != "" && done <= pos < |s| && OccursAt(s, ph, pos)
    requires forall i | done <= i < pos :: !OccursAt(s, ph, i)
    ensures pos + |ph| <= |s|
    ensures s[..done] + Fill(s[done..], ph, v) == s[..pos] + v + Fill(s[pos + |ph|..], ph, v)
  {
    var k := pos - done;
    var rest := s[done..];
    NoneInRest(s, ph, done, k);
    FillSkips(rest, ph, v, k);
    Slices(s, done, pos, |ph|);
    Regroup(s[..done], rest[..k], v, Fill(s[pos + |ph|..], ph, v));
  }

  lemma Slices(s: string, done: nat, pos: nat, n: nat)
    requires done <= pos && pos + n <= |s|
    ensures s[done..][pos - done..] == s[pos..] && s[pos..][n..] == s[pos + n..]
    ensures s[..pos] == s[..done] + s[done..][..pos - done]
  {
  }

  lemma FillRest(s: string, ph: string, v: string, done: nat)
    requires ph != "" && done <= |s| && forall i | done <= i < |s| :: !OccursAt(s, ph, i)
    ensures s[..done] + Fill(s[done..], ph, v) == s
  {
    var rest := s[done..];
    NoneInRest(s, ph, done, |rest|);
    FillSkips(rest, ph, v, |rest|);
    assert rest[|rest|..] == "" && rest[..|rest|] == rest;
    assert s == s[..done] + rest;
  }

  function FillAll(lines: seq<string>, ph: string, v: string): seq<string>
    requires ph != ""
  {
    seq(|lines|, i requires 0 <= i < |lines| => Fill(lines[i], ph, v))
  }

  /** What setHoleFilling makes of a text. */
  function Filled(text: string, holeNumber: int, varName: string): string {
    Join(FillAll(Lines(text), Placeholder(holeNumber), varName))
  }

  /** The loop over all lines. */
  method FillLines(text: seq<string>, placeholder: string, varName: string) returns (lines: seq<string>)
    requires placeholder != ""
    ensures lines == FillAll(text, placeholder, varName)
  {
    lines := text;
    for i := 0 to |lines|
      invariant |lines| == |text|
      invariant forall j | 0 <= j < i :: lines[j] == Fill(text[j], placeholder, varName)
      invariant forall j | i <= j < |lines| :: lines[j] == text[j]
    {
      var currentLine := FillLine(lines[i], placeholder, varName);
      lines := lines[i := currentLine];
    }
  }

  // ---------------------------------------------------------------- nothing is left

  /** A number at the front of a filled text was there before: names start with no part of one. */
  lemma {:induction false} NumberInFront(d: string, s: string, ph: string, v: string)
    requires NumberText(d) && ph != "" && ph[0] == '$' && IsIdentifier(v)
    ensures d <= Fill(s, ph, v) <==> d <= s
    decreases |s|
  {
    if d != "" {
      if ph <= s {
        assert Fill(s, ph, v)[0] == v[0];
        assert (IsDigit(d[0]) || d[0] == '-') && s[0] == '$';
      } else if s != "" {
        var t := Fill(s[1..], ph, v);
        NumberInFront(d[1..], s[1..], ph, v);
        PrefixOfCons(d, s[0], s[1..]);
        PrefixOfCons(d, s[0], t);
        assert s == [s[0]] + s[1..];
      }
    }
  }

  lemma PrefixOfCons(d: string, c: char, t: string)
    requires d != ""
    ensures d <= [c] + t <==> d[0] == c && d[1..] <= t
  {
    if d[0] == c && d[1..] <= t {
      assert d == [d[0]] + d[1..];
      assert [c] + t == d + t[|d| - 1..];
    }
    if d <= [c] + t {
      assert d[1..] == ([c] + t)[1..|d|];
      assert t[..|d| - 1] == ([c] + t)[1..|d|];
    }
  }

  lemma {:induction false} NoOccurrence(s: string, d: string, v: string, i: int)
    requires NumberText(d) && d != "" && IsIdentifier(v)
    ensures !OccursAt(Fill(s, "$" + d, v), "$" + d, i)
    decreases |s|
  {
    var ph := "$" + d;
    var r := Fill(s, ph, v);
    if 0 <= i <= |r| {
      if ph <= s {
        var t := Fill(s[|ph|..], ph, v);
        if i < |v| {
          assert r[i..][0] == v[i];
        } else {
          NoOccurrence(s[|ph|..], d, v, i - |v|);
          assert r[i..] == t[i - |v|..];
        }
      } else if s != "" {
        var t := Fill(s[1..], ph, v);
        if i == 0 {
          NumberInFront(d, s[1..], ph, v);
          StartsWith(d, s[0], s[1..]);
          StartsWith(d, s[0], t);
          assert s == [s[0]] + s[1..] && r[0..] == r;
        } else {
          NoOccurrence(s[1..], d, v, i - 1);
          assert r[i..] == t[i - 1..];
        }
      }
    }
  }

  lemma StartsWith(d: string, c: char, t: string)
    ensures "$" + d <= [c] + t <==> c == '$' && d <= t
  {
    PrefixOfCons("$" + d, c, t);
    assert ("$" + d)[1..] == d;
  }

  lemma {:induction false} FilledIsSingle(s: string, ph: string, v: string)
    requires ph != "" && '\n' !in s && '\n' !in v
    ensures '\n' !in Fill(s, ph, v)
    decreases |s|
  {
    if ph <= s {
      FilledIsSingle(s[|ph|..], ph, v);
    } else if s != "" {
      FilledIsSingle(s[1..], ph, v);
    }
  }

  lemma LinesOfFilled(text: string, holeNumber: int, varName: string)
    requires IsIdentifier(varName)
    ensures Lines(Filled(text, holeNumber, varName)) == FillAll(Lines(text), Placeholder(holeNumber), varName)
  {
    var filled := FillAll(Lines(text), Placeholder(holeNumber), varName);
    LinesAreSingle(text);
    forall i | 0 <= i < |filled| ensures '\n' !in filled[i] {
      FilledIsSingle(Lines(text)[i], Placeholder(holeNumber), varName);
    }
    LinesOfJoin(filled);
  }

  /** MAIN RESULT: filling a hole, whatever its number, with a C identifier leaves no occurrence of "$"
      followed by that number. */
  lemma NoPlaceholderLeft(text: string, holeNumber: int, varName: string, d: string)
    requires IsIdentifier(varName) && Writes(d, holeNumber)
    ensures forall line | line in Lines(Filled(text, holeNumber, varName)) :: !Contains(line, "$" + d)
  {
    WrittenExactlyAs(d, holeNumber);
    LinesOfFilled(text, holeNumber, varName);
    forall line, i | line in Lines(Filled(text, holeNumber, varName))
      ensures !OccursAt(line, Placeholder(holeNumber), i)
    {
      var k :| 0 <= k < |Lines(text)| && line == Fill(Lines(text)[k], Placeholder(holeNumber), varName);
      NoOccurrence(Lines(text)[k], Decimal(holeNumber), varName, i);
    }
  }

  // ---------------------------------------------------------------- two holes

  /** Text without a dollar sign is not touched. */
  lemma {:induction false} FillPlain(t: string, u: string, d: string, v: string)
    requires '$' !in t
    ensures Fill(t + u, "$" + d, v) == t + Fill(u, "$" + d, v)
  {
    if t == "" {
      assert t + u == u;
    } else {
      assert t[0] in t;
      assert (t + u)[0] == t[0] && (t + u)[1..] == t[1..] + u;
      FillPlain(t[1..], u, d, v);
      assert Fill(t + u, "$" + d, v) == [t[0]] + Fill(t[1..] + u, "$" + d, v);
      assert [t[0]] + (t[1..] + Fill(u, "$" + d, v)) == t + Fill(u, "$" + d, v);
    }
  }

  lemma NoDollar(t: string)
    ensures NumberText(t) || IsIdentifier(t) ==> '$' !in t
  {
  }

  /** Filling behind a placeholder of the other hole. */
  lemma FillBehindOther(s: string, d: string, v: string, e: string)
    requires "$" + e <= s && !("$" + d <= s) && NumberText(e)
    ensures Fill(s, "$" + d, v) == "$" + e + Fill(s[|e| + 1..], "$" + d, v)
  {
    var rest := s[|e| + 1..];
    assert s == ("$" + e) + rest;
    assert s[0] == '$' && s[1..] == e + rest;
    NoDollar(e);
    FillPlain(e, rest, d, v);
    Grouped("$", e, Fill(rest, "$" + d, v));
  }

  lemma Grouped(a: string, b: string, c: string)
    ensures a + (b + c) == a + b + c
  {
  }

  /** A place where neither placeholder starts stays such a place. */
  lemma NeitherStarts(s: string, d: string, v: string, e: string, w: string)
    requires s != "" && !("$" + d <= s) && !("$" + e <= s) && NumberText(e) && IsIdentifier(v)
    ensures Fill(Fill(s, "$" + d, v), "$" + e, w) == [s[0]] + Fill(Fill(s[1..], "$" + d, v), "$" + e, w)
  {
    var t := Fill(s[1..], "$" + d, v);
    NumberInFront(e, s[1..], "$" + d, v);
    StartsWith(e, s[0], s[1..]);
    StartsWith(e, s[0], t);
    assert s == [s[0]] + s[1..];
    assert Fill(s, "$" + d, v) == [s[0]] + t && ([s[0]] + t)[1..] == t;
  }

  /** Both fillings in one pass. */
  function FillBoth(s: string, d: string, v: string, e: string, w: string): string
    decreases |s|
  {
    if "$" + d <= s then v + FillBoth(s[|d| + 1..], d, v, e, w)
    else if "$" + e <= s then w + FillBoth(s[|e| + 1..], d, v, e, w)
    else if s == "" then ""
    else [s[0]] + FillBoth(s[1..], d, v, e, w)
  }

  lemma {:induction false} FillTwice(s: string, d: string, v: string, e: string, w: string)
    requires NumberText(d) && NumberText(e) && IsIdentifier(v) && !(d <= e) && !(e <= d)
    ensures Fill(Fill(s, "$" + d, v), "$" + e, w) == FillBoth(s, d, v, e, w)
    decreases |s|
  {
    if "$" + d <= s {
      var rest := s[|d| + 1..];
      FillTwice(rest, d, v, e, w);
      NoDollar(v);
      FillPlain(v, Fill(rest, "$" + d, v), e, w);
    } else if "$" + e <= s {
      var rest := s[|e| + 1..];
      FillTwice(rest, d, v, e, w);
      FillBehindOther(s, d, v, e);
      FillInFront(e, Fill(rest, "$" + d, v), w);
    } else if s != "" {
      FillTwice(s[1..], d, v, e, w);
      NeitherStarts(s, d, v, e, w);
    }
  }

  lemma FillInFront(e: string, t: string, w: string)
    ensures Fill("$" + e + t, "$" + e, w) == w + Fill(t, "$" + e, w)
  {
    assert "$" + e <= "$" + e + t;
    assert ("$" + e + t)[|e| + 1..] == t;
  }

  lemma BothStart(s: string, d: string, e: string)
    requires "$" + d <= s && "$" + e <= s
    ensures d <= e || e <= d
  {
    assert s[1..|d| + 1] == d && s[1..|e| + 1] == e;
  }

  /** The order of the two tests does not matter when neither number is a prefix of the other. */
  lemma {:induction false} FillBothSymmetric(s: string, d: string, v: string, e: string, w: string)
    requires !(d <= e) && !(e <= d)
    ensures FillBoth(s, d, v, e, w) == FillBoth(s, e, w, d, v)
    decreases |s|
  {
    if "$" + d <= s && "$" + e <= s {
      BothStart(s, d, e);
    } else if "$" + d <= s {
      FillBothSymmetric(s[|d| + 1..], d, v, e, w);
    } else if "$" + e <= s {
      FillBothSymmetric(s[|e| + 1..], d, v, e, w);
    } else if s != "" {
      FillBothSymmetric(s[1..], d, v, e, w);
    }
  }

  /** Filling the longer number first with what the shorter would have left changes nothing. */
  lemma {:induction false} LongerFirst(s: string, d: string, v: string, e: string)
    requires NumberText(d) && NumberText(e) && IsIdentifier(v) && d <= e && IsIdentifier(v + e[|d|..])
    ensures Fill(Fill(s, "$" + e, v + e[|d|..]), "$" + d, v) == Fill(s, "$" + d, v)
    decreases |s|
  {
    var w := v + e[|d|..];
    if "$" + e <= s {
      LongerFirst(s[|e| + 1..], d, v, e);
      LongerInFront(s, d, v, e);
    } else if "$" + d <= s {
      var rest := s[|d| + 1..];
      LongerFirst(rest, d, v, e);
      FillBehindOther(s, e, w, d);
      FillInFront(d, Fill(rest, "$" + e, w), v);
    } else if s != "" {
      LongerFirst(s[1..], d, v, e);
      NeitherStarts(s, e, w, d, v);
    }
  }

  lemma LongerInFront(s: string, d: string, v: string, e: string)
    requires NumberText(d) && NumberText(e) && IsIdentifier(v) && d <= e && "$" + e <= s
    requires IsIdentifier(v + e[|d|..])
    ensures var rest, w := s[|e| + 1..], v + e[|d|..];
            && Fill(Fill(s, "$" + e, w), "$" + d, v) == w + Fill(Fill(rest, "$" + e, w), "$" + d, v)
            && Fill(s, "$" + d, v) == w + Fill(rest, "$" + d, v)
  {
    var tail := e[|d|..];
    var rest, w := s[|e| + 1..], v + tail;
    NoDollar(w);
    FillPlain(w, Fill(rest, "$" + e, w), d, v);
    assert e == d + tail;
    assert s == "$" + (d + tail) + rest;
    FillKeepsTail(d, tail, rest, v);
  }

  lemma FillKeepsTail(d: string, tail: string, rest: string, v: string)
    requires NumberText(tail)
    ensures Fill("$" + (d + tail) + rest, "$" + d, v) == (v + tail) + Fill(rest, "$" + d, v)
  {
    assert "$" + (d + tail) + rest == "$" + d + (tail + rest);
    FillInFront(d, tail + rest, v);
    NoDollar(tail);
    FillPlain(tail, rest, d, v);
    assert (v + tail) + Fill(rest, "$" + d, v) == v + (tail + Fill(rest, "$" + d, v));
  }

  /** Once the shorter number is filled, the longer does not occur. */
  lemma ShorterFirst(s: string, d: string, v: string, e: string, w: string)
    requires NumberText(d) && d != "" && IsIdentifier(v) && d <= e
    ensures Fill(Fill(s, "$" + d, v), "$" + e, w) == Fill(s, "$" + d, v)
  {
    var r := Fill(s, "$" + d, v);
    forall i | 0 <= i < |r| ensures !OccursAt(r, "$" + e, i) {
      NoOccurrence(s, d, v, i);
      assert "$" + d <= "$" + e;
    }
    FillRest(r, "$" + e, w, 0);
    assert r[..0] == "" && r[0..] == r;
  }

  ghost predicate Commute(s: string, d: string, v: string, e: string, w: string) {
    Fill(Fill(s, "$" + d, v), "$" + e, w) == Fill(Fill(s, "$" + e, w), "$" + d, v)
  }

  /** One number continues the other, and the names do not continue each other likewise. */
  predicate Clash(d: string, v: string, e: string, w: string) {
    d <= e && w != v + e[|d|..]
  }

  lemma ClashOnLonger(d: string, v: string, e: string, w: string)
    requires NumberText(d) && NumberText(e) && d != "" && IsIdentifier(v) && IsIdentifier(w) && Clash(d, v, e, w)
    ensures !Commute("$" + e, d, v, e, w)
  {
    var s, tail := "$" + e, e[|d|..];
    assert e == d + tail && s == "$" + d + tail;
    FillInFront(d, tail, v);
    NoDollar(tail);
    FillPlain(tail, "", d, v);
    assert tail + "" == tail && s + "" == s;
    ShorterFirst(s, d, v, e, w);
    FillInFront(e, "", w);
    NoDollar(w);
    FillPlain(w, "", d, v);
    assert w + "" == w;
  }

  /** MAIN RESULT: two fillings commute on every line if and only if no number continues the other, or
      the names differ in just the digits the numbers differ in. */
  lemma FillingsCommuteExactlyWhen(d: string, v: string, e: string, w: string)
    requires NumberText(d) && NumberText(e) && d != "" && e != "" && IsIdentifier(v) && IsIdentifier(w)
    ensures (forall s :: Commute(s, d, v, e, w)) <==> !Clash(d, v, e, w) && !Clash(e, w, d, v)
  {
    if Clash(d, v, e, w) {
      ClashOnLonger(d, v, e, w);
    } else if Clash(e, w, d, v) {
      ClashOnLonger(e, w, d, v);
      assert !Commute("$" + d, d, v, e, w);
    } else {
      forall s ensures Commute(s, d, v, e, w) {
        if d <= e {
          ShorterFirst(s, d, v, e, w);
          LongerFirst(s, d, v, e);
        } else if e <= d {
          ShorterFirst(s, e, w, d, v);
          LongerFirst(s, e, w, d);
        } else {
          FillTwice(s, d, v, e, w);
          FillTwice(s, e, w, d, v);
          FillBothSymmetric(s, d, v, e, w);
        }
      }
    }
  }

  /** The same for whole texts and hole numbers. */
  lemma HolesCommute(text: string, m: int, v: string, n: int, w: string)
    requires IsIdentifier(v) && IsIdentifier(w)
    requires !(Decimal(m) <= Decimal(n)) && !(Decimal(n) <= Decimal(m))
    ensures Filled(Filled(text, m, v), n, w) == Filled(Filled(text, n, w), m, v)
  {
    LinesOfFilled(text, m, v);
    LinesOfFilled(text, n, w);
    FillingsCommuteExactlyWhen(Decimal(m), v, Decimal(n), w);
    var lines := Lines(text);
    var a := FillAll(FillAll(lines, Placeholder(m), v), Placeholder(n), w);
    var b := FillAll(FillAll(lines, Placeholder(n), w), Placeholder(m), v);
    forall i | 0 <= i < |lines| ensures a[i] == b[i] {
      assert Commute(lines[i], Decimal(m), v, Decimal(n), w);
    }
    assert a == b;
  }
}
