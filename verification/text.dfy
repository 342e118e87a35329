/** Character and string operations the assistant takes from Python's `str`:
    lower-casing, title-casing, substring search, `split()`, and digit-run extraction.
    Case mapping covers ASCII letters only. */
module Text {
  import opened Seqs

  predicate IsUpper(c: char) { 'A' <= c <= 'Z' }

  predicate IsLowerLetter(c: char) { 'a' <= c <= 'z' }

  predicate IsLetter(c: char) { IsUpper(c) || IsLowerLetter(c) }

  predicate IsDigit(c: char) { '0' <= c <= '9' }

  /** Python's whitespace as used by `str.split()` with no separator. */
  predicate IsSpace(c: char) {
    var n := c as int;
    n == 32 || 9 <= n <= 13 || 28 <= n <= 31 || n == 0x85 || n == 0xA0 || n == 0x1680 ||
    0x2000 <= n <= 0x200A || n == 0x2028 || n == 0x2029 || n == 0x202F || n == 0x205F || n == 0x3000
  }

  function LowerChar(c: char): (d: char)
    ensures !IsUpper(d)
    ensures IsLetter(d) <==> IsLetter(c)
    ensures IsSpace(d) <==> IsSpace(c)
  {
    if IsUpper(c) then (c as int + 32) as char else c
  }

  function UpperChar(c: char): (d: char)
    ensures !IsLowerLetter(d)
    ensures IsLetter(d) <==> IsLetter(c)
    ensures IsSpace(d) <==> IsSpace(c)
    ensures LowerChar(d) == LowerChar(c)
  {
    if IsLowerLetter(c) then (c as int - 32) as char else c
  }

  /** `s.lower()` */
  function Lower(s: string): (r: string)
    ensures |r| == |s|
    ensures forall i :: 0 <= i < |s| ==> r[i] == LowerChar(s[i])
  {
    seq(|s|, i requires 0 <= i < |s| => LowerChar(s[i]))
  }

  lemma LowerOfConcat(a: string, b: string)
    ensures Lower(a + b) == Lower(a) + Lower(b)
  {
  }

  lemma LowerIsIdempotent(s: string)
    ensures Lower(Lower(s)) == Lower(s)
  {
  }

  /** A string without upper-case letters is its own lower-case form. */
  lemma LowerOfLowerCase(s: string)
    requires forall i :: 0 <= i < |s| ==> !IsUpper(s[i])
    ensures Lower(s) == s
  {
  }

  /** Python's `str.title()`: a letter is upper-cased when the character before it is not a
      letter, and lower-cased otherwise. */
  function TitleFrom(s: string, afterLetter: bool): (r: string)
    ensures |r| == |s|
    ensures forall i :: 0 <= i < |s| ==> LowerChar(r[i]) == LowerChar(s[i])
    ensures forall i :: 0 <= i < |s| ==> (IsSpace(r[i]) <==> IsSpace(s[i]))
  {
    if |s| == 0 then ""
    else
      var c := if afterLetter then LowerChar(s[0]) else UpperChar(s[0]);
      [c] + TitleFrom(s[1..], IsLetter(s[0]))
  }

  function Title(s: string): string {
    TitleFrom(s, false)
  }

  /** Title-casing changes letter case only, so lower-casing undoes it. */
  lemma LowerOfTitle(s: string)
    ensures Lower(Title(s)) == Lower(s)
  {
  }

  predicate OccursAt(s: string, w: string, i: int) {
    0 <= i && i + |w| <= |s| && s[i..i + |w|] == w
  }

  /** Python's `w in s` for strings. */
  predicate Contains(s: string, w: string) {
    exists i :: 0 <= i <= |s| && OccursAt(s, w, i)
  }

  /** `any(w in s for w in ws)` */
  predicate ContainsAny(s: string, ws: seq<string>) {
    exists j :: 0 <= j < |ws| && Contains(s, ws[j])
  }

  lemma ContainsInside(a: string, w: string, b: string)
    ensures Contains(a + w + b, w)
  {
    assert OccursAt(a + w + b, w, |a|);
  }

  /** Every character of a contained string occurs in the containing one. */
  lemma ContainedCharsOccur(s: string, w: string, j: int)
    requires Contains(s, w)
    requires 0 <= j < |w|
    ensures w[j] in s
  {
    var i :| 0 <= i <= |s| && OccursAt(s, w, i);
    assert s[i..i + |w|][j] == w[j];
    assert s[i + j] == w[j];
  }

  predicate StartsWith(s: string, p: string) {
    |p| <= |s| && s[..|p|] == p
  }

  predicate EndsWith(s: string, p: string) {
    |p| <= |s| && s[|s| - |p|..] == p
  }

  /** `sep.join(parts)` */
  function Join(parts: seq<string>, sep: string): string {
    if |parts| == 0 then ""
    else if |parts| == 1 then parts[0]
    else parts[0] + sep + Join(parts[1..], sep)
  }

  /** The two character classes whose maximal runs the source extracts. */
  datatype CharClass = Digits | NonSpace

  predicate InClass(c: char, k: CharClass) {
    match k
    case Digits => IsDigit(c)
    case NonSpace => !IsSpace(c)
  }

  predicate AllIn(s: string, k: CharClass) {
    forall i :: 0 <= i < |s| ==> InClass(s[i], k)
  }

  predicate NoneIn(s: string, k: CharClass) {
    forall i :: 0 <= i < |s| ==> !InClass(s[i], k)
  }

  /** Length of the longest prefix of `s` made of characters of class `k`. */
  function RunLength(s: string, k: CharClass): (n: nat)
    ensures n <= |s|
    ensures AllIn(s[..n], k)
    ensures n < |s| ==> !InClass(s[n], k)
  {
    if |s| == 0 || !InClass(s[0], k) then 0 else 1 + RunLength(s[1..], k)
  }

  /** The maximal runs of class-`k` characters of `s`, left to right: with `NonSpace` this is
      Python's `s.split()`, with `Digits` it is `re.findall(r'\d+', s)`. */
  function Runs(s: string, k: CharClass): (r: seq<string>)
    ensures forall j :: 0 <= j < |r| ==> |r[j]| > 0 && AllIn(r[j], k)
    ensures |r| == 0 <==> NoneIn(s, k)
    decreases |s|
  {
    if |s| == 0 then []
    else if !InClass(s[0], k) then
      assert NoneIn(s, k) <==> NoneIn(s[1..], k) by {
        assert forall i :: 0 < i < |s| ==> s[i] == s[1..][i - 1];
      }
      Runs(s[1..], k)
    else
      var n := RunLength(s, k);
      [s[..n]] + Runs(s[n..], k)
  }

  function Split(s: string): seq<string> {
    Runs(s, NonSpace)
  }

  /** A prefix without class-`k` characters contributes no run. */
  lemma {:induction false} RunsSkipNoise(p: string, s: string, k: CharClass)
    requires NoneIn(p, k)
    ensures Runs(p + s, k) == Runs(s, k)
    decreases |p|
  {
    if |p| > 0 {
      assert (p + s)[0] == p[0];
      assert !InClass((p + s)[0], k);
      assert (p + s)[1..] == p[1..] + s;
      RunsSkipNoise(p[1..], s, k);
      assert Runs(p + s, k) == Runs((p + s)[1..], k);
    } else {
      assert p + s == s;
    }
  }

  lemma {:induction false} RunLengthOfRun(t: string, rest: string, k: CharClass)
    requires AllIn(t, k)
    requires |rest| == 0 || !InClass(rest[0], k)
    ensures RunLength(t + rest, k) == |t|
    decreases |t|
  {
    if |t| > 0 {
      assert (t + rest)[1..] == t[1..] + rest;
      RunLengthOfRun(t[1..], rest, k);
    }
  }

  /** A maximal run at the front of a string is its first run. */
  lemma RunsOfLeadingRun(t: string, rest: string, k: CharClass)
    requires |t| > 0 && AllIn(t, k)
    requires |rest| == 0 || !InClass(rest[0], k)
    ensures Runs(t + rest, k) == [t] + Runs(rest, k)
  {
    RunLengthOfRun(t, rest, k);
    var s := t + rest;
    assert s[..|t|] == t;
    assert s[|t|..] == rest;
  }

  /** A character outside class `k` ends every run: the runs of the text on either side of
      it are found independently. */
  lemma {:induction false} RunsOfSeparated(a: string, c: char, b: string, k: CharClass)
    requires !InClass(c, k)
    ensures Runs(a + [c] + b, k) == Runs(a, k) + Runs(b, k)
    decreases |a|
  {
    var s := a + [c] + b;
    if |a| == 0 {
      assert s == [c] + b;
      RunsSkipNoise([c], b, k);
    } else if !InClass(a[0], k) {
      assert s[0] == a[0];
      assert s[1..] == a[1..] + [c] + b;
      RunsOfSeparated(a[1..], c, b, k);
    } else {
      var n := RunLength(a, k);
      var t, rest := a[..n], a[n..];
      var x := rest + [c] + b;
      assert a == t + rest;
      assert s == t + x;
      assert x[0] == if |rest| == 0 then c else rest[0];
      RunsOfSeparated(rest, c, b, k);
      RunBeforeSeparated(t, rest, x, Runs(b, k), k);
    }
  }

  /** The step of RunsOfSeparated for a text that opens with a maximal run `t`. */
  lemma RunBeforeSeparated(t: string, rest: string, x: string, tail: seq<string>, k: CharClass)
    requires |t| > 0 && AllIn(t, k)
    requires |rest| == 0 || !InClass(rest[0], k)
    requires |x| > 0 && !InClass(x[0], k)
    requires Runs(x, k) == Runs(rest, k) + tail
    ensures Runs(t + x, k) == Runs(t + rest, k) + tail
  {
    RunsOfLeadingRun(t, x, k);
    RunsOfLeadingRun(t, rest, k);
    AppendAssoc([t], Runs(rest, k), tail);
  }

  /** Joining class-`k` words with a separator free of class-`k` characters and splitting
      the result back into runs returns the words. */
  lemma {:induction false} RunsOfJoin(words: seq<string>, sep: string, k: CharClass)
    requires forall j :: 0 <= j < |words| ==> |words[j]| > 0 && AllIn(words[j], k)
    requires |sep| > 0 && NoneIn(sep, k)
    ensures Runs(Join(words, sep), k) == words
    decreases |words|
  {
    if |words| == 1 {
      RunsOfLeadingRun(words[0], "", k);
      assert words[0] + "" == words[0];
    } else if |words| > 1 {
      var w0 := words[0];
      var tail := words[1..];
      var rest := Join(tail, sep);
      assert [w0] + tail == words;
      assert Join(words, sep) == w0 + (sep + rest);
      assert forall j :: 0 <= j < |tail| ==> tail[j] == words[j + 1];
      RunsOfJoin(tail, sep, k);
      RunsSkipNoise(sep, rest, k);
      assert (sep + rest)[0] == sep[0];
      assert !InClass(sep[0], k);
      RunsOfLeadingRun(w0, sep + rest, k);
    }
  }

  /** Every string of `ws` lower-cased. */
  function LowerAll(ws: seq<string>): (r: seq<string>)
    ensures |r| == |ws|
    ensures forall i :: 0 <= i < |ws| ==> r[i] == Lower(ws[i])
  {
    seq(|ws|, i requires 0 <= i < |ws| => Lower(ws[i]))
  }

  /** Lower-casing a joined string lower-cases every part and the separator. */
  lemma {:induction false} LowerOfJoin(ws: seq<string>, sep: string)
    ensures Lower(Join(ws, sep)) == Join(LowerAll(ws), Lower(sep))
    decreases |ws|
  {
    if |ws| > 1 {
      LowerOfJoin(ws[1..], sep);
      assert LowerAll(ws)[1..] == LowerAll(ws[1..]);
      LowerOfConcat(ws[0] + sep, Join(ws[1..], sep));
      LowerOfConcat(ws[0], sep);
    }
  }

  function DigitChar(d: nat): (c: char)
    requires d < 10
    ensures IsDigit(c)
  {
    ('0' as int + d) as char
  }

  function DigitValue(c: char): (d: nat)
    ensures d < 10
  {
    if IsDigit(c) then c as int - '0' as int else 0
  }

  /** The number a string of decimal digits denotes (Python's `float(digits)` without rounding). */
  function Value(digits: string): nat {
    if |digits| == 0 then 0
    else Value(digits[..|digits| - 1]) * 10 + DigitValue(digits[|digits| - 1])
  }

  /** The decimal numeral of `n`, without leading zeros. */
  function NatToString(n: nat): (s: string)
    ensures |s| > 0 && AllIn(s, Digits)
  {
    if n < 10 then [DigitChar(n)]
    else NatToString(n / 10) + [DigitChar(n % 10)]
  }

  lemma {:induction false} ValueOfNatToString(n: nat)
    ensures Value(NatToString(n)) == n
  {
    var s := NatToString(n);
    if n >= 10 {
      ValueOfNatToString(n / 10);
      assert s[..|s| - 1] == NatToString(n / 10);
    }
  }
}
