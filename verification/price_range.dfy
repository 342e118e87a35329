/** Price-range parsing (Backend/app/Agent.py, `_parse_price_range`). */
module PriceRange {
  import opened Options
  import opened Seqs
  import opened Text

  /** The `(min_price, max_price)` pair: each bound may be absent. */
  datatype Bounds = Bounds(min: Option<nat>, max: Option<nat>)

  function RemoveCommas(s: string): (r: string)
    ensures ',' !in r
    ensures NoneIn(r, Digits) <==> NoneIn(s, Digits)
  {
    if |s| == 0 then ""
    else
      var rest := RemoveCommas(s[1..]);
      assert NoneIn(s, Digits) <==> !IsDigit(s[0]) && NoneIn(s[1..], Digits) by {
        assert forall i :: 0 < i < |s| ==> s[i] == s[1..][i - 1];
      }
      if s[0] == ',' then rest
      else
        var r := [s[0]] + rest;
        assert r[1..] == rest;
        assert NoneIn(r, Digits) <==> !IsDigit(r[0]) && NoneIn(r[1..], Digits) by {
          assert forall i :: 0 < i < |r| ==> r[i] == r[1..][i - 1];
        }
        r
  }

  lemma {:induction false} RemoveCommasWithoutCommas(s: string)
    requires ',' !in s
    ensures RemoveCommas(s) == s
  {
    if |s| > 0 {
      assert s[0] in s;
      assert forall c :: c in s[1..] ==> c in s;
      RemoveCommasWithoutCommas(s[1..]);
      assert [s[0]] + s[1..] == s;
    }
  }

  /** Removing commas works piecewise: the other characters are kept, in order. */
  lemma {:induction false} RemoveCommasOfConcat(a: string, b: string)
    ensures RemoveCommas(a + b) == RemoveCommas(a) + RemoveCommas(b)
  {
    if |a| > 0 {
      assert (a + b)[0] == a[0];
      assert (a + b)[1..] == a[1..] + b;
      RemoveCommasOfConcat(a[1..], b);
    } else {
      assert a + b == b;
    }
  }

  /** A comma between two pieces of text is dropped and nothing else is. */
  lemma DropsTheComma(a: string, b: string)
    ensures RemoveCommas(a + "," + b) == RemoveCommas(a) + RemoveCommas(b)
  {
    RemoveCommasOfConcat(a + ",", b);
    RemoveCommasOfConcat(a, ",");
    CommaIsRemoved();
    var ra := RemoveCommas(a);
    assert ra + "" == ra;
  }

  lemma CommaIsRemoved()
    ensures RemoveCommas(",") == ""
  {
  }

  /** The numbers written in the text: its digit runs once commas are removed. */
  function Numbers(text: string): (nums: seq<nat>)
    ensures |nums| == 0 <==> NoneIn(text, Digits)
  {
    Values(Runs(RemoveCommas(text), Digits))
  }

  /** `[float(num) for num in numbers]` */
  function Values(runs: seq<string>): (v: seq<nat>)
    ensures |v| == |runs|
    ensures forall i :: 0 <= i < |runs| ==> v[i] == Value(runs[i])
  {
    seq(|runs|, i requires 0 <= i < |runs| => Value(runs[i]))
  }

  lemma ValuesOfConcat(x: seq<string>, y: seq<string>)
    ensures Values(x + y) == Values(x) + Values(y)
  {
  }

  function MaxOf(xs: seq<nat>): (m: nat)
    requires |xs| > 0
    ensures m in xs
    ensures forall j :: 0 <= j < |xs| ==> xs[j] <= m
  {
    if |xs| == 1 then xs[0]
    else
      var m := MaxOf(xs[1..]);
      assert forall j :: 1 <= j < |xs| ==> xs[j] == xs[1..][j - 1];
      if xs[0] >= m then xs[0] else m
  }

  function MinOf(xs: seq<nat>): (m: nat)
    requires |xs| > 0
    ensures m in xs
    ensures forall j :: 0 <= j < |xs| ==> m <= xs[j]
  {
    if |xs| == 1 then xs[0]
    else
      var m := MinOf(xs[1..]);
      assert forall j :: 1 <= j < |xs| ==> xs[j] == xs[1..][j - 1];
      if xs[0] <= m then xs[0] else m
  }

  predicate SaysUnder(text: string) {
    Contains(Lower(text), "under") || Contains(Lower(text), "below")
  }

  predicate SaysOver(text: string) {
    Contains(Lower(text), "over") || Contains(Lower(text), "above")
  }

  predicate SaysBetween(text: string) {
    Contains(Lower(text), "between")
  }

  /** `_parse_price_range`. Text without digits gives no bounds. Otherwise "under"/"below"
      wins and gives only an upper bound, then "over"/"above" gives only a lower bound, then
      "between" with two or more numbers gives both, and anything else reads as an upper
      bound. A lower bound is always the smallest number in the text and an upper bound the
      largest. */
  function ParsePriceRange(text: string): (r: Bounds)
    ensures r == Bounds(None, None) <==> NoneIn(text, Digits)
    ensures r.max.Some? ==>
      (r.max.value in Numbers(text) && forall j :: 0 <= j < |Numbers(text)| ==> Numbers(text)[j] <= r.max.value)
    ensures r.min.Some? ==>
      (r.min.value in Numbers(text) && forall j :: 0 <= j < |Numbers(text)| ==> r.min.value <= Numbers(text)[j])
    ensures !NoneIn(text, Digits) && SaysUnder(text) ==> r.min.None? && r.max.Some?
    ensures !NoneIn(text, Digits) && !SaysUnder(text) && SaysOver(text) ==> r.min.Some? && r.max.None?
    ensures !NoneIn(text, Digits) && !SaysUnder(text) && !SaysOver(text) ==>
      (r.min.Some? <==> SaysBetween(text) && |Numbers(text)| >= 2) && r.max.Some?
  {
    if text == "" then Bounds(None, None)
    else
      var nums := Numbers(text);
      if |nums| == 0 then Bounds(None, None)
      else if SaysUnder(text) then Bounds(None, Some(MaxOf(nums)))
      else if SaysOver(text) then Bounds(Some(MinOf(nums)), None)
      else if SaysBetween(text) && |nums| >= 2 then Bounds(Some(MinOf(nums)), Some(MaxOf(nums)))
      else Bounds(None, Some(MaxOf(nums)))
  }

  /** A string of lower-case letters and spaces. */
  predicate Plain(s: string) {
    forall i :: 0 <= i < |s| ==> IsLowerLetter(s[i]) || s[i] == ' '
  }

  /** Lower-case words joined with a numeral: lower-casing changes nothing, no comma is
      removed, and no digit comes from the words. */
  lemma PlainWithNumeral(w: string, d: string)
    requires Plain(w) && AllIn(d, Digits)
    ensures Lower(w + d) == w + d
    ensures ',' !in w + d
    ensures NoneIn(w, Digits)
  {
    LowerOfLowerCase(w + d);
    assert forall i :: 0 <= i < |w + d| ==> (w + d)[i] != ',';
  }

  lemma NoLetterNoWord(s: string, w: string, j: int)
    requires 0 <= j < |w|
    requires forall i :: 0 <= i < |s| ==> s[i] != w[j]
    ensures !Contains(s, w)
  {
    if Contains(s, w) {
      ContainedCharsOccur(s, w, j);
    }
  }

  /** Lower-case words followed by one digit string hold exactly that one number. */
  lemma NumbersOfWordAndDigits(w: string, d: string)
    requires Plain(w) && |d| > 0 && AllIn(d, Digits)
    ensures Numbers(w + d) == [Value(d)]
  {
    PlainWithNumeral(w, d);
    RemoveCommasWithoutCommas(w + d);
    RunsSkipNoise(w, d, Digits);
    RunsOfLeadingRun(d, "", Digits);
    assert d + "" == d;
  }

  lemma NumbersOfWordAndNumeral(w: string, n: nat)
    requires Plain(w)
    ensures Numbers(w + NatToString(n)) == [n]
  {
    NumbersOfWordAndDigits(w, NatToString(n));
    ValueOfNatToString(n);
  }

  /** A thousands separator does not split a number: the text reads as if the comma were
      not there. */
  lemma NumbersIgnoreCommas(a: string, b: string)
    ensures Numbers(a + "," + b) == Numbers(a + b)
  {
    DropsTheComma(a, b);
    RemoveCommasOfConcat(a, b);
  }

  /** Any character that is neither a digit nor a comma separates numbers: the text on each
      side of it is read on its own. */
  lemma NumbersOfSeparated(a: string, c: char, b: string)
    requires !IsDigit(c) && c != ','
    ensures Numbers(a + [c] + b) == Numbers(a) + Numbers(b)
  {
    KeepsTheSeparator(a, c, b);
    RunsOfSeparated(RemoveCommas(a), c, RemoveCommas(b), Digits);
    ValuesOfConcat(Runs(RemoveCommas(a), Digits), Runs(RemoveCommas(b), Digits));
  }

  lemma KeepsTheSeparator(a: string, c: char, b: string)
    requires c != ','
    ensures RemoveCommas(a + [c] + b) == RemoveCommas(a) + [c] + RemoveCommas(b)
  {
    RemoveCommasOfConcat(a + [c], b);
    RemoveCommasOfConcat(a, [c]);
    assert RemoveCommas([c]) == [c];
  }

  /** A digit string on its own is one number, its decimal value. */
  lemma NumbersOfNumeral(d: string)
    requires |d| > 0 && AllIn(d, Digits)
    ensures Numbers(d) == [Value(d)]
  {
    NumbersOfWordAndDigits("", d);
    assert "" + d == d;
  }

  /** Three trailing zeros multiply a numeral's value by a thousand. */
  lemma ValueOfThousands(d: string)
    ensures Value(d + "000") == Value(d) * 1000
  {
    var d1, d2, d3 := d + "0", d + "00", d + "000";
    assert d1[..|d1| - 1] == d && d1[|d1| - 1] == '0';
    assert Value(d1) == Value(d) * 10;
    assert d2[..|d2| - 1] == d1 && d2[|d2| - 1] == '0';
    assert Value(d2) == Value(d1) * 10;
    assert d3[..|d3| - 1] == d2 && d3[|d3| - 1] == '0';
    assert Value(d3) == Value(d2) * 10;
  }

  /** Any text starting "under " says "under". */
  lemma UnderIsSaid(rest: string)
    ensures SaysUnder("under " + rest)
  {
    var tail := " " + rest;
    assert "under " + rest == "under" + tail;
    LowerOfConcat("under", tail);
    assert Lower("under") == "under";
    assert Lower("under" + tail) == "" + "under" + Lower(tail);
    ContainsInside("", "under", Lower(tail));
  }

  lemma UnderIsPlain()
    ensures Plain("under ")
  {
  }

  /** The numbers of "under N,000": the comma is dropped, leaving the one number N * 1000. */
  lemma NumbersOfThousands(n: nat)
    ensures Numbers("under " + (NatToString(n) + ",000")) == [n * 1000]
  {
    var d := NatToString(n);
    ThousandsAsDigits(d);
    NumbersIgnoreCommas("under " + d, "000");
    UnderIsPlain();
    NumbersOfWordAndDigits("under ", d + "000");
    ValueOfThousands(d);
    ValueOfNatToString(n);
  }

  /** Writing the thousands with or without their separator. */
  lemma ThousandsAsDigits(d: string)
    requires AllIn(d, Digits)
    ensures "under " + (d + ",000") == "under " + d + "," + "000"
    ensures "under " + d + "000" == "under " + (d + "000")
    ensures AllIn(d + "000", Digits)
  {
  }

  /** A price written with a thousands separator, as in "under 50,000", parses to the whole
      number as an upper bound. */
  lemma ParseUnderThousands(n: nat)
    ensures ParsePriceRange("under " + NatToString(n) + ",000") == Bounds(None, Some(n * 1000))
  {
    var d := NatToString(n);
    assert "under " + d + ",000" == "under " + (d + ",000");
    NumbersOfThousands(n);
    UnderIsSaid(d + ",000");
    UnderWithOneNumber("under " + (d + ",000"), n * 1000);
  }

  lemma UnderWithOneNumber(t: string, n: nat)
    requires Numbers(t) == [n] && SaysUnder(t)
    ensures ParsePriceRange(t) == Bounds(None, Some(n))
  {
    assert t != "";
    assert MaxOf([n]) == n;
  }

  /** "under N" parses to an upper bound of N. */
  lemma ParseUnder(n: nat)
    ensures ParsePriceRange("under " + NatToString(n)) == Bounds(None, Some(n))
  {
    UnderIsPlain();
    NumbersOfWordAndNumeral("under ", n);
    UnderIsSaid(NatToString(n));
    UnderWithOneNumber("under " + NatToString(n), n);
  }

  /** "over N" parses to a lower bound of N. */
  lemma ParseOver(n: nat)
    ensures ParsePriceRange("over " + NatToString(n)) == Bounds(Some(n), None)
  {
    var d := NatToString(n);
    OverIsPlain();
    NumbersOfWordAndNumeral("over ", n);
    OverIsSaid(d);
    OverSaysNoUnder(d);
    OverWithOneNumber("over " + d, n);
  }

  lemma OverIsPlain()
    ensures Plain("over ")
    ensures forall i :: 0 <= i < |"over "| ==> "over "[i] != 'u' && "over "[i] != 'b'
  {
  }

  /** Any text starting "over " says "over". */
  lemma OverIsSaid(rest: string)
    ensures SaysOver("over " + rest)
  {
    var tail := " " + rest;
    assert "over " + rest == "over" + tail;
    LowerOfConcat("over", tail);
    assert Lower("over") == "over";
    assert Lower("over" + tail) == "" + "over" + Lower(tail);
    ContainsInside("", "over", Lower(tail));
  }

  /** "over " and a numeral hold neither "under" nor "below". */
  lemma OverSaysNoUnder(d: string)
    requires AllIn(d, Digits)
    ensures !SaysUnder("over " + d)
  {
    var t := "over " + d;
    OverIsPlain();
    PlainWithNumeral("over ", d);
    assert forall i :: 0 <= i < |t| ==> t[i] != 'u' && t[i] != 'b' by {
      forall i | 0 <= i < |t|
        ensures t[i] != 'u' && t[i] != 'b'
      {
        if i >= 5 {
          assert t[i] == d[i - 5];
        }
      }
    }
    NoLetterNoWord(t, "under", 0);
    NoLetterNoWord(t, "below", 0);
  }

  lemma OverWithOneNumber(t: string, n: nat)
    requires Numbers(t) == [n] && !SaysUnder(t) && SaysOver(t)
    ensures ParsePriceRange(t) == Bounds(Some(n), None)
  {
    assert t != "";
    assert MinOf([n]) == n;
  }

  /** A bare number parses to an upper bound. */
  lemma ParseBare(n: nat)
    ensures ParsePriceRange(NatToString(n)) == Bounds(None, Some(n))
  {
    var d := NatToString(n);
    assert Plain("");
    assert "" + d == d;
    NumbersOfWordAndNumeral("", n);
    PlainWithNumeral("", d);
    assert forall i :: 0 <= i < |d| ==> !IsLetter(d[i]);
    NoLetterNoWord(d, "under", 0);
    NoLetterNoWord(d, "below", 0);
    NoLetterNoWord(d, "over", 0);
    NoLetterNoWord(d, "above", 0);
    NoLetterNoWord(d, "between", 0);
  }

  lemma LetterNotInNumeral(d: string, c: char)
    requires AllIn(d, Digits) && IsLetter(c)
    ensures c !in d
  {
  }

  lemma RunsOfBetween(da: string, db: string)
    requires |da| > 0 && AllIn(da, Digits) && |db| > 0 && AllIn(db, Digits)
    ensures Runs("between " + da + " and " + db, Digits) == [da, db]
  {
    var tail := " and " + db;
    assert "between " + da + " and " + db == "between " + (da + tail);
    assert NoneIn("between ", Digits) && NoneIn(" and ", Digits);
    RunsSkipNoise("between ", da + tail, Digits);
    RunsOfLeadingRun(da, tail, Digits);
    RunsSkipNoise(" and ", db, Digits);
    RunsOfLeadingRun(db, "", Digits);
    assert db + "" == db;
  }

  lemma NoCommaInBetween(da: string, db: string)
    requires AllIn(da, Digits) && AllIn(db, Digits)
    ensures ',' !in "between " + da + " and " + db
  {
    assert ',' !in "between " && ',' !in " and ";
    assert ',' !in da && ',' !in db;
  }

  /** The two numerals of "between A and B" are its numbers. */
  lemma NumbersOfBetween(da: string, db: string)
    requires |da| > 0 && AllIn(da, Digits) && |db| > 0 && AllIn(db, Digits)
    ensures Numbers("between " + da + " and " + db) == [Value(da), Value(db)]
  {
    var t := "between " + da + " and " + db;
    NoCommaInBetween(da, db);
    RemoveCommasWithoutCommas(t);
    RunsOfBetween(da, db);
  }

  /** "between A and B" mentions "between" and none of the earlier keywords. */
  lemma KeywordsOfBetween(da: string, db: string)
    requires AllIn(da, Digits) && AllIn(db, Digits)
    ensures var t := "between " + da + " and " + db;
      !SaysUnder(t) && !SaysOver(t) && SaysBetween(t)
  {
    var t := "between " + da + " and " + db;
    assert Lower(t) == t by {
      LowerOfConcat("between " + da, " and " + db);
      LowerOfConcat("between ", da);
      LowerOfConcat(" and ", db);
      LowerOfLowerCase(da);
      LowerOfLowerCase(db);
      assert Lower("between ") == "between ";
      assert Lower(" and ") == " and ";
    }
    forall c | c in "ulo"
      ensures c !in t
    {
      LetterNotInNumeral(da, c);
      LetterNotInNumeral(db, c);
    }
    NoLetterNoWord(t, "under", 0);
    NoLetterNoWord(t, "below", 2);
    NoLetterNoWord(t, "over", 0);
    NoLetterNoWord(t, "above", 2);
    assert t == "" + "between" + (" " + da + " and " + db);
    ContainsInside("", "between", " " + da + " and " + db);
  }

  /** "between A and B" parses to the smaller and the larger of A and B. */
  lemma ParseBetween(a: nat, b: nat)
    ensures ParsePriceRange("between " + NatToString(a) + " and " + NatToString(b))
      == Bounds(Some(Min(a, b)), Some(if a >= b then a else b))
  {
    var da, db := NatToString(a), NatToString(b);
    NumbersOfBetween(da, db);
    KeywordsOfBetween(da, db);
    ValueOfNatToString(a);
    ValueOfNatToString(b);
  }
}
