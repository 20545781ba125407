/**
 * The small private helpers: thousands separators, removing every copy of
 * an element from a slice, and slice membership.
 */
module Helpers {
  import opened GoStrings

  /** A comma in front of every group of three characters: "123456" gives ",123,456". */
  function CommaGroups(s: string): (r: string)
    requires |s| % 3 == 0
    ensures |r| == |s| + |s| / 3
  {
    if s == [] then [] else [','] + s[..3] + CommaGroups(s[3..])
  }

  /** Length of the leading group: the digits left over once the rest form groups of three. */
  function LeadLength(n: nat): (f: nat)
    requires n >= 1
    ensures 1 <= f <= 3 && f <= n && (n - f) % 3 == 0
  {
    (n - 1) % 3 + 1
  }

  /** Digits with a comma between groups of three, counted from the right. */
  function Grouped(d: string): string
    requires |d| >= 1
  {
    var f := LeadLength(|d|);
    d[..f] + CommaGroups(d[f..])
  }

  /** The sign of a negative number, then its digits grouped in threes. */
  function Formatted(n: int): string
  {
    (if n < 0 then "-" else "") + Grouped(Digits(if n < 0 then -n else n))
  }

  /** Dropping the commas from the grouped text gives back the original. */
  lemma {:induction false} CommaGroupsFilter(s: string)
    requires |s| % 3 == 0
    requires ',' !in s
    ensures Filter(CommaGroups(s), ',') == s
    decreases |s|
  {
    if s != [] {
      CommaGroupsFilter(s[3..]);
      FilterAppend([','] + s[..3], CommaGroups(s[3..]), ',');
      FilterAppend([','], s[..3], ',');
      FilterShape(s[..3], ',');
      assert s == s[..3] + s[3..];
    }
  }

  /** The pieces between the commas: the head, then groups of exactly three characters of `s`. */
  lemma {:induction false} CommaGroupsSplit(h: string, s: string)
    requires |s| % 3 == 0
    requires ',' !in h && ',' !in s
    ensures var g := Split(h + CommaGroups(s), ',');
      |g| == 1 + |s| / 3 && g[0] == h &&
      forall i :: 1 <= i < |g| ==> g[i] == s[3 * (i - 1)..3 * i]
    decreases |s|
  {
    if s == [] {
      assert h + CommaGroups(s) == h;
      SplitNoSeparator(h, ',');
    } else {
      var t := s[..3];
      assert ',' !in t;
      CommaGroupsSplit(t, s[3..]);
      assert h + CommaGroups(s) == h + [','] + (t + CommaGroups(s[3..]));
      SplitAfterHead(h, ',', t + CommaGroups(s[3..]));
      var g := Split(h + CommaGroups(s), ',');
      var g' := Split(t + CommaGroups(s[3..]), ',');
      assert g == [h] + g';
      forall i | 1 <= i < |g|
        ensures g[i] == s[3 * (i - 1)..3 * i]
      {
        if i == 1 {
          assert g[1] == g'[0] == t;
        } else {
          assert g[i] == g'[i - 1] == s[3..][3 * (i - 2)..3 * (i - 1)];
        }
      }
    }
  }

  /** The printed digits hold no comma. */
  lemma DigitsHaveNoComma(n: nat)
    ensures ',' !in Digits(n)
  {
    var d := Digits(n);
    forall i | 0 <= i < |d|
      ensures d[i] != ','
    {
      assert IsDigit(d[i]);
    }
  }

  /** Removing the commas from a grouped number gives its sign and digits back. */
  lemma GroupedFilter(sign: string, d: string)
    requires |d| >= 1 && ',' !in sign && ',' !in d
    ensures Filter(sign + Grouped(d), ',') == sign + d
  {
    var f := LeadLength(|d|);
    var head, tail := sign + d[..f], d[f..];
    assert d == d[..f] + tail;
    assert head + tail == sign + d;
    assert ',' !in tail && ',' !in head;
    assert sign + Grouped(d) == head + CommaGroups(tail);
    FilterAppend(head, CommaGroups(tail), ',');
    FilterShape(head, ',');
    CommaGroupsFilter(tail);
  }

  /** The pieces of a grouped number: the sign and one to three digits, then groups of three. */
  lemma GroupedSplit(sign: string, d: string)
    requires |d| >= 1 && ',' !in sign && ',' !in d && AllDigits(d)
    ensures var g := Split(sign + Grouped(d), ',');
      |sign| <= |g[0]| && g[0][..|sign|] == sign &&
      1 <= |g[0]| - |sign| <= 3 && AllDigits(g[0][|sign|..]) &&
      forall i :: 1 <= i < |g| ==> |g[i]| == 3 && AllDigits(g[i])
  {
    var f := LeadLength(|d|);
    var h, t := sign + d[..f], d[f..];
    assert ',' !in t && ',' !in h;
    assert sign + Grouped(d) == h + CommaGroups(t);
    CommaGroupsSplit(h, t);
    assert h[|sign|..] == d[..f];
    DigitGroups(Split(h + CommaGroups(t), ','), t);
  }

  /** Pieces that are consecutive three-character slices of a digit string are three digits each. */
  lemma DigitGroups(g: seq<string>, t: string)
    requires AllDigits(t) && |g| == 1 + |t| / 3
    requires forall i :: 1 <= i < |g| ==> g[i] == t[3 * (i - 1)..3 * i]
    ensures forall i :: 1 <= i < |g| ==> |g[i]| == 3 && AllDigits(g[i])
  {
    forall i | 1 <= i < |g|
      ensures |g[i]| == 3 && AllDigits(g[i])
    {
      assert g[i] == t[3 * (i - 1)..3 * i];
    }
  }

  /** `formatNumber`: removing the commas gives the decimal text back. */
  lemma FormattedDigits(n: int)
    ensures Filter(Formatted(n), ',') == DecimalText(n)
  {
    var m := if n < 0 then -n else n;
    DigitsHaveNoComma(m);
    GroupedFilter(if n < 0 then "-" else "", Digits(m));
  }

  /**
   * `formatNumber`: the first piece between commas is an optional minus
   * sign and one to three digits, and every other piece is exactly three
   * digits.
   */
  lemma FormattedGroups(n: int)
    ensures var g := Split(Formatted(n), ',');
      var lead := if n < 0 then g[0][1..] else g[0];
      (n < 0 ==> |g[0]| >= 1 && g[0][0] == '-') &&
      1 <= |lead| <= 3 && AllDigits(lead) &&
      forall i :: 1 <= i < |g| ==> |g[i]| == 3 && AllDigits(g[i])
  {
    var m := if n < 0 then -n else n;
    DigitsHaveNoComma(m);
    GroupedSplit(if n < 0 then "-" else "", Digits(m));
  }

  /** One step of the loop in `formatNumber`: a comma goes in three places further left. */
  lemma InsertComma(text: string, idx: nat, output: string)
    requires 3 <= idx <= |text| && (|text| - idx) % 3 == 0
    requires output == text[..idx] + CommaGroups(text[idx..])
    ensures output[..idx - 3] + "," + output[idx - 3..] == text[..idx - 3] + CommaGroups(text[idx - 3..])
    ensures (|text| - (idx - 3)) % 3 == 0
  {
    var a, b, rest := text[..idx - 3], text[idx - 3..idx], text[idx..];
    var c := CommaGroups(rest);
    assert text[..idx] == a + b;
    assert text[idx - 3..] == b + rest;
    assert (b + rest)[..3] == b && (b + rest)[3..] == rest;
    assert CommaGroups(b + rest) == [','] + b + c;
    SplitAt(a, b + c);
    assert output == a + (b + c);
  }

  lemma SplitAt(a: string, b: string)
    ensures (a + b)[..|a|] == a && (a + b)[|a|..] == b
  {
  }

  /** Where the loop in `formatNumber` stops, the grouping is complete. */
  lemma LoopExit(sign: string, d: string, idx: nat)
    requires |d| >= 1
    requires |sign| + 1 <= idx <= |sign| + 3 && idx <= |sign| + |d|
    requires (|sign| + |d| - idx) % 3 == 0
    ensures (sign + d)[..idx] + CommaGroups((sign + d)[idx..]) == sign + Grouped(d)
  {
    var text := sign + d;
    var k := idx - |sign|;
    assert k == LeadLength(|d|);
    assert text[..idx] == sign + d[..k];
    assert text[idx..] == d[k..];
  }

  /** `formatNumber` on a 64-bit integer, inserting commas from the right. */
  method FormatNumber(number: int) returns (output: string)
    requires MinInt64 <= number <= MaxInt64
    ensures output == Formatted(number)
  {
    var text := DecimalText(number);
    ghost var sign: string := if number < 0 then "-" else "";
    ghost var d := Digits(if number < 0 then -number else number);
    assert text == sign + d;
    var startOffset := 3;
    if number < 0 {
      startOffset := startOffset + 1;
    }
    var idx;
    output, idx := InsertCommas(text, startOffset);
    LoopExit(sign, d, idx);
  }

  /**
   * The loop of `formatNumber`: walking left from the end of `text` three
   * characters at a time, a comma goes in while the position is past
   * `startOffset`; every character from `idx` on is then grouped.
   */
  method InsertCommas(text: string, startOffset: nat) returns (output: string, idx: nat)
    requires 3 <= startOffset && startOffset - 2 <= |text|
    ensures startOffset - 2 <= idx <= startOffset && idx <= |text| && (|text| - idx) % 3 == 0
    ensures output == text[..idx] + CommaGroups(text[idx..])
  {
    output := text;
    var outputIndex := |output|;
    assert text[outputIndex..] == [];
    while outputIndex > startOffset
      invariant startOffset - 2 <= outputIndex <= |text|
      invariant (|text| - outputIndex) % 3 == 0
      invariant output == text[..outputIndex] + CommaGroups(text[outputIndex..])
      decreases outputIndex
    {
      InsertComma(text, outputIndex, output);
      outputIndex := outputIndex - 3;
      output := output[..outputIndex] + "," + output[outputIndex..];
    }
    idx := outputIndex;
  }

  /**
   * `removeElmFrmArryString` and `removeElmFrmArry`: a new slice holding
   * the elements different from `e`, in their original order.
   */
  method RemoveElement<T(==)>(v: seq<T>, e: T) returns (r: seq<T>)
    ensures r == Filter(v, e)
    ensures e !in r
    ensures forall x :: x != e ==> multiset(r)[x] == multiset(v)[x]
  {
    r := [];
    var i := 0;
    while i < |v|
      invariant 0 <= i <= |v|
      invariant r == Filter(v[..i], e)
    {
      FilterAppend(v[..i], [v[i]], e);
      assert v[..i + 1] == v[..i] + [v[i]];
      if v[i] != e {
        r := r + [v[i]];
      }
      i := i + 1;
    }
    assert v[..i] == v;
    FilterShape(v, e);
  }

  /** `arryElmExists`. */
  method ArrayElementExists(arry: seq<string>, item: string) returns (found: bool)
    ensures found <==> item in arry
  {
    var i := 0;
    while i < |arry|
      invariant 0 <= i <= |arry|
      invariant item !in arry[..i]
    {
      if arry[i] == item {
        return true;
      }
      i := i + 1;
    }
    return false;
  }
}
