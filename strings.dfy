/**
 * The parts of Go's `strings` and `strconv` packages that the library relies
 * on, restricted to ASCII text (a Go `string` is modelled as `seq<char>`,
 * one character per byte).
 */
module GoStrings {

  /** ASCII lower-casing of one character, as `unicode.ToLower` does on ASCII. */
  function LowerChar(c: char): char
  {
    if 'A' <= c <= 'Z' then (c as int + 32) as char else c
  }

  /** ASCII upper-casing of one character. */
  function UpperChar(c: char): char
  {
    if 'a' <= c <= 'z' then (c as int - 32) as char else c
  }

  /** `strings.ToLower`. */
  function ToLower(s: string): (r: string)
    ensures |r| == |s|
    ensures forall i :: 0 <= i < |s| ==> r[i] == LowerChar(s[i])
  {
    seq(|s|, i requires 0 <= i < |s| => LowerChar(s[i]))
  }

  /** `strings.ToUpper`. */
  function ToUpper(s: string): (r: string)
    ensures |r| == |s|
    ensures forall i :: 0 <= i < |s| ==> r[i] == UpperChar(s[i])
  {
    seq(|s|, i requires 0 <= i < |s| => UpperChar(s[i]))
  }

  /** No ASCII upper-case letter occurs in `s`. */
  predicate IsLower(s: string)
  {
    forall i :: 0 <= i < |s| ==> !('A' <= s[i] <= 'Z')
  }

  lemma ToLowerIsLower(s: string)
    ensures IsLower(ToLower(s))
  {
  }

  lemma LowerFixesLower(s: string)
    requires IsLower(s)
    ensures ToLower(s) == s
  {
  }

  lemma ToLowerConcat(a: string, b: string)
    ensures ToLower(a + b) == ToLower(a) + ToLower(b)
  {
  }

  predicate StartsWith(s: string, p: string)
  {
    |p| <= |s| && s[..|p|] == p
  }

  predicate EndsWith(s: string, p: string)
  {
    |p| <= |s| && s[|s| - |p|..] == p
  }

  /** `strings.Contains`: `p` occurs at some position of `s`. */
  predicate Contains(s: string, p: string)
    decreases |s|
  {
    StartsWith(s, p) || (|s| > 0 && Contains(s[1..], p))
  }

  lemma {:induction false} ContainsAt(s: string, p: string, i: nat)
    requires i + |p| <= |s| && s[i..i + |p|] == p
    ensures Contains(s, p)
    decreases i
  {
    if i > 0 {
      assert s[1..][i - 1..i - 1 + |p|] == s[i..i + |p|];
      ContainsAt(s[1..], p, i - 1);
    }
  }

  /** The implication form of ContainsAt, for proofs that must not branch on a contradiction. */
  lemma ContainsIfAt(s: string, p: string, i: nat)
    ensures i + |p| <= |s| && s[i..i + |p|] == p ==> Contains(s, p)
  {
    if i + |p| <= |s| && s[i..i + |p|] == p {
      ContainsAt(s, p, i);
    }
  }

  /** A text that lacks the first character of `p` does not contain `p`. */
  lemma {:induction false} HeadAbsent(s: string, p: string)
    requires |p| > 0 && p[0] !in s
    ensures !Contains(s, p)
    decreases |s|
  {
    if s != [] {
      assert s[0] != p[0];
      HeadAbsent(s[1..], p);
    }
  }

  lemma {:induction false} ContainsWitness(s: string, p: string) returns (i: nat)
    requires Contains(s, p)
    ensures i + |p| <= |s| && s[i..i + |p|] == p
    decreases |s|
  {
    if StartsWith(s, p) {
      i := 0;
    } else {
      var j := ContainsWitness(s[1..], p);
      i := j + 1;
      assert s[1..][j..j + |p|] == s[i..i + |p|];
    }
  }

  /**
   * `strings.ReplaceAll(s, pat, rep)` for a non-empty `pat`: occurrences are
   * found left to right and do not overlap.
   */
  function ReplaceAll(s: string, pat: string, rep: string): string
    requires pat != []
    decreases |s|
  {
    if s == [] then []
    else if StartsWith(s, pat) then rep + ReplaceAll(s[|pat|..], pat, rep)
    else [s[0]] + ReplaceAll(s[1..], pat, rep)
  }

  /** Replacing a pattern that does not occur leaves the text as it was. */
  lemma {:induction false} ReplaceAllAbsent(s: string, pat: string, rep: string)
    requires pat != [] && !Contains(s, pat)
    ensures ReplaceAll(s, pat, rep) == s
    decreases |s|
  {
    if s != [] {
      ReplaceAllAbsent(s[1..], pat, rep);
    }
  }

  /** A replacement at least as long as the pattern never shortens the text. */
  lemma {:induction false} ReplaceAllNotShorter(s: string, pat: string, rep: string)
    requires pat != [] && |rep| >= |pat|
    ensures |ReplaceAll(s, pat, rep)| >= |s|
    decreases |s|
  {
    if s != [] {
      if StartsWith(s, pat) {
        ReplaceAllNotShorter(s[|pat|..], pat, rep);
      } else {
        ReplaceAllNotShorter(s[1..], pat, rep);
      }
    }
  }

  /** A shorter replacement strictly shortens a text in which the pattern occurs. */
  lemma {:induction false} ReplaceAllShorter(s: string, pat: string, rep: string)
    requires pat != [] && |rep| < |pat|
    ensures |ReplaceAll(s, pat, rep)| <= |s|
    ensures Contains(s, pat) ==> |ReplaceAll(s, pat, rep)| < |s|
    decreases |s|
  {
    if s != [] {
      if StartsWith(s, pat) {
        ReplaceAllShorter(s[|pat|..], pat, rep);
      } else {
        ReplaceAllShorter(s[1..], pat, rep);
      }
    }
  }

  /** An occurrence in a suffix is an occurrence in the whole text. */
  lemma ContainsInSuffix(s: string, k: nat, p: string)
    requires k <= |s| && Contains(s[k..], p)
    ensures Contains(s, p)
  {
    var i := ContainsWitness(s[k..], p);
    assert s[k..][i..i + |p|] == s[k + i..k + i + |p|];
    ContainsAt(s, p, k + i);
  }

  /** Replacing one character by one character acts position by position. */
  lemma {:induction false} ReplaceAllChar(s: string, c: char, d: char)
    ensures |ReplaceAll(s, [c], [d])| == |s|
    ensures forall i :: 0 <= i < |s| ==>
      ReplaceAll(s, [c], [d])[i] == (if s[i] == c then d else s[i])
    decreases |s|
  {
    if s != [] {
      ReplaceAllChar(s[1..], c, d);
    }
  }

  /** Lower-casing a lower-case text after a replacement lower-cases only the replacement. */
  lemma {:induction false} LowerOfReplaceAll(s: string, pat: string, rep: string)
    requires pat != [] && IsLower(s)
    ensures ToLower(ReplaceAll(s, pat, rep)) == ReplaceAll(s, pat, ToLower(rep))
    decreases |s|
  {
    if s != [] {
      if StartsWith(s, pat) {
        LowerOfReplaceAll(s[|pat|..], pat, rep);
        ToLowerConcat(rep, ReplaceAll(s[|pat|..], pat, rep));
      } else {
        LowerOfReplaceAll(s[1..], pat, rep);
        ToLowerConcat([s[0]], ReplaceAll(s[1..], pat, rep));
      }
    }
  }

  /** `strings.Split(s, string(sep))`: never empty; `Split("", sep) == [""]`. */
  function Split(s: string, sep: char): (r: seq<string>)
    ensures |r| >= 1
    decreases |s|
  {
    if s == [] then [[]]
    else
      var rest := Split(s[1..], sep);
      if s[0] == sep then [[]] + rest
      else [[s[0]] + rest[0]] + rest[1..]
  }

  /** `strings.Join`. */
  function Join(parts: seq<string>, sep: string): string
  {
    if |parts| == 0 then []
    else if |parts| == 1 then parts[0]
    else parts[0] + sep + Join(parts[1..], sep)
  }

  /** Splitting on a character cuts the text at exactly the separators. */
  lemma JoinSplit(s: string, sep: char)
    ensures Join(Split(s, sep), [sep]) == s
    ensures forall k :: 0 <= k < |Split(s, sep)| ==> sep !in Split(s, sep)[k]
  {
    JoinOfSplit(s, sep);
    SplitPieces(s, sep);
  }

  lemma {:induction false} JoinOfSplit(s: string, sep: char)
    ensures Join(Split(s, sep), [sep]) == s
    decreases |s|
  {
    if s != [] {
      JoinOfSplit(s[1..], sep);
      var rest := Split(s[1..], sep);
      if s[0] == sep {
        assert Split(s, sep) == [[]] + rest;
        assert Join([[]] + rest, [sep]) == [] + [sep] + Join(rest, [sep]);
        assert s == [sep] + s[1..];
      } else {
        var first := [s[0]] + rest[0];
        assert Split(s, sep) == [first] + rest[1..];
        if |rest| == 1 {
          assert Join([first], [sep]) == first;
          assert Join(rest, [sep]) == rest[0];
        } else {
          assert Join([first] + rest[1..], [sep]) == first + [sep] + Join(rest[1..], [sep]);
          assert Join(rest, [sep]) == rest[0] + [sep] + Join(rest[1..], [sep]);
        }
        assert s == [s[0]] + s[1..];
      }
    }
  }

  lemma {:induction false} SplitPieces(s: string, sep: char)
    ensures forall k :: 0 <= k < |Split(s, sep)| ==> sep !in Split(s, sep)[k]
    decreases |s|
  {
    if s != [] {
      SplitPieces(s[1..], sep);
      var rest := Split(s[1..], sep);
      if s[0] != sep {
        assert sep !in [s[0]] + rest[0];
      }
    }
  }

  /** A separator-free head is the first piece. */
  lemma {:induction false} SplitAfterHead(h: string, sep: char, t: string)
    requires sep !in h
    ensures Split(h + [sep] + t, sep) == [h] + Split(t, sep)
    decreases |h|
  {
    if h == [] {
      assert h + [sep] + t == [sep] + t;
      assert ([sep] + t)[1..] == t;
    } else {
      SplitAfterHead(h[1..], sep, t);
      assert (h + [sep] + t)[1..] == h[1..] + [sep] + t;
      assert h == [h[0]] + h[1..];
    }
  }

  /** A text without the separator is one piece. */
  lemma {:induction false} SplitNoSeparator(s: string, sep: char)
    requires sep !in s
    ensures Split(s, sep) == [s]
    decreases |s|
  {
    if s != [] {
      SplitNoSeparator(s[1..], sep);
      assert s == [s[0]] + s[1..];
    }
  }

  /** The characters that `strings.TrimSpace` removes, restricted to ASCII. */
  predicate IsSpace(c: char)
  {
    c == ' ' || c == '\t' || c == '\n' || c == '\r' || c == '\U{B}' || c == '\U{C}'
  }

  function TrimSpaceLeft(s: string): (r: string)
    decreases |s|
  {
    if s != [] && IsSpace(s[0]) then TrimSpaceLeft(s[1..]) else s
  }

  function TrimSpaceRight(s: string): (r: string)
    decreases |s|
  {
    if s != [] && IsSpace(s[|s| - 1]) then TrimSpaceRight(s[..|s| - 1]) else s
  }

  /** `strings.TrimSpace`. */
  function TrimSpace(s: string): string
  {
    TrimSpaceRight(TrimSpaceLeft(s))
  }

  function TrimLeft(s: string, c: char): (r: string)
    decreases |s|
  {
    if s != [] && s[0] == c then TrimLeft(s[1..], c) else s
  }

  function TrimRight(s: string, c: char): (r: string)
    decreases |s|
  {
    if s != [] && s[|s| - 1] == c then TrimRight(s[..|s| - 1], c) else s
  }

  /** `strings.Trim(s, string(c))`. */
  function Trim(s: string, c: char): string
  {
    TrimRight(TrimLeft(s, c), c)
  }

  lemma {:induction false} TrimLeftShape(s: string, c: char)
    ensures TrimLeft(s, c) != [] ==> TrimLeft(s, c)[0] != c
    ensures exists k :: 0 <= k <= |s| && TrimLeft(s, c) == s[k..]
    decreases |s|
  {
    if s != [] && s[0] == c {
      TrimLeftShape(s[1..], c);
      var k :| 0 <= k <= |s[1..]| && TrimLeft(s[1..], c) == s[1..][k..];
      assert s[1..][k..] == s[k + 1..];
    } else {
      assert s == s[0..];
    }
  }

  lemma {:induction false} TrimRightShape(s: string, c: char)
    ensures TrimRight(s, c) != [] ==> TrimRight(s, c)[|TrimRight(s, c)| - 1] != c
    ensures exists k :: 0 <= k <= |s| && TrimRight(s, c) == s[..k]
    decreases |s|
  {
    if s != [] && s[|s| - 1] == c {
      TrimRightShape(s[..|s| - 1], c);
      var k :| 0 <= k <= |s| - 1 && TrimRight(s[..|s| - 1], c) == s[..|s| - 1][..k];
      assert s[..|s| - 1][..k] == s[..k];
    } else {
      assert s == s[..|s|];
    }
  }

  /** `Trim` leaves neither end on the trimmed character. */
  lemma TrimEnds(s: string, c: char)
    ensures Trim(s, c) != [] ==> Trim(s, c)[0] != c && Trim(s, c)[|Trim(s, c)| - 1] != c
  {
    TrimLeftShape(s, c);
    var t := TrimLeft(s, c);
    TrimRightShape(t, c);
  }

  lemma {:induction false} TrimSpaceLeftShape(s: string)
    ensures TrimSpaceLeft(s) != [] ==> !IsSpace(TrimSpaceLeft(s)[0])
    ensures exists k :: 0 <= k <= |s| && TrimSpaceLeft(s) == s[k..]
    decreases |s|
  {
    if s != [] && IsSpace(s[0]) {
      TrimSpaceLeftShape(s[1..]);
      var k :| 0 <= k <= |s[1..]| && TrimSpaceLeft(s[1..]) == s[1..][k..];
      assert s[1..][k..] == s[k + 1..];
    } else {
      assert s == s[0..];
    }
  }

  lemma {:induction false} TrimSpaceRightShape(s: string)
    ensures TrimSpaceRight(s) != [] ==> !IsSpace(TrimSpaceRight(s)[|TrimSpaceRight(s)| - 1])
    ensures exists k :: 0 <= k <= |s| && TrimSpaceRight(s) == s[..k]
    decreases |s|
  {
    if s != [] && IsSpace(s[|s| - 1]) {
      TrimSpaceRightShape(s[..|s| - 1]);
      var k :| 0 <= k <= |s| - 1 && TrimSpaceRight(s[..|s| - 1]) == s[..|s| - 1][..k];
      assert s[..|s| - 1][..k] == s[..k];
    } else {
      assert s == s[..|s|];
    }
  }

  /** `TrimSpace` keeps a slice of its input and leaves no white space at either end. */
  lemma TrimSpaceShape(s: string)
    ensures exists a, b :: 0 <= a <= b <= |s| && TrimSpace(s) == s[a..b]
    ensures TrimSpace(s) != [] ==> !IsSpace(TrimSpace(s)[0]) && !IsSpace(TrimSpace(s)[|TrimSpace(s)| - 1])
  {
    TrimSpaceLeftShape(s);
    var a :| 0 <= a <= |s| && TrimSpaceLeft(s) == s[a..];
    var t := TrimSpaceLeft(s);
    TrimSpaceRightShape(t);
    var k :| 0 <= k <= |t| && TrimSpaceRight(t) == t[..k];
    assert t[..k] == s[a..a + k];
    if TrimSpace(s) != [] {
      assert TrimSpace(s)[0] == t[0];
    }
  }

  /** Every character of every piece of a split comes from the text. */
  lemma {:induction false} SplitChars(s: string, sep: char)
    ensures forall k, j :: 0 <= k < |Split(s, sep)| && 0 <= j < |Split(s, sep)[k]| ==> Split(s, sep)[k][j] in s
    decreases |s|
  {
    if s != [] {
      SplitChars(s[1..], sep);
      assert forall c :: c in s[1..] ==> c in s;
    }
  }

  /** `s` with every element equal to `e` removed, the others kept in order. */
  function Filter<T(==)>(s: seq<T>, e: T): seq<T>
  {
    if s == [] then [] else (if s[0] == e then [] else [s[0]]) + Filter(s[1..], e)
  }

  lemma {:induction false} FilterAppend<T>(a: seq<T>, b: seq<T>, e: T)
    ensures Filter(a + b, e) == Filter(a, e) + Filter(b, e)
    decreases |a|
  {
    if a != [] {
      FilterAppend(a[1..], b, e);
      assert (a + b)[0] == a[0];
      assert (a + b)[1..] == a[1..] + b;
    } else {
      assert a + b == b;
    }
  }

  lemma {:induction false} FilterShape<T>(s: seq<T>, e: T)
    ensures e !in Filter(s, e)
    ensures forall x :: x != e ==> multiset(Filter(s, e))[x] == multiset(s)[x]
    ensures e !in s ==> Filter(s, e) == s
    decreases |s|
  {
    if s != [] {
      FilterShape(s[1..], e);
      assert s == [s[0]] + s[1..];
    }
  }

  function DigitChar(d: nat): char
    requires d < 10
  {
    ('0' as int + d) as char
  }

  predicate IsDigit(c: char)
  {
    '0' <= c <= '9'
  }

  predicate AllDigits(s: string)
  {
    forall i :: 0 <= i < |s| ==> IsDigit(s[i])
  }

  /** The decimal digits of `n`, most significant first, as `strconv` prints them. */
  function Digits(n: nat): (r: string)
    ensures |r| >= 1 && AllDigits(r)
  {
    if n < 10 then [DigitChar(n)] else Digits(n / 10) + [DigitChar(n % 10)]
  }

  /** The value of a string of decimal digits. */
  function DigitsValue(s: string): nat
    requires AllDigits(s)
  {
    if s == [] then 0 else 10 * DigitsValue(s[..|s| - 1]) + (s[|s| - 1] as int - '0' as int)
  }

  /** Printing and then reading a natural number gives it back. */
  lemma {:induction false} DigitsRoundTrip(n: nat)
    ensures DigitsValue(Digits(n)) == n
  {
    if n >= 10 {
      DigitsRoundTrip(n / 10);
      var d := Digits(n);
      assert d[..|d| - 1] == Digits(n / 10);
    }
  }

  /** Different numbers print differently. */
  lemma DigitsInjective(m: nat, n: nat)
    requires Digits(m) == Digits(n)
    ensures m == n
  {
    DigitsRoundTrip(m);
    DigitsRoundTrip(n);
  }

  /** `fmt.Sprintf("%v", n)` / `strconv.Itoa(n)` for any integer. */
  function DecimalText(n: int): (r: string)
  {
    if n < 0 then "-" + Digits(-n) else Digits(n)
  }

  const MinInt64: int := -0x8000_0000_0000_0000
  const MaxInt64: int := 0x7FFF_FFFF_FFFF_FFFF

  /**
   * `strconv.Atoi(s)` succeeds: an optional sign, at least one decimal digit
   * and nothing else, with a value that fits in 64 bits.
   */
  predicate ParsesAsInt(s: string)
  {
    var negative := |s| > 0 && s[0] == '-';
    var body := if |s| > 0 && (s[0] == '-' || s[0] == '+') then s[1..] else s;
    |body| >= 1 && AllDigits(body) &&
    (if negative then -(DigitsValue(body) as int) >= MinInt64 else DigitsValue(body) <= MaxInt64)
  }
}
