/**
 * Normalisation of the PRAGMA statements a DBAccess applies to every
 * connection (init.go, fixPragmaTextAndOrder).
 */
module Pragmas {
  import opened GoStrings

  /** The statements NewDBAccess installs when the caller configures none. */
  const DefaultPragmas: seq<string> :=
    ["PRAGMA auto_vacuum = NONE;", "PRAGMA journal_mode = WAL;", "PRAGMA wal_checkpoint(PASSIVE);"]

  /** The journal-mode statement as the source spells it ("wall", not "wal"). */
  const WallMode: string := "pragma journal_mode = wall;"
  const PassiveCheckpoint: string := "pragma wal_checkpoint(passive);"

  /** No two adjacent spaces. */
  predicate NoDoubleSpace(s: string)
  {
    forall i :: 0 < i < |s| ==> !(s[i - 1] == ' ' && s[i] == ' ')
  }

  /** What a well-formed normalised statement looks like. */
  predicate WellFormedPragma(s: string)
  {
    |s| > 0 && s[|s| - 1] == ';' && s[0] != ' ' && IsLower(s) && NoDoubleSpace(s)
  }

  /** Every run of spaces shrunk to a single space. */
  function CollapseSpaces(s: string): string
    decreases |s|
  {
    if |s| < 2 then s
    else if s[0] == ' ' && s[1] == ' ' then CollapseSpaces(s[1..])
    else [s[0]] + CollapseSpaces(s[1..])
  }

  /** One entry after the text clean-up of fixPragmaTextAndOrder. */
  function NormalizedPragma(s: string): string
  {
    var t := ToLower(CollapseSpaces(Trim(s, ' ')));
    var u := if EndsWith(t, ";") then t else t + ";";
    if Contains(u, "pragma ") then u else ReplaceAll(u, "pragma", "pragma ")
  }

  /** Every entry cleaned up, in the same order. */
  function Normalized(p: seq<string>): (r: seq<string>)
  {
    seq(|p|, i requires 0 <= i < |p| => NormalizedPragma(p[i]))
  }

  predicate MentionsWall(s: string)
  {
    Contains(s, "journal_mode = wall")
  }

  /** Mentions neither the checkpoint nor the "wall" journal mode. */
  predicate Unrelated(s: string)
  {
    !Contains(s, "wal_checkpoint") && !MentionsWall(s)
  }

  /** The first unrelated entry, as a list of at most one element. */
  function FirstUnrelated(p: seq<string>): (r: seq<string>)
  {
    if p == [] then []
    else if Unrelated(p[0]) then [p[0]]
    else FirstUnrelated(p[1..])
  }

  /** FirstUnrelated finds the earliest entry that mentions neither, or nothing when there is none. */
  lemma {:induction false} FirstUnrelatedFinds(p: seq<string>)
    ensures |FirstUnrelated(p)| <= 1
    ensures |FirstUnrelated(p)| == 0 <==> forall j :: 0 <= j < |p| ==> !Unrelated(p[j])
    ensures |FirstUnrelated(p)| == 1 ==>
      exists j :: 0 <= j < |p| && FirstUnrelated(p)[0] == p[j] && Unrelated(p[j]) &&
                  forall k :: 0 <= k < j ==> !Unrelated(p[k])
  {
    if p != [] && !Unrelated(p[0]) {
      var t := p[1..];
      FirstUnrelatedFinds(t);
      assert forall j :: 1 <= j < |p| ==> t[j - 1] == p[j];
      if |FirstUnrelated(t)| == 1 {
        var j :| 0 <= j < |t| && FirstUnrelated(t)[0] == t[j] && Unrelated(t[j]) &&
                 forall k :: 0 <= k < j ==> !Unrelated(t[k]);
        forall k | 0 <= k < j + 1 ensures !Unrelated(p[k]) {
          if k > 0 { assert p[k] == t[k - 1]; }
        }
        assert FirstUnrelated(p)[0] == p[j + 1];
      }
    }
  }

  lemma FirstUnrelatedStep(n: seq<string>, i: nat)
    requires i < |n|
    ensures FirstUnrelated(n[i..]) == if Unrelated(n[i]) then [n[i]] else FirstUnrelated(n[i + 1..])
  {
    assert n[i..][0] == n[i];
    assert n[i..][1..] == n[i + 1..];
  }

  /** The result of fixPragmaTextAndOrder on the list `p`. */
  ghost function FixedPragmas(p: seq<string>): seq<string>
  {
    if p == [] then [] else Reordered(Normalized(p))
  }

  /** The reordering around a "wall" journal mode, applied to cleaned-up entries. */
  ghost function Reordered(n: seq<string>): seq<string>
  {
    if exists i :: 0 <= i < |n| && MentionsWall(n[i]) then [WallMode, PassiveCheckpoint] + FirstUnrelated(n)
    else n
  }

  // ---------------------------------------------------------------------
  // Space collapsing

  lemma CollapseCons(c: char, x: string)
    ensures CollapseSpaces([c] + x) ==
      if x != [] && c == ' ' && x[0] == ' ' then CollapseSpaces(x) else [c] + CollapseSpaces(x)
  {
    assert ([c] + x)[1..] == x;
  }

  lemma {:induction false} CollapseFirst(s: string)
    ensures s != [] ==> CollapseSpaces(s) != [] && CollapseSpaces(s)[0] == s[0]
    decreases |s|
  {
    if |s| >= 2 {
      CollapseFirst(s[1..]);
    }
  }

  lemma {:induction false} CollapseNoDoubleSpace(s: string)
    ensures NoDoubleSpace(CollapseSpaces(s))
    decreases |s|
  {
    if |s| >= 2 {
      CollapseNoDoubleSpace(s[1..]);
      if !(s[0] == ' ' && s[1] == ' ') {
        CollapseFirst(s[1..]);
        NoDoubleSpaceConcat([s[0]], CollapseSpaces(s[1..]));
      }
    }
  }

  lemma {:induction false} CollapseFixesNoDoubleSpace(s: string)
    requires NoDoubleSpace(s)
    ensures CollapseSpaces(s) == s
    decreases |s|
  {
    if |s| >= 2 {
      CollapseFixesNoDoubleSpace(s[1..]);
      assert s == [s[0]] + s[1..];
    }
  }

  lemma NoDoubleSpaceConcat(a: string, b: string)
    requires NoDoubleSpace(a) && NoDoubleSpace(b)
    requires a == [] || b == [] || !(a[|a| - 1] == ' ' && b[0] == ' ')
    ensures NoDoubleSpace(a + b)
  {
    var s := a + b;
    forall i | 0 < i < |s| ensures !(s[i - 1] == ' ' && s[i] == ' ') {
      if i < |a| {
        assert s[i - 1] == a[i - 1] && s[i] == a[i];
      } else if i > |a| {
        assert s[i - 1] == b[i - 1 - |a|] && s[i] == b[i - |a|];
      }
    }
  }

  lemma NoDoubleSpaceSuffix(s: string, k: nat)
    requires NoDoubleSpace(s) && k <= |s|
    ensures NoDoubleSpace(s[k..])
  {
    var t := s[k..];
    forall i | 0 < i < |t| ensures !(t[i - 1] == ' ' && t[i] == ' ') {
      assert t[i - 1] == s[k + i - 1] && t[i] == s[k + i];
    }
  }

  /** Go's loop test `strings.Contains(s, "  ")` failing means no double space is left. */
  lemma NoDoubleSpaceFromContains(s: string)
    requires !Contains(s, "  ")
    ensures NoDoubleSpace(s)
  {
    forall i | 0 < i < |s| ensures !(s[i - 1] == ' ' && s[i] == ' ') {
      ContainsIfAt(s, "  ", i - 1);
      assert s[i - 1..i + 1] == [s[i - 1], s[i]];
    }
  }

  lemma {:induction false} HalveSpacesFirst(t: string)
    ensures t == [] ==> ReplaceAll(t, "  ", " ") == []
    ensures t != [] ==> ReplaceAll(t, "  ", " ") != [] && ReplaceAll(t, "  ", " ")[0] == t[0]
  {
  }

  /** One round of the clean-up loop does not change what the text collapses to. */
  lemma {:induction false} CollapseAfterHalving(s: string)
    ensures CollapseSpaces(ReplaceAll(s, "  ", " ")) == CollapseSpaces(s)
    decreases |s|
  {
    var r := ReplaceAll(s, "  ", " ");
    if s == [] {
    } else if StartsWith(s, "  ") {
      var t := s[2..];
      var rt := ReplaceAll(t, "  ", " ");
      assert r == " " + rt;
      CollapseAfterHalving(t);
      HalveSpacesFirst(t);
      CollapseCons(' ', rt);
      CollapseCons(' ', t);
      assert s[1..] == [' '] + t;
      CollapseCons(' ', s[1..]);
      assert s == [' '] + s[1..];
    } else {
      var t := s[1..];
      var rt := ReplaceAll(t, "  ", " ");
      assert r == [s[0]] + rt;
      CollapseAfterHalving(t);
      HalveSpacesFirst(t);
      CollapseCons(s[0], rt);
      CollapseCons(s[0], t);
      assert s == [s[0]] + t;
    }
  }

  // ---------------------------------------------------------------------
  // The "pragma" -> "pragma " repair

  lemma NotContainsSuffix(s: string, k: nat, p: string)
    requires k <= |s| && !Contains(s, p)
    ensures !Contains(s[k..], p)
  {
    if Contains(s[k..], p) {
      ContainsInSuffix(s, k, p);
    }
  }

  lemma {:induction false} PragmaRepairShape(u: string)
    requires |u| > 0 && u[|u| - 1] == ';'
    requires !Contains(u, "pragma ") && NoDoubleSpace(u) && IsLower(u)
    ensures var r := ReplaceAll(u, "pragma", "pragma ");
      |r| > 0 && r[0] == u[0] && r[|r| - 1] == ';' && NoDoubleSpace(r) && IsLower(r)
    decreases |u|
  {
    var r := ReplaceAll(u, "pragma", "pragma ");
    if StartsWith(u, "pragma") {
      var t := u[6..];
      assert u[5] == 'a';
      NotContainsSuffix(u, 6, "pragma ");
      NoDoubleSpaceSuffix(u, 6);
      PragmaRepairShape(t);
      var rt := ReplaceAll(t, "pragma", "pragma ");
      assert r == "pragma " + rt;
      ContainsIfAt(u, "pragma ", 0);
      assert u[0..7] == u[..6] + [t[0]];
      NoDoubleSpaceConcat("pragma ", rt);
    } else if |u| == 1 {
      assert r == u;
    } else {
      var t := u[1..];
      NotContainsSuffix(u, 1, "pragma ");
      NoDoubleSpaceSuffix(u, 1);
      PragmaRepairShape(t);
      var rt := ReplaceAll(t, "pragma", "pragma ");
      assert r == [u[0]] + rt;
      assert !(u[0] == ' ' && u[1] == ' ');
      NoDoubleSpaceConcat([u[0]], rt);
    }
  }

  /** Trimming, collapsing and lower-casing leave a lower-case text without double spaces or a leading space. */
  lemma CleanedShape(s: string)
    ensures var t := ToLower(CollapseSpaces(Trim(s, ' ')));
      NoDoubleSpace(t) && IsLower(t) && (t != [] ==> t[0] != ' ')
  {
    var t0 := Trim(s, ' ');
    TrimEnds(s, ' ');
    var c := CollapseSpaces(t0);
    CollapseFirst(t0);
    CollapseNoDoubleSpace(t0);
    ToLowerIsLower(c);
    var t := ToLower(c);
    assert NoDoubleSpace(t);
    assert t != [] ==> t[0] != ' ';
  }

  /** Adding the `;` and the "pragma " spacing to such a text gives a well-formed statement. */
  lemma TerminatedWellFormed(t: string)
    requires NoDoubleSpace(t) && IsLower(t) && (t != [] ==> t[0] != ' ')
    ensures var u := if EndsWith(t, ";") then t else t + ";";
      WellFormedPragma(if Contains(u, "pragma ") then u else ReplaceAll(u, "pragma", "pragma "))
  {
    var u := if EndsWith(t, ";") then t else t + ";";
    if !EndsWith(t, ";") {
      NoDoubleSpaceConcat(t, ";");
    }
    assert u[|u| - 1] == ';';
    if !Contains(u, "pragma ") {
      PragmaRepairShape(u);
    }
  }

  /** Every cleaned-up entry ends in `;`, is lower-case, starts with no space and has no double space. */
  lemma NormalizedPragmaWellFormed(s: string)
    ensures WellFormedPragma(NormalizedPragma(s))
  {
    CleanedShape(s);
    TerminatedWellFormed(ToLower(CollapseSpaces(Trim(s, ' '))));
  }

  /** Each listed statement of FixedPragmas(p) is well formed. */
  lemma FixedPragmasWellFormed(p: seq<string>)
    ensures forall i :: 0 <= i < |FixedPragmas(p)| ==> WellFormedPragma(FixedPragmas(p)[i])
  {
    if p != [] {
      var n := Normalized(p);
      forall i | 0 <= i < |n| ensures WellFormedPragma(n[i]) {
        NormalizedPragmaWellFormed(p[i]);
      }
      ReorderedWellFormed(n);
    }
  }

  lemma ReorderedWellFormed(n: seq<string>)
    requires forall i :: 0 <= i < |n| ==> WellFormedPragma(n[i])
    ensures forall i :: 0 <= i < |Reordered(n)| ==> WellFormedPragma(Reordered(n)[i])
  {
    if exists i :: 0 <= i < |n| && MentionsWall(n[i]) {
      FirstUnrelatedFinds(n);
      FixedStatementsWellFormed();
      var f := FirstUnrelated(n);
      assert forall i :: 0 <= i < |f| ==> WellFormedPragma(f[i]);
      var r := [WallMode, PassiveCheckpoint] + f;
      assert Reordered(n) == r;
      forall i | 0 <= i < |r| ensures WellFormedPragma(r[i]) {
        if i >= 2 { assert r[i] == f[i - 2]; }
      }
    }
  }

  lemma FixedStatementsWellFormed()
    ensures WellFormedPragma(WallMode) && WellFormedPragma(PassiveCheckpoint)
  {
    WallModeWellFormed();
    CheckpointWellFormed();
  }

  lemma WallModeWellFormed()
    ensures WellFormedPragma(WallMode)
  {
    assert NoDoubleSpace(WallMode);
  }

  lemma CheckpointWellFormed()
    ensures WellFormedPragma(PassiveCheckpoint)
  {
    assert NoDoubleSpace(PassiveCheckpoint);
  }

  /** Without a "wall" journal mode the list keeps its length and order, entry by entry. */
  lemma FixedPragmasWithoutWall(p: seq<string>)
    requires forall i :: 0 <= i < |p| ==> !MentionsWall(NormalizedPragma(p[i]))
    ensures |FixedPragmas(p)| == |p|
    ensures forall i :: 0 <= i < |p| ==> FixedPragmas(p)[i] == NormalizedPragma(p[i])
  {
    if p != [] {
      var n := Normalized(p);
      assert !exists i :: 0 <= i < |n| && MentionsWall(n[i]);
    }
  }

  /**
   * With a "wall" journal mode the list becomes that statement, the passive
   * checkpoint, and at most the first entry that mentions neither.
   */
  lemma FixedPragmasWithWall(p: seq<string>, w: nat)
    requires w < |p| && MentionsWall(NormalizedPragma(p[w]))
    ensures var r, n := FixedPragmas(p), Normalized(p);
      2 <= |r| <= 3 && r[0] == WallMode && r[1] == PassiveCheckpoint &&
      (|r| == 3 <==> exists j :: 0 <= j < |n| && Unrelated(n[j])) &&
      (|r| == 3 ==> exists j :: 0 <= j < |n| && r[2] == n[j] && Unrelated(n[j]) &&
                                forall k :: 0 <= k < j ==> !Unrelated(n[k]))
  {
    var n := Normalized(p);
    assert MentionsWall(n[w]);
    assert FixedPragmas(p) == [WallMode, PassiveCheckpoint] + FirstUnrelated(n);
    ReorderedWithWall(n);
  }

  /** The reordering in terms of the cleaned-up entries. */
  lemma ReorderedWithWall(n: seq<string>)
    ensures var r := [WallMode, PassiveCheckpoint] + FirstUnrelated(n);
      2 <= |r| <= 3 && r[0] == WallMode && r[1] == PassiveCheckpoint &&
      (|r| == 3 <==> exists j :: 0 <= j < |n| && Unrelated(n[j])) &&
      (|r| == 3 ==> exists j :: 0 <= j < |n| && r[2] == n[j] && Unrelated(n[j]) &&
                                forall k :: 0 <= k < j ==> !Unrelated(n[k]))
  {
    FirstUnrelatedFinds(n);
    var f := FirstUnrelated(n);
    var r := [WallMode, PassiveCheckpoint] + f;
    if |f| == 1 {
      assert r[2] == f[0];
    }
  }

  // ---------------------------------------------------------------------
  // The imperative clean-up, as written in init.go

  /** The clean-up of one entry: trim, collapse spaces, lower-case, `;`, "pragma " spacing. */
  method NormalizePragmaEntry(s: string) returns (r: string)
    ensures r == NormalizedPragma(s)
  {
    r := Trim(s, ' ');
    ghost var trimmed := r;
    while Contains(r, "  ")
      invariant CollapseSpaces(r) == CollapseSpaces(trimmed)
      decreases |r|
    {
      ReplaceAllShorter(r, "  ", " ");
      CollapseAfterHalving(r);
      r := ReplaceAll(r, "  ", " ");
    }
    NoDoubleSpaceFromContains(r);
    CollapseFixesNoDoubleSpace(r);
    r := ToLower(r);
    if !EndsWith(r, ";") {
      r := r + ";";
    }
    if !Contains(r, "pragma ") {
      r := ReplaceAll(r, "pragma", "pragma ");
    }
  }

  /** The first loop of fixPragmaTextAndOrder: each entry is cleaned up in place. */
  method NormalizeEntries(pragArry: array<string>)
    modifies pragArry
    ensures pragArry[..] == Normalized(old(pragArry[..]))
  {
    ghost var orig := pragArry[..];
    ghost var n := Normalized(orig);
    var i := 0;
    while i < pragArry.Length
      invariant 0 <= i <= pragArry.Length
      invariant pragArry[..i] == n[..i]
      invariant pragArry[i..] == orig[i..]
    {
      assert pragArry[i] == pragArry[i..][0] == orig[i];
      var entry := NormalizePragmaEntry(pragArry[i]);
      pragArry[i] := entry;
      assert pragArry[..i + 1] == n[..i] + [entry];
      assert pragArry[i + 1..] == orig[i + 1..];
      i := i + 1;
    }
    assert pragArry[..] == pragArry[..i];
  }

  /** The second loop: does some entry set the "wall" journal mode? */
  method WallExists(n: array<string>) returns (wallExists: bool)
    ensures wallExists <==> exists j :: 0 <= j < n.Length && MentionsWall(n[j])
  {
    wallExists := false;
    var i := 0;
    while i < n.Length
      invariant 0 <= i <= n.Length
      invariant forall j :: 0 <= j < i ==> !MentionsWall(n[j])
    {
      if Contains(n[i], "journal_mode = wall") {
        wallExists := true;
        break;
      }
      i := i + 1;
    }
  }

  /** The third loop: the "wall" statement, the checkpoint, then the first unrelated entry. */
  method WallFirst(n: array<string>) returns (s: seq<string>)
    ensures s == [WallMode, PassiveCheckpoint] + FirstUnrelated(n[..])
  {
    s := [WallMode, PassiveCheckpoint];
    var i := 0;
    while i < n.Length
      invariant 0 <= i <= n.Length
      invariant FirstUnrelated(n[i..]) == FirstUnrelated(n[..])
    {
      FirstUnrelatedStep(n[..], i);
      assert n[..][i..] == n[i..] && n[..][i + 1..] == n[i + 1..];
      if !Contains(n[i], "wal_checkpoint") && !Contains(n[i], "journal_mode = wall") {
        s := s + [n[i]];
        break;
      }
      i := i + 1;
    }
  }

  /**
   * fixPragmaTextAndOrder: rewrites the entries in place, then rebuilds the
   * list around the "wall" journal mode when some entry mentions it.
   */
  method FixPragmaTextAndOrder(pragArry: array<string>) returns (r: seq<string>)
    modifies pragArry
    ensures pragArry[..] == Normalized(old(pragArry[..]))
    ensures r == FixedPragmas(old(pragArry[..]))
  {
    if pragArry.Length == 0 {
      return pragArry[..];
    }
    NormalizeEntries(pragArry);
    var wallExists := WallExists(pragArry);
    if wallExists {
      r := WallFirst(pragArry);
    } else {
      r := pragArry[..];
    }
  }
}
