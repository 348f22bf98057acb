/** The duplicate-name policy of MediaStream::getFileNameWithSuffix, stated on
    the sequence of original file names: the entry at index i keeps its name
    unless earlier entries carry exactly the same name; the c-th repeat is
    renamed "{filename} ({c}).{extension}". */
module Naming {
  import opened Decimal
  import opened PathInfo

  /** Number of indices j < k whose name is exactly `name` (case-sensitive). */
  function CountBefore(names: seq<string>, name: string, k: nat): (c: nat)
    requires k <= |names|
    ensures c <= k
  {
    if k == 0 then 0
    else CountBefore(names, name, k - 1) + (if names[k - 1] == name then 1 else 0)
  }

  /** The count is 0 exactly when no earlier name is equal. */
  lemma {:induction false} CountZeroIff(names: seq<string>, name: string, k: nat)
    requires k <= |names|
    ensures CountBefore(names, name, k) == 0 <==> forall j :: 0 <= j < k ==> names[j] != name
  {
    if k > 0 {
      CountZeroIff(names, name, k - 1);
    }
  }

  /** The count is the size of the set of earlier indices with that name. */
  lemma {:induction false} CountIsCardinality(names: seq<string>, name: string, k: nat)
    requires k <= |names|
    ensures CountBefore(names, name, k) == |set j | 0 <= j < k && names[j] == name|
  {
    if k > 0 {
      CountIsCardinality(names, name, k - 1);
      var before := set j | 0 <= j < k - 1 && names[j] == name;
      var upTo := set j | 0 <= j < k && names[j] == name;
      if names[k - 1] == name {
        assert upTo == before + {k - 1};
        assert k - 1 !in before;
      } else {
        assert upTo == before;
      }
    }
  }

  /** Extending the sequence beyond index k does not change the count at k. */
  lemma {:induction false} CountBeforeAppend(names: seq<string>, more: seq<string>, name: string, k: nat)
    requires k <= |names|
    ensures CountBefore(names + more, name, k) == CountBefore(names, name, k)
  {
    if k > 0 {
      CountBeforeAppend(names, more, name, k - 1);
      assert (names + more)[k - 1] == names[k - 1];
    }
  }

  lemma {:induction false} CountBeforeMonotone(names: seq<string>, name: string, k: nat, m: nat)
    requires k <= m <= |names|
    ensures CountBefore(names, name, k) <= CountBefore(names, name, m)
    decreases m - k
  {
    if k < m {
      CountBeforeMonotone(names, name, k, m - 1);
    }
  }

  /** "{filename} ({count}).{extension}": the '.' is written even when the
      extension is empty, and the directory part of the name is dropped. */
  function Suffixed(name: string, count: nat): string {
    FileNameWithoutExtension(name) + " (" + NatToString(count) + ")." + Extension(name)
  }

  lemma SlashNotInDigits(count: nat)
    ensures '/' !in NatToString(count)
  {
  }

  /** A renamed entry never keeps its original name. */
  lemma SuffixedDiffersFromName(name: string, count: nat)
    ensures Suffixed(name, count) != name
  {
    var s := Suffixed(name, count);
    var stem, ext, digits := FileNameWithoutExtension(name), Extension(name), NatToString(count);
    assert s == stem + " (" + digits + ")." + ext;
    assert |s| == |stem| + |digits| + |ext| + 4;
    BasenameRecomposes(name);
    BasenameSuffix(name);
    if '/' in name {
      SlashNotInDigits(count);
      assert '/' !in s;
    } else {
      assert |name| <= |stem| + 1 + |ext|;
    }
  }

  /** Different counts give different suffixed names. */
  lemma SuffixedInjective(name: string, c1: nat, c2: nat)
    ensures Suffixed(name, c1) == Suffixed(name, c2) ==> c1 == c2
  {
    var prefix := FileNameWithoutExtension(name) + " (";
    var rest := ")." + Extension(name);
    var d1, d2 := NatToString(c1), NatToString(c2);
    assert Suffixed(name, c1) == prefix + d1 + rest;
    assert Suffixed(name, c2) == prefix + d2 + rest;
    if Suffixed(name, c1) == Suffixed(name, c2) {
      assert |d1| == |d2|;
      assert d1 == (prefix + d1 + rest)[|prefix|..|prefix| + |d1|];
      assert d2 == (prefix + d2 + rest)[|prefix|..|prefix| + |d2|];
      NatToStringInjective(c1, c2);
    }
  }

  /** The name of the entry at index i inside the archive: unchanged when no
      earlier entry has exactly the same name, suffixed with the count of such
      entries otherwise. */
  function FinalName(names: seq<string>, i: nat): string
    requires i < |names|
  {
    var count := CountBefore(names, names[i], i);
    if count == 0 then names[i] else Suffixed(names[i], count)
  }

  /** An entry keeps its name exactly when no earlier entry has exactly the
      same name. */
  lemma FinalNameUnchangedIff(names: seq<string>, i: nat)
    requires i < |names|
    ensures FinalName(names, i) == names[i] <==> forall j :: 0 <= j < i ==> names[j] != names[i]
  {
    var count := CountBefore(names, names[i], i);
    CountZeroIff(names, names[i], i);
    if count > 0 {
      SuffixedDiffersFromName(names[i], count);
    }
  }

  /** A duplicate's final name is its file name, a space, the count of earlier
      equal names in decimal (no leading zero) between parentheses, a '.', and
      its extension. */
  lemma {:induction false} DuplicateSuffixEncodesCount(names: seq<string>, i: nat)
    requires i < |names|
    requires CountBefore(names, names[i], i) > 0
    ensures var stem, ext := FileNameWithoutExtension(names[i]), Extension(names[i]);
      var f := FinalName(names, i);
      |f| >= |stem| + 5 + |ext| &&
      f[..|stem| + 2] == stem + " (" &&
      f[|f| - |ext| - 2..] == ")." + ext &&
      AllDigits(f[|stem| + 2..|f| - |ext| - 2]) &&
      f[|stem| + 2] != '0' &&
      DecimalValue(f[|stem| + 2..|f| - |ext| - 2]) == CountBefore(names, names[i], i)
  {
    var stem, ext := FileNameWithoutExtension(names[i]), Extension(names[i]);
    var c := CountBefore(names, names[i], i);
    var digits := NatToString(c);
    var f := FinalName(names, i);
    assert f == (stem + " (") + digits + (")." + ext);
    assert f[|stem| + 2..|f| - |ext| - 2] == digits;
    assert f[|stem| + 2] == digits[0];
    DecimalRoundTrip(c);
  }

  /** Appending entries never changes the final name of an earlier entry. */
  lemma FinalNameAppend(names: seq<string>, more: seq<string>, i: nat)
    requires i < |names|
    ensures FinalName(names + more, i) == FinalName(names, i)
  {
    assert (names + more)[i] == names[i];
    CountBeforeAppend(names, more, names[i], i);
  }

  /** Of two entries with the same original name, the later one has seen
      strictly more repeats. */
  lemma RepeatCountIncreases(names: seq<string>, i: nat, j: nat)
    requires i < j < |names| && names[i] == names[j]
    ensures CountBefore(names, names[i], i) < CountBefore(names, names[j], j)
  {
    CountBeforeMonotone(names, names[i], i + 1, j);
  }

  /** Entries with the same original name end up with different final names. */
  lemma SameNameDistinct(names: seq<string>, i: nat, j: nat)
    requires i < |names| && j < |names| && i != j && names[i] == names[j]
    ensures FinalName(names, i) != FinalName(names, j)
  {
    if i > j {
      SameNameDistinct(names, j, i);
    } else {
      RepeatCountIncreases(names, i, j);
      var ci, cj := CountBefore(names, names[i], i), CountBefore(names, names[j], j);
      if ci > 0 {
        SuffixedInjective(names[i], ci, cj);
      } else {
        SuffixedDiffersFromName(names[j], cj);
      }
    }
  }

  /** The final names of the whole list, in list order. */
  function ResolveNames(names: seq<string>): (r: seq<string>)
    ensures |r| == |names|
  {
    seq(|names|, i requires 0 <= i < |names| => FinalName(names, i))
  }

  lemma ResolveNamesOfTwo(names: seq<string>)
    requires |names| == 2
    ensures ResolveNames(names) == [FinalName(names, 0), FinalName(names, 1)]
  {
  }

  lemma ResolveNamesOfThree(names: seq<string>)
    requires |names| == 3
    ensures ResolveNames(names) == [FinalName(names, 0), FinalName(names, 1), FinalName(names, 2)]
  {
  }

  /** A list without repeated names is left as it is. */
  lemma DistinctNamesUnchanged(names: seq<string>)
    requires forall i, j :: 0 <= i < j < |names| ==> names[i] != names[j]
    ensures ResolveNames(names) == names
  {
    forall i | 0 <= i < |names|
      ensures ResolveNames(names)[i] == names[i]
    {
      assert forall j :: 0 <= j < i ==> names[j] != names[i];
      FinalNameUnchangedIff(names, i);
    }
  }

  /** Appending names leaves the earlier final names as they were. */
  lemma ResolveNamesAppend(names: seq<string>, more: seq<string>)
    ensures ResolveNames(names + more)[..|names|] == ResolveNames(names)
  {
    forall i | 0 <= i < |names|
      ensures ResolveNames(names + more)[i] == ResolveNames(names)[i]
    {
      FinalNameAppend(names, more, i);
    }
  }

  /** "{stem}.{ext}" with a '/'-free stem and an extension without '/' or
      '.' splits back into that stem and extension. */
  lemma SplitPlainName(stem: string, ext: string)
    requires '/' !in stem && '/' !in ext && '.' !in ext
    ensures FileNameWithoutExtension(stem + "." + ext) == stem
    ensures Extension(stem + "." + ext) == ext
  {
    var name := stem + "." + ext;
    assert name[..|stem|] == stem && name[|stem| + 1..] == ext;
    assert '/' !in name && name[|stem|] == '.';
    assert forall k :: |stem| < k < |name| ==> name[k] != '.' by {
      assert forall k :: |stem| < k < |name| ==> name[k] == ext[k - |stem| - 1];
    }
    SplitAtLastDot(name, |stem|);
  }

  /** The suffixed form of "{stem}.{ext}". */
  lemma SuffixedPlainName(stem: string, ext: string, count: nat)
    requires '/' !in stem && '/' !in ext && '.' !in ext
    ensures Suffixed(stem + "." + ext, count) == stem + " (" + NatToString(count) + ")." + ext
  {
    SplitPlainName(stem, ext);
  }

  /** The suffixed form of a name without '/' and '.'. */
  lemma SuffixedWithoutDot(name: string, count: nat)
    requires '/' !in name && '.' !in name
    ensures Suffixed(name, count) == name + " (" + NatToString(count) + ")."
  {
    SplitWithoutDot(name);
  }

  /** The suffixes written for the counts 1 and 2. */
  lemma SmallSuffixes(stem: string, ext: string)
    ensures stem + " (" + NatToString(1) + ")." == stem + " (1)."
    ensures stem + " (" + NatToString(1) + ")." + ext == stem + " (1)." + ext
    ensures stem + " (" + NatToString(2) + ")." + ext == stem + " (2)." + ext
  {
    assert NatToString(1) == "1" && NatToString(2) == "2";
    assert stem + " (" + NatToString(1) + ")." == stem + (" (" + NatToString(1) + ").");
    assert stem + " (" + NatToString(2) + ")." + ext == stem + (" (" + NatToString(2) + ").") + ext;
  }

  /** A name given twice: the second copy gets count 1. */
  lemma RepeatedTwice(n: string)
    ensures ResolveNames([n, n]) == [n, Suffixed(n, 1)]
  {
    var names := [n, n];
    assert CountBefore(names, n, 1) == 1;
    ResolveNamesOfTwo(names);
  }

  /** A name given three times: the copies get counts 1 and 2. */
  lemma RepeatedThrice(n: string)
    ensures ResolveNames([n, n, n]) == [n, Suffixed(n, 1), Suffixed(n, 2)]
  {
    var names := [n, n, n];
    assert CountBefore(names, n, 1) == 1;
    assert CountBefore(names, n, 2) == 2;
    ResolveNamesOfThree(names);
  }

  /** A different name in between is not counted. */
  lemma RepeatedAroundOther(n: string, m: string)
    requires m != n
    ensures ResolveNames([n, m, n]) == [n, m, Suffixed(n, 1)]
  {
    var names := [n, m, n];
    assert CountBefore(names, m, 1) == 0;
    assert CountBefore(names, n, 2) == 1;
    ResolveNamesOfThree(names);
  }

  /** A name given twice after a different name: the first keeps its name and
      the second copy gets count 1. */
  lemma RepeatedAfterOther(m: string, n: string)
    requires m != n
    ensures ResolveNames([m, n, n]) == [m, n, Suffixed(n, 1)]
  {
    var names := [m, n, n];
    assert CountBefore(names, n, 1) == 0;
    assert CountBefore(names, n, 2) == 1;
    ResolveNamesOfThree(names);
  }

  /** Three copies of "{stem}.{ext}" are stored as "{stem}.{ext}",
      "{stem} (1).{ext}" and "{stem} (2).{ext}". */
  lemma ThreeCopies(stem: string, ext: string)
    requires '/' !in stem && '/' !in ext && '.' !in ext
    ensures var n := stem + "." + ext;
      ResolveNames([n, n, n]) == [n, stem + " (1)." + ext, stem + " (2)." + ext]
  {
    RepeatedThrice(stem + "." + ext);
    SuffixedPlainName(stem, ext, 1);
    SuffixedPlainName(stem, ext, 2);
    SmallSuffixes(stem, ext);
  }

  /** Other names in between do not count: "{stem}.{ext}", m, "{stem}.{ext}"
      gives "{stem}.{ext}", m, "{stem} (1).{ext}". */
  lemma OtherNamesInBetween(stem: string, ext: string, m: string)
    requires '/' !in stem && '/' !in ext && '.' !in ext
    requires m != stem + "." + ext
    ensures var n := stem + "." + ext;
      ResolveNames([n, m, n]) == [n, m, stem + " (1)." + ext]
  {
    RepeatedAroundOther(stem + "." + ext, m);
    SuffixedPlainName(stem, ext, 1);
    SmallSuffixes(stem, ext);
  }

  /** The '.' is written even when the name has no extension: a name without
      '/' and '.' given twice is stored as itself and as "{name} (1).". */
  lemma NoExtensionKeepsDot(name: string)
    requires '/' !in name && '.' !in name
    ensures ResolveNames([name, name]) == [name, name + " (1)."]
  {
    RepeatedTwice(name);
    SuffixedWithoutDot(name, 1);
    SmallSuffixes(name, "");
  }

  lemma CaseSensitive()
    ensures ResolveNames(["A.txt", "a.txt"]) == ["A.txt", "a.txt"]
  {
    DistinctNamesUnchanged(["A.txt", "a.txt"]);
  }

  /** Final names are not pairwise distinct across different original names:
      an original "{stem} (1).{ext}" collides with the renamed second
      "{stem}.{ext}". */
  lemma CollisionAcrossNames(stem: string, ext: string)
    requires '/' !in stem && '/' !in ext && '.' !in ext
    ensures var n := stem + "." + ext;
      var r := ResolveNames([stem + " (1)." + ext, n, n]);
      r[0] == r[2] == stem + " (1)." + ext
  {
    var n := stem + "." + ext;
    var first := stem + " (1)." + ext;
    assert first != n by {
      assert |first| == |n| + 4;
    }
    RepeatedAfterOther(first, n);
    SuffixedPlainName(stem, ext, 1);
    SmallSuffixes(stem, ext);
  }
}
