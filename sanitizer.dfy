/**
 * `safe_shapefile_columns` of app.py: renames the attribute columns to
 * shapefile field names (at most 10 characters of `[A-Za-z0-9_]`, unique
 * up to letter case), left to right, with a numeric suffix on collision.
 *
 * `IsSanitization` is the specification: it says, column by column, which
 * name the rename must emit given the names emitted before it.
 * `SafeShapefileColumns` is the loop of the source, proved to meet it.
 */
module Sanitizer {
  import opened Text
  import opened Table

  const MaxFieldLength := 10
  const Placeholder := "field"

  /** A legal shapefile field name. */
  predicate IsFieldName(s: string)
  {
    1 <= |s| <= MaxFieldLength && forall k :: 0 <= k < |s| ==> IsFieldChar(s[k])
  }

  /** `re.sub(r"[^A-Za-z0-9_]", "_", s)`: each illegal character becomes `_`. */
  function ReplaceIllegal(s: string): (r: string)
    ensures |r| == |s|
    ensures forall k :: 0 <= k < |s| ==> r[k] == if IsFieldChar(s[k]) then s[k] else '_'
  {
    seq(|s|, k requires 0 <= k < |s| => if IsFieldChar(s[k]) then s[k] else '_')
  }

  /** The first name tried for a column label: replaced, cut to 10, or the placeholder. */
  function Base(column: string): (r: string)
    ensures IsFieldName(r)
    ensures column == [] ==> r == Placeholder
    ensures column != [] ==> |r| == if |column| < MaxFieldLength then |column| else MaxFieldLength
    ensures column != [] ==> forall k :: 0 <= k < |r| ==> r[k] == if IsFieldChar(column[k]) then column[k] else '_'
  {
    var base := Take(ReplaceIllegal(column), MaxFieldLength);
    if base == [] then Placeholder else base
  }

  /** The name tried with suffix `i`: `(base[:max(0, 10 - len(str(i)))] + str(i))[:10]`. */
  function Candidate(base: string, i: nat): (r: string)
    requires IsFieldName(base)
    ensures IsFieldName(r)
  {
    var suffix := Decimal(i);
    var keep := if MaxFieldLength - |suffix| > 0 then MaxFieldLength - |suffix| else 0;
    Take(Take(base, keep) + suffix, MaxFieldLength)
  }

  /**
   * While the suffix fits in 10 characters it is kept whole, and it is the
   * base that is cut: the candidate is a prefix of the base followed by
   * `str(i)`, as long as the base allows up to 10 characters.
   */
  lemma CandidateKeepsSuffix(base: string, i: nat)
    requires IsFieldName(base) && |Decimal(i)| <= MaxFieldLength
    ensures var r, d := Candidate(base, i), Decimal(i);
            && |r| == (if |base| + |d| < MaxFieldLength then |base| + |d| else MaxFieldLength)
            && r[..|r| - |d|] == base[..|r| - |d|]
            && r[|r| - |d|..] == d
  {
  }

  /** The lower-cased names emitted so far: the source's `used` set. */
  function LowerSet(names: seq<string>): (r: set<string>)
    ensures |r| <= |names|
  {
    if names == [] then {} else LowerSet(names[..|names| - 1]) + {Lower(names[|names| - 1])}
  }

  /** Suffix `i` is the smallest whose candidate is free in `used`. */
  ghost predicate FirstFreeSuffix(base: string, used: set<string>, i: nat)
  {
    && IsFieldName(base)
    && i >= 1
    && Lower(Candidate(base, i)) !in used
    && forall j :: 1 <= j < i ==> Lower(Candidate(base, j)) in used
  }

  /**
   * The name emitted for a column whose base is `base`, given the lower-cased
   * names `used` so far: the base itself when it is free, otherwise the
   * candidate with the smallest free suffix.
   */
  ghost predicate Resolves(base: string, used: set<string>, name: string)
  {
    && IsFieldName(base)
    && if Lower(base) !in used then name == base
       else exists i: nat :: FirstFreeSuffix(base, used, i) && name == Candidate(base, i)
  }

  /** Name `k` is the one the rule picks for column `k`, given the names before it. */
  ghost predicate ResolvedAt(columns: seq<string>, names: seq<string>, k: nat)
    requires k < |columns| && k < |names|
  {
    Resolves(Base(columns[k]), LowerSet(names[..k]), names[k])
  }

  /** `names` is what the rename emits for `columns`, one per column, in order. */
  ghost predicate IsSanitization(columns: seq<string>, names: seq<string>)
  {
    && |names| == |columns|
    && forall k: nat :: k < |columns| ==> ResolvedAt(columns, names, k)
  }

  /** Two names are the same field to the shapefile format. */
  predicate SameIgnoringCase(a: string, b: string)
  {
    Lower(a) == Lower(b)
  }

  lemma {:induction false} LowerSetHas(names: seq<string>, k: nat)
    requires k < |names|
    ensures Lower(names[k]) in LowerSet(names)
    decreases |names|
  {
    if k < |names| - 1 {
      LowerSetHas(names[..|names| - 1], k);
    }
  }

  /** `used` holds exactly the lower-cased names emitted so far, and nothing else. */
  lemma {:induction false} LowerSetMembers(names: seq<string>, n: string)
    ensures n in LowerSet(names) <==> exists k :: 0 <= k < |names| && Lower(names[k]) == n
    decreases |names|
  {
    if names != [] {
      var init := names[..|names| - 1];
      LowerSetMembers(init, n);
      if n in LowerSet(init) {
        var k :| 0 <= k < |init| && Lower(init[k]) == n;
        assert names[k] == init[k];
      }
      if exists k :: 0 <= k < |names| && Lower(names[k]) == n {
        var k :| 0 <= k < |names| && Lower(names[k]) == n;
        if k < |init| {
          assert init[k] == names[k];
        }
      }
    }
  }

  /** The emitted name is never case-insensitively equal to one emitted before. */
  lemma ResolvesIsFree(base: string, used: set<string>, name: string)
    requires Resolves(base, used, name)
    ensures IsFieldName(name)
    ensures Lower(name) !in used
  {
    if Lower(base) in used {
      var i: nat :| FirstFreeSuffix(base, used, i) && name == Candidate(base, i);
    }
  }

  /** The rule picks exactly one name. */
  lemma ResolvesUnique(base: string, used: set<string>, a: string, b: string)
    requires Resolves(base, used, a) && Resolves(base, used, b)
    ensures a == b
  {
    if Lower(base) in used {
      var i: nat :| FirstFreeSuffix(base, used, i) && a == Candidate(base, i);
      var j: nat :| FirstFreeSuffix(base, used, j) && b == Candidate(base, j);
      assert !(i < j);
      assert !(j < i);
    }
  }

  /** Every emitted name is a legal field name. */
  lemma SanitizedNamesLegal(columns: seq<string>, names: seq<string>)
    requires IsSanitization(columns, names)
    ensures forall k :: 0 <= k < |names| ==> IsFieldName(names[k])
  {
    forall k | 0 <= k < |names| ensures IsFieldName(names[k]) {
      SanitizationAt(columns, names, k);
      ResolvesIsFree(Base(columns[k]), LowerSet(names[..k]), names[k]);
    }
  }

  /** The emitted names are pairwise distinct, ignoring letter case. */
  lemma SanitizedNamesDistinct(columns: seq<string>, names: seq<string>)
    requires IsSanitization(columns, names)
    ensures forall k, m :: 0 <= k < m < |names| ==> !SameIgnoringCase(names[k], names[m])
  {
    forall k, m | 0 <= k < m < |names| ensures !SameIgnoringCase(names[k], names[m]) {
      SanitizationAt(columns, names, m);
      ResolvesIsFree(Base(columns[m]), LowerSet(names[..m]), names[m]);
      LowerSetHas(names[..m], k);
    }
  }

  lemma SanitizationAt(columns: seq<string>, names: seq<string>, k: nat)
    requires IsSanitization(columns, names) && k < |columns|
    ensures Resolves(Base(columns[k]), LowerSet(names[..k]), names[k])
  {
    assert ResolvedAt(columns, names, k);
  }

  /** The specification determines the names completely. */
  lemma SanitizationUnique(columns: seq<string>, a: seq<string>, b: seq<string>)
    requires IsSanitization(columns, a) && IsSanitization(columns, b)
    ensures a == b
  {
    var n := 0;
    while n < |columns|
      invariant 0 <= n <= |columns|
      invariant a[..n] == b[..n]
    {
      SanitizationAt(columns, a, n);
      SanitizationAt(columns, b, n);
      ResolvesUnique(Base(columns[n]), LowerSet(a[..n]), a[n], b[n]);
      assert a[..n + 1] == a[..n] + [a[n]];
      assert b[..n + 1] == b[..n] + [b[n]];
      n := n + 1;
    }
    assert a == a[..n] && b == b[..n];
  }

  /** Appending one correctly resolved column keeps the specification. */
  lemma SanitizationExtend(columns: seq<string>, names: seq<string>, column: string, name: string)
    requires IsSanitization(columns, names)
    requires Resolves(Base(column), LowerSet(names), name)
    ensures IsSanitization(columns + [column], names + [name])
  {
    var columns', names' := columns + [column], names + [name];
    forall k: nat | k < |columns'|
      ensures ResolvedAt(columns', names', k)
    {
      if k < |columns| {
        SanitizationAt(columns, names, k);
        assert names'[..k] == names[..k];
      } else {
        assert names'[..k] == names;
      }
    }
  }

  /**
   * Among the suffixes 10^9 .. 10^10 - 1 every candidate is the ten-digit
   * number itself, so they are pairwise distinct; fewer used names than that
   * leave one of them free, and the source's `while` loop stops.
   */
  lemma FreeSuffixExists(base: string, used: set<string>)
    requires IsFieldName(base)
    requires |used| < MaxColumns
    ensures exists i: nat :: i >= 1 && Lower(Candidate(base, i)) !in used
  {
    assert Pow10(9) == 1_000_000_000;
    FreeTenDigitNumeral(Pow10(9), Pow10(10), used);
    var i :| Pow10(9) <= i < Pow10(10) && Decimal(i) !in used;
    DecimalLength(i, 10);
    assert Candidate(base, i) == Decimal(i);
    LowerDigits(Decimal(i));
  }

  lemma {:induction false} FreeTenDigitNumeral(lo: nat, hi: nat, used: set<string>)
    requires |used| < hi - lo
    ensures exists i :: lo <= i < hi && Decimal(i) !in used
    decreases hi - lo
  {
    if Decimal(lo) in used {
      FreeTenDigitNumeral(lo + 1, hi, used - {Decimal(lo)});
      var i :| lo + 1 <= i < hi && Decimal(i) !in used - {Decimal(lo)};
      if Decimal(i) == Decimal(lo) {
        DecimalInjective(i, lo);
      }
    }
  }

  /** More columns than this and a run of colliding columns may never find a free suffix. */
  const MaxColumns: nat := 9_000_000_000

  /**
   * Lines 51-56 of `safe_shapefile_columns`: try the base, then suffixes
   * 1, 2, ... until the lower-cased candidate is not in `used`.
   */
  method ResolveName(base: string, used: set<string>) returns (candidate: string)
    requires IsFieldName(base)
    requires |used| < MaxColumns
    ensures Resolves(base, used, candidate)
  {
    candidate := base;
    var i := 1;
    FreeSuffixExists(base, used);
    ghost var free: nat :| free >= 1 && Lower(Candidate(base, free)) !in used;
    while Lower(candidate) in used
      invariant 1 <= i <= free + 1
      invariant candidate == if i == 1 then base else Candidate(base, i - 1)
      invariant i > 1 ==> Lower(base) in used
      invariant forall j :: 1 <= j < i - 1 ==> Lower(Candidate(base, j)) in used
      decreases free + 1 - i
    {
      candidate := Candidate(base, i);
      i := i + 1;
    }
    if i > 1 {
      assert FirstFreeSuffix(base, used, i - 1);
    }
  }

  /**
   * `safe_shapefile_columns`: a new name for every column, in order, keeping
   * the rows as they are. `used` is kept equal to the lower-cased names
   * emitted so far.
   */
  method SafeShapefileColumns(df: Frame) returns (df2: Frame)
    requires |df.columns| <= MaxColumns
    ensures df2.rows == df.rows
    ensures IsSanitization(df.columns, df2.columns)
    ensures forall k :: 0 <= k < |df2.columns| ==> IsFieldName(df2.columns[k])
    ensures forall k, m :: 0 <= k < m < |df2.columns| ==> !SameIgnoringCase(df2.columns[k], df2.columns[m])
  {
    var newCols: seq<string> := [];
    var used: set<string> := {};
    for c := 0 to |df.columns|
      invariant |newCols| == c
      invariant used == LowerSet(newCols) && |used| == c
      invariant IsSanitization(df.columns[..c], newCols)
    {
      var base := Base(df.columns[c]);
      var candidate := ResolveName(base, used);
      SanitizationExtend(df.columns[..c], newCols, df.columns[c], candidate);
      assert df.columns[..c + 1] == df.columns[..c] + [df.columns[c]];
      ResolvesIsFree(base, used, candidate);
      used := used + {Lower(candidate)};
      newCols := newCols + [candidate];
    }
    assert df.columns[..|df.columns|] == df.columns;
    SanitizedNamesLegal(df.columns, newCols);
    SanitizedNamesDistinct(df.columns, newCols);
    df2 := df.(columns := newCols);
  }
}

/** Worked examples of the rename. */
module SanitizerExamples {
  import opened Text
  import opened Sanitizer

  /** An illegal character is replaced, not dropped, so the cut falls after "Station_Na". */
  lemma StationNameBase()
    ensures Base("Station Name (ID)") == "Station_Na"
  {
    var b := Base("Station Name (ID)");
    assert |b| == 10;
    assert b == "Station_Na";
  }

  /**
   * "Temp-C" and "Temp_C" share the base "Temp_C"; the second column is the
   * one that takes the suffix, and no other pair of names would do.
   */
  lemma TempColumns(names: seq<string>)
    requires IsSanitization(["Temp-C", "Temp_C"], names)
    ensures names == ["Temp_C", "Temp_C1"]
  {
    var columns := ["Temp-C", "Temp_C"];
    var expected := ["Temp_C", "Temp_C1"];
    assert Base(columns[0]) == "Temp_C";
    assert Base(columns[1]) == "Temp_C";
    assert Lower("Temp_C") == "temp_c";
    assert expected[..0] == [] && expected[..1] == ["Temp_C"];
    assert LowerSet(expected[..1]) == {"temp_c"};
    assert Decimal(1) == "1";
    assert Candidate("Temp_C", 1) == "Temp_C1";
    assert Lower("Temp_C1") == "temp_c1";
    assert FirstFreeSuffix("Temp_C", {"temp_c"}, 1);
    assert ResolvedAt(columns, expected, 0);
    assert ResolvedAt(columns, expected, 1);
    assert IsSanitization(columns, expected);
    SanitizationUnique(columns, names, expected);
  }
}
