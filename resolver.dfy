/**
 * The column resolver of app.py: `normalize_col`, the two alias sets and
 * `guess_lat_lon_columns`, which proposes a latitude and a longitude column
 * from the column labels alone.
 */
module Resolver {
  import opened Options
  import opened Text

  /** `re.sub(r"[^a-z0-9]+", "", s)`: every character outside `[a-z0-9]` is dropped. */
  function KeepLowerAlnum(s: string): (r: string)
    ensures forall k :: 0 <= k < |r| ==> IsLowerAlnum(r[k])
    ensures |r| <= |s|
  {
    if s == [] then []
    else (if IsLowerAlnum(s[0]) then [s[0]] else []) + KeepLowerAlnum(s[1..])
  }

  /**
   * `normalize_col`: strip, lower-case, then keep only `[a-z0-9]`. Stripping
   * whitespace is subsumed by the filter, which drops whitespace anyway.
   */
  function NormalizeCol(s: string): (r: string)
    ensures forall k :: 0 <= k < |r| ==> IsLowerAlnum(r[k])
    ensures |r| <= |s|
  {
    KeepLowerAlnum(Lower(s))
  }

  /** The filter keeps every `[a-z0-9]` character that occurs and brings in no other. */
  lemma {:induction false} KeepLowerAlnumMembers(s: string, c: char)
    ensures c in KeepLowerAlnum(s) <==> c in s && IsLowerAlnum(c)
  {
    if s != [] {
      KeepLowerAlnumMembers(s[1..], c);
      assert s == [s[0]] + s[1..];
    }
  }

  lemma {:induction false} KeepLowerAlnumFixesClean(s: string)
    requires forall k :: 0 <= k < |s| ==> IsLowerAlnum(s[k])
    ensures KeepLowerAlnum(s) == s
  {
    if s != [] {
      KeepLowerAlnumFixesClean(s[1..]);
    }
  }

  /** A name already made of `[a-z0-9]` is its own normal form. */
  lemma NormalizeFixesClean(s: string)
    requires forall k :: 0 <= k < |s| ==> IsLowerAlnum(s[k])
    ensures NormalizeCol(s) == s
  {
    assert Lower(s) == s;
    KeepLowerAlnumFixesClean(s);
  }

  /** Normalising twice gives the same name as normalising once. */
  lemma NormalizeIdempotent(s: string)
    ensures NormalizeCol(NormalizeCol(s)) == NormalizeCol(s)
  {
    NormalizeFixesClean(NormalizeCol(s));
  }

  /** The normal form does not depend on letter case. */
  lemma NormalizeIgnoresCase(s: string)
    ensures NormalizeCol(Lower(s)) == NormalizeCol(s)
  {
    assert Lower(Lower(s)) == Lower(s);
  }

  /** A name whose first character lower-cases into `[a-z0-9]` keeps it in front. */
  lemma NormalizeHead(s: string)
    requires |s| > 0 && IsLowerAlnum(LowerChar(s[0]))
    ensures |NormalizeCol(s)| > 0 && NormalizeCol(s)[0] == LowerChar(s[0])
  {
    assert Lower(s)[0] == LowerChar(s[0]);
  }

  /** A name made of letters and digits normalises to its lower-case form. */
  lemma NormalizeCleanName(s: string)
    requires forall k :: 0 <= k < |s| ==> IsLowerAlnum(LowerChar(s[k]))
    ensures NormalizeCol(s) == Lower(s)
  {
    KeepLowerAlnumFixesClean(Lower(s));
  }

  lemma {:induction false} KeepLowerAlnumConcat(a: string, b: string)
    ensures KeepLowerAlnum(a + b) == KeepLowerAlnum(a) + KeepLowerAlnum(b)
    decreases |a|
  {
    if a == [] {
      assert a + b == b;
    } else {
      var head := if IsLowerAlnum(a[0]) then [a[0]] else [];
      assert (a + b)[0] == a[0] && (a + b)[1..] == a[1..] + b;
      calc {
        KeepLowerAlnum(a + b);
        head + KeepLowerAlnum(a[1..] + b);
        { KeepLowerAlnumConcat(a[1..], b); }
        head + (KeepLowerAlnum(a[1..]) + KeepLowerAlnum(b));
        (head + KeepLowerAlnum(a[1..])) + KeepLowerAlnum(b);
        KeepLowerAlnum(a) + KeepLowerAlnum(b);
      }
    }
  }

  /**
   * The normal form of a concatenation is the concatenation of the normal
   * forms: punctuation or spaces inside a label vanish without disturbing
   * the letters around them.
   */
  lemma NormalizeConcat(a: string, b: string)
    ensures NormalizeCol(a + b) == NormalizeCol(a) + NormalizeCol(b)
  {
    assert Lower(a + b) == Lower(a) + Lower(b);
    KeepLowerAlnumConcat(Lower(a), Lower(b));
  }

  /**
   * One character at a time: it is kept, lower-cased, when its lower-case form
   * is in `[a-z0-9]`, and deleted otherwise.
   */
  lemma NormalizeChar(c: char)
    ensures NormalizeCol([c]) == if IsLowerAlnum(LowerChar(c)) then [LowerChar(c)] else []
  {
    assert Lower([c]) == [LowerChar(c)];
    assert KeepLowerAlnum([LowerChar(c)])
        == (if IsLowerAlnum(LowerChar(c)) then [LowerChar(c)] else []) + KeepLowerAlnum([]);
  }

  /** Deleting a character outside `[A-Za-z0-9]` from a label leaves its normal form unchanged. */
  lemma NormalizeDropsChar(a: string, c: char, b: string)
    requires !IsLowerAlnum(LowerChar(c))
    ensures NormalizeCol(a + [c] + b) == NormalizeCol(a + b)
  {
    NormalizeConcat(a + [c], b);
    NormalizeConcat(a, [c]);
    NormalizeChar(c);
    NormalizeConcat(a, b);
  }

  const LatAliases: set<string> := {"lat", "latitude", "y", "ycoord", "ycoordinate"}
  const LonAliases: set<string> := {"lon", "long", "longitude", "x", "xcoord", "xcoordinate"}

  /** No normalised name is both a latitude and a longitude alias. */
  lemma AliasSetsDisjoint()
    ensures LatAliases * LonAliases == {}
  {
  }

  /** The position of the first occurrence of `c` in `columns`. */
  function FirstIndex(columns: seq<string>, c: string): (k: nat)
    requires c in columns
    ensures k < |columns| && columns[k] == c
  {
    if columns[0] == c then 0 else 1 + FirstIndex(columns[1..], c)
  }

  /** No earlier position holds `c`. */
  lemma {:induction false} FirstIndexIsFirst(columns: seq<string>, c: string)
    requires c in columns
    ensures forall j :: 0 <= j < FirstIndex(columns, c) ==> columns[j] != c
  {
    if columns[0] != c {
      FirstIndexIsFirst(columns[1..], c);
      forall j | 0 < j < FirstIndex(columns, c)
        ensures columns[j] != c
      {
        assert columns[j] == columns[1..][j - 1];
      }
    }
  }

  /**
   * The keys of the dict comprehension `{c: normalize_col(c) for c in
   * columns}`, in insertion order: a repeated label keeps the position of its
   * first occurrence. `seen` holds the keys inserted so far.
   */
  function DictKeys(columns: seq<string>, seen: set<string>): (r: seq<string>)
    ensures forall c :: c in r <==> c in columns && c !in seen
    ensures forall i, j :: 0 <= i < j < |r| ==> r[i] != r[j]
    ensures forall i, j :: 0 <= i < j < |r| ==> FirstIndex(columns, r[i]) < FirstIndex(columns, r[j])
  {
    if columns == [] then []
    else if columns[0] in seen then DictKeys(columns[1..], seen)
    else [columns[0]] + DictKeys(columns[1..], seen + {columns[0]})
  }

  /** `[c for c, n in norm_map.items() if n in aliases]`. */
  function Candidates(keys: seq<string>, aliases: set<string>): (r: seq<string>)
    ensures forall c :: c in r <==> c in keys && NormalizeCol(c) in aliases
    ensures |r| <= |keys|
  {
    if keys == [] then []
    else (if NormalizeCol(keys[0]) in aliases then [keys[0]] else []) + Candidates(keys[1..], aliases)
  }

  /** Column `k` is the first column, in column order, whose normal form is an alias. */
  predicate IsFirstMatch(columns: seq<string>, aliases: set<string>, k: int)
  {
    && 0 <= k < |columns|
    && NormalizeCol(columns[k]) in aliases
    && forall j :: 0 <= j < k ==> NormalizeCol(columns[j]) !in aliases
  }

  /**
   * `guess` is the first matching column, or `None` exactly when no column
   * matches.
   */
  predicate FirstInOrder(columns: seq<string>, aliases: set<string>, guess: Option<string>)
  {
    && (guess.None? <==> forall k :: 0 <= k < |columns| ==> NormalizeCol(columns[k]) !in aliases)
    && (guess.Some? ==> exists k :: 0 <= k < |columns| && IsFirstMatch(columns, aliases, k) && columns[k] == guess.value)
  }

  /** At most one guess is the first match: the contract of the guess pins it down. */
  lemma FirstInOrderUnique(columns: seq<string>, aliases: set<string>, a: Option<string>, b: Option<string>)
    requires FirstInOrder(columns, aliases, a) && FirstInOrder(columns, aliases, b)
    ensures a == b
  {
    if a.Some? {
      var i :| 0 <= i < |columns| && IsFirstMatch(columns, aliases, i) && columns[i] == a.value;
      var j :| 0 <= j < |columns| && IsFirstMatch(columns, aliases, j) && columns[j] == b.value;
      assert !(i < j) && !(j < i);
    }
  }

  lemma FirstInOrderTail(columns: seq<string>, aliases: set<string>, guess: Option<string>)
    requires columns != [] && NormalizeCol(columns[0]) !in aliases
    requires FirstInOrder(columns[1..], aliases, guess)
    ensures FirstInOrder(columns, aliases, guess)
  {
    if guess.Some? {
      var tail := columns[1..];
      var k :| 0 <= k < |tail| && IsFirstMatch(tail, aliases, k) && tail[k] == guess.value;
      assert columns[k + 1] == tail[k];
      forall j | 0 <= j < k + 1 ensures NormalizeCol(columns[j]) !in aliases {
        if j > 0 {
          assert columns[j] == tail[j - 1];
        }
      }
      assert IsFirstMatch(columns, aliases, k + 1);
    } else {
      forall k | 0 <= k < |columns| ensures NormalizeCol(columns[k]) !in aliases {
        if k > 0 {
          assert columns[k] == columns[1..][k - 1];
        }
      }
    }
  }

  /**
   * Taking the head of the candidate list built over the dict keys finds the
   * first matching column of the original order, provided no key skipped as
   * already seen could have matched.
   */
  lemma {:induction false} FirstCandidateIsFirstMatch(columns: seq<string>, seen: set<string>, aliases: set<string>)
    requires forall s :: s in seen ==> NormalizeCol(s) !in aliases
    ensures var cands := Candidates(DictKeys(columns, seen), aliases);
            FirstInOrder(columns, aliases, if |cands| > 0 then Some(cands[0]) else None)
    decreases |columns|
  {
    var cands := Candidates(DictKeys(columns, seen), aliases);
    var guess := if |cands| > 0 then Some(cands[0]) else None;
    if columns == [] {
    } else if columns[0] in seen {
      FirstCandidateIsFirstMatch(columns[1..], seen, aliases);
      FirstInOrderTail(columns, aliases, guess);
    } else if NormalizeCol(columns[0]) in aliases {
      assert cands[0] == columns[0];
      assert IsFirstMatch(columns, aliases, 0);
    } else {
      FirstCandidateIsFirstMatch(columns[1..], seen + {columns[0]}, aliases);
      FirstInOrderTail(columns, aliases, guess);
    }
  }

  /**
   * `guess_lat_lon_columns`: for each alias set, the first column whose
   * normal form is in the set, or `None`.
   */
  function GuessLatLonColumns(columns: seq<string>): (r: (Option<string>, Option<string>))
    ensures FirstInOrder(columns, LatAliases, r.0)
    ensures FirstInOrder(columns, LonAliases, r.1)
  {
    var keys := DictKeys(columns, {});
    var latCandidates := Candidates(keys, LatAliases);
    var lonCandidates := Candidates(keys, LonAliases);
    FirstCandidateIsFirstMatch(columns, {}, LatAliases);
    FirstCandidateIsFirstMatch(columns, {}, LonAliases);
    (if |latCandidates| > 0 then Some(latCandidates[0]) else None,
     if |lonCandidates| > 0 then Some(lonCandidates[0]) else None)
  }

  lemma NotInBoth(a: set<string>, b: set<string>, x: string)
    requires a * b == {} && x in a
    ensures x !in b
  {
    assert x !in a * b;
  }

  /** When both guesses succeed they name different columns. */
  lemma GuessedColumnsDiffer(columns: seq<string>)
    ensures var r := GuessLatLonColumns(columns);
            r.0.Some? && r.1.Some? ==> r.0.value != r.1.value
  {
    var r := GuessLatLonColumns(columns);
    if r.0.Some? && r.1.Some? {
      var i :| 0 <= i < |columns| && IsFirstMatch(columns, LatAliases, i) && columns[i] == r.0.value;
      var j :| 0 <= j < |columns| && IsFirstMatch(columns, LonAliases, j) && columns[j] == r.1.value;
      AliasSetsDisjoint();
      NotInBoth(LatAliases, LonAliases, NormalizeCol(columns[i]));
    }
  }
}

/** Worked examples of the column guess. */
module ResolverExamples {
  import opened Options
  import opened Text
  import opened Resolver

  /** Every alias starts with 'l', 'x' or 'y'. */
  lemma NoAliasStartsWith(s: string)
    requires |s| > 0 && s[0] != 'l' && s[0] != 'x' && s[0] != 'y'
    ensures s !in LatAliases && s !in LonAliases
  {
  }

  lemma StationHeaderNormalForms(columns: seq<string>)
    requires columns == ["Station Name (ID)", "Lat", "Lon"]
    ensures NormalizeCol(columns[0]) !in LatAliases && NormalizeCol(columns[0]) !in LonAliases
    ensures NormalizeCol(columns[1]) in LatAliases && NormalizeCol(columns[1]) !in LonAliases
    ensures NormalizeCol(columns[2]) in LonAliases
  {
    NormalizeHead(columns[0]);
    NoAliasStartsWith(NormalizeCol(columns[0]));
    NormalizeCleanName(columns[1]);
    NormalizeCleanName(columns[2]);
    assert NormalizeCol(columns[1]) == "lat" && NormalizeCol(columns[2]) == "lon";
    AliasSetsDisjoint();
    NotInBoth(LatAliases, LonAliases, "lat");
  }

  /** "Lat" and "Lon" are picked; the station label normalises to no alias. */
  lemma StationHeader(columns: seq<string>)
    requires columns == ["Station Name (ID)", "Lat", "Lon"]
    ensures GuessLatLonColumns(columns) == (Some("Lat"), Some("Lon"))
  {
    StationHeaderNormalForms(columns);
    assert IsFirstMatch(columns, LatAliases, 1) && IsFirstMatch(columns, LonAliases, 2);
    var r := GuessLatLonColumns(columns);
    FirstInOrderUnique(columns, LatAliases, r.0, Some(columns[1]));
    FirstInOrderUnique(columns, LonAliases, r.1, Some(columns[2]));
  }

  /**
   * The header of the CSV format example the converter shows on its start
   * page (app.py:199-203).
   */
  lemma CsvExampleHeaderNormalForms(columns: seq<string>)
    requires columns == ["Station", "Latitude", "Longitude", "Type", "Value"]
    ensures NormalizeCol(columns[0]) !in LatAliases && NormalizeCol(columns[0]) !in LonAliases
    ensures NormalizeCol(columns[1]) in LatAliases && NormalizeCol(columns[1]) !in LonAliases
    ensures NormalizeCol(columns[2]) in LonAliases
  {
    NormalizeHead(columns[0]);
    NoAliasStartsWith(NormalizeCol(columns[0]));
    LatitudeWord(columns[1]);
    LongitudeWord(columns[2]);
    AliasSetsDisjoint();
    NotInBoth(LatAliases, LonAliases, "latitude");
  }

  lemma LatitudeWord(s: string)
    requires s == "Latitude"
    ensures NormalizeCol(s) == "latitude"
  {
    NormalizeCleanName(s);
    assert Lower(s) == "latitude";
  }

  lemma LongitudeWord(s: string)
    requires s == "Longitude"
    ensures NormalizeCol(s) == "longitude"
  {
    NormalizeCleanName(s);
    assert Lower(s) == "longitude";
  }

  /** On that header the guess is "Latitude" and "Longitude". */
  lemma CsvExampleHeader(columns: seq<string>)
    requires columns == ["Station", "Latitude", "Longitude", "Type", "Value"]
    ensures GuessLatLonColumns(columns) == (Some("Latitude"), Some("Longitude"))
  {
    CsvExampleHeaderNormalForms(columns);
    assert IsFirstMatch(columns, LatAliases, 1) && IsFirstMatch(columns, LonAliases, 2);
    var r := GuessLatLonColumns(columns);
    FirstInOrderUnique(columns, LatAliases, r.0, Some(columns[1]));
    FirstInOrderUnique(columns, LonAliases, r.1, Some(columns[2]));
  }

  lemma UnderscoredX(s: string)
    requires s == "X_"
    ensures NormalizeCol(s) == "x"
  {
    assert s == "X" + "_";
    NormalizeConcat("X", "_");
    NormalizeCleanName("X");
    assert Lower("X") == "x";
    assert NormalizeCol("_") == "";
  }

  lemma CoordinateWord(s: string)
    requires s == "Coordinate"
    ensures NormalizeCol(s) == "coordinate"
  {
    NormalizeCleanName(s);
    assert Lower(s) == "coordinate";
  }

  /** Punctuation inside a label is dropped, so "X_Coordinate" is a longitude alias. */
  lemma PunctuatedAlias(s: string)
    requires s == "X_Coordinate"
    ensures NormalizeCol(s) == "xcoordinate" && NormalizeCol(s) in LonAliases
  {
    var head, word := s[..2], s[2..];
    assert s == head + word;
    NormalizeConcat(head, word);
    UnderscoredX(head);
    CoordinateWord(word);
    assert NormalizeCol(s) == "x" + "coordinate";
  }
}
