/**
 Giving each document of a run its own output stem: at most 200 bytes, no two equal when
 case is folded, repeats numbered. `fold` is the case folding of one character; strings fold
 character by character.
 */
module Stems {
  import opened Wrappers
  import opened Counting
  import opened Utf8

  const MAX_TASK_STEM_BYTES := 200

  // The longest sequence the host can hold.
  const MAX_LENGTH := 0x7FFF_FFFF_FFFF_FFFF

  // ---------------------------------------------------------- decimals

  function Digit(d: nat): (c: char)
    requires d < 10
    ensures '0' <= c <= '9' && c as int == '0' as int + d
  {
    '0' + d as char
  }

  function Decimal(n: nat): (r: string)
    ensures r != "" && forall k {:trigger r[k]} :: 0 <= k < |r| ==> '0' <= r[k] <= '9'
  {
    if n < 10 then [Digit(n)] else Decimal(n / 10) + [Digit(n % 10)]
  }

  function Suffix(n: nat): string {
    "_" + Decimal(n)
  }

  lemma {:induction false} DecimalInjective(a: nat, b: nat)
    requires Decimal(a) == Decimal(b)
    ensures a == b
  {
    var x, y := Decimal(a), Decimal(b);
    assert x[|x| - 1] == Digit(a % 10) && y[|y| - 1] == Digit(b % 10);
    if a < 10 || b < 10 {
      LongDecimal(a);
      LongDecimal(b);
    } else {
      assert x[..|x| - 1] == Decimal(a / 10) && y[..|y| - 1] == Decimal(b / 10);
      DecimalInjective(a / 10, b / 10);
    }
  }

  lemma LongDecimal(n: nat)
    ensures n >= 10 <==> |Decimal(n)| >= 2
  {
  }

  function Pow10(k: nat): nat {
    if k == 0 then 1 else 10 * Pow10(k - 1)
  }

  lemma {:induction false} DecimalLength(n: nat, k: nat)
    requires n < Pow10(k) && k >= 1
    ensures |Decimal(n)| <= k
  {
    assert Pow10(1) == 10;
    if n >= 10 {
      DecimalLength(n / 10, k - 1);
    }
  }

  lemma TwentyDigits(n: nat)
    requires n <= 3 * MAX_LENGTH + 2
    ensures |Decimal(n)| <= 20
  {
    assert Pow10(4) == 10000;
    assert Pow10(8) == 100000000;
    assert Pow10(12) == 1000000000000;
    assert Pow10(16) == 10000000000000000;
    assert Pow10(20) == 100000000000000000000;
    DecimalLength(n, 20);
  }

  // The digits written are the number's, in base ten and without a leading zero.
  function Value(digits: string): int {
    if digits == "" then 0 else 10 * Value(digits[..|digits| - 1]) + (digits[|digits| - 1] as int - '0' as int)
  }

  lemma {:induction false} DecimalIsValue(n: nat)
    ensures Value(Decimal(n)) == n && (n > 0 ==> Decimal(n)[0] != '0')
  {
    if n >= 10 {
      DecimalIsValue(n / 10);
      assert Decimal(n)[..|Decimal(n)| - 1] == Decimal(n / 10);
    } else {
      assert [Digit(n)][..0] == "";
    }
  }

  // ------------------------------------------------------ case folding

  // What case folding does to the characters of a number suffix.
  ghost predicate FoldsNumbers(fold: char -> string) {
    fold('_') == "_" && forall c {:trigger fold(c)} :: '0' <= c <= '9' ==> fold(c) == [c]
  }

  function Key(fold: char -> string, s: string): string {
    if s == "" then "" else fold(s[0]) + Key(fold, s[1..])
  }

  lemma {:induction false} KeyAppend(fold: char -> string, a: string, b: string)
    ensures Key(fold, a + b) == Key(fold, a) + Key(fold, b)
  {
    if a == "" {
      assert a + b == b;
    } else {
      assert (a + b)[1..] == a[1..] + b;
      KeyAppend(fold, a[1..], b);
    }
  }

  lemma {:induction false} KeyOfDigits(fold: char -> string, digits: string)
    requires FoldsNumbers(fold) && forall k {:trigger digits[k]} :: 0 <= k < |digits| ==> '0' <= digits[k] <= '9'
    ensures Key(fold, digits) == digits
  {
    if digits != "" {
      KeyOfDigits(fold, digits[1..]);
    }
  }

  lemma KeyOfNumbered(fold: char -> string, front: string, n: nat)
    requires FoldsNumbers(fold)
    ensures Key(fold, front + Suffix(n)) == Key(fold, front) + "_" + Decimal(n)
  {
    KeyAppend(fold, front, Suffix(n));
    KeyAppend(fold, "_", Decimal(n));
    KeyOfDigits(fold, Decimal(n));
    assert Key(fold, "_") == fold('_') + Key(fold, "");
  }

  // What follows the last underscore tells the number.
  lemma NumbersDiffer(a: string, m: nat, b: string, n: nat)
    requires a + "_" + Decimal(m) == b + "_" + Decimal(n)
    ensures m == n
  {
    var s, t, x, y := a + "_" + Decimal(m), b + "_" + Decimal(n), |a|, |b|;
    LastUnderscore(a, m);
    LastUnderscore(b, n);
    assert x == y;
    assert s[x + 1..] == Decimal(m) && t[y + 1..] == Decimal(n);
    DecimalInjective(m, n);
  }

  lemma LastUnderscore(a: string, n: nat)
    ensures var s := a + "_" + Decimal(n);
      s[|a|] == '_' && forall k {:trigger s[k]} :: |a| < k < |s| ==> s[k] != '_'
  {
  }

  // --------------------------------------------------------- candidates

  function NormalizeTaskStem(stem: string): string {
    Truncated(stem, MAX_TASK_STEM_BYTES)
  }

  function StemBase(stem: string): string {
    if NormalizeTaskStem(stem) != "" then NormalizeTaskStem(stem) else stem
  }

  function BuildTaskStemCandidate(stem: string, suffix: string, maxBytes: int): string {
    if ByteLength(stem + suffix) <= maxBytes then stem + suffix
    else if ByteLength(suffix) >= maxBytes then Truncated(suffix, maxBytes)
    else Truncated(stem, maxBytes - ByteLength(suffix)) + suffix
  }

  function Numbered(base: string, n: nat): string {
    BuildTaskStemCandidate(base, Suffix(n), MAX_TASK_STEM_BYTES)
  }

  lemma TruncatedFits(s: string, k: int)
    ensures ByteLength(Truncated(s, k)) <= Max(0, k)
    ensures k >= 0 && ByteLength(s) <= k ==> Truncated(s, k) == s
  {
    hide WholeChars;
    if k > 0 {
      WholeCharsLongest(s, k, WholeChars(s, k));
      WholeCharsLongest(s, k, |s|);
      assert s[..|s|] == s;
    } else if s != "" {
      assert Encode(s) == EncodeChar(s[0]) + Encode(s[1..]);
    }
  }

  // A normalized stem is empty only if the stem is.
  lemma BaseIsNormalized(stem: string)
    ensures StemBase(stem) == NormalizeTaskStem(stem) && ByteLength(StemBase(stem)) <= MAX_TASK_STEM_BYTES
  {
    TruncatedFits(stem, MAX_TASK_STEM_BYTES);
  }

  // A candidate fits; with a suffix that fits it keeps the whole suffix and all of the stem
  // that fits before it.
  lemma CandidateFits(stem: string, suffix: string, maxBytes: nat)
    ensures var r := BuildTaskStemCandidate(stem, suffix, maxBytes);
      && ByteLength(r) <= maxBytes
      && (ByteLength(suffix) < maxBytes ==> r == Truncated(stem, maxBytes - ByteLength(suffix)) + suffix)
  {
    hide Encode, Truncated;
    EncodeAppend(stem, suffix);
    TruncatedFits(suffix, maxBytes);
    TruncatedFits(stem, maxBytes - ByteLength(suffix));
    EncodeAppend(Truncated(stem, maxBytes - ByteLength(suffix)), suffix);
  }

  lemma {:induction false} AsciiLength(s: string)
    requires forall k {:trigger s[k]} :: 0 <= k < |s| ==> s[k] as int < 0x80
    ensures ByteLength(s) == |s|
  {
    if s != "" {
      AsciiLength(s[1..]);
    }
  }

  // Different numbers give stems that differ even when case is folded.
  lemma NumberedDistinct(fold: char -> string, base: string, m: nat, n: nat)
    requires FoldsNumbers(fold) && |Suffix(m)| < MAX_TASK_STEM_BYTES && |Suffix(n)| < MAX_TASK_STEM_BYTES
    requires Key(fold, Numbered(base, m)) == Key(fold, Numbered(base, n))
    ensures m == n
  {
    hide Truncated, BuildTaskStemCandidate;
    AsciiLength(Suffix(m));
    AsciiLength(Suffix(n));
    CandidateFits(base, Suffix(m), MAX_TASK_STEM_BYTES);
    CandidateFits(base, Suffix(n), MAX_TASK_STEM_BYTES);
    var a, b := Truncated(base, MAX_TASK_STEM_BYTES - |Suffix(m)|), Truncated(base, MAX_TASK_STEM_BYTES - |Suffix(n)|);
    KeyOfNumbered(fold, a, m);
    KeyOfNumbered(fold, b, n);
    NumbersDiffer(Key(fold, a), m, Key(fold, b), n);
  }

  // ------------------------------------------------------------ renaming

  function BaseKey(fold: char -> string, stem: string): string {
    Key(fold, StemBase(stem))
  }

  // How often the key occurs among the stems.
  function Occurrences(fold: char -> string, stems: seq<string>, key: string): nat {
    if stems == [] then 0
    else Occurrences(fold, stems[..|stems| - 1], key) + if BaseKey(fold, stems[|stems| - 1]) == key then 1 else 0
  }

  ghost predicate IsKey(fold: char -> string, stems: seq<string>, key: string) {
    exists i: nat :: i < |stems| && key == BaseKey(fold, stems[i])
  }

  ghost predicate IsUsed(fold: char -> string, unique: seq<string>, key: string) {
    exists i: nat :: i < |unique| && key == Key(fold, unique[i])
  }

  ghost predicate Taken(fold: char -> string, stems: seq<string>, earlier: seq<string>, key: string) {
    IsKey(fold, stems, key) || IsUsed(fold, earlier, key)
  }

  // The least free number from the given one on.
  ghost predicate LeastFree(fold: char -> string, stems: seq<string>, earlier: seq<string>, base: string, from: nat,
                            n: nat) {
    && from <= n && !Taken(fold, stems, earlier, Key(fold, Numbered(base, n)))
    && forall m: nat {:trigger Numbered(base, m)} ::
         from <= m < n ==> Taken(fold, stems, earlier, Key(fold, Numbered(base, m)))
  }

  // The stem given to document i: its own if its key is new, else numbered from one more
  // than the times the key was seen.
  ghost predicate Given(fold: char -> string, stems: seq<string>, earlier: seq<string>, i: nat, given: string)
    requires i < |stems|
  {
    var base := StemBase(stems[i]);
    var seen := Occurrences(fold, stems[..i], BaseKey(fold, stems[i]));
    if seen == 0 then given == base
    else exists n: nat :: LeastFree(fold, stems, earlier, base, seen + 1, n) && given == Numbered(base, n)
  }

  ghost predicate AllGiven(fold: char -> string, stems: seq<string>, unique: seq<string>) {
    && |unique| <= |stems|
    && forall i: nat {:trigger unique[i]} :: i < |unique| ==> Given(fold, stems, unique[..i], i, unique[i])
  }

  function Renamed(stems: seq<string>, unique: seq<string>): seq<(string, string)>
    requires |unique| <= |stems|
  {
    if unique == [] then []
    else
      var last := |unique| - 1;
      Renamed(stems, unique[..last]) + if unique[last] != stems[last] then [(stems[last], unique[last])] else []
  }

  // Exactly the documents whose stem was changed are listed, with the stem before and after.
  lemma {:induction false} RenamedMeans(stems: seq<string>, unique: seq<string>, pair: (string, string))
    requires |unique| <= |stems|
    ensures pair in Renamed(stems, unique) <==>
      exists i: nat :: i < |unique| && unique[i] != stems[i] && pair == (stems[i], unique[i])
  {
    if unique != [] {
      var last := |unique| - 1;
      RenamedMeans(stems, unique[..last], pair);
      if i: nat :| i < last && unique[..last][i] != stems[i] && pair == (stems[i], unique[..last][i]) {
        assert unique[i] == unique[..last][i];
      }
      if i: nat :| i < |unique| && unique[i] != stems[i] && pair == (stems[i], unique[i]) {
        assert i < last ==> unique[..last][i] == unique[i];
      }
    }
  }

  // Tries numbers until one is free; each failure names another of the taken keys.
  method FindFree(fold: char -> string, base: string, from: nat, taken: set<string>)
    returns (candidate: string, ghost n: nat)
    requires FoldsNumbers(fold) && from + |taken| <= 3 * MAX_LENGTH + 1
    ensures from <= n && candidate == Numbered(base, n) && Key(fold, candidate) !in taken
    ensures forall m: nat {:trigger Numbered(base, m)} :: from <= m < n ==> Key(fold, Numbered(base, m)) in taken
  {
    hide Key, Numbered, Suffix;
    var suffix := from;
    ghost var tried: seq<string> := [];
    while true
      invariant suffix == from + |tried|
      invariant forall k {:trigger tried[k]} ::
        0 <= k < |tried| ==> tried[k] == Key(fold, Numbered(base, from + k)) && tried[k] in taken
      invariant forall m: nat {:trigger Numbered(base, m)} ::
        from <= m < suffix ==> Key(fold, Numbered(base, m)) in taken
      invariant |tried| <= |taken|
      decreases |taken| - |tried|
    {
      candidate := BuildCandidate(base, suffix);
      if Key(fold, candidate) !in taken {
        return candidate, suffix;
      }
      tried := tried + [Key(fold, candidate)];
      TriedDistinct(fold, base, from, tried, |taken|);
      Pigeonhole(tried, taken);
      suffix := suffix + 1;
    }
  }

  method BuildCandidate(base: string, suffix: nat) returns (candidate: string)
    ensures candidate == Numbered(base, suffix)
  {
    hide Encode, Truncated;
    var tail := Suffix(suffix);
    if ByteLength(base + tail) <= MAX_TASK_STEM_BYTES {
      return base + tail;
    }
    if ByteLength(tail) >= MAX_TASK_STEM_BYTES {
      candidate := TruncateToUtf8Bytes(tail, MAX_TASK_STEM_BYTES);
      return;
    }
    var front := TruncateToUtf8Bytes(base, MAX_TASK_STEM_BYTES - ByteLength(tail));
    return front + tail;
  }

  lemma TriedDistinct(fold: char -> string, base: string, from: nat, tried: seq<string>, most: nat)
    requires FoldsNumbers(fold) && from + most <= 3 * MAX_LENGTH + 1 && |tried| <= most + 1
    requires forall k {:trigger tried[k]} :: 0 <= k < |tried| ==> tried[k] == Key(fold, Numbered(base, from + k))
    ensures Distinct(tried)
  {
    hide Key, Numbered;
    forall i, j {:trigger tried[i], tried[j]} | 0 <= i < j < |tried| ensures tried[i] != tried[j] {
      if tried[i] == tried[j] {
        ShortSuffix(from + i);
        ShortSuffix(from + j);
        NumberedDistinct(fold, base, from + i, from + j);
      }
    }
  }

  lemma ShortSuffix(n: nat)
    requires n <= 3 * MAX_LENGTH + 2
    ensures |Suffix(n)| < MAX_TASK_STEM_BYTES
  {
    TwentyDigits(n);
  }

  // ------------------------------------------------------- the whole list

  // The keys of all stems, as a set, in a list of at most as many.
  method RawKeys(fold: char -> string, stems: seq<string>) returns (raw: set<string>)
    ensures forall key :: key in raw <==> IsKey(fold, stems, key)
    ensures |raw| <= |stems|
  {
    hide Key, StemBase;
    raw := {};
    for i := 0 to |stems|
      invariant forall key :: key in raw <==> IsKey(fold, stems[..i], key)
      invariant |raw| <= i
    {
      var normalized := TruncateToUtf8Bytes(stems[i], MAX_TASK_STEM_BYTES);
      BaseIsNormalized(stems[i]);
      ghost var before := raw;
      raw := raw + {Key(fold, normalized)};
      forall key ensures key in raw <==> IsKey(fold, stems[..i + 1], key) {
        KeySnoc(fold, stems[..i], stems[i], key);
        assert stems[..i + 1] == stems[..i] + [stems[i]];
      }
      assert raw == if Key(fold, normalized) in before then before else before + {Key(fold, normalized)};
    }
    assert stems[..|stems|] == stems;
  }

  lemma KeySnoc(fold: char -> string, stems: seq<string>, stem: string, key: string)
    ensures IsKey(fold, stems + [stem], key) <==> IsKey(fold, stems, key) || key == BaseKey(fold, stem)
  {
    hide BaseKey;
    if IsKey(fold, stems, key) {
      var i: nat :| i < |stems| && key == BaseKey(fold, stems[i]);
      assert (stems + [stem])[i] == stems[i];
    }
    if key == BaseKey(fold, stem) {
      assert (stems + [stem])[|stems|] == stem;
    }
    if IsKey(fold, stems + [stem], key) {
      var i: nat :| i < |stems + [stem]| && key == BaseKey(fold, (stems + [stem])[i]);
      assert i < |stems| ==> (stems + [stem])[i] == stems[i];
    }
  }

  lemma UsedSnoc(fold: char -> string, unique: seq<string>, stem: string, key: string)
    ensures IsUsed(fold, unique + [stem], key) <==> IsUsed(fold, unique, key) || key == Key(fold, stem)
  {
    hide Key;
    if IsUsed(fold, unique, key) {
      var i: nat :| i < |unique| && key == Key(fold, unique[i]);
      assert (unique + [stem])[i] == unique[i];
    }
    if key == Key(fold, stem) {
      assert (unique + [stem])[|unique|] == stem;
    }
    if IsUsed(fold, unique + [stem], key) {
      var i: nat :| i < |unique + [stem]| && key == Key(fold, (unique + [stem])[i]);
      assert i < |unique| ==> (unique + [stem])[i] == unique[i];
    }
  }

  lemma {:induction false} OccurrencesPositive(fold: char -> string, stems: seq<string>, key: string)
    ensures Occurrences(fold, stems, key) > 0 <==> IsKey(fold, stems, key)
    ensures Occurrences(fold, stems, key) <= |stems|
  {
    hide BaseKey;
    if stems != [] {
      var last := |stems| - 1;
      assert stems == stems[..last] + [stems[last]];
      OccurrencesPositive(fold, stems[..last], key);
      KeySnoc(fold, stems[..last], stems[last], key);
    }
  }

  // Keys given so far are keys of the stems so far, or keys of no stem at all.
  ghost predicate FromPrefix(fold: char -> string, stems: seq<string>, unique: seq<string>)
    requires |unique| <= |stems|
  {
    forall i: nat {:trigger unique[i]} :: i < |unique| ==>
      IsKey(fold, stems[..|unique|], Key(fold, unique[i])) || !IsKey(fold, stems, Key(fold, unique[i]))
  }

  lemma {:induction false} GivenFromPrefix(fold: char -> string, stems: seq<string>, unique: seq<string>)
    requires AllGiven(fold, stems, unique)
    ensures FromPrefix(fold, stems, unique)
  {
    hide Key, StemBase, Occurrences, IsKey;
    forall i: nat {:trigger unique[i]} | i < |unique|
      ensures IsKey(fold, stems[..|unique|], Key(fold, unique[i])) || !IsKey(fold, stems, Key(fold, unique[i]))
    {
      assert Given(fold, stems, unique[..i], i, unique[i]);
      KeyAt(fold, stems[..|unique|], i);
    }
  }

  lemma KeyAt(fold: char -> string, stems: seq<string>, i: nat)
    requires i < |stems|
    ensures IsKey(fold, stems, BaseKey(fold, stems[i]))
  {
  }

  // A stem whose key was not seen before is never in conflict with a name already given.
  lemma NewKeyIsFree(fold: char -> string, stems: seq<string>, unique: seq<string>)
    requires AllGiven(fold, stems, unique) && |unique| < |stems|
    requires Occurrences(fold, stems[..|unique|], BaseKey(fold, stems[|unique|])) == 0
    ensures !IsUsed(fold, unique, BaseKey(fold, stems[|unique|]))
  {
    hide Occurrences, IsKey, AllGiven;
    var i, key := |unique|, BaseKey(fold, stems[|unique|]);
    GivenFromPrefix(fold, stems, unique);
    KeyAt(fold, stems, i);
    OccurrencesPositive(fold, stems[..i], key);
  }

  method UniquifyTaskStems(fold: char -> string, stems: seq<string>)
    returns (unique: seq<string>, renamed: seq<(string, string)>)
    requires FoldsNumbers(fold) && |stems| <= MAX_LENGTH
    ensures |unique| == |stems| && AllGiven(fold, stems, unique)
    ensures renamed == Renamed(stems, unique)
  {
    hide Key, StemBase, AllGiven, Occurrences, IsKey, IsUsed, Given, NormalizeTaskStem, Truncated, FoldsNumbers;
    hide Numbered;
    var raw := RawKeys(fold, stems);
    var occurrenceCounts: map<string, nat> := map[];
    var assignedKeys: set<string> := {};
    unique, renamed := [], [];
    NothingGiven(fold, stems);
    for i := 0 to |stems|
      invariant |unique| == i && AllGiven(fold, stems, unique) && renamed == Renamed(stems, unique)
      invariant forall key :: key in assignedKeys <==> IsUsed(fold, unique, key)
      invariant |assignedKeys| <= i
      invariant forall key {:trigger Occurrences(fold, stems[..i], key)} ::
        Occurrences(fold, stems[..i], key) == if key in occurrenceCounts then occurrenceCounts[key] else 0
    {
      var normalized := TruncateToUtf8Bytes(stems[i], MAX_TASK_STEM_BYTES);
      var base := if normalized != "" then normalized else stems[i];
      assert base == StemBase(stems[i]) by {
        BaseEither(stems[i], normalized);
      }
      var key := Key(fold, base);
      var seen := if key in occurrenceCounts then occurrenceCounts[key] else 0;
      OccurrencesPositive(fold, stems[..i], key);
      CountSnoc(fold, stems, i);
      occurrenceCounts := occurrenceCounts[key := seen + 1];
      var effective := base;
      if seen == 0 && key !in assignedKeys {
        GivenFirst(fold, stems, unique);
      } else {
        if seen == 0 {
          NewKeyIsFree(fold, stems, unique);
          assert false;
        }
        var taken := raw + assignedKeys;
        UnionSize(raw, assignedKeys);
        ghost var n;
        effective, n := FindFree(fold, base, seen + 1, taken);
        GivenNumbered(fold, stems, unique, taken, n);
      }
      GivenSnoc(fold, stems, unique, effective);
      assignedKeys := AddKey(fold, unique, assignedKeys, effective);
      if effective != stems[i] {
        renamed := renamed + [(stems[i], effective)];
      }
      unique := unique + [effective];
      assert unique[..i] == unique[..|unique| - 1];
    }
  }

  lemma BaseEither(stem: string, normalized: string)
    requires normalized == Truncated(stem, MAX_TASK_STEM_BYTES)
    ensures StemBase(stem) == if normalized != "" then normalized else stem
  {
  }

  lemma NothingGiven(fold: char -> string, stems: seq<string>)
    ensures AllGiven(fold, stems, [])
    ensures forall key :: !IsUsed(fold, [], key)
    ensures forall key :: Occurrences(fold, stems[..0], key) == 0
  {
  }

  lemma CountSnoc(fold: char -> string, stems: seq<string>, i: nat)
    requires i < |stems|
    ensures forall key {:trigger Occurrences(fold, stems[..i + 1], key)} ::
      Occurrences(fold, stems[..i + 1], key) == Occurrences(fold, stems[..i], key)
        + if BaseKey(fold, stems[i]) == key then 1 else 0
  {
    assert stems[..i + 1][..i] == stems[..i];
  }

  lemma UnionSize(a: set<string>, b: set<string>)
    ensures |a + b| <= |a| + |b|
  {
    assert |a + b| == |a| + |b - a| by {
      assert a + b == a + (b - a);
    }
    Counting.SubsetSize(b - a, b);
  }

  method AddKey(fold: char -> string, ghost unique: seq<string>, assignedKeys: set<string>, stem: string)
    returns (r: set<string>)
    requires forall key :: key in assignedKeys <==> IsUsed(fold, unique, key)
    ensures forall key :: key in r <==> IsUsed(fold, unique + [stem], key)
    ensures |r| <= |assignedKeys| + 1
  {
    hide Key, IsUsed;
    r := assignedKeys + {Key(fold, stem)};
    forall key ensures key in r <==> IsUsed(fold, unique + [stem], key) {
      UsedSnoc(fold, unique, stem, key);
    }
    UnionSize(assignedKeys, {Key(fold, stem)});
  }

  lemma GivenFirst(fold: char -> string, stems: seq<string>, unique: seq<string>)
    requires |unique| < |stems| && Occurrences(fold, stems[..|unique|], BaseKey(fold, stems[|unique|])) == 0
    ensures Given(fold, stems, unique, |unique|, StemBase(stems[|unique|]))
  {
  }

  lemma GivenNumbered(fold: char -> string, stems: seq<string>, unique: seq<string>, taken: set<string>, n: nat)
    requires |unique| < |stems|
    requires forall key {:trigger key in taken} :: key in taken <==> Taken(fold, stems, unique, key)
    requires var seen := Occurrences(fold, stems[..|unique|], BaseKey(fold, stems[|unique|]));
      var base := StemBase(stems[|unique|]);
      && seen > 0 && seen + 1 <= n && Key(fold, Numbered(base, n)) !in taken
      && forall m: nat {:trigger Numbered(base, m)} :: seen + 1 <= m < n ==> Key(fold, Numbered(base, m)) in taken
    ensures Given(fold, stems, unique, |unique|, Numbered(StemBase(stems[|unique|]), n))
  {
    hide Key, StemBase, Occurrences, IsKey, IsUsed, Taken, Numbered;
    var seen := Occurrences(fold, stems[..|unique|], BaseKey(fold, stems[|unique|]));
    assert LeastFree(fold, stems, unique, StemBase(stems[|unique|]), seen + 1, n);
  }

  lemma GivenSnoc(fold: char -> string, stems: seq<string>, unique: seq<string>, stem: string)
    requires AllGiven(fold, stems, unique) && |unique| < |stems| && Given(fold, stems, unique, |unique|, stem)
    ensures AllGiven(fold, stems, unique + [stem])
  {
    hide Given;
    var after := unique + [stem];
    forall i: nat {:trigger after[i]} | i < |after| ensures Given(fold, stems, after[..i], i, after[i]) {
      assert after[..i] == unique[..i];
      if i == |unique| {
        assert unique[..i] == unique;
      }
    }
  }

  // ----------------------------------------------------- what it promises

  lemma {:induction false} OccurrencesCount(fold: char -> string, stems: seq<string>, i: nat, key: string)
    requires i <= |stems|
    ensures Occurrences(fold, stems[..i], key) == |set j: nat | j < i && BaseKey(fold, stems[j]) == key|
  {
    hide BaseKey;
    var found := set j: nat | j < i && BaseKey(fold, stems[j]) == key;
    if i == 0 {
      assert stems[..0] == [] && found == {};
    } else {
      OccurrencesCount(fold, stems, i - 1, key);
      assert stems[..i][..i - 1] == stems[..i - 1] && stems[..i][i - 1] == stems[i - 1];
      var before := set j: nat | j < i - 1 && BaseKey(fold, stems[j]) == key;
      assert found == if BaseKey(fold, stems[i - 1]) == key then before + {i - 1} else before;
    }
  }

  // The documents before document i whose stems differ from its own in case at most.
  ghost function Alike(fold: char -> string, stems: seq<string>, i: nat): set<nat>
    requires i < |stems|
  {
    set j: nat | j < i && Key(fold, StemBase(stems[j])) == Key(fold, StemBase(stems[i]))
  }

  // A document whose key is new keeps its stem; one whose key came k times before, for a k of at
  // least one, gets the first number from k + 1 on that nobody has or comes with.
  lemma NumberedFromCount(fold: char -> string, stems: seq<string>, unique: seq<string>, i: nat)
    requires AllGiven(fold, stems, unique) && i < |unique|
    ensures |unique| <= |stems|
    ensures var base := StemBase(stems[i]);
      var count := |Alike(fold, stems, i)|;
      && (count == 0 ==> unique[i] == base)
      && (count > 0 ==> exists n: nat :: (n >= count + 1 && unique[i] == Numbered(base, n)
            && !Taken(fold, stems, unique[..i], Key(fold, unique[i]))
            && forall m: nat {:trigger Numbered(base, m)} :: count + 1 <= m < n ==>
                 Taken(fold, stems, unique[..i], Key(fold, Numbered(base, m)))))
  {
    hide Key, StemBase, IsKey, IsUsed, AllGiven, Taken, Numbered, Occurrences;
    GivenAt(fold, stems, unique, i);
    OccurrencesCount(fold, stems, i, BaseKey(fold, stems[i]));
    assert Alike(fold, stems, i) == set j: nat | j < i && BaseKey(fold, stems[j]) == BaseKey(fold, stems[i]);
  }

  lemma ShortCandidate(base: string, n: nat)
    requires ByteLength(base) + 21 <= MAX_TASK_STEM_BYTES && n <= 3 * MAX_LENGTH + 2
    ensures Numbered(base, n) == base + "_" + Decimal(n) && StemBase(base) == base
  {
    hide Encode, Truncated;
    TwentyDigits(n);
    AsciiLength(Suffix(n));
    EncodeAppend(base, Suffix(n));
    BaseIsNormalized(base);
    TruncatedFits(base, MAX_TASK_STEM_BYTES);
    assert base + Suffix(n) == base + "_" + Decimal(n);
  }

  // Copies of one short stem come out as the stem, then with _2, _3 and so on.
  lemma {:induction false} CopiesAreCounted(fold: char -> string, base: string, stems: seq<string>,
                                            unique: seq<string>, i: nat)
    requires FoldsNumbers(fold) && ByteLength(base) + 21 <= MAX_TASK_STEM_BYTES && |stems| <= MAX_LENGTH
    requires forall j {:trigger stems[j]} :: 0 <= j < |stems| ==> stems[j] == base
    requires AllGiven(fold, stems, unique) && i < |unique|
    ensures unique[i] == if i == 0 then base else base + "_" + Decimal(i + 1)
    ensures forall j: nat {:trigger unique[j]} :: j < i ==>
      unique[j] == if j == 0 then base else base + "_" + Decimal(j + 1)
  {
    hide Key, StemBase, Numbered, Truncated, Encode, AllGiven, FoldsNumbers, IsKey, IsUsed, Given, Suffix;
    if i > 0 {
      CopiesAreCounted(fold, base, stems, unique, i - 1);
    }
    GivenAt(fold, stems, unique, i);
    ShortCandidate(base, i + 1);
    AllCopies(fold, base, stems, i);
    NumberIsFree(fold, base, stems, unique, i);
    NumberedFromCount(fold, stems, unique, i);
  }

  lemma AllCopies(fold: char -> string, base: string, stems: seq<string>, i: nat)
    requires i < |stems| && forall j {:trigger stems[j]} :: 0 <= j < |stems| ==> stems[j] == base
    ensures |Alike(fold, stems, i)| == i
  {
    hide Key, StemBase;
    assert Alike(fold, stems, i) == Below(i);
  }

  lemma NumberIsFree(fold: char -> string, base: string, stems: seq<string>, unique: seq<string>, i: nat)
    requires FoldsNumbers(fold) && ByteLength(base) + 21 <= MAX_TASK_STEM_BYTES && |stems| <= MAX_LENGTH
    requires forall j {:trigger stems[j]} :: 0 <= j < |stems| ==> stems[j] == base
    requires i < |unique| <= |stems|
    requires forall j: nat {:trigger unique[j]} :: j < i ==>
      unique[j] == if j == 0 then base else base + "_" + Decimal(j + 1)
    ensures !Taken(fold, stems, unique[..i], Key(fold, base + "_" + Decimal(i + 1)))
  {
    hide Encode, Truncated, Key, StemBase, Suffix, FoldsNumbers;
    var key := Key(fold, base + "_" + Decimal(i + 1));
    NumberedKey(fold, base, i + 1);
    ShortCandidate(base, i + 1);
    assert !IsKey(fold, stems, key);
    forall j: nat | j < i ensures key != Key(fold, unique[..i][j]) {
      NumberedKey(fold, base, j + 1);
      if j > 0 && key == Key(fold, unique[j]) {
        NumbersDiffer(Key(fold, base), i + 1, Key(fold, base), j + 1);
      }
    }
  }

  lemma NumberedKey(fold: char -> string, base: string, n: nat)
    requires FoldsNumbers(fold)
    ensures Key(fold, base + "_" + Decimal(n)) == Key(fold, base) + "_" + Decimal(n)
    ensures |Key(fold, base + "_" + Decimal(n))| > |Key(fold, base)|
  {
    hide Key;
    KeyOfNumbered(fold, base, n);
    assert base + Suffix(n) == base + "_" + Decimal(n);
  }

  // No two of the given stems are equal when case is folded.
  lemma StemsAreDistinct(fold: char -> string, stems: seq<string>, unique: seq<string>, i: nat, j: nat)
    requires AllGiven(fold, stems, unique) && i < j < |unique|
    ensures Key(fold, unique[i]) != Key(fold, unique[j])
  {
    hide Key, StemBase, Occurrences, IsKey, AllGiven;
    GivenAt(fold, stems, unique, j);
    if Occurrences(fold, stems[..j], BaseKey(fold, stems[j])) == 0 {
      AllGivenPrefix(fold, stems, unique, j);
      NewKeyIsFree(fold, stems, unique[..j]);
    }
    assert unique[..j][i] == unique[i];
    assert IsUsed(fold, unique[..j], Key(fold, unique[i]));
  }

  lemma GivenAt(fold: char -> string, stems: seq<string>, unique: seq<string>, i: nat)
    requires AllGiven(fold, stems, unique) && i < |unique|
    ensures |unique| <= |stems| && Given(fold, stems, unique[..i], i, unique[i])
  {
  }

  lemma AllGivenPrefix(fold: char -> string, stems: seq<string>, unique: seq<string>, n: nat)
    requires AllGiven(fold, stems, unique) && n <= |unique|
    ensures AllGiven(fold, stems, unique[..n])
  {
    hide Given;
    forall i: nat {:trigger unique[..n][i]} | i < n ensures Given(fold, stems, unique[..n][..i], i, unique[..n][i]) {
      assert unique[..n][..i] == unique[..i] && unique[..n][i] == unique[i];
    }
  }

  // Every given stem fits, and the first stem of each key keeps its normalized form.
  lemma StemsFit(fold: char -> string, stems: seq<string>, unique: seq<string>, i: nat)
    requires AllGiven(fold, stems, unique) && i < |unique|
    ensures ByteLength(unique[i]) <= 200
    ensures !IsKey(fold, stems[..i], BaseKey(fold, stems[i])) ==>
      unique[i] == NormalizeTaskStem(stems[i])
  {
    hide Key, StemBase, Encode, Occurrences, IsKey, IsUsed, NormalizeTaskStem, BuildTaskStemCandidate, AllGiven;
    hide LeastFree;
    GivenAt(fold, stems, unique, i);
    var key := BaseKey(fold, stems[i]);
    BaseIsNormalized(stems[i]);
    OccurrencesPositive(fold, stems[..i], key);
    if Occurrences(fold, stems[..i], key) > 0 {
      var n: nat :| LeastFree(fold, stems, unique[..i], StemBase(stems[i]), Occurrences(fold, stems[..i], key) + 1, n)
                    && unique[i] == Numbered(StemBase(stems[i]), n);
      CandidateFits(StemBase(stems[i]), Suffix(n), MAX_TASK_STEM_BYTES);
    }
  }

  // A stem of at most 200 bytes is left alone where its key comes first.
  lemma ShortFirstStays(fold: char -> string, stems: seq<string>, unique: seq<string>, i: nat)
    requires AllGiven(fold, stems, unique) && i < |unique|
    ensures |unique| <= |stems|
    ensures !IsKey(fold, stems[..i], BaseKey(fold, stems[i])) && ByteLength(stems[i]) <= 200 ==> unique[i] == stems[i]
  {
    hide AllGiven, IsKey, BaseKey, Truncated, Encode;
    GivenAt(fold, stems, unique, i);
    StemsFit(fold, stems, unique, i);
    TruncatedFits(stems[i], MAX_TASK_STEM_BYTES);
  }

  // There is only one list of stems that can be given.
  lemma {:induction false} OnlyOneAnswer(fold: char -> string, stems: seq<string>, u: seq<string>, v: seq<string>)
    requires AllGiven(fold, stems, u) && AllGiven(fold, stems, v) && |u| == |v|
    ensures u == v
  {
    hide AllGiven, Given;
    if u != [] {
      var last := |u| - 1;
      AllGivenPrefix(fold, stems, u, last);
      AllGivenPrefix(fold, stems, v, last);
      OnlyOneAnswer(fold, stems, u[..last], v[..last]);
      GivenAt(fold, stems, u, last);
      GivenAt(fold, stems, v, last);
      OneGiven(fold, stems, u[..last], last, u[last], v[last]);
      assert u == u[..last] + [u[last]] && v == v[..last] + [v[last]];
    }
  }

  lemma OneGiven(fold: char -> string, stems: seq<string>, earlier: seq<string>, i: nat, a: string, b: string)
    requires i < |stems| && Given(fold, stems, earlier, i, a) && Given(fold, stems, earlier, i, b)
    ensures a == b
  {
    hide Key, StemBase, Occurrences, Taken, Numbered;
    var base := StemBase(stems[i]);
    var seen := Occurrences(fold, stems[..i], BaseKey(fold, stems[i]));
    if seen > 0 {
      var m: nat :| LeastFree(fold, stems, earlier, base, seen + 1, m) && a == Numbered(base, m);
      var n: nat :| LeastFree(fold, stems, earlier, base, seen + 1, n) && b == Numbered(base, n);
    }
  }

  // Stems that fit and differ when folded are left alone.
  lemma DistinctStemsStay(fold: char -> string, stems: seq<string>)
    requires forall i: nat {:trigger stems[i]} :: i < |stems| ==> ByteLength(stems[i]) <= MAX_TASK_STEM_BYTES
    requires forall i: nat, j: nat {:trigger stems[i], stems[j]} ::
      i < j < |stems| ==> Key(fold, stems[i]) != Key(fold, stems[j])
    ensures AllGiven(fold, stems, stems)
  {
    hide Key, Encode, Occurrences;
    forall i: nat {:trigger stems[i]} | i < |stems| ensures Given(fold, stems, stems[..i], i, stems[i]) {
      var key := BaseKey(fold, stems[i]);
      FitsIsBase(stems[i]);
      OccurrencesPositive(fold, stems[..i], key);
      if IsKey(fold, stems[..i], key) {
        var j: nat :| j < i && key == BaseKey(fold, stems[..i][j]);
        assert stems[..i][j] == stems[j];
        FitsIsBase(stems[j]);
      }
    }
  }

  lemma FitsIsBase(stem: string)
    requires ByteLength(stem) <= MAX_TASK_STEM_BYTES
    ensures StemBase(stem) == stem
  {
    BaseIsNormalized(stem);
    TruncatedFits(stem, MAX_TASK_STEM_BYTES);
  }

  // Running the renaming on its own result changes nothing.
  lemma RenamingIsIdempotent(fold: char -> string, stems: seq<string>, u: seq<string>, v: seq<string>)
    requires AllGiven(fold, stems, u) && |u| == |stems|
    requires AllGiven(fold, u, v) && |v| == |u|
    ensures v == u
  {
    hide AllGiven, Key, Encode;
    forall i: nat {:trigger u[i]} | i < |u| ensures ByteLength(u[i]) <= MAX_TASK_STEM_BYTES {
      StemsFit(fold, stems, u, i);
    }
    forall i: nat, j: nat {:trigger u[i], u[j]} | i < j < |u| ensures Key(fold, u[i]) != Key(fold, u[j]) {
      StemsAreDistinct(fold, stems, u, i, j);
    }
    DistinctStemsStay(fold, u);
    OnlyOneAnswer(fold, u, u, v);
  }
}
