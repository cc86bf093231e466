/** `generate` of `fast_password/core.py`: build the character list from the
    enabled classes, validate and apply the exclusion string, then draw
    `length * multiplier` characters with replacement and sample `length` of
    them without replacement. The random outcomes are the oracle index
    sequences of module Draws. */
module Generator {
  import opened AsciiClasses
  import opened Draws

  /** The two `ValueError`s `generate` raises. */
  datatype Error = InvalidLength | PoolExhausted

  function Message(e: Error): string {
    match e
    case InvalidLength => "Length must be non-negative"
    case PoolExhausted => "Excluded chars surpasses valid charlist"
  }

  datatype Result<T> = Ok(value: T) | Err(error: Error)

  function Count(b: bool): nat {
    if b then 1 else 0
  }

  // ---------------------------------------------------------------------------
  // Specification functions

  /** The character list before exclusion: lowercase, then uppercase, digits and
      punctuation for the flags that are set, in that order. */
  function CharList(upper: bool, nums: bool, special: bool): string {
    Lowercase
      + (if upper then Uppercase else "")
      + (if nums then Digits else "")
      + (if special then Punctuation else "")
  }

  /** The oversampling factor: one plus the number of optional classes. */
  function Multiplier(upper: bool, nums: bool, special: bool): nat {
    1 + Count(upper) + Count(nums) + Count(special)
  }

  /** The distinct characters of `s`: what `set([*exclude])` keeps. */
  function Elems(s: string): set<char> {
    set c | c in s
  }

  /** The characters of `s` that are not in `excluded`, in their original order. */
  function Filtered(s: string, excluded: set<char>): string {
    if s == [] then []
    else
      Filtered(s[..|s| - 1], excluded)
        + (if s[|s| - 1] in excluded then [] else [s[|s| - 1]])
  }

  /** The pool `choice` draws from, or the exclusion error. The size check
      counts every distinct excluded character, also those not in the list. */
  function Pool(upper: bool, nums: bool, special: bool, exclude: string): Result<string> {
    var charlist := CharList(upper, nums, special);
    if |exclude| == 0 then Ok(charlist)
    else if |Elems(exclude)| >= |charlist| then Err(PoolExhausted)
    else Ok(Filtered(charlist, Elems(exclude)))
  }

  /** The oracle is a possible outcome of the two random draws of a call that
      gets past validation. It constrains nothing for a call that fails. */
  predicate OracleFits(length: int, upper: bool, nums: bool, special: bool, exclude: string,
                       draws: seq<nat>, picks: seq<nat>)
  {
    length >= 0 && Pool(upper, nums, special, exclude).Ok? ==>
      var n := length * Multiplier(upper, nums, special);
      && ChoicesFit(draws, n, |Pool(upper, nums, special, exclude).value|)
      && SampleFits(picks, length, n)
  }

  /** What `generate` returns (or raises) for the given random outcomes. */
  function Password(length: int, upper: bool, nums: bool, special: bool, exclude: string,
                    draws: seq<nat>, picks: seq<nat>): Result<string>
    requires OracleFits(length, upper, nums, special, exclude, draws, picks)
  {
    if length < 0 then Err(InvalidLength)
    else
      match Pool(upper, nums, special, exclude)
      case Err(e) => Err(e)
      case Ok(pool) => Ok(Sample(Choices(pool, draws), picks))
  }

  // ---------------------------------------------------------------------------
  // The generator, step by step

  /** Lines 13-23: the character list and the multiplier, extended one enabled
      class at a time. */
  method BuildCharList(upper: bool, nums: bool, special: bool) returns (charlist: string, multiplier: nat)
    ensures charlist == CharList(upper, nums, special)
    ensures multiplier == Multiplier(upper, nums, special)
    ensures |charlist| == 26 + 26 * Count(upper) + 10 * Count(nums) + 32 * Count(special)
    ensures NoDuplicates(charlist)
  {
    multiplier := 1;
    charlist := Lowercase;
    if upper {
      multiplier := multiplier + 1;
      charlist := charlist + Uppercase;
    }
    if nums {
      multiplier := multiplier + 1;
      charlist := charlist + Digits;
    }
    if special {
      multiplier := multiplier + 1;
      charlist := charlist + Punctuation;
    }
    CharListShape(upper, nums, special);
  }

  /** Lines 28-32: keep the characters that are not excluded, in order. */
  method FilterChars(charlist: string, excluded: set<char>) returns (cleaned: string)
    ensures cleaned == Filtered(charlist, excluded)
    ensures forall c :: c in cleaned <==> c in charlist && c !in excluded
  {
    cleaned := [];
    for i := 0 to |charlist|
      invariant cleaned == Filtered(charlist[..i], excluded)
    {
      assert charlist[..i + 1][..i] == charlist[..i];
      var c := charlist[i];
      if c !in excluded {
        cleaned := cleaned + [c];
      }
    }
    assert charlist[..|charlist|] == charlist;
    FilteredMembership(charlist, excluded);
  }

  /** `generate(length, upper, nums, special, exclude)` with the random outcomes
      `draws` (for `choice`) and `picks` (for `sample`). */
  method Generate(length: int, upper: bool, nums: bool, special: bool, exclude: string,
                  draws: seq<nat>, picks: seq<nat>) returns (r: Result<string>)
    requires OracleFits(length, upper, nums, special, exclude, draws, picks)
    ensures r == Password(length, upper, nums, special, exclude, draws, picks)
    ensures length < 0 <==> r == Err(InvalidLength)
    ensures r.Ok? ==> |r.value| == length
    ensures r.Ok? ==> forall c :: c in r.value ==> c in CharList(upper, nums, special) && c !in exclude
  {
    if length < 0 {
      return Err(InvalidLength);
    }
    var charlist, multiplier := BuildCharList(upper, nums, special);
    if |exclude| > 0 {
      var excluded := Elems(exclude);
      if |excluded| >= |charlist| {
        return Err(PoolExhausted);
      }
      charlist := FilterChars(charlist, excluded);
    }
    var randChars := Choices(charlist, draws);
    r := Ok(Sample(randChars, picks));
    PasswordInClasses(length, upper, nums, special, exclude, draws, picks);
  }

  // ---------------------------------------------------------------------------
  // Properties

  /** The unfiltered list has the expected length and no character twice,
      because each class is ascending and the classes are disjoint. */
  lemma CharListShape(upper: bool, nums: bool, special: bool)
    ensures |CharList(upper, nums, special)| == 26 + 26 * Count(upper) + 10 * Count(nums) + 32 * Count(special)
    ensures NoDuplicates(CharList(upper, nums, special))
  {
    ClassesAreRanges();
    ClassesInRange();
    ClassesAscending();
    AscendingHasNoDuplicates(Lowercase);
    AscendingHasNoDuplicates(Uppercase);
    AscendingHasNoDuplicates(Digits);
    AscendingHasNoDuplicates(Punctuation);
    var u: string := if upper then Uppercase else "";
    var d: string := if nums then Digits else "";
    var p: string := if special then Punctuation else "";
    // every character of the list so far is a letter or a digit
    NoDuplicatesConcat(Lowercase, u);
    var lu := Lowercase + u;
    assert forall i :: 0 <= i < |lu| ==> IsLower(lu[i]) || IsUpper(lu[i]) by {
      forall i | 0 <= i < |lu| ensures IsLower(lu[i]) || IsUpper(lu[i]) {
        if i >= |Lowercase| {
          assert lu[i] == u[i - |Lowercase|];
        }
      }
    }
    NoDuplicatesConcat(lu, d);
    var lud := lu + d;
    assert forall i :: 0 <= i < |lud| ==> IsLower(lud[i]) || IsUpper(lud[i]) || IsDigit(lud[i]) by {
      forall i | 0 <= i < |lud| ensures IsLower(lud[i]) || IsUpper(lud[i]) || IsDigit(lud[i]) {
        if i >= |lu| {
          assert lud[i] == d[i - |lu|];
        } else {
          assert lud[i] == lu[i];
        }
      }
    }
    NoDuplicatesConcat(lud, p);
  }

  /** A character survives the filter exactly when it is in the list and not
      excluded. */
  lemma {:induction false} FilteredMembership(s: string, excluded: set<char>)
    ensures forall c :: c in Filtered(s, excluded) <==> c in s && c !in excluded
  {
    if s != [] {
      var init := s[..|s| - 1];
      FilteredMembership(init, excluded);
      assert s == init + [s[|s| - 1]];
    }
  }

  lemma PasswordInClasses(length: int, upper: bool, nums: bool, special: bool, exclude: string,
                          draws: seq<nat>, picks: seq<nat>)
    requires OracleFits(length, upper, nums, special, exclude, draws, picks)
    ensures var r := Password(length, upper, nums, special, exclude, draws, picks);
      r.Ok? ==> |r.value| == length && forall c :: c in r.value ==> c in CharList(upper, nums, special) && c !in exclude
  {
    var charlist := CharList(upper, nums, special);
    if |exclude| > 0 {
      FilteredMembership(charlist, Elems(exclude));
    }
  }

  /** `a` is obtained from `b` by deleting characters, keeping the order of
      the rest. */
  predicate IsSubsequence(a: string, b: string)
    decreases |b|
  {
    if a == [] then true
    else if b == [] then false
    else
      || (a[|a| - 1] == b[|b| - 1] && IsSubsequence(a[..|a| - 1], b[..|b| - 1]))
      || IsSubsequence(a, b[..|b| - 1])
  }

  /** Filtering deletes characters and keeps the relative order of the rest. */
  lemma {:induction false} FilteredIsSubsequence(s: string, excluded: set<char>)
    ensures IsSubsequence(Filtered(s, excluded), s)
  {
    if s != [] {
      var init := s[..|s| - 1];
      FilteredIsSubsequence(init, excluded);
      var f := Filtered(s, excluded);
      if s[|s| - 1] !in excluded {
        assert f[..|f| - 1] == Filtered(init, excluded);
      } else {
        assert f == Filtered(init, excluded);
        assert f != [] ==> IsSubsequence(f, s[..|s| - 1]);
      }
    }
  }

  /** Filtering a concatenation filters each part: the order of the kept
      characters never changes. */
  lemma {:induction false} FilteredConcat(a: string, b: string, excluded: set<char>)
    ensures Filtered(a + b, excluded) == Filtered(a, excluded) + Filtered(b, excluded)
  {
    if b != [] {
      var init := b[..|b| - 1];
      FilteredConcat(a, init, excluded);
      assert (a + b)[..|a + b| - 1] == a + init;
    } else {
      assert a + b == a;
    }
  }

  /** When nothing in `s` is excluded, filtering changes nothing. */
  lemma {:induction false} FilteredNothingExcluded(s: string, excluded: set<char>)
    requires forall i :: 0 <= i < |s| ==> s[i] !in excluded
    ensures Filtered(s, excluded) == s
  {
    if s != [] {
      var init := s[..|s| - 1];
      FilteredNothingExcluded(init, excluded);
      assert s == init + [s[|s| - 1]];
    }
  }

  /** A duplicate-free string has as many distinct characters as it is long. */
  lemma {:induction false} DistinctElems(s: string)
    requires NoDuplicates(s)
    ensures |Elems(s)| == |s|
  {
    if s != [] {
      var init := s[..|s| - 1];
      assert NoDuplicates(init);
      DistinctElems(init);
      assert Elems(s) == Elems(init) + {s[|s| - 1]};
      assert s[|s| - 1] !in Elems(init);
    }
  }

  /** On a duplicate-free list, the filter removes exactly one position per
      excluded character that occurs in the list. */
  lemma {:induction false} FilteredSize(s: string, excluded: set<char>)
    requires NoDuplicates(s)
    ensures |Filtered(s, excluded)| + |Elems(s) * excluded| == |s|
  {
    if s != [] {
      var init := s[..|s| - 1];
      var last := s[|s| - 1];
      assert NoDuplicates(init);
      FilteredSize(init, excluded);
      assert Elems(s) == Elems(init) + {last};
      assert last !in Elems(init);
      if last in excluded {
        assert Elems(s) * excluded == (Elems(init) * excluded) + {last};
      } else {
        assert Elems(s) * excluded == Elems(init) * excluded;
      }
    }
  }

  lemma SubsetSize(a: set<char>, b: set<char>)
    requires a <= b
    ensures |a| <= |b|
  {
    assert b == a + (b - a);
  }

  /** Whenever the exclusion check passes, the pool keeps every listed
      character that is not excluded, and at least as many characters as the
      list has beyond the number of distinct excluded characters; in
      particular it is never empty, so `choice` always has something to draw. */
  lemma PoolNonEmpty(upper: bool, nums: bool, special: bool, exclude: string)
    requires Pool(upper, nums, special, exclude).Ok?
    ensures var pool := Pool(upper, nums, special, exclude).value;
      && pool == Filtered(CharList(upper, nums, special), Elems(exclude))
      && |pool| >= |CharList(upper, nums, special)| - |Elems(exclude)|
      && |pool| > 0
  {
    var charlist := CharList(upper, nums, special);
    var excluded := Elems(exclude);
    CharListShape(upper, nums, special);
    FilteredSize(charlist, excluded);
    SubsetSize(Elems(charlist) * excluded, excluded);
    if |exclude| == 0 {
      FilteredNothingExcluded(charlist, excluded);
    }
  }

  /** The exclusion check fails exactly when there are at least as many
      distinct excluded characters as listed characters, counted before
      filtering. */
  lemma PoolExhaustedIff(upper: bool, nums: bool, special: bool, exclude: string)
    ensures Pool(upper, nums, special, exclude) == Err(PoolExhausted)
        <==> |Elems(exclude)| >= |CharList(upper, nums, special)|
  {
  }

  /** The check counts excluded characters that are not in the list: excluding
      the 26 uppercase letters with no optional class fails, although filtering
      would leave all 26 lowercase letters. */
  lemma ForeignExclusionsCount()
    ensures Pool(false, false, false, Uppercase) == Err(PoolExhausted)
    ensures Filtered(CharList(false, false, false), Elems(Uppercase)) == Lowercase
  {
    ClassesAscending();
    AscendingHasNoDuplicates(Uppercase);
    DistinctElems(Uppercase);
    assert CharList(false, false, false) == Lowercase;
    forall i | 0 <= i < |Lowercase| ensures Lowercase[i] !in Elems(Uppercase) {
      ClassesInRange();
      ClassMembership(Lowercase[i]);
    }
    FilteredNothingExcluded(Lowercase, Elems(Uppercase));
  }

  /** For every call that gets past validation some random outcome exists:
      `choice` is never asked to draw from an empty pool and `sample` never
      asks for more elements than were drawn. */
  lemma OracleExists(length: int, upper: bool, nums: bool, special: bool, exclude: string)
    requires length >= 0 && Pool(upper, nums, special, exclude).Ok?
    ensures var n := length * Multiplier(upper, nums, special);
      OracleFits(length, upper, nums, special, exclude, seq(n, i => 0), seq(length, i => i))
  {
    PoolNonEmpty(upper, nums, special, exclude);
    var n := length * Multiplier(upper, nums, special);
    assert length <= n;
    SampleExists(length, n);
  }

  /** `generate` raises its two errors exactly in these cases; the exclusion
      error does not depend on `length`, so it is raised for `length == 0` too. */
  lemma PasswordErrors(length: int, upper: bool, nums: bool, special: bool, exclude: string,
                       draws: seq<nat>, picks: seq<nat>)
    requires OracleFits(length, upper, nums, special, exclude, draws, picks)
    ensures Password(length, upper, nums, special, exclude, draws, picks) == Err(InvalidLength)
        <==> length < 0
    ensures Password(length, upper, nums, special, exclude, draws, picks) == Err(PoolExhausted)
        <==> length >= 0 && |Elems(exclude)| >= |CharList(upper, nums, special)|
  {
  }

  /** Length zero gives the empty password whenever the exclusion check passes. */
  lemma ZeroLength(upper: bool, nums: bool, special: bool, exclude: string,
                   draws: seq<nat>, picks: seq<nat>)
    requires OracleFits(0, upper, nums, special, exclude, draws, picks)
    requires |Elems(exclude)| < |CharList(upper, nums, special)|
    ensures Password(0, upper, nums, special, exclude, draws, picks) == Ok("")
  {
  }

  /** The final sample never repeats a drawn character more often than it was
      drawn. */
  lemma PasswordFromDraws(length: int, upper: bool, nums: bool, special: bool, exclude: string,
                          draws: seq<nat>, picks: seq<nat>)
    requires OracleFits(length, upper, nums, special, exclude, draws, picks)
    requires Password(length, upper, nums, special, exclude, draws, picks).Ok?
    ensures var pool := Pool(upper, nums, special, exclude).value;
      multiset(Password(length, upper, nums, special, exclude, draws, picks).value)
        <= multiset(Choices(pool, draws))
  {
    var pool := Pool(upper, nums, special, exclude).value;
    SampleIsSubMultiset(Choices(pool, draws), picks);
  }

  /** With no optional class and no exclusion, every character is a lowercase
      letter. */
  lemma OnlyLowercase(length: nat, draws: seq<nat>, picks: seq<nat>)
    requires OracleFits(length, false, false, false, "", draws, picks)
    ensures var r := Password(length, false, false, false, "", draws, picks);
      r.Ok? && |r.value| == length && forall c :: c in r.value ==> IsLower(c)
  {
    PasswordInClasses(length, false, false, false, "", draws, picks);
    assert CharList(false, false, false) == Lowercase;
    forall c | c in Lowercase ensures IsLower(c) {
      ClassMembership(c);
    }
  }

  /** Excluding all lowercase letters with every optional class enabled
      succeeds and yields no lowercase letter. */
  lemma ExcludeAllLowercase(length: nat, draws: seq<nat>, picks: seq<nat>)
    requires OracleFits(length, true, true, true, Lowercase, draws, picks)
    ensures var r := Password(length, true, true, true, Lowercase, draws, picks);
      r.Ok? && |r.value| == length && forall c :: c in r.value ==> !IsLower(c)
  {
    ClassesAscending();
    AscendingHasNoDuplicates(Lowercase);
    DistinctElems(Lowercase);
    CharListShape(true, true, true);
    PasswordInClasses(length, true, true, true, Lowercase, draws, picks);
    forall c | IsLower(c) ensures c in Lowercase {
      ClassMembership(c);
    }
  }

  /** Excluding all lowercase letters with no optional class fails, for every
      length including zero. */
  lemma RejectAllLowercase(length: nat, draws: seq<nat>, picks: seq<nat>)
    requires OracleFits(length, false, false, false, Lowercase, draws, picks)
    ensures Password(length, false, false, false, Lowercase, draws, picks) == Err(PoolExhausted)
  {
    ClassesAscending();
    AscendingHasNoDuplicates(Lowercase);
    DistinctElems(Lowercase);
    assert CharList(false, false, false) == Lowercase;
  }

  /** Excluding the first four lowercase letters leaves only the other 22. */
  lemma ExcludeFirstFour(length: nat, draws: seq<nat>, picks: seq<nat>)
    requires OracleFits(length, false, false, false, Lowercase[..4], draws, picks)
    ensures var r := Password(length, false, false, false, Lowercase[..4], draws, picks);
      r.Ok? && |r.value| == length && forall c :: c in r.value ==> c in Lowercase[4..]
  {
    ClassesAreRanges();
    ClassesAscending();
    AscendingHasNoDuplicates(Lowercase[..4]);
    DistinctElems(Lowercase[..4]);
    assert CharList(false, false, false) == Lowercase;
    PasswordInClasses(length, false, false, false, Lowercase[..4], draws, picks);
    forall c | c in Lowercase && c !in Lowercase[..4] ensures c in Lowercase[4..] {
      var k :| 0 <= k < 26 && Lowercase[k] == c;
      assert Lowercase[4..][k - 4] == c;
    }
  }
}
