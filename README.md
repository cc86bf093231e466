# fast-pass password generator, modelled in Dafny

This project models `generate` from `src/fast_password/core.py` of the
fast-pass password generator. `generate(length, upper, nums, special, exclude)`
does the following:

- It rejects a negative length.
- It builds a character list: ASCII lowercase, then uppercase, digits and
  punctuation for the flags that are set. For each enabled optional class it
  also raises an oversampling `multiplier` by one.
- When `exclude` is non-empty, it deduplicates it. It rejects the call if
  there are at least as many distinct excluded characters as characters in the
  unfiltered list. Otherwise it removes the excluded characters and keeps the
  order of the rest.
- It draws `length * multiplier` characters with replacement
  (`SystemRandom.choice`), then `length` of those without replacement
  (`SystemRandom.sample`).

Files:

- `ascii_classes.dfy` (module `AsciiClasses`): the four classes of Python's
  `string` module as ASCII literals. Proves each is ascending, that the letter
  and digit classes are exactly their ranges, and that punctuation holds no
  letter or digit.
- `draws.dfy` (module `Draws`): `choice` and `sample`. Their random outcome is
  an oracle: a sequence of indices the caller supplies. `ChoicesFit` admits
  every outcome of `n` draws with replacement. `SampleFits` admits every
  outcome of a draw without replacement, meaning pairwise distinct positions.
- `generator.dfy` (module `Generator`): the specification functions
  (`CharList`, `Multiplier`, `Filtered`, `Pool`, `Password`) and the
  imperative generator (`BuildCharList`, `FilterChars`, `Generate`). Each
  method is proved equal to its specification function. The lemmas cover the
  errors, the pool and the output.

The two `ValueError`s are the `Error` values `InvalidLength` and
`PoolExhausted`. `Message` gives their texts. `Generate` returns them in a
`Result` instead of raising.

`Generate` takes the oracle as the parameters `draws` and `picks`. It requires
them to fit (`OracleFits`) only for a call that gets past validation. Lemma
`OracleExists` shows that such a call always has an admissible outcome. So
the requirement never excludes a call that the source accepts. Every property
of the output is proved for every admissible outcome.

The check on the size of `exclude` is kept as the source writes it. It
compares the number of distinct excluded characters with the size of the
list BEFORE filtering. Excluded characters that are not in the list count
too. `ForeignExclusionsCount` shows a call that is rejected although
filtering would leave 26 characters.

## Model

| member | source | states |
|---|---|---|
| `Generator.Generate` | src/fast_password/core.py:6-36 | Equals `Password` for the given random outcome. A negative length, and only that, gives `InvalidLength`. A success has exactly `length` characters, each from an enabled class and none in `exclude`. |
| `Generator.BuildCharList` | src/fast_password/core.py:13-23 | The list is lowercase, then uppercase, digits and punctuation for the set flags, in that order. Its length is 26 + 26·upper + 10·nums + 32·special and it has no duplicates. The multiplier is 1 plus the number of set flags. |
| `Generator.FilterChars` | src/fast_password/core.py:28-32 | The loop yields `Filtered(charlist, excluded)`. A character is kept exactly when it is in the list and not excluded. |
| `Generator.CharListShape` | src/fast_password/core.py:14-23 | The unfiltered list has length 26 + 26·upper + 10·nums + 32·special and no character occurs twice in it. |
| `Generator.FilteredMembership` | src/fast_password/core.py:28-32 | A character is in the filtered list if and only if it is in the list and not excluded. |
| `Generator.FilteredIsSubsequence` | src/fast_password/core.py:28-32 | The filtered list is a subsequence of the list: characters are only deleted and the rest keep their order. |
| `Generator.FilteredConcat` | src/fast_password/core.py:29-31 | Filtering a concatenation is the concatenation of the filtered parts, so the relative order is preserved. |
| `Generator.FilteredNothingExcluded` | src/fast_password/core.py:29-31 | If no character of the list is excluded, the filter returns the list unchanged. |
| `Generator.DistinctElems` | src/fast_password/core.py:25-26 | A duplicate-free string has as many distinct characters as its length. For example, `set(ascii_lowercase)` has 26 elements. |
| `Generator.FilteredSize` | src/fast_password/core.py:26-32 | On a duplicate-free list, the filtered length plus the number of excluded characters that occur in the list equals the list length. |
| `Generator.PoolNonEmpty` | src/fast_password/core.py:24-34 | When the exclusion check passes, the pool is the filtered list. This also holds for an empty `exclude`, where the list is untouched. The pool has at least list size minus distinct excluded count characters, so it is non-empty when `choice` is called. |
| `Generator.PoolExhaustedIff` | src/fast_password/core.py:24-27 | `PoolExhausted` occurs if and only if the number of distinct excluded characters is at least the unfiltered list size. |
| `Generator.ForeignExclusionsCount` | src/fast_password/core.py:25-27 | Excluding the 26 uppercase letters with no flags is rejected, although filtering would leave all 26 lowercase letters. |
| `Generator.OracleExists` | src/fast_password/core.py:34-36 | Every call that passes validation has an admissible random outcome. `choice` never draws from an empty pool. `sample` never asks for more than the `length * multiplier` drawn characters. |
| `Generator.PasswordErrors` | src/fast_password/core.py:9-27 | `InvalidLength` occurs if and only if `length < 0`. `PoolExhausted` occurs if and only if `length >= 0` and the exclusion check fails, for any length including 0. |
| `Generator.ZeroLength` | tests/test_core.py:8-13 | Length 0 gives the empty password whenever the exclusion check passes. |
| `Generator.PasswordInClasses` | src/fast_password/core.py:34-36 | A successful password has exactly `length` characters. Each is in the enabled classes and not in `exclude`. |
| `Generator.PasswordFromDraws` | src/fast_password/core.py:34-36 | The password is a sub-multiset of the oversampled characters: sampling is without replacement. |
| `Generator.OnlyLowercase` | tests/test_core.py:16-20 | With no flags and no exclusion, the call succeeds and every character is a lowercase letter. |
| `Generator.ExcludeFirstFour` | tests/test_core.py:45-49 | Excluding `abcd` with no flags succeeds, and every character is one of `e` to `z`. |
| `Generator.ExcludeAllLowercase` | tests/test_core.py:61-65 | Excluding all lowercase letters with every flag set succeeds, and no character is lowercase. |
| `Generator.RejectAllLowercase` | tests/test_core.py:74-77 | Excluding all lowercase letters with no flags gives `PoolExhausted`, for every non-negative length. |
| `Draws.Choices` | src/fast_password/core.py:34 | `length * multiplier` draws with replacement give as many characters, each taken from the pool. |
| `Draws.Sample` | src/fast_password/core.py:36 | A sample of `k` distinct positions has `k` characters, each from the population. |
| `Draws.SampleExists` | src/fast_password/core.py:36 | A sample of `k` positions exists whenever `k` does not exceed the population size. |
| `Draws.SampleIsSubMultiset` | src/fast_password/core.py:36 | No character occurs in a sample more often than in the population. |
| `AsciiClasses.ClassesAscending` | src/fast_password/core.py:2 | Each of `ascii_lowercase`, `ascii_uppercase`, `digits` and `punctuation` is in strictly ascending order, so none repeats a character. |
| `AsciiClasses.ClassesAreRanges` | src/fast_password/core.py:2 | The classes have 26, 26, 10 and 32 characters. The letter and digit classes are exactly the ranges `a`-`z`, `A`-`Z` and `0`-`9`, in order. |
| `AsciiClasses.ClassMembership` | src/fast_password/core.py:2 | Membership in each letter or digit class is exactly its range test. |
| `AsciiClasses.ClassesInRange` | src/fast_password/core.py:2 | The classes are pairwise disjoint, and punctuation contains no letter or digit. |

## Left out

- The command-line front end `src/fast_pass/cli.py` is not part of this model. That covers option parsing, auto mode with its random choices and its float factor 0.3, printing, and the abort on error.
- Randomness is not modelled. The outcomes of `choice` and `sample` are oracle parameters. Uniformity and cryptographic strength are not stated. The probabilistic tests ("contains at least one uppercase letter in 1000 characters", "two calls differ") cannot be stated for a fixed outcome.
- The string order that `''.join(set(...))` gives the deduplicated `exclude` is not modelled. It depends on Python's string hashing, and only membership is used afterwards, so `exclude` becomes a set.
- The tests' Unicode predicates `islower`, `isupper`, `isdigit` and `isalnum` are replaced by the ASCII range tests. All generated characters are ASCII, and on ASCII the two agree.
- The demonstration call under `if __name__ == '__main__'` is not modelled.
- Exceptions become `Result` values, and the error texts are kept in `Message`. The model does not distinguish `ValueError` from other exception types.
