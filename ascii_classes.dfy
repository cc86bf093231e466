/** The four ASCII character classes of Python's `string` module that the
    generator draws from, written out as literals, with the facts about them
    that the generator relies on: each class is in ascending order (so it has no
    repeated character) and the classes are pairwise disjoint. */
module AsciiClasses {

  /** `string.ascii_lowercase` */
  const Lowercase: string := "abcdefghijklmnopqrstuvwxyz"
  /** `string.ascii_uppercase` */
  const Uppercase: string := "ABCDEFGHIJKLMNOPQRSTUVWXYZ"
  /** `string.digits` */
  const Digits: string := "0123456789"
  /** `string.punctuation`: the 32 printable ASCII characters that are neither
      letters, digits nor space. */
  const Punctuation: string := "!\"#$%&'()*+,-./:;<=>?@[\\]^_`{|}~"

  predicate IsLower(c: char) { 'a' <= c <= 'z' }
  predicate IsUpper(c: char) { 'A' <= c <= 'Z' }
  predicate IsDigit(c: char) { '0' <= c <= '9' }

  /** No character occurs twice in `s`. */
  predicate NoDuplicates(s: string) {
    forall i, j :: 0 <= i < j < |s| ==> s[i] != s[j]
  }

  /** Every character of `s` is strictly smaller than the next one. */
  predicate Ascending(s: string) {
    forall i :: 0 <= i < |s| - 1 ==> s[i] < s[i + 1]
  }

  lemma {:induction false} AscendingHasNoDuplicates(s: string)
    requires Ascending(s)
    ensures forall i, j :: 0 <= i < j < |s| ==> s[i] < s[j]
    ensures NoDuplicates(s)
  {
    if |s| > 1 {
      var t := s[1..];
      assert Ascending(t) by {
        forall i | 0 <= i < |t| - 1 ensures t[i] < t[i + 1] {
          assert t[i] == s[i + 1] && t[i + 1] == s[i + 2];
        }
      }
      AscendingHasNoDuplicates(t);
      forall i, j | 0 <= i < j < |s| ensures s[i] < s[j] {
        if i == 0 {
          if j > 1 {
            assert t[0] < t[j - 1];
          }
        } else {
          assert t[i - 1] < t[j - 1];
        }
      }
    }
  }

  lemma ClassesAscending()
    ensures Ascending(Lowercase) && Ascending(Uppercase)
    ensures Ascending(Digits) && Ascending(Punctuation)
  {
  }

  /** The letter and digit classes are the full ranges, in order. */
  lemma ClassesAreRanges()
    ensures |Lowercase| == 26 && |Uppercase| == 26 && |Digits| == 10 && |Punctuation| == 32
    ensures forall i :: 0 <= i < 26 ==> Lowercase[i] as int == 'a' as int + i
    ensures forall i :: 0 <= i < 26 ==> Uppercase[i] as int == 'A' as int + i
    ensures forall i :: 0 <= i < 10 ==> Digits[i] as int == '0' as int + i
  {
  }

  /** Membership in each letter or digit class is exactly its range predicate. */
  lemma ClassMembership(c: char)
    ensures c in Lowercase <==> IsLower(c)
    ensures c in Uppercase <==> IsUpper(c)
    ensures c in Digits <==> IsDigit(c)
  {
    ClassesAreRanges();
    if IsLower(c) {
      assert Lowercase[c as int - 'a' as int] == c;
    }
    if IsUpper(c) {
      assert Uppercase[c as int - 'A' as int] == c;
    }
    if IsDigit(c) {
      assert Digits[c as int - '0' as int] == c;
    }
  }

  lemma ClassesInRange()
    ensures forall i :: 0 <= i < |Lowercase| ==> IsLower(Lowercase[i])
    ensures forall i :: 0 <= i < |Uppercase| ==> IsUpper(Uppercase[i])
    ensures forall i :: 0 <= i < |Digits| ==> IsDigit(Digits[i])
    ensures forall i :: 0 <= i < |Punctuation| ==> !IsLower(Punctuation[i]) && !IsUpper(Punctuation[i]) && !IsDigit(Punctuation[i])
  {
  }

  /** Joining two duplicate-free strings with no character in common gives a
      duplicate-free string. */
  lemma NoDuplicatesConcat(a: string, b: string)
    requires NoDuplicates(a) && NoDuplicates(b)
    requires forall i, j :: 0 <= i < |a| && 0 <= j < |b| ==> a[i] != b[j]
    ensures NoDuplicates(a + b)
  {
    var ab := a + b;
    forall i, j | 0 <= i < j < |ab| ensures ab[i] != ab[j] {
      if j < |a| {
        assert ab[i] == a[i] && ab[j] == a[j];
      } else if i < |a| {
        assert ab[i] == a[i] && ab[j] == b[j - |a|];
      } else {
        assert ab[i] == b[i - |a|] && ab[j] == b[j - |a|];
      }
    }
  }
}
