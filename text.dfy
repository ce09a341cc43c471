/**
 * The pieces of Python's `str` that the task classifier and pandas' string
 * columns rely on: ASCII lower-casing, the `needle in text` substring test
 * and the code-point (lexicographic) ordering of strings.
 */
module Text {

  predicate IsUpperAscii(c: char) {
    'A' <= c <= 'Z'
  }

  function LowerChar(c: char): char {
    if IsUpperAscii(c) then (c as int + 32) as char else c
  }

  /** `str.lower()`, restricted to ASCII letters; every other character is kept. */
  function Lower(s: string): string {
    seq(|s|, i requires 0 <= i < |s| => LowerChar(s[i]))
  }

  /** Lower-casing twice is lower-casing once. */
  lemma LowerIdempotent(s: string)
    ensures Lower(Lower(s)) == Lower(s)
  {
    forall i | 0 <= i < |s|
      ensures Lower(Lower(s))[i] == Lower(s)[i]
    {
      assert !IsUpperAscii(Lower(s)[i]);
    }
  }

  /** Text without ASCII capitals is its own lower-case form. */
  lemma LowerOfLowercase(s: string)
    requires forall c :: c in s ==> !IsUpperAscii(c)
    ensures Lower(s) == s
  {
    forall i | 0 <= i < |s|
      ensures Lower(s)[i] == s[i]
    {
      assert s[i] in s;
    }
  }

  /** `needle` occurs in `text` starting at index `i`. */
  predicate OccursAt(text: string, needle: string, i: nat) {
    i + |needle| <= |text| && text[i..i + |needle|] == needle
  }

  /** Python's `needle in text` on strings. */
  predicate Contains(text: string, needle: string) {
    exists i: nat :: i <= |text| && OccursAt(text, needle, i)
  }

  /** Python's `any(x in text for x in needles)`. */
  predicate ContainsAny(text: string, needles: seq<string>) {
    exists k :: 0 <= k < |needles| && Contains(text, needles[k])
  }

  /** Being a substring is transitive. */
  lemma ContainsTransitive(a: string, b: string, c: string)
    requires Contains(a, b) && Contains(b, c)
    ensures Contains(a, c)
  {
    var i: nat :| i <= |a| && OccursAt(a, b, i);
    var j: nat :| j <= |b| && OccursAt(b, c, j);
    forall k | 0 <= k < |c|
      ensures a[i + j..i + j + |c|][k] == c[k]
    {
      assert c[k] == b[j + k] == a[i..i + |b|][j + k];
    }
    assert a[i + j..i + j + |c|] == c;
    assert OccursAt(a, c, i + j);
  }

  /** A needle one of whose characters never appears in the text does not occur in it. */
  lemma AbsentCharacter(text: string, needle: string, k: nat)
    requires k < |needle| && needle[k] !in text
    ensures !Contains(text, needle)
  {
    forall i: nat | i <= |text|
      ensures !OccursAt(text, needle, i)
    {
      if i + |needle| <= |text| {
        assert text[i..i + |needle|][k] == text[i + k];
      }
    }
  }

  /**
   * `a` and `b` agree on their first `k` characters, and then either `a` ends
   * where `b` goes on, or `a`'s next character has the smaller code point.
   */
  predicate LessAt(a: string, b: string, k: nat) {
    && k <= |a| && k <= |b| && a[..k] == b[..k]
    && ((k == |a| && k < |b|) || (k < |a| && k < |b| && a[k] < b[k]))
  }

  /** Python's `a < b` on strings: ordered by code point, a proper prefix first. */
  predicate Less(a: string, b: string) {
    exists k: nat :: k <= |a| && LessAt(a, b, k)
  }

  lemma LessIrreflexive(a: string)
    ensures !Less(a, a)
  {
  }

  lemma LessTransitive(a: string, b: string, c: string)
    requires Less(a, b) && Less(b, c)
    ensures Less(a, c)
  {
    var k1: nat :| k1 <= |a| && LessAt(a, b, k1);
    var k2: nat :| k2 <= |b| && LessAt(b, c, k2);
    if k1 < k2 {
      assert b[..k1] == b[..k2][..k1] == c[..k2][..k1] == c[..k1];
      assert b[k1] == b[..k2][k1] == c[..k2][k1] == c[k1];
      assert LessAt(a, c, k1);
    } else if k2 < k1 {
      assert a[..k2] == a[..k1][..k2] == b[..k1][..k2] == b[..k2];
      assert a[k2] == a[..k1][k2] == b[..k1][k2] == b[k2];
      assert LessAt(a, c, k2);
    } else {
      assert LessAt(a, c, k1);
    }
  }

  /** Two strings that agree up to index `k` and differ there are ordered by that character. */
  lemma LessAfterCommonPrefix(a: string, b: string, k: nat)
    requires k < |a| && k < |b| && a[..k] == b[..k] && a[k] < b[k]
    ensures Less(a, b)
  {
    assert LessAt(a, b, k);
  }

  /** Each string is below its successor. */
  predicate Chained(keys: seq<string>) {
    |keys| < 2 || (Less(keys[0], keys[1]) && Chained(keys[1..]))
  }

  lemma ChainedCons(a: string, keys: seq<string>)
    requires keys != [] ==> Less(a, keys[0])
    requires Chained(keys)
    ensures Chained([a] + keys)
  {
    assert ([a] + keys)[1..] == keys;
  }

  /** Every string is below every later one: the order Python's `sorted` produces. */
  predicate StrictlyAscending(keys: seq<string>) {
    forall i, j :: 0 <= i < j < |keys| ==> Less(keys[i], keys[j])
  }

  predicate Distinct(keys: seq<string>) {
    forall i, j :: 0 <= i < j < |keys| ==> keys[i] != keys[j]
  }

  lemma {:induction false} ChainedReaches(keys: seq<string>, i: nat, j: nat)
    requires Chained(keys) && i < j < |keys|
    ensures Less(keys[i], keys[j])
    decreases j
  {
    if i > 0 {
      ChainedReaches(keys[1..], i - 1, j - 1);
    } else if j > 1 {
      ChainedReaches(keys[1..], 0, j - 1);
      LessTransitive(keys[0], keys[1], keys[j]);
    }
  }

  /** A chain of successive comparisons orders the whole sequence, without repeats. */
  lemma ChainedIsAscending(keys: seq<string>)
    requires Chained(keys)
    ensures StrictlyAscending(keys) && Distinct(keys)
  {
    forall i, j | 0 <= i < j < |keys|
      ensures Less(keys[i], keys[j]) && keys[i] != keys[j]
    {
      ChainedReaches(keys, i, j);
      LessIrreflexive(keys[i]);
    }
  }
}
