/**
  The two PHP string comparisons the configuration store relies on:
  `strncmp`, used for the group-prefix test, and the binary string
  comparison `ksort` applies to string keys.  Strings are sequences of
  single-unit characters, so code-point order stands for byte order.
 */
module PhpStrings {

  /** The sign of PHP's binary string comparison: lexicographic on
      characters, a proper prefix sorts before the longer string. */
  function Strcmp(a: string, b: string): (r: int)
    ensures -1 <= r <= 1
    ensures r == 0 <==> a == b
    decreases |a|
  {
    if a == [] then (if b == [] then 0 else -1)
    else if b == [] then 1
    else if a[0] < b[0] then -1
    else if b[0] < a[0] then 1
    else
      assert a == [a[0]] + a[1..] && b == [b[0]] + b[1..];
      Strcmp(a[1..], b[1..])
  }

  /** The first n characters of s, or all of s when it is shorter. */
  function Take(s: string, n: nat): (r: string)
    ensures |r| <= n && r <= s
    ensures |s| <= n ==> r == s
  {
    if n < |s| then s[..n] else s
  }

  /** `strncmp(a, b, n)`: compares at most n characters of each string;
      when one string ends first, the shorter one sorts first. */
  function Strncmp(a: string, b: string, n: nat): (r: int)
    ensures -1 <= r <= 1
    ensures r == 0 <==> a == b || (n <= |a| && n <= |b| && a[..n] == b[..n])
  {
    Strcmp(Take(a, n), Take(b, n))
  }

  /** `strncmp($find, $key, strlen($find)) === 0` is exactly the test
      "key starts with find". */
  lemma StrncmpPrefixTest(find: string, key: string)
    ensures Strncmp(find, key, |find|) == 0 <==> find <= key
  {
    if |find| <= |key| {
      assert Take(key, |find|) == key[..|find|];
    } else {
      assert Take(key, |find|) == key;
    }
  }

  /** Swapping the operands negates the comparison. */
  lemma {:induction false} StrcmpAntisymmetric(a: string, b: string)
    ensures Strcmp(a, b) == -Strcmp(b, a)
    decreases |a|
  {
    if a != [] && b != [] && a[0] == b[0] {
      StrcmpAntisymmetric(a[1..], b[1..]);
    }
  }

  /** "Sorts strictly before" is transitive. */
  lemma {:induction false} StrcmpTransitive(a: string, b: string, c: string)
    requires Strcmp(a, b) < 0 && Strcmp(b, c) < 0
    ensures Strcmp(a, c) < 0
    decreases |a|
  {
    if a != [] && b != [] && c != [] && a[0] == b[0] && b[0] == c[0] {
      StrcmpTransitive(a[1..], b[1..], c[1..]);
    }
  }

  /** Any two distinct strings are ordered one way or the other. */
  lemma StrcmpTotal(a: string, b: string)
    requires a != b
    ensures Strcmp(a, b) < 0 || Strcmp(b, a) < 0
  {
    StrcmpAntisymmetric(a, b);
  }
}
