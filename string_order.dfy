/**
  The string order that the table's comparator uses: JavaScript's `<` on two
  strings, which compares character by character and lets a proper prefix come
  first. Dafny's own `<` on sequences means "proper prefix", so the
  lexicographic order is defined here, and shown to be a strict total order.
 */
module StringOrder {

  /** `a < b` on strings: the first differing character decides; otherwise the shorter one is less. */
  predicate LexLess(a: string, b: string)
    decreases |a|
  {
    if |a| == 0 then |b| > 0
    else if |b| == 0 then false
    else if a[0] != b[0] then a[0] < b[0]
    else LexLess(a[1..], b[1..])
  }

  /** `a <= b` on strings. */
  predicate LexLessOrEqual(a: string, b: string) {
    a == b || LexLess(a, b)
  }

  lemma {:induction false} LexLessIrreflexive(a: string)
    ensures !LexLess(a, a)
    decreases |a|
  {
    if |a| > 0 {
      LexLessIrreflexive(a[1..]);
    }
  }

  lemma {:induction false} LexLessAsymmetric(a: string, b: string)
    ensures LexLess(a, b) ==> !LexLess(b, a)
    decreases |a|
  {
    if |a| > 0 && |b| > 0 && a[0] == b[0] {
      LexLessAsymmetric(a[1..], b[1..]);
    }
  }

  lemma {:induction false} LexLessTransitive(a: string, b: string, c: string)
    requires LexLess(a, b) && LexLess(b, c)
    ensures LexLess(a, c)
    decreases |a|
  {
    if |a| > 0 && a[0] == b[0] && b[0] == c[0] {
      LexLessTransitive(a[1..], b[1..], c[1..]);
    }
  }

  /** Any two strings are equal or one of them is less: the comparator never sees incomparable cells. */
  lemma {:induction false} LexLessTotal(a: string, b: string)
    ensures a == b || LexLess(a, b) || LexLess(b, a)
    decreases |a|
  {
    if |a| > 0 && |b| > 0 && a[0] == b[0] {
      LexLessTotal(a[1..], b[1..]);
      if a[1..] == b[1..] {
        assert a == [a[0]] + a[1..] && b == [b[0]] + b[1..];
      }
    }
  }

  lemma LexLessOrEqualTransitive(a: string, b: string, c: string)
    requires LexLessOrEqual(a, b) && LexLessOrEqual(b, c)
    ensures LexLessOrEqual(a, c)
  {
    if LexLess(a, b) && LexLess(b, c) {
      LexLessTransitive(a, b, c);
    }
  }

  /** A proper prefix sorts before the longer string. */
  lemma {:induction false} ProperPrefixIsLess(a: string, b: string)
    requires |a| < |b| && a == b[..|a|]
    ensures LexLess(a, b)
    decreases |a|
  {
    if |a| > 0 {
      assert a[0] == b[0];
      assert a[1..] == b[1..][..|a| - 1];
      ProperPrefixIsLess(a[1..], b[1..]);
    }
  }

  /** No numeric coercion: "10" sorts before "2", "Alice" before "Jane Smith" before "John Doe". */
  lemma TextOrderExamples()
    ensures LexLess("10", "2")
    ensures LexLess("Alice", "Jane Smith") && LexLess("Jane Smith", "John Doe")
  {
    assert "Jane Smith"[1..] == "ane Smith";
    assert "John Doe"[1..] == "ohn Doe";
  }
}
