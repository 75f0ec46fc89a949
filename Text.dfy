/**
  The order on text values that the event table relies on. SQLite compares two
  TEXT values under its default BINARY collation character by character, and a
  proper prefix sorts first; `event_date BETWEEN ? AND ?`, `ORDER BY event_date`
  and `ORDER BY created_at` all use this order.
 */
module Text {

  /** a <= b in lexicographic order. */
  predicate Le(a: string, b: string)
    decreases |a|
  {
    |a| == 0 || (|b| > 0 && (a[0] < b[0] || (a[0] == b[0] && Le(a[1..], b[1..]))))
  }

  /** a < b in lexicographic order. */
  predicate Lt(a: string, b: string)
  {
    Le(a, b) && a != b
  }

  lemma {:induction false} LeReflexive(a: string)
    ensures Le(a, a)
  {
    if |a| > 0 {
      LeReflexive(a[1..]);
    }
  }

  lemma {:induction false} LeAntisymmetric(a: string, b: string)
    requires Le(a, b) && Le(b, a)
    ensures a == b
  {
    if |a| > 0 {
      LeAntisymmetric(a[1..], b[1..]);
      assert a == [a[0]] + a[1..];
      assert b == [b[0]] + b[1..];
    }
  }

  lemma {:induction false} LeTransitive(a: string, b: string, c: string)
    requires Le(a, b) && Le(b, c)
    ensures Le(a, c)
  {
    if |a| > 0 && |b| > 0 && |c| > 0 && a[0] == b[0] == c[0] {
      LeTransitive(a[1..], b[1..], c[1..]);
    }
  }

  lemma {:induction false} LeTotal(a: string, b: string)
    ensures Le(a, b) || Le(b, a)
  {
    if |a| > 0 && |b| > 0 && a[0] == b[0] {
      LeTotal(a[1..], b[1..]);
    }
  }

  /**
    Comparing two texts that start with prefixes of the same length compares the
    prefixes first and looks at the rest only when the prefixes are equal. This
    is what makes fixed-width fields compare field by field.
   */
  lemma {:induction false} LeConcat(p: string, q: string, r: string, s: string)
    requires |p| == |q|
    ensures Le(p + r, q + s) <==> Lt(p, q) || (p == q && Le(r, s))
  {
    if |p| == 0 {
      assert p + r == r && q + s == s;
    } else {
      assert (p + r)[0] == p[0] && (q + s)[0] == q[0];
      assert (p + r)[1..] == p[1..] + r && (q + s)[1..] == q[1..] + s;
      LeConcat(p[1..], q[1..], r, s);
      assert p == [p[0]] + p[1..] && q == [q[0]] + q[1..];
      if p[0] == q[0] && p[1..] != q[1..] {
        assert p != q;
      }
    }
  }
}
