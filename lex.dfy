/**
 * Python's ordering of `str` values: code point by code point, and a proper
 * prefix before the longer string. Dafny's `char` is a Unicode scalar value,
 * so `<` on `char` is Python's code-point comparison.
 */
module Lex {
  import opened Sorting

  /** `a <= b` on Python strings: a prefix comes first, otherwise the first differing character decides. */
  predicate LexLe(a: string, b: string): (le: bool)
    ensures a <= b ==> le
    ensures a != [] && b != [] && a[0] != b[0] ==> (le <==> a[0] < b[0])
    decreases |a|
  {
    if a == [] then true
    else if b == [] then false
    else if a[0] != b[0] then a[0] < b[0]
    else LexLe(a[1..], b[1..])
  }

  lemma {:induction false} LexLeTotal(a: string, b: string)
    ensures LexLe(a, b) || LexLe(b, a)
    decreases |a|
  {
    if a != [] && b != [] && a[0] == b[0] {
      LexLeTotal(a[1..], b[1..]);
    }
  }

  lemma {:induction false} LexLeTransitive(a: string, b: string, c: string)
    requires LexLe(a, b) && LexLe(b, c)
    ensures LexLe(a, c)
    decreases |a|
  {
    if a != [] && a[0] == b[0] && b[0] == c[0] {
      LexLeTransitive(a[1..], b[1..], c[1..]);
    }
  }

  lemma {:induction false} LexLeAntisymmetric(a: string, b: string)
    requires LexLe(a, b) && LexLe(b, a)
    ensures a == b
    decreases |a|
  {
    if a != [] {
      LexLeAntisymmetric(a[1..], b[1..]);
      assert a == [a[0]] + a[1..] && b == [b[0]] + b[1..];
    }
  }

  /** Python's string comparison is a total order, so sorting by it is well defined. */
  lemma LexLeTotalOrder()
    ensures TotalPreorder(LexLe)
    ensures Antisymmetric(LexLe)
  {
    forall a, b ensures LexLe(a, b) || LexLe(b, a) {
      LexLeTotal(a, b);
    }
    forall a, b, c | LexLe(a, b) && LexLe(b, c) ensures LexLe(a, c) {
      LexLeTransitive(a, b, c);
    }
    forall a, b | LexLe(a, b) && LexLe(b, a) ensures a == b {
      LexLeAntisymmetric(a, b);
    }
  }

  /** Strings with a common first character compare as their remainders do. */
  lemma LexLeCons(c: char, u: string, v: string)
    ensures LexLe([c] + u, [c] + v) == LexLe(u, v)
  {
    assert ([c] + u)[1..] == u && ([c] + v)[1..] == v;
  }

  /** Strings of equal length ending in the same character compare as they do without it. */
  lemma {:induction false} LexLeDropLast(u: string, v: string, e: char)
    requires |u| == |v|
    ensures LexLe(u + [e], v + [e]) == LexLe(u, v)
    decreases |u|
  {
    if u == [] {
      assert v == [];
    } else if u[0] == v[0] {
      assert (u + [e])[1..] == u[1..] + [e] && (v + [e])[1..] == v[1..] + [e];
      LexLeDropLast(u[1..], v[1..], e);
    }
  }
}
