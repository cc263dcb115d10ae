/** The key order of std::map<std::string, GLuint>: std::string's operator<, a lexicographic
    comparison of unsigned bytes in which a proper prefix comes first. Over characters it is
    the same order for UTF-8 filenames, since UTF-8 byte order is code-point order. The texture-name table
    is walked in this order, and its i-th key is the one with exactly i keys below it. */
module KeyOrder {

  /** a < b as std::string compares them: element by element, the first difference decides. */
  predicate LexLess(a: string, b: string)
  {
    if a == [] then b != []
    else if b == [] then false
    else if a[0] != b[0] then a[0] < b[0]
    else LexLess(a[1..], b[1..])
  }

  lemma {:induction false} LexLessIrreflexive(a: string)
    ensures !LexLess(a, a)
  {
    if a != [] {
      LexLessIrreflexive(a[1..]);
    }
  }

  lemma {:induction false} LexLessTransitive(a: string, b: string, c: string)
    requires LexLess(a, b) && LexLess(b, c)
    ensures LexLess(a, c)
  {
    if a != [] && b != [] && c != [] && a[0] == b[0] && b[0] == c[0] {
      LexLessTransitive(a[1..], b[1..], c[1..]);
    }
  }

  /** Any two different strings are ordered one way; never both ways. */
  lemma {:induction false} LexLessTotal(a: string, b: string)
    ensures a != b <==> LexLess(a, b) || LexLess(b, a)
    ensures !(LexLess(a, b) && LexLess(b, a))
  {
    if a != [] && b != [] && a[0] == b[0] {
      LexLessTotal(a[1..], b[1..]);
      if a[1..] == b[1..] {
        assert a == [a[0]] + a[1..] && b == [b[0]] + b[1..];
      }
    } else if a == [] || b == [] {
      LexLessIrreflexive(a);
    }
  }

  /** The keys of `keys` that sort before k. */
  function Below(keys: set<string>, k: string): (r: set<string>)
    ensures r <= keys
  {
    set o | o in keys && LexLess(o, k)
  }

  /** The position of k when `keys` are walked in ascending order. */
  function Rank(keys: set<string>, k: string): nat
  {
    |Below(keys, k)|
  }

  /** A strict subset is strictly smaller. */
  lemma StrictSubsetSmaller(a: set<string>, b: set<string>, x: string)
    requires a <= b && x in b && x !in a
    ensures |a| < |b|
  {
    assert b == a + (b - a);
    assert x in b - a;
  }

  /** k is the minimum of s. */
  predicate IsLeast(s: set<string>, k: string)
  {
    k in s && forall o :: o in s && o != k ==> LexLess(k, o)
  }

  /** Every non-empty finite set of strings has a least element, so an ascending walk
      always has a next key. */
  lemma {:induction false} LeastExists(s: set<string>)
    requires s != {}
    ensures exists k :: IsLeast(s, k)
    decreases |s|
  {
    var x :| x in s;
    var rest := s - {x};
    if rest == {} {
      assert forall o :: o in s && o != x ==> o in rest;
      assert IsLeast(s, x);
    } else {
      LeastExists(rest);
      var m :| IsLeast(rest, m);
      LexLessTotal(x, m);
      if LexLess(x, m) {
        forall o | o in s && o != x
          ensures LexLess(x, o)
        {
          if o != m {
            LexLessTransitive(x, m, o);
          }
        }
        assert IsLeast(s, x);
      } else {
        assert IsLeast(s, m);
      }
    }
  }

  /** Ranks follow the order: a smaller key has a smaller rank. */
  lemma RankMonotone(keys: set<string>, a: string, b: string)
    requires a in keys && LexLess(a, b)
    ensures Rank(keys, a) < Rank(keys, b)
  {
    forall o | o in Below(keys, a)
      ensures o in Below(keys, b)
    {
      LexLessTransitive(o, a, b);
    }
    LexLessIrreflexive(a);
    StrictSubsetSmaller(Below(keys, a), Below(keys, b), a);
  }

  /** Different keys have different ranks, and they range over 0 .. |keys| - 1. */
  lemma RankInjective(keys: set<string>, a: string, b: string)
    requires a in keys && b in keys
    ensures a != b <==> Rank(keys, a) != Rank(keys, b)
    ensures Rank(keys, a) < |keys|
  {
    LexLessTotal(a, b);
    if LexLess(a, b) {
      RankMonotone(keys, a, b);
    } else if LexLess(b, a) {
      RankMonotone(keys, b, a);
    }
    LexLessIrreflexive(a);
    StrictSubsetSmaller(Below(keys, a), keys, a);
  }
}
