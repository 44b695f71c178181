/** Python's ordering of strings and of paths, and `sorted(set(xs))`.
    Python compares two sequences element by element: the first unequal pair
    decides, and a proper prefix comes first. Strings are compared this way
    character by character (by code point), and `pathlib` paths part by part. */
module Ordering {

  ghost predicate StrictTotalOrder<T(!new)>(lt: (T, T) -> bool)
  {
    && (forall x :: !lt(x, x))
    && (forall x, y, z :: lt(x, y) && lt(y, z) ==> lt(x, z))
    && (forall x, y :: x == y || lt(x, y) || lt(y, x))
  }

  predicate StrictlySorted<T>(xs: seq<T>, lt: (T, T) -> bool)
  {
    forall i, j :: 0 <= i < j < |xs| ==> lt(xs[i], xs[j])
  }

  /** Lexicographic order on sequences, built from an order on elements. */
  function LexLess<T(==)>(a: seq<T>, b: seq<T>, lt: (T, T) -> bool): bool
  {
    if a == [] then b != []
    else if b == [] then false
    else if a[0] == b[0] then LexLess(a[1..], b[1..], lt)
    else lt(a[0], b[0])
  }

  lemma {:induction false} LexIrreflexive<T(!new)>(a: seq<T>, lt: (T, T) -> bool)
    requires StrictTotalOrder(lt)
    ensures !LexLess(a, a, lt)
  {
    if a != [] {
      LexIrreflexive(a[1..], lt);
    }
  }

  lemma {:induction false} LexTransitive<T(!new)>(a: seq<T>, b: seq<T>, c: seq<T>, lt: (T, T) -> bool)
    requires StrictTotalOrder(lt)
    requires LexLess(a, b, lt) && LexLess(b, c, lt)
    ensures LexLess(a, c, lt)
  {
    if a != [] && b != [] && c != [] && a[0] == b[0] && b[0] == c[0] {
      LexTransitive(a[1..], b[1..], c[1..], lt);
    }
  }

  lemma {:induction false} LexTotal<T(!new)>(a: seq<T>, b: seq<T>, lt: (T, T) -> bool)
    requires StrictTotalOrder(lt)
    requires a != b
    ensures LexLess(a, b, lt) || LexLess(b, a, lt)
  {
    if a != [] && b != [] && a[0] == b[0] {
      assert a == [a[0]] + a[1..] && b == [b[0]] + b[1..];
      LexTotal(a[1..], b[1..], lt);
    }
  }

  /** Lexicographic order over a strict total order is again one. */
  lemma LexOrder<T(!new)>(lt: (T, T) -> bool, lex: (seq<T>, seq<T>) -> bool)
    requires StrictTotalOrder(lt)
    requires forall a, b :: lex(a, b) == LexLess(a, b, lt)
    ensures StrictTotalOrder(lex)
  {
    forall a: seq<T> ensures !lex(a, a) {
      LexIrreflexive(a, lt);
    }
    forall a: seq<T>, b: seq<T>, c: seq<T> | lex(a, b) && lex(b, c) ensures lex(a, c) {
      LexTransitive(a, b, c, lt);
    }
    forall a: seq<T>, b: seq<T> ensures a == b || lex(a, b) || lex(b, a) {
      if a != b {
        LexTotal(a, b, lt);
      }
    }
  }

  function CharLess(a: char, b: char): bool
  {
    a < b
  }

  /** Python's `a < b` on two strings. */
  function StrLess(a: string, b: string): bool
  {
    LexLess(a, b, CharLess)
  }

  /** A path as the sequence of its parts, as `pathlib` compares it. */
  type Path = seq<string>

  /** Python's `a < b` on two `pathlib` paths of the same flavour. */
  function PathLess(a: Path, b: Path): bool
  {
    LexLess(a, b, StrLess)
  }

  lemma StrLessOrder()
    ensures StrictTotalOrder(StrLess)
  {
    LexOrder(CharLess, StrLess);
  }

  lemma PathLessOrder()
    ensures StrictTotalOrder(PathLess)
  {
    StrLessOrder();
    LexOrder(StrLess, PathLess);
  }

  // ------------------------------------------------------- sorted(set(xs))

  /** Adds `x` to an ordered, duplicate-free sequence. */
  function Insert<T(==,!new)>(x: T, xs: seq<T>, lt: (T, T) -> bool): (r: seq<T>)
    ensures forall y :: y in r <==> y == x || y in xs
  {
    if xs == [] then [x]
    else if x == xs[0] then xs
    else if lt(x, xs[0]) then [x] + xs
    else [xs[0]] + Insert(x, xs[1..], lt)
  }

  /** Python's `sorted(set(xs))`. */
  function SortDedup<T(==,!new)>(xs: seq<T>, lt: (T, T) -> bool): (r: seq<T>)
    ensures forall y :: y in r <==> y in xs
  {
    if xs == [] then [] else Insert(xs[|xs| - 1], SortDedup(xs[..|xs| - 1], lt), lt)
  }

  lemma {:induction false} InsertSorted<T(!new)>(x: T, xs: seq<T>, lt: (T, T) -> bool)
    requires StrictTotalOrder(lt) && StrictlySorted(xs, lt)
    ensures StrictlySorted(Insert(x, xs, lt), lt)
  {
    if xs != [] && x != xs[0] && !lt(x, xs[0]) {
      InsertSorted(x, xs[1..], lt);
      var tail := Insert(x, xs[1..], lt);
      assert forall y :: y in tail ==> lt(xs[0], y);
    }
  }

  lemma {:induction false} SortDedupSorted<T(!new)>(xs: seq<T>, lt: (T, T) -> bool)
    requires StrictTotalOrder(lt)
    ensures StrictlySorted(SortDedup(xs, lt), lt)
  {
    if xs != [] {
      SortDedupSorted(xs[..|xs| - 1], lt);
      InsertSorted(xs[|xs| - 1], SortDedup(xs[..|xs| - 1], lt), lt);
    }
  }

  /** Two ordered, duplicate-free sequences with the same elements are equal:
      `SortDedup` is the only possible result of `sorted(set(xs))`. */
  lemma {:induction false} SortedUnique<T(!new)>(a: seq<T>, b: seq<T>, lt: (T, T) -> bool)
    requires StrictTotalOrder(lt)
    requires StrictlySorted(a, lt) && StrictlySorted(b, lt)
    requires forall y :: y in a <==> y in b
    ensures a == b
  {
    assert a != [] ==> a[0] in b;
    assert b != [] ==> b[0] in a;
    if a != [] && b != [] {
      assert a[0] == b[0];
      forall y ensures y in a[1..] <==> y in b[1..] {
        if y in a[1..] {
          var k :| 0 <= k < |a[1..]| && a[1..][k] == y;
          assert lt(a[0], a[k + 1]) && y in a;
          var j :| 0 <= j < |b| && b[j] == y;
          assert b[1..][j - 1] == y;
        }
        if y in b[1..] {
          var k :| 0 <= k < |b[1..]| && b[1..][k] == y;
          assert lt(b[0], b[k + 1]) && y in b;
          var j :| 0 <= j < |a| && a[j] == y;
          assert a[1..][j - 1] == y;
        }
      }
      SortedUnique(a[1..], b[1..], lt);
      assert a == [a[0]] + a[1..] && b == [b[0]] + b[1..];
    }
  }
}
