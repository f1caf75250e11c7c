/** Shared datatypes and the model of hash-container iteration order. */
module Common {

  datatype Option<T> = None | Some(value: T)

  datatype Result<T, E> = Ok(value: T) | Err(error: E)

  /** No element occurs twice. */
  predicate NoDuplicates<T(==)>(s: seq<T>) {
    forall i, j :: 0 <= i < j < |s| ==> s[i] != s[j]
  }

  /** The elements of a sequence, as a set. */
  function Elements<T>(s: seq<T>): set<T> {
    set x | x in s
  }

  /** `order` lists every element of `s` exactly once: one possible iteration
      order of a `HashSet` or of the keys of a `HashMap`. */
  predicate IsEnumeration<T(==)>(order: seq<T>, s: set<T>) {
    && NoDuplicates(order)
    && (forall x :: x in order ==> x in s)
    && (forall x :: x in s ==> x in order)
  }

  /** An enumeration is as long as the set it enumerates. */
  lemma {:induction false} EnumerationLength<T>(order: seq<T>, s: set<T>)
    requires IsEnumeration(order, s)
    ensures |order| == |s|
  {
    if order == [] {
      assert s == {};
    } else {
      var x := order[0];
      assert IsEnumeration(order[1..], s - {x}) by {
        forall y ensures y in order[1..] <==> y in s - {x} {
          if y in order[1..] {
            var j :| 0 <= j < |order[1..]| && order[1..][j] == y;
            assert order[j + 1] == y && order[0] == x;
          }
          if y in s - {x} {
            assert y in order;
            var j :| 0 <= j < |order| && order[j] == y;
            assert j != 0;
            assert order[1..][j - 1] == y;
          }
        }
      }
      EnumerationLength(order[1..], s - {x});
    }
  }

  /** Two duplicate-free sequences with the same elements are permutations of
      each other. */
  lemma {:induction false} SameElementsSameMultiset<T>(a: seq<T>, b: seq<T>)
    requires NoDuplicates(a) && NoDuplicates(b)
    requires forall x :: x in a <==> x in b
    ensures multiset(a) == multiset(b)
  {
    forall x ensures multiset(a)[x] == multiset(b)[x] {
      MultiplicityOfDistinct(a, x);
      MultiplicityOfDistinct(b, x);
    }
  }

  /** In a duplicate-free sequence every element occurs once. */
  lemma {:induction false} MultiplicityOfDistinct<T>(s: seq<T>, x: T)
    requires NoDuplicates(s)
    ensures multiset(s)[x] == if x in s then 1 else 0
  {
    if s != [] {
      assert s == [s[0]] + s[1..];
      MultiplicityOfDistinct(s[1..], x);
      if x == s[0] {
        assert x !in s[1..] by {
          forall j | 0 <= j < |s[1..]| ensures s[1..][j] != x {
            assert s[j + 1] != s[0];
          }
        }
      }
    }
  }

  /** Picks an iteration order for a freshly built set. Which order is left
      open: callers must be correct for every enumeration. */
  method Enumerate<T(==)>(s: set<T>) returns (order: seq<T>)
    ensures IsEnumeration(order, s)
  {
    order := [];
    var rest := s;
    while rest != {}
      invariant NoDuplicates(order)
      invariant forall x :: x in s <==> x in order || x in rest
      invariant forall x :: x in order ==> x !in rest
      decreases |rest|
    {
      var x :| x in rest;
      order := order + [x];
      rest := rest - {x};
    }
  }
}
