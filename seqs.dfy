/** Generic sequence helpers: order-preserving filtering, de-duplication and removal of one element. */
module Seqs {

  /** No element occurs twice. */
  predicate Distinct<T(==)>(s: seq<T>)
  {
    forall i, j :: 0 <= i < j < |s| ==> s[i] != s[j]
  }

  /** The elements of `s` that satisfy `p`, in their order in `s` (a list comprehension with a guard,
      or a pandas boolean mask). */
  function Filter<T(!new)>(s: seq<T>, p: T -> bool): (r: seq<T>)
    ensures |r| <= |s|
    ensures forall x :: x in r <==> x in s && p(x)
  {
    if s == [] then [] else (if p(s[0]) then [s[0]] else []) + Filter(s[1..], p)
  }

  /** Filtering distributes over concatenation: what is kept from `a` comes before what is kept from `b`. */
  lemma {:induction false} FilterAppend<T(!new)>(a: seq<T>, b: seq<T>, p: T -> bool)
    ensures Filter(a + b, p) == Filter(a, p) + Filter(b, p)
  {
    if a == [] {
      assert a + b == b;
    } else {
      assert (a + b)[1..] == a[1..] + b;
      FilterAppend(a[1..], b, p);
    }
  }

  /** A sequence all of whose elements satisfy `p` is left as it is. */
  lemma {:induction false} FilterKeepsAll<T(!new)>(s: seq<T>, p: T -> bool)
    requires forall x :: x in s ==> p(x)
    ensures Filter(s, p) == s
  {
    if s != [] {
      FilterKeepsAll(s[1..], p);
    }
  }

  /** Filtering keeps distinct elements distinct. */
  lemma {:induction false} FilterDistinct<T(!new)>(s: seq<T>, p: T -> bool)
    requires Distinct(s)
    ensures Distinct(Filter(s, p))
  {
    if s != [] {
      FilterDistinct(s[1..], p);
      assert s[0] !in s[1..];
    }
  }

  /** `acc` followed by the elements of `s` not seen before, each at its first occurrence. */
  function DedupOnto<T(==,!new)>(acc: seq<T>, s: seq<T>): (r: seq<T>)
    requires Distinct(acc)
    ensures Distinct(r)
    ensures |acc| <= |r| && r[..|acc|] == acc
    ensures forall x :: x in r <==> x in acc || x in s
    decreases |s|
  {
    if s == [] then acc
    else if s[0] in acc then DedupOnto(acc, s[1..])
    else DedupOnto(acc + [s[0]], s[1..])
  }

  /** The distinct elements of `s` in order of first occurrence (pandas `Index.unique`). */
  function Dedup<T(==,!new)>(s: seq<T>): seq<T>
  {
    DedupOnto([], s)
  }

  /** The position of the first occurrence of `x` in `s` (Python `list.index(x)`). */
  function IndexOf<T(==)>(s: seq<T>, x: T): (k: nat)
    requires x in s
    ensures k < |s| && s[k] == x && x !in s[..k]
  {
    if s[0] == x then 0
    else
      var k' := IndexOf(s[1..], x);
      assert s[..k' + 1] == [s[0]] + s[1..][..k'];
      k' + 1
  }

  /** Past `acc`, the elements `DedupOnto` adds come from `s`, are new to `acc`, and appear in order
      of their first occurrence in `s`. */
  lemma {:induction false} DedupOntoFirstAppearance<T(!new)>(acc: seq<T>, s: seq<T>)
    requires Distinct(acc)
    ensures forall i :: |acc| <= i < |DedupOnto(acc, s)| ==> DedupOnto(acc, s)[i] in s && DedupOnto(acc, s)[i] !in acc
    ensures forall i, j :: |acc| <= i < j < |DedupOnto(acc, s)| ==>
              IndexOf(s, DedupOnto(acc, s)[i]) < IndexOf(s, DedupOnto(acc, s)[j])
    decreases |s|
  {
    var r := DedupOnto(acc, s);
    if s != [] {
      var acc' := if s[0] in acc then acc else acc + [s[0]];
      DedupOntoFirstAppearance(acc', s[1..]);
      assert r == DedupOnto(acc', s[1..]);
      forall i | |acc'| <= i < |r| ensures r[i] in s && r[i] != s[0] && IndexOf(s, r[i]) == IndexOf(s[1..], r[i]) + 1 {
        assert r[i] in s[1..] && r[i] !in acc';
      }
      if s[0] !in acc {
        assert r[|acc|] == acc'[|acc|] == s[0];
        forall i | |acc| <= i < |r| ensures r[i] !in acc {
          assert r[i] !in acc' || i == |acc|;
        }
      }
    }
  }

  /** `s` without the first occurrence of `x` (Python `list.remove(x)`). */
  function RemoveFirst<T(==)>(s: seq<T>, x: T): (r: seq<T>)
    requires x in s
    ensures multiset(r) + multiset{x} == multiset(s)
  {
    var k := IndexOf(s, x);
    assert s == s[..k] + [s[k]] + s[k + 1..];
    s[..k] + s[k + 1..]
  }

  /** The test "is not `x`", as a value to filter with. */
  function Other<T(==)>(x: T): T -> bool
  {
    y => y != x
  }

  /** In a distinct sequence, removing the first occurrence of `x` removes every occurrence and keeps
      the order of the rest. */
  lemma RemoveFirstDistinct<T(!new)>(s: seq<T>, x: T)
    requires x in s && Distinct(s)
    ensures RemoveFirst(s, x) == Filter(s, Other(x))
  {
    var k := IndexOf(s, x);
    var a, b := s[..k], s[k + 1..];
    assert s == a + [x] + b;
    assert x !in b by {
      forall m | 0 <= m < |b| ensures b[m] != x {
        assert b[m] == s[k + 1 + m] && s[k] == x;
      }
    }
    assert Filter([x], Other(x)) == [] by {
      assert [x][1..] == [];
    }
    assert forall y :: y in a ==> Other(x)(y);
    assert forall y :: y in b ==> Other(x)(y);
    FilterKeepsAll(a, Other(x));
    FilterKeepsAll(b, Other(x));
    calc {
      Filter(s, Other(x));
      { FilterAppend(a + [x], b, Other(x)); }
      Filter(a + [x], Other(x)) + Filter(b, Other(x));
      { FilterAppend(a, [x], Other(x)); }
      Filter(a, Other(x)) + Filter([x], Other(x)) + Filter(b, Other(x));
      a + [] + b;
      { assert a + [] == a; }
      a + b;
    }
  }
}
