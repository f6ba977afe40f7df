/** Order-preserving list operations: JavaScript's `filter`, `map` and `flat`. */
module Seqs {

  /** `s.filter(f)`: the elements of `s` satisfying `f`, in their original order. */
  function Filter<T>(f: T -> bool, s: seq<T>): (r: seq<T>)
    ensures |r| <= |s|
  {
    if s == [] then [] else (if f(s[0]) then [s[0]] else []) + Filter(f, s[1..])
  }

  /** The filtered list holds exactly the elements of `s` that pass `f`. */
  lemma {:induction false} FilterMembers<T>(f: T -> bool, s: seq<T>)
    ensures forall x :: x in Filter(f, s) <==> x in s && f(x)
  {
    if s != [] {
      FilterMembers(f, s[1..]);
      assert s == [s[0]] + s[1..];
    }
  }

  /** What the filter keeps came from `s` and passes `f`. */
  lemma FilterMemberPasses<T>(f: T -> bool, s: seq<T>, x: T)
    requires x in Filter(f, s)
    ensures x in s && f(x)
  {
    FilterMembers(f, s);
  }

  /** What is in `s` and passes `f` is kept. */
  lemma FilterKeeps<T>(f: T -> bool, s: seq<T>, x: T)
    requires x in s && f(x)
    ensures x in Filter(f, s)
  {
    FilterMembers(f, s);
  }

  /** `s.map(f)`. */
  function Map<T, U>(f: T -> U, s: seq<T>): (r: seq<U>)
    ensures |r| == |s|
    ensures forall i :: 0 <= i < |s| ==> r[i] == f(s[i])
  {
    seq(|s|, i requires 0 <= i < |s| => f(s[i]))
  }

  /** `ss.flat()`: the concatenation of the inner lists, in order. */
  function Flatten<T>(ss: seq<seq<T>>): seq<T> {
    if ss == [] then [] else ss[0] + Flatten(ss[1..])
  }

  /** Filtering distributes over concatenation: this is what "in input order" means. */
  lemma {:induction false} FilterAppend<T>(f: T -> bool, a: seq<T>, b: seq<T>)
    ensures Filter(f, a + b) == Filter(f, a) + Filter(f, b)
  {
    if a == [] {
      assert a + b == b;
    } else {
      var head := if f(a[0]) then [a[0]] else [];
      assert (a + b)[0] == a[0];
      assert (a + b)[1..] == a[1..] + b;
      FilterAppend(f, a[1..], b);
      calc {
        Filter(f, a + b);
        head + Filter(f, a[1..] + b);
        head + (Filter(f, a[1..]) + Filter(f, b));
        (head + Filter(f, a[1..])) + Filter(f, b);
        Filter(f, a) + Filter(f, b);
      }
    }
  }

  /** A one-element list is kept or dropped as a whole. */
  lemma FilterSingleton<T>(f: T -> bool, x: T)
    ensures Filter(f, [x]) == if f(x) then [x] else []
  {
    assert [x][1..] == [];
  }

  /** Filtering a list whose every element already passes changes nothing. */
  lemma {:induction false} FilterAllPass<T>(f: T -> bool, s: seq<T>)
    requires forall i :: 0 <= i < |s| ==> f(s[i])
    ensures Filter(f, s) == s
  {
    if s != [] {
      FilterAllPass(f, s[1..]);
    }
  }

  /** Filtering a list none of whose elements passes gives the empty list. */
  lemma {:induction false} FilterNonePass<T>(f: T -> bool, s: seq<T>)
    requires forall i :: 0 <= i < |s| ==> !f(s[i])
    ensures Filter(f, s) == []
  {
    if s != [] {
      FilterNonePass(f, s[1..]);
    }
  }

  /** Filtering twice by the same test is filtering once. */
  lemma FilterIdempotent<T>(f: T -> bool, s: seq<T>)
    ensures Filter(f, Filter(f, s)) == Filter(f, s)
  {
    var r := Filter(f, s);
    FilterMembers(f, s);
    forall i | 0 <= i < |r|
      ensures f(r[i])
    {
      assert r[i] in r;
      FilterMemberPasses(f, s, r[i]);
    }
    FilterAllPass(f, r);
  }

  lemma MapAppend<T, U>(f: T -> U, a: seq<T>, b: seq<T>)
    ensures Map(f, a + b) == Map(f, a) + Map(f, b)
  {
  }

  /** An element of one inner list is in the flattened list. */
  lemma {:induction false} FlattenMember<T>(ss: seq<seq<T>>, i: nat, x: T)
    requires i < |ss| && x in ss[i]
    ensures x in Flatten(ss)
  {
    if i > 0 {
      FlattenMember(ss[1..], i - 1, x);
    }
  }

  lemma {:induction false} FlattenAppend<T>(ss: seq<seq<T>>, s: seq<T>)
    ensures Flatten(ss + [s]) == Flatten(ss) + s
  {
    if ss == [] {
      assert [s][1..] == [];
    } else {
      assert (ss + [s])[1..] == ss[1..] + [s];
      FlattenAppend(ss[1..], s);
    }
  }
}
