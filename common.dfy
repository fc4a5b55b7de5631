/**
 * Values shared by every collection: an optional value (the library's
 * `undefined`) and the default three-way key comparison that every
 * structure installs when no custom comparator is given.
 */
module Common {

  datatype Option<+T> = None | Some(value: T)

  /**
   * The default `compare(a, b)` of the trees and heaps: 1, -1 or 0 when `a`
   * is greater than, less than or equal to `b`.
   */
  function Compare(a: int, b: int): (c: int)
    ensures c == 1 || c == 0 || c == -1
    ensures c < 0 <==> a < b
    ensures c > 0 <==> a > b
    ensures c == 0 <==> a == b
  {
    if a > b then 1 else if a < b then -1 else 0
  }

  /** A strictly increasing sequence of keys: the search-tree order. */
  ghost predicate Ascending(s: seq<int>)
  {
    forall a, b :: 0 <= a < b < |s| ==> s[a] < s[b]
  }

  /** `s'` is `s` with `key` entered at some index. */
  ghost predicate Inserted(s: seq<int>, key: int, s': seq<int>)
  {
    exists t | 0 <= t <= |s| :: s' == s[..t] + [key] + s[t..]
  }

  /** Removing one element keeps a strictly increasing sequence increasing. */
  lemma AscendingDelete(s: seq<int>, r: nat)
    requires Ascending(s) && r < |s|
    ensures Ascending(s[..r] + s[r + 1..])
  {
    var t := s[..r] + s[r + 1..];
    forall a, b | 0 <= a < b < |t| ensures t[a] < t[b] {
      var a' := if a < r then a else a + 1;
      var b' := if b < r then b else b + 1;
      assert t[a] == s[a'] && t[b] == s[b'];
    }
  }

  /** Inserting a key between its neighbours keeps the order. */
  lemma AscendingInsert(s: seq<int>, q: nat, k: int)
    requires Ascending(s) && q <= |s|
    requires q > 0 ==> s[q - 1] < k
    requires q < |s| ==> k < s[q]
    ensures Ascending(s[..q] + [k] + s[q..])
  {
    var t := s[..q] + [k] + s[q..];
    forall a, b | 0 <= a < b < |t| ensures t[a] < t[b] {
      if a < q && b > q {
        assert t[a] == s[a] && t[b] == s[b - 1];
      }
    }
  }

  /** Taking the element at `t` out of a sequence takes one occurrence out of its multiset. */
  lemma MultisetDelete<T>(s: seq<T>, t: nat)
    requires t < |s|
    ensures multiset(s[..t] + s[t + 1..]) == multiset(s) - multiset{s[t]}
  {
    assert s == s[..t] + [s[t]] + s[t + 1..];
  }

  /** Entering an element at `t` adds one occurrence to the multiset. */
  lemma MultisetInsert<T>(s: seq<T>, t: nat, x: T)
    requires t <= |s|
    ensures multiset(s[..t] + [x] + s[t..]) == multiset(s) + multiset{x}
  {
    assert s == s[..t] + s[t..];
  }

  /** Overwriting the element at `t` swaps one occurrence in the multiset. */
  lemma MultisetReplace<T>(s: seq<T>, t: nat, x: T)
    requires t < |s|
    ensures multiset(s[t := x]) == multiset(s) - multiset{s[t]} + multiset{x}
  {
    MultisetDelete(s, t);
    MultisetInsert(s[..t] + s[t + 1..], t, x);
    assert s[t := x] == (s[..t] + s[t + 1..])[..t] + [x] + (s[..t] + s[t + 1..])[t..];
  }

  /**
   * Writing the element that was deleted from index `d` over one that stayed
   * (the successor swap of a two-children removal) leaves the multiset with
   * exactly the element at `t` taken out.
   */
  lemma OverwriteByDeleted<T>(s: seq<T>, s1: seq<T>, t: nat, d: nat, t1: nat)
    requires t < |s| && d < |s| && t1 < |s1| && s1[t1] == s[t]
    requires multiset(s1) == multiset(s) - multiset{s[d]}
    ensures multiset(s1[t1 := s[d]]) == multiset(s) - multiset{s[t]}
  {
    MultisetReplace(s1, t1, s[d]);
  }

  /**
   * When the deleted index is the one right after `t`, the swap leaves
   * exactly `s` without index `t`.
   */
  lemma OverwriteByNext<T>(s: seq<T>, t: nat)
    requires t + 1 < |s|
    ensures (s[..t + 1] + s[t + 2..])[t := s[t + 1]] == s[..t] + s[t + 1..]
  {
  }

  /** `f` applied to every element of `s`, in order. */
  function Map<A, B>(f: A -> B, s: seq<A>): (r: seq<B>)
    ensures |r| == |s|
  {
    if s == [] then [] else [f(s[0])] + Map(f, s[1..])
  }

  /** Mapping distributes over concatenation. */
  lemma {:induction false} MapAppend<A, B>(f: A -> B, a: seq<A>, b: seq<A>)
    ensures Map(f, a + b) == Map(f, a) + Map(f, b)
    decreases |a|
  {
    if a != [] {
      assert (a + b)[1..] == a[1..] + b;
      MapAppend(f, a[1..], b);
    } else {
      assert a + b == b;
    }
  }

  /** Mapping a sequence with one element taken out of the middle. */
  lemma MapAround<A, B>(f: A -> B, u: seq<A>, x: A, w: seq<A>)
    ensures multiset(Map(f, u + [x] + w)) == multiset(Map(f, u + w)) + multiset{f(x)}
  {
    assert Map(f, [x]) == [f(x)];
    MapAppend(f, u + [x], w);
    MapAppend(f, u, [x]);
    MapAppend(f, u, w);
    var mu, mw := Map(f, u), Map(f, w);
    assert Map(f, u + [x] + w) == mu + [f(x)] + mw;
    assert multiset(Map(f, u + [x] + w)) == multiset(mu) + multiset{f(x)} + multiset(mw);
  }

  /** Sequences that are permutations of each other map to permutations. */
  lemma {:induction false} MapPermute<A, B>(f: A -> B, a: seq<A>, b: seq<A>)
    requires multiset(a) == multiset(b)
    ensures multiset(Map(f, a)) == multiset(Map(f, b))
    decreases |a|
  {
    if a == [] {
      assert |multiset(b)| == 0;
    } else {
      var x := a[0];
      assert x in multiset(b);
      var j :| 0 <= j < |b| && b[j] == x;
      var u, w := b[..j], b[j + 1..];
      assert b == u + [x] + w;
      MultisetDelete(b, j);
      assert a == [x] + a[1..];
      assert multiset(a[1..]) == multiset(u + w);
      MapPermute(f, a[1..], u + w);
      assert Map(f, a) == [f(x)] + Map(f, a[1..]);
      MapAround(f, u, x, w);
    }
  }
}
