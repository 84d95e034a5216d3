/**
 * Generic sequence helpers: order-preserving selection (used by lookup and
 * delete), concatenation of parts, and mapping with per-position tags.
 */
module Seqs {

  /** The elements of `s` that satisfy `keep`, in their original order. */
  function Filter<T(!new)>(s: seq<T>, keep: T -> bool): (r: seq<T>)
    ensures |r| <= |s|
    ensures forall i :: 0 <= i < |r| ==> keep(r[i])
    decreases |s|
  {
    if |s| == 0 then []
    else (if keep(s[0]) then [s[0]] else []) + Filter(s[1..], keep)
  }

  /** An element is selected exactly when it occurs in `s` and is kept. */
  lemma {:induction false} FilterMembership<T(!new)>(s: seq<T>, keep: T -> bool)
    ensures forall x :: x in Filter(s, keep) <==> x in s && keep(x)
    decreases |s|
  {
    if |s| > 0 {
      FilterMembership(s[1..], keep);
      assert s == [s[0]] + s[1..];
    }
  }

  /** Filtering distributes over concatenation, so it keeps relative order. */
  lemma {:induction false} FilterAppend<T(!new)>(a: seq<T>, b: seq<T>, keep: T -> bool)
    ensures Filter(a + b, keep) == Filter(a, keep) + Filter(b, keep)
    decreases |a|
  {
    if |a| == 0 {
      assert a + b == b;
    } else {
      assert (a + b)[1..] == a[1..] + b;
      FilterAppend(a[1..], b, keep);
    }
  }

  /** Nothing is dropped when every element is kept. */
  lemma {:induction false} FilterKeepsAll<T(!new)>(s: seq<T>, keep: T -> bool)
    requires forall i :: 0 <= i < |s| ==> keep(s[i])
    ensures Filter(s, keep) == s
    decreases |s|
  {
    if |s| > 0 {
      FilterKeepsAll(s[1..], keep);
    }
  }

  /** Everything is dropped when no element is kept. */
  lemma {:induction false} FilterKeepsNone<T(!new)>(s: seq<T>, keep: T -> bool)
    requires forall i :: 0 <= i < |s| ==> !keep(s[i])
    ensures Filter(s, keep) == []
    decreases |s|
  {
    if |s| > 0 {
      FilterKeepsNone(s[1..], keep);
    }
  }

  /** When only the element at `k` is rejected, filtering removes just that element. */
  lemma {:induction false} FilterDropsOne<T(!new)>(s: seq<T>, k: int, keep: T -> bool)
    requires 0 <= k < |s| && !keep(s[k])
    requires forall i :: 0 <= i < |s| && i != k ==> keep(s[i])
    ensures Filter(s, keep) == s[..k] + s[k + 1..]
    decreases k
  {
    var tail := s[1..];
    if k == 0 {
      forall i | 0 <= i < |tail|
        ensures keep(tail[i])
      {
        assert tail[i] == s[i + 1];
      }
      FilterKeepsAll(tail, keep);
    } else {
      forall i | 0 <= i < |tail| && i != k - 1
        ensures keep(tail[i])
      {
        assert tail[i] == s[i + 1];
      }
      FilterDropsOne(tail, k - 1, keep);
      assert [s[0]] + (tail[..k - 1] + tail[k..]) == s[..k] + s[k + 1..];
    }
  }

  /** The concatenation of `parts`, in order. */
  function Flatten<T>(parts: seq<seq<T>>): (flat: seq<T>)
    decreases |parts|
  {
    if |parts| == 0 then [] else Flatten(parts[..|parts| - 1]) + parts[|parts| - 1]
  }

  /** Flattening distributes over concatenation of the parts. */
  lemma {:induction false} FlattenAppend<T>(a: seq<seq<T>>, b: seq<seq<T>>)
    ensures Flatten(a + b) == Flatten(a) + Flatten(b)
    decreases |b|
  {
    if |b| == 0 {
      assert a + b == a;
    } else {
      var init, last := b[..|b| - 1], b[|b| - 1];
      assert (a + b)[..|a + b| - 1] == a + init;
      assert (a + b)[|a + b| - 1] == last;
      calc {
        Flatten(a + b);
        Flatten(a + init) + last;
        { FlattenAppend(a, init); }
        (Flatten(a) + Flatten(init)) + last;
        Flatten(a) + (Flatten(init) + last);
        Flatten(a) + Flatten(b);
      }
    }
  }

  /** An element of the flattening lies in one of the parts, and conversely. */
  lemma {:induction false} FlattenMembership<T>(parts: seq<seq<T>>, x: T)
    ensures x in Flatten(parts) <==> exists i :: 0 <= i < |parts| && x in parts[i]
    decreases |parts|
  {
    if |parts| > 0 {
      var init := parts[..|parts| - 1];
      FlattenMembership(init, x);
      if x in Flatten(init) {
        var i :| 0 <= i < |init| && x in init[i];
        assert parts[i] == init[i];
      }
      forall i | 0 <= i < |init| && x in parts[i]
        ensures x in Flatten(init)
      {
        assert init[i] == parts[i];
      }
    }
  }

  /** The tag of position `i`: its entry in `tags`, or `dflt` when it has none. */
  function Tag<C>(tags: map<nat, C>, dflt: C, i: nat): (c: C)
    ensures i !in tags ==> c == dflt
  {
    if i in tags then tags[i] else dflt
  }

  /** The tags of the positions at or after `n`, renumbered to count from `n`. */
  function ShiftTags<C>(tags: map<nat, C>, n: nat): (shifted: map<nat, C>)
  {
    var keys := set i | i in tags && i >= n :: (i - n) as nat;
    map j | j in keys && j + n in tags :: tags[j + n]
  }

  /** Position `j` of the shifted tags is position `j + n` of the original ones. */
  lemma ShiftTag<C>(tags: map<nat, C>, dflt: C, n: nat, j: nat)
    ensures Tag(ShiftTags(tags, n), dflt, j) == Tag(tags, dflt, j + n)
  {
    if j + n in tags {
      assert (j + n - n) as nat == j;
    }
  }

  /** Applies `f` to each element together with the tag of its position. */
  function MapTagged<A, B, C>(xs: seq<A>, tags: map<nat, C>, dflt: C, f: (A, C) -> B): (ys: seq<B>)
    ensures |ys| == |xs|
    ensures forall i :: 0 <= i < |xs| ==> ys[i] == f(xs[i], Tag(tags, dflt, i))
  {
    seq(|xs|, i requires 0 <= i < |xs| => f(xs[i], Tag(tags, dflt, i)))
  }

  /** Mapping a concatenation maps each half, the second with its tags renumbered. */
  lemma MapTaggedAppend<A, B, C>(xs1: seq<A>, xs2: seq<A>, tags: map<nat, C>, dflt: C, f: (A, C) -> B)
    ensures MapTagged(xs1 + xs2, tags, dflt, f)
         == MapTagged(xs1, tags, dflt, f) + MapTagged(xs2, ShiftTags(tags, |xs1|), dflt, f)
  {
    var ys, ys1, ys2 := MapTagged(xs1 + xs2, tags, dflt, f), MapTagged(xs1, tags, dflt, f),
                        MapTagged(xs2, ShiftTags(tags, |xs1|), dflt, f);
    forall i | 0 <= i < |ys|
      ensures ys[i] == (ys1 + ys2)[i]
    {
      if i < |xs1| {
        assert (xs1 + xs2)[i] == xs1[i];
      } else {
        assert (xs1 + xs2)[i] == xs2[i - |xs1|];
        ShiftTag(tags, dflt, |xs1|, i - |xs1|);
      }
    }
    assert ys == ys1 + ys2;
  }

  /** Mapping a prefix gives the prefix of the mapping. */
  lemma MapTaggedPrefix<A, B, C>(xs: seq<A>, k: int, tags: map<nat, C>, dflt: C, f: (A, C) -> B)
    requires 0 <= k <= |xs|
    ensures MapTagged(xs[..k], tags, dflt, f) == MapTagged(xs, tags, dflt, f)[..k]
  {
  }
}
