/** Mapping, flattening and rearranging sequences. */
module Seqs {

  /** A non-empty sequence is its first element in front of the rest. */
  lemma HeadTail<T>(s: seq<T>)
    requires s != []
    ensures s == [s[0]] + s[1..]
  {
  }

  /** Concatenation regrouped to the right. */
  lemma Regroup<T>(x: seq<T>, y: seq<T>, z: seq<T>)
    ensures (x + y) + z == x + (y + z)
  {
  }

  /** f applied to every element, in order. */
  function Map<A, B>(f: A -> B, s: seq<A>): (r: seq<B>)
    ensures |r| == |s|
  {
    if s == [] then [] else Map(f, s[..|s| - 1]) + [f(s[|s| - 1])]
  }

  lemma {:induction false} MapIndex<A, B>(f: A -> B, s: seq<A>, i: nat)
    requires i < |s|
    ensures Map(f, s)[i] == f(s[i])
    decreases |s|
  {
    if i < |s| - 1 {
      MapIndex(f, s[..|s| - 1], i);
    }
  }

  lemma {:induction false} MapAppend<A, B>(f: A -> B, a: seq<A>, b: seq<A>)
    ensures Map(f, a + b) == Map(f, a) + Map(f, b)
    decreases |b|
  {
    if b == [] {
      assert a + b == a;
    } else {
      assert (a + b)[..|a + b| - 1] == a + b[..|b| - 1];
      MapAppend(f, a, b[..|b| - 1]);
    }
  }

  /** The segments one after the other. */
  function Concat<T>(segments: seq<seq<T>>): seq<T> {
    if segments == [] then [] else Concat(segments[..|segments| - 1]) + segments[|segments| - 1]
  }

  lemma {:induction false} ConcatAppend<T>(a: seq<seq<T>>, b: seq<seq<T>>)
    ensures Concat(a + b) == Concat(a) + Concat(b)
    decreases |b|
  {
    if b == [] {
      assert a + b == a;
    } else {
      var init, last := b[..|b| - 1], b[|b| - 1];
      assert (a + b)[..|a + b| - 1] == a + init;
      assert (a + b)[|a + b| - 1] == last;
      assert Concat(a + b) == Concat(a + init) + last;
      assert Concat(b) == Concat(init) + last;
      ConcatAppend(a, init);
    }
  }

  /** Empty segments concatenate to nothing. */
  lemma {:induction false} ConcatEmpty<T>(segments: seq<seq<T>>)
    requires forall w :: 0 <= w < |segments| ==> segments[w] == []
    ensures Concat(segments) == []
    decreases |segments|
  {
    if segments != [] {
      ConcatEmpty(segments[..|segments| - 1]);
    }
  }

  /** A whole written as a prefix and a rest, where the rest starts with `now`: the prefix grows by `now`. */
  lemma AppendStep<T>(whole: seq<T>, written: seq<T>, rest: seq<T>, now: seq<T>, later: seq<T>)
    requires whole == written + rest && rest == now + later
    ensures whole == (written + now) + later
  {
  }

  /** Nothing written yet: the whole is all rest. */
  lemma EmptyPrefix<T>(whole: seq<T>)
    ensures whole == [] + whole
  {
  }

  lemma ConcatSnoc<T>(segments: seq<seq<T>>, segment: seq<T>)
    ensures Concat(segments + [segment]) == Concat(segments) + segment
  {
    assert (segments + [segment])[..|segments|] == segments;
  }

  /** Flattening rearranged segments rearranges their elements. */
  lemma {:induction false} ConcatPermutation<T>(a: seq<seq<T>>, b: seq<seq<T>>)
    requires multiset(a) == multiset(b)
    ensures multiset(Concat(a)) == multiset(Concat(b))
    decreases |a|
  {
    if a == [] {
      assert |multiset(b)| == 0;
    } else {
      var x := a[|a| - 1];
      var init := a[..|a| - 1];
      assert x in multiset(b);
      var j :| 0 <= j < |b| && b[j] == x;
      var before, after := b[..j], b[j + 1..];
      Around(b, j);
      Remove(a, |a| - 1);
      Remove(b, j);
      assert init + [] == init;
      ConcatPermutation(init, before + after);
      ConcatAround(before, x, after);
      ConcatAppend(before, after);
      ConcatAppend(init, [x]);
      ConcatSingle(x);
      MultisetAround(Concat(before), x, Concat(after));
    }
  }

  /** A non-empty sequence holds its head and its tail. */
  lemma MultisetCons<T>(s: seq<T>)
    requires s != []
    ensures multiset(s) == multiset{s[0]} + multiset(s[1..])
  {
    assert s == [s[0]] + s[1..];
  }

  /** Equal multisets with the same first element have equal multisets after it. */
  lemma MultisetTail<T>(a: seq<T>, b: seq<T>)
    requires a != [] && b != [] && a[0] == b[0] && multiset(a) == multiset(b)
    ensures multiset(a[1..]) == multiset(b[1..])
  {
    assert a == [a[0]] + a[1..];
    assert b == [b[0]] + b[1..];
    assert multiset(a[1..]) == multiset(a) - multiset{a[0]};
    assert multiset(b[1..]) == multiset(b) - multiset{b[0]};
  }

  /** A sequence is what lies before position j, the element there, and what follows. */
  lemma Around<T>(b: seq<T>, j: nat)
    requires j < |b|
    ensures b == b[..j] + [b[j]] + b[j + 1..]
  {
  }

  /** Taking out the element at j takes it out of the multiset. */
  lemma Remove<T>(b: seq<T>, j: nat)
    requires j < |b|
    ensures multiset(b[..j] + b[j + 1..]) == multiset(b) - multiset{b[j]}
  {
    Around(b, j);
    assert multiset(b) == multiset(b[..j]) + multiset{b[j]} + multiset(b[j + 1..]);
  }

  /** The elements around a middle piece, and the middle piece. */
  lemma MultisetAround<T>(p: seq<T>, x: seq<T>, q: seq<T>)
    ensures multiset(p + x + q) == multiset(p + q) + multiset(x)
  {
  }

  lemma ConcatSingle<T>(x: seq<T>)
    ensures Concat([x]) == x
  {
    assert [x][..0] == [];
  }

  /** Flattening around one segment. */
  lemma ConcatAround<T>(before: seq<seq<T>>, x: seq<T>, after: seq<seq<T>>)
    ensures Concat(before + [x] + after) == Concat(before) + x + Concat(after)
  {
    ConcatAppend(before + [x], after);
    ConcatAppend(before, [x]);
    ConcatSingle(x);
  }

  /** The segments f gives for the elements, one after the other. */
  function FlatMap<A, B>(f: A -> seq<B>, s: seq<A>): seq<B>
  {
    if s == [] then [] else FlatMap(f, s[..|s| - 1]) + f(s[|s| - 1])
  }

  /** Elements that each give nothing give nothing together. */
  lemma {:induction false} FlatMapEmpty<A, B>(f: A -> seq<B>, s: seq<A>)
    requires forall i :: 0 <= i < |s| ==> f(s[i]) == []
    ensures FlatMap(f, s) == []
    decreases |s|
  {
    if s != [] {
      FlatMapEmpty(f, s[..|s| - 1]);
    }
  }

  lemma {:induction false} FlatMapIsConcat<A, B>(f: A -> seq<B>, s: seq<A>)
    ensures FlatMap(f, s) == Concat(Map(f, s))
    decreases |s|
  {
    if s != [] {
      FlatMapIsConcat(f, s[..|s| - 1]);
      assert Map(f, s)[..|s| - 1] == Map(f, s[..|s| - 1]);
    }
  }

  /** Taking one element out of a sequence takes its image out of the mapped sequence. */
  lemma MapRemove<A, B>(f: A -> B, b: seq<A>, j: nat)
    requires j < |b|
    ensures multiset(Map(f, b)) == multiset(Map(f, b[..j] + b[j + 1..])) + multiset{f(b[j])}
  {
    var before, x, after := b[..j], b[j], b[j + 1..];
    Around(b, j);
    MapAround(f, before, x, after);
    MapAppend(f, before, after);
    MultisetAround(Map(f, before), [f(x)], Map(f, after));
  }

  lemma MapSingle<A, B>(f: A -> B, x: A)
    ensures Map(f, [x]) == [f(x)]
  {
    assert [x][..0] == [];
  }

  /** Mapping around one element. */
  lemma MapAround<A, B>(f: A -> B, before: seq<A>, x: A, after: seq<A>)
    ensures Map(f, before + [x] + after) == Map(f, before) + [f(x)] + Map(f, after)
  {
    MapAppend(f, before + [x], after);
    MapAppend(f, before, [x]);
    MapSingle(f, x);
  }

  lemma {:induction false} MapPermutation<A, B>(f: A -> B, a: seq<A>, b: seq<A>)
    requires multiset(a) == multiset(b)
    ensures multiset(Map(f, a)) == multiset(Map(f, b))
    decreases |a|
  {
    if a != [] {
      var x := a[|a| - 1];
      var init := a[..|a| - 1];
      assert x in multiset(b);
      var j :| 0 <= j < |b| && b[j] == x;
      var rest := b[..j] + b[j + 1..];
      Remove(a, |a| - 1);
      Remove(b, j);
      assert init + [] == init;
      MapPermutation(f, init, rest);
      MapRemove(f, b, j);
      assert Map(f, a) == Map(f, init) + [f(x)];
    }
  }

  /** Flat-mapping a rearranged sequence rearranges the result. */
  lemma FlatMapPermutation<A, B>(f: A -> seq<B>, a: seq<A>, b: seq<A>)
    requires multiset(a) == multiset(b)
    ensures multiset(FlatMap(f, a)) == multiset(FlatMap(f, b))
  {
    MapPermutation(f, a, b);
    ConcatPermutation(Map(f, a), Map(f, b));
    FlatMapIsConcat(f, a);
    FlatMapIsConcat(f, b);
  }
}
