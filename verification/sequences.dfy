/** Order-preserving operations on sequences that the extractors and the
    join are built from: applying a function to each element, dropping
    absent values and concatenating blocks. */
module Sequences {
  import opened Options

  /** `f` applied to each element, in order. */
  function Map<A, B>(f: A -> B, xs: seq<A>): (ys: seq<B>)
    ensures |ys| == |xs|
    ensures forall i :: 0 <= i < |xs| ==> ys[i] == f(xs[i])
  {
    seq(|xs|, i requires 0 <= i < |xs| => f(xs[i]))
  }

  /** Mapping a concatenation maps each part. */
  lemma MapAppend<A, B>(f: A -> B, a: seq<A>, b: seq<A>)
    ensures Map(f, a + b) == Map(f, a) + Map(f, b)
  {
    forall i | 0 <= i < |a + b|
      ensures Map(f, a + b)[i] == (Map(f, a) + Map(f, b))[i]
    {
      if i < |a| {
        assert (a + b)[i] == a[i];
      } else {
        assert (a + b)[i] == b[i - |a|];
      }
    }
  }

  /** The present values of a sequence of options, in order: a filter that
      drops every `None`. */
  function Somes<T>(os: seq<Option<T>>): (vs: seq<T>)
    ensures |vs| <= |os|
  {
    if os == [] then []
    else
      match os[0]
      case None => Somes(os[1..])
      case Some(v) => [v] + Somes(os[1..])
  }

  /** Each value the filter keeps was present in the input. */
  lemma {:induction false} SomesMembers<T>(os: seq<Option<T>>)
    ensures forall k :: 0 <= k < |Somes(os)| ==> Some(Somes(os)[k]) in os
    decreases |os|
  {
    if os != [] {
      SomesMembers(os[1..]);
      var rest := Somes(os[1..]);
      forall k | 0 <= k < |rest|
        ensures Some(rest[k]) in os
      {
        assert Some(rest[k]) in os[1..];
      }
    }
  }

  /** Filtering a concatenation filters each part. */
  lemma {:induction false} SomesAppend<T>(a: seq<Option<T>>, b: seq<Option<T>>)
    ensures Somes(a + b) == Somes(a) + Somes(b)
    decreases |a|
  {
    if a == [] {
      assert a + b == b;
    } else {
      assert (a + b)[0] == a[0];
      assert (a + b)[1..] == a[1..] + b;
      SomesAppend(a[1..], b);
    }
  }

  /** A single option keeps its value, if any. */
  lemma SomesSingle<T>(o: Option<T>)
    ensures Somes([o]) == if o.Some? then [o.value] else []
  {
    assert [o][1..] == [];
  }

  /** Filtering keeps everything, in place, when nothing is absent. */
  lemma {:induction false} SomesAllPresent<T>(os: seq<Option<T>>)
    requires forall i :: 0 <= i < |os| ==> os[i].Some?
    ensures |Somes(os)| == |os|
    ensures forall i :: 0 <= i < |os| ==> Somes(os)[i] == os[i].value
    decreases |os|
  {
    if os != [] {
      SomesAllPresent(os[1..]);
      assert Somes(os) == [os[0].value] + Somes(os[1..]);
      forall i | 0 <= i < |os|
        ensures Somes(os)[i] == os[i].value
      {
        if i > 0 {
          assert os[1..][i - 1] == os[i];
        }
      }
    }
  }

  /** The blocks of `xss` laid end to end, in order. */
  function Flatten<T>(xss: seq<seq<T>>): seq<T> {
    if xss == [] then [] else xss[0] + Flatten(xss[1..])
  }

  /** Flattening a concatenation flattens each part. */
  lemma {:induction false} FlattenAppend<T>(a: seq<seq<T>>, b: seq<seq<T>>)
    ensures Flatten(a + b) == Flatten(a) + Flatten(b)
    decreases |a|
  {
    if a == [] {
      assert a + b == b;
    } else {
      assert (a + b)[0] == a[0];
      assert (a + b)[1..] == a[1..] + b;
      FlattenAppend(a[1..], b);
    }
  }

  /** An element of the flattened sequence is an element of one block, and
      every element of every block is kept. */
  lemma {:induction false} FlattenMember<T>(xss: seq<seq<T>>, x: T)
    ensures x in Flatten(xss) <==> exists i :: 0 <= i < |xss| && x in xss[i]
    decreases |xss|
  {
    if xss != [] {
      FlattenMember(xss[1..], x);
      if exists i :: 0 <= i < |xss| && x in xss[i] {
        var i :| 0 <= i < |xss| && x in xss[i];
        if i > 0 {
          assert xss[1..][i - 1] == xss[i];
        }
      }
      if x in Flatten(xss[1..]) {
        var i :| 0 <= i < |xss[1..]| && x in xss[1..][i];
        assert x in xss[i + 1];
      }
    }
  }

  /** No block is dropped: with every block non-empty there are at least as
      many elements as blocks. */
  lemma {:induction false} FlattenNonEmpty<T>(xss: seq<seq<T>>)
    requires forall i :: 0 <= i < |xss| ==> xss[i] != []
    ensures |Flatten(xss)| >= |xss|
    decreases |xss|
  {
    if xss != [] {
      assert forall i :: 0 <= i < |xss[1..]| ==> xss[1..][i] == xss[i + 1];
      FlattenNonEmpty(xss[1..]);
    }
  }

  /** Blocks of one element flatten to those elements, in order. */
  lemma {:induction false} FlattenSingletons<T>(xss: seq<seq<T>>)
    requires forall i :: 0 <= i < |xss| ==> |xss[i]| == 1
    ensures |Flatten(xss)| == |xss|
    ensures forall i :: 0 <= i < |xss| ==> Flatten(xss)[i] == xss[i][0]
    decreases |xss|
  {
    if xss != [] {
      assert forall i :: 0 <= i < |xss[1..]| ==> xss[1..][i] == xss[i + 1];
      var rest := Flatten(xss[1..]);
      FlattenSingletons(xss[1..]);
      assert xss[0] == [xss[0][0]];
      assert Flatten(xss) == [xss[0][0]] + rest;
      forall i | 0 < i < |xss|
        ensures Flatten(xss)[i] == xss[i][0]
      {
        assert Flatten(xss)[i] == rest[i - 1];
      }
    }
  }
}
