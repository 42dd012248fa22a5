/** Generic facts about mapping each element of a list to a short list and
    concatenating the results, which is how a map followed by a filter
    is modelled. */
module Lists {
  /** The concatenation of `f` applied to each element, in order. */
  function FlatMap<A, B>(s: seq<A>, f: A -> seq<B>): (r: seq<B>) {
    if |s| == 0 then [] else FlatMap(s[..|s| - 1], f) + f(s[|s| - 1])
  }

  /** Mapping a joined list maps each part. */
  lemma {:induction false} FlatMapAppend<A, B>(s: seq<A>, t: seq<A>, f: A -> seq<B>)
    ensures FlatMap(s + t, f) == FlatMap(s, f) + FlatMap(t, f)
    decreases |t|
  {
    if |t| == 0 {
      assert s + t == s;
    } else {
      var init := t[..|t| - 1];
      FlatMapAppend(s, init, f);
      assert (s + t)[..|s + t| - 1] == s + init;
      assert (s + t)[|s + t| - 1] == t[|t| - 1];
    }
  }

  lemma FlatMapSingle<A, B>(x: A, f: A -> seq<B>)
    ensures FlatMap([x], f) == f(x)
  {
    assert [x][..0] == [];
  }

  /** An element of the result comes from `f` of some element of the list,
      and every such element is in the result. */
  lemma {:induction false} FlatMapMembers<A, B>(s: seq<A>, f: A -> seq<B>)
    ensures forall y :: y in FlatMap(s, f) <==> exists x :: x in s && y in f(x)
  {
    if |s| > 0 {
      var init, last := s[..|s| - 1], s[|s| - 1];
      FlatMapMembers(init, f);
      assert s == init + [last];
    }
  }

  /** Each element contributing at most one entry, the result is no
      longer than the list. */
  lemma {:induction false} FlatMapShort<A, B>(s: seq<A>, f: A -> seq<B>)
    requires forall x :: x in s ==> |f(x)| <= 1
    ensures |FlatMap(s, f)| <= |s|
  {
    if |s| > 0 {
      assert s[|s| - 1] in s;
      FlatMapShort(s[..|s| - 1], f);
    }
  }

  /** Three elements of which only the middle one contributes nothing. */
  lemma FlatMapDropsMiddle<A, B>(a: A, b: A, c: A, f: A -> seq<B>, x: B, y: B)
    requires FlatMap([a], f) == [x] && FlatMap([b], f) == [] && FlatMap([c], f) == [y]
    ensures FlatMap([a, b, c], f) == [x, y]
  {
    FlatMapAppend([a], [b], f);
    FlatMapAppend([a] + [b], [c], f);
    assert [a] + [b] + [c] == [a, b, c];
    assert [x] + [] + [y] == [x, y];
  }

  /** Two elements that contribute one entry each. */
  lemma FlatMapPair<A, B>(a: A, b: A, f: A -> seq<B>, x: B, y: B)
    requires FlatMap([a], f) == [x] && FlatMap([b], f) == [y]
    ensures FlatMap([a, b], f) == [x, y]
  {
    FlatMapAppend([a], [b], f);
    assert [a] + [b] == [a, b];
  }
}
