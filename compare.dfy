/** `compare` of test.go: whether every value the expected response lists
    occurs in the same list of the actual response. Links are compared by
    `ToHash`, an MD5 sum of the whole struct, which here is equality of URL
    and title. */
module ResponseCompare {
  import opened Types

  /** Every element of `xs` occurs in `ys`. */
  predicate AllIn<T(==)>(xs: seq<T>, ys: seq<T>)
  {
    forall i :: 0 <= i < |xs| ==> xs[i] in ys
  }

  /** What `compare(a, b)` decides: `a` lists something, and each of its
      mentions, emoticons and links occurs in the same list of `b`. */
  predicate Matches(a: Response, b: Response)
  {
    && |a.mentions| + |a.emoticons| + |a.links| > 0
    && AllIn(a.mentions, b.mentions)
    && AllIn(a.emoticons, b.emoticons)
    && AllIn(a.links, b.links)
  }

  /** The inner loop of `compare`: clear the flag, then set it and stop at
      the first element equal to `x`. */
  method Search<T(==)>(x: T, ys: seq<T>) returns (f: bool)
    ensures f <==> x in ys
  {
    f := false;
    for j := 0 to |ys|
      invariant !f ==> x !in ys[..j]
    {
      if x == ys[j] {
        f := true;
        break;
      }
      assert ys[..j + 1] == ys[..j] + [ys[j]];
    }
    assert !f ==> ys[..|ys|] == ys;
  }

  /** `compare`, as written: one outer loop per list with the flag `f`
      shared by all three, an early return of `f` when an element is
      missing, and `f` itself returned at the end, which is still false
      when `a` lists nothing. */
  method Compare(a: Response, b: Response) returns (result: bool)
    ensures result == Matches(a, b)
  {
    var f := false;
    for i := 0 to |a.mentions|
      invariant AllIn(a.mentions[..i], b.mentions)
      invariant f == (i > 0)
    {
      f := Search(a.mentions[i], b.mentions);
      if !f {
        return f;
      }
    }
    assert a.mentions[..|a.mentions|] == a.mentions;
    for i := 0 to |a.emoticons|
      invariant AllIn(a.emoticons[..i], b.emoticons)
      invariant f == (|a.mentions| > 0 || i > 0)
    {
      f := Search(a.emoticons[i], b.emoticons);
      if !f {
        return f;
      }
    }
    assert a.emoticons[..|a.emoticons|] == a.emoticons;
    for i := 0 to |a.links|
      invariant AllIn(a.links[..i], b.links)
      invariant f == (|a.mentions| + |a.emoticons| > 0 || i > 0)
    {
      f := Search(a.links[i], b.links);
      if !f {
        return f;
      }
    }
    assert a.links[..|a.links|] == a.links;
    return f;
  }

  /** An expected response that lists nothing never matches, not even an
      empty actual response. */
  lemma EmptyExpected(b: Response)
    ensures !Matches(EmptyResponse, b)
  {
  }

  /** Containment is preserved by a larger list. */
  lemma AllInWider<T>(xs: seq<T>, ys: seq<T>, zs: seq<T>)
    requires AllIn(xs, ys) && AllIn(ys, zs)
    ensures AllIn(xs, zs)
  {
    forall i | 0 <= i < |xs| ensures xs[i] in zs {
      var j :| 0 <= j < |ys| && ys[j] == xs[i];
    }
  }

  /** One direction only: values of `b` that `a` does not list never make
      the comparison fail, so a `b` that lists more still matches. */
  lemma ExtraActual(a: Response, b: Response, b': Response)
    requires Matches(a, b)
    requires AllIn(b.mentions, b'.mentions) && AllIn(b.emoticons, b'.emoticons)
    requires AllIn(b.links, b'.links)
    ensures Matches(a, b')
  {
    AllInWider(a.mentions, b.mentions, b'.mentions);
    AllInWider(a.emoticons, b.emoticons, b'.emoticons);
    AllInWider(a.links, b.links, b'.links);
  }

  /** Containment in a list depends only on its elements, each as often. */
  lemma AllInReordered<T>(xs: seq<T>, ys: seq<T>, ys': seq<T>)
    requires multiset(ys) == multiset(ys')
    ensures AllIn(xs, ys) <==> AllIn(xs, ys')
  {
    forall x ensures x in ys <==> x in ys' {
      assert x in ys <==> x in multiset(ys);
      assert x in ys' <==> x in multiset(ys');
    }
  }

  /** The order of `b`'s lists does not matter, so neither does the order in
      which `ParseString` received the reports. */
  lemma ReorderedActual(a: Response, b: Response, b': Response)
    requires multiset(b.mentions) == multiset(b'.mentions)
    requires multiset(b.emoticons) == multiset(b'.emoticons)
    requires multiset(b.links) == multiset(b'.links)
    ensures Matches(a, b) <==> Matches(a, b')
  {
    AllInReordered(a.mentions, b.mentions, b'.mentions);
    AllInReordered(a.emoticons, b.emoticons, b'.emoticons);
    AllInReordered(a.links, b.links, b'.links);
  }

  /** Two links match only when both their URL and their title agree: the
      same URL with another title does not. */
  lemma LinksByHash(l: Link, l': Link)
    ensures Matches(Response([], [], [l]), Response([], [], [l'])) <==> l.url == l'.url && l.title == l'.title
  {
    assert [l][0] == l;
  }
}
