/** The functions of Go's `strings` package that the classifier relies on
    (`Index`, `Contains`, `Split`, `SplitAfter`), over single-byte
    characters and non-empty separators, with the facts the rest of the
    model needs about them. */
module GoStrings {

  /** `p` occurs in `s` starting at index `i`. */
  predicate OccursAt(s: string, p: string, i: nat)
  {
    i + |p| <= |s| && s[i..i + |p|] == p
  }

  /** The first index at or after `from` where `p` occurs in `s`, or -1. */
  function IndexFrom(s: string, p: string, from: nat): (r: int)
    ensures r == -1 || (from <= r && OccursAt(s, p, r))
    ensures forall i: nat :: from <= i && (r == -1 || i < r) ==> !OccursAt(s, p, i)
    decreases |s| - from
  {
    if from + |p| > |s| then -1
    else if OccursAt(s, p, from) then from
    else IndexFrom(s, p, from + 1)
  }

  /** `strings.Index`: the first index at which `p` occurs in `s`, or -1. */
  function Index(s: string, p: string): (r: int)
    ensures r >= 0 ==> OccursAt(s, p, r)
    ensures r >= 0 ==> forall i: nat :: i < r ==> !OccursAt(s, p, i)
    ensures r < 0 ==> r == -1 && forall i: nat :: !OccursAt(s, p, i)
  {
    IndexFrom(s, p, 0)
  }

  /** `strings.Contains`. */
  predicate Contains(s: string, p: string)
  {
    Index(s, p) >= 0
  }

  /** `strings.Split`: the pieces of `s` between the occurrences of `sep`,
      found left to right without overlap; empty pieces are kept. */
  function Split(s: string, sep: string): (r: seq<string>)
    requires sep != ""
    ensures |r| >= 1
    ensures |r| >= 2 <==> Contains(s, sep)
    decreases |s|
  {
    var i := Index(s, sep);
    if i < 0 then [s] else [s[..i]] + Split(s[i + |sep|..], sep)
  }

  /** `strings.SplitAfter`: like `Split`, but every piece but the last keeps
      the separator that ends it. */
  function SplitAfter(s: string, sep: string): (r: seq<string>)
    requires sep != ""
    ensures |r| >= 1
    ensures |r| >= 2 <==> Contains(s, sep)
    decreases |s|
  {
    var i := Index(s, sep);
    if i < 0 then [s] else [s[..i + |sep|]] + SplitAfter(s[i + |sep|..], sep)
  }

  /** `strings.Join`. */
  function Join(pieces: seq<string>, sep: string): string
    requires |pieces| >= 1
  {
    if |pieces| == 1 then pieces[0] else pieces[0] + sep + Join(pieces[1..], sep)
  }

  /** The pieces glued back together with nothing between them. */
  function Concat(pieces: seq<string>): string
  {
    if pieces == [] then "" else pieces[0] + Concat(pieces[1..])
  }

  /** The number of times `c` occurs in `s`. */
  function Count(s: string, c: char): nat
  {
    if s == "" then 0 else (if s[0] == c then 1 else 0) + Count(s[1..], c)
  }

  /** Where `p` is first found, `s` is the text before it, `p`, and the rest. */
  lemma SplitAtIndex(s: string, p: string)
    requires Index(s, p) >= 0
    ensures s == s[..Index(s, p)] + p + s[Index(s, p) + |p|..]
  {
    var i := Index(s, p);
    assert s[i..i + |p|] == p;
    assert s == s[..i] + s[i..i + |p|] + s[i + |p|..];
  }

  /** An occurrence with none before it is the one `Index` finds. */
  lemma IndexIs(s: string, p: string, n: nat)
    requires OccursAt(s, p, n)
    requires forall i: nat :: i < n ==> !OccursAt(s, p, i)
    ensures Index(s, p) == n
  {
  }

  /** An occurrence fixes the characters it covers. */
  lemma OccursChar(s: string, p: string, i: nat, j: nat)
    requires OccursAt(s, p, i) && j < |p|
    ensures s[i + j] == p[j]
  {
    assert s[i..i + |p|][j] == s[i + j];
  }

  /** An occurrence is the first one when no earlier character is the
      pattern's first character. */
  lemma FirstAt(s: string, p: string, n: nat)
    requires p != "" && OccursAt(s, p, n)
    requires forall i :: 0 <= i < n ==> s[i] != p[0]
    ensures Index(s, p) == n
  {
    forall i: nat | i < n ensures !OccursAt(s, p, i) {
      if OccursAt(s, p, i) {
        OccursChar(s, p, i, 0);
      }
    }
    IndexIs(s, p, n);
  }

  /** A pattern whose first character does not occur in a word does not
      occur in it. */
  lemma LeadAbsent(s: string, p: string)
    requires p != "" && p[0] !in s
    ensures !Contains(s, p)
  {
    forall i: nat | i + |p| <= |s| ensures !OccursAt(s, p, i) {
      assert s[i] in s;
      assert s[i..i + |p|][0] == s[i];
    }
  }

  /** An occurrence inside a prefix of `t` is an occurrence in `t`. */
  lemma OccursInPrefix(t: string, p: string, n: nat, i: nat)
    requires n <= |t|
    ensures OccursAt(t[..n], p, i) <==> OccursAt(t, p, i) && i + |p| <= n
  {
    if i + |p| <= n {
      assert t[..n][i..i + |p|] == t[i..i + |p|];
    }
  }

  /** A pattern whose first character occurs in it only there, found at
      `n` in `s` and not in `s[..n]`, occurs nowhere before `n`: an earlier
      occurrence either fits in `s[..n]` or overlaps `n` with a later
      character of the pattern. */
  lemma NoEarlier(s: string, p: string, n: nat)
    requires p != "" && n < |s| && s[n] == p[0] && p[0] !in p[1..]
    requires !Contains(s[..n], p)
    ensures forall i: nat :: i < n ==> !OccursAt(s, p, i)
  {
    forall i: nat | i < n ensures !OccursAt(s, p, i) {
      OccursInPrefix(s, p, n, i);
      if OccursAt(s, p, i) && n < i + |p| {
        OccursChar(s, p, i, n - i);
      }
    }
  }

  /** The first occurrence of `p` in a prefix of `t` is the first occurrence in
      `t` if that one ends inside the prefix, and there is none otherwise. */
  lemma IndexInPrefix(t: string, p: string, n: nat)
    requires n <= |t|
    ensures Index(t[..n], p) ==
      if Index(t, p) >= 0 && Index(t, p) + |p| <= n then Index(t, p) else -1
  {
    var j := Index(t, p);
    var k := Index(t[..n], p);
    if k >= 0 {
      OccursInPrefix(t, p, n, k);
      if j >= 0 && j < k {
        OccursInPrefix(t, p, n, j);
      }
    } else if j >= 0 && j + |p| <= n {
      OccursInPrefix(t, p, n, j);
    }
  }

  /** Round trip: joining the pieces of `Split` with the separator gives back
      the input. */
  lemma {:induction false} SplitJoin(s: string, sep: string)
    requires sep != ""
    ensures Join(Split(s, sep), sep) == s
    decreases |s|
  {
    var i := Index(s, sep);
    if i >= 0 {
      var rest := s[i + |sep|..];
      SplitJoin(rest, sep);
      SplitAtIndex(s, sep);
    }
  }

  /** No piece of `Split` contains the separator. */
  lemma {:induction false} SplitPiecesLackSep(s: string, sep: string)
    requires sep != ""
    ensures forall k :: 0 <= k < |Split(s, sep)| ==> !Contains(Split(s, sep)[k], sep)
    decreases |s|
  {
    var i := Index(s, sep);
    if i >= 0 {
      SplitPiecesLackSep(s[i + |sep|..], sep);
      IndexInPrefix(s, sep, i);
    }
  }

  /** The first piece of `Split` is the text before the first separator. */
  lemma SplitHead(s: string, sep: string)
    requires sep != ""
    ensures Split(s, sep)[0] == if Contains(s, sep) then s[..Index(s, sep)] else s
  {
  }

  /** Round trip: the pieces of `SplitAfter` concatenate to the input. */
  lemma {:induction false} SplitAfterConcat(s: string, sep: string)
    requires sep != ""
    ensures Concat(SplitAfter(s, sep)) == s
    decreases |s|
  {
    var i := Index(s, sep);
    if i >= 0 {
      var rest := s[i + |sep|..];
      SplitAfterConcat(rest, sep);
      SplitAtIndex(s, sep);
      assert s == s[..i + |sep|] + rest;
    }
  }

  /** The second piece of `SplitAfter`: the text after the first separator,
      up to and including the next separator, or to the end. */
  lemma SplitAfterSecond(s: string, sep: string)
    requires sep != "" && Contains(s, sep)
    ensures
      var rest := s[Index(s, sep) + |sep|..];
      SplitAfter(s, sep)[1] ==
        if Contains(rest, sep) then rest[..Index(rest, sep) + |sep|] else rest
  {
  }

  lemma {:induction false} CountAppend(a: string, b: string, c: char)
    ensures Count(a + b, c) == Count(a, c) + Count(b, c)
  {
    if a != "" {
      assert (a + b)[1..] == a[1..] + b;
      CountAppend(a[1..], b, c);
    } else {
      assert a + b == b;
    }
  }

  lemma {:induction false} CountAbsent(s: string, c: char)
    requires forall j :: 0 <= j < |s| ==> s[j] != c
    ensures Count(s, c) == 0
  {
    if s != "" {
      CountAbsent(s[1..], c);
    }
  }

  /** Splitting on a one-character separator gives one piece more than the
      number of times that character occurs, empty pieces included. */
  lemma {:induction false} SplitCount(s: string, c: char)
    ensures |Split(s, [c])| == Count(s, c) + 1
    decreases |s|
  {
    var i := Index(s, [c]);
    if i < 0 {
      forall j | 0 <= j < |s| ensures s[j] != c {
        assert !OccursAt(s, [c], j);
        assert s[j..j + 1] == [s[j]];
      }
      CountAbsent(s, c);
    } else {
      var rest := s[i + 1..];
      SplitCount(rest, c);
      SplitAtIndex(s, [c]);
      forall j | 0 <= j < i ensures s[..i][j] != c {
        assert !OccursAt(s, [c], j);
        assert s[j..j + 1] == [s[j]];
      }
      CountAbsent(s[..i], c);
      CountAppend(s[..i], [c] + rest, c);
      CountAppend([c], rest, c);
      assert s[..i] + [c] + rest == s[..i] + ([c] + rest);
    }
  }

  /** Round trip the other way: splitting words that lack a one-character
      separator, joined with it, gives the words back. */
  lemma {:induction false} JoinSplit(words: seq<string>, c: char)
    requires |words| >= 1
    requires forall k :: 0 <= k < |words| ==> c !in words[k]
    ensures Split(Join(words, [c]), [c]) == words
    decreases |words|
  {
    var w := words[0];
    if |words| == 1 {
      LeadAbsent(w, [c]);
    } else {
      var rest := Join(words[1..], [c]);
      var s := w + [c] + rest;
      assert Join(words, [c]) == s;
      forall i | 0 <= i < |w| ensures s[i] != c {
        assert s[i] == w[i] && w[i] in w;
      }
      assert s[|w|..|w| + 1] == [c];
      FirstAt(s, [c], |w|);
      assert s[|w| + 1..] == rest && s[..|w|] == w;
      assert Split(s, [c]) == [w] + Split(rest, [c]);
      JoinSplit(words[1..], c);
      assert words == [w] + words[1..];
    }
  }
}
