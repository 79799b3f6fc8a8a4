/** The emoticon classifier, `parseEmoticon` in parse.go: the scanner as a
    method, the state it reaches after each character as declarative
    functions, and what the test vectors of test.go rely on. Characters are
    single bytes, so a character's index and its byte offset agree. */
module Emoticon {
  import opened Types

  /** The characters that interrupt an emoticon (`brkChars` of
      `parseEmoticon`): the mention set without `)`. It still holds `(`,
      which never acts as a break because `(` is checked first. */
  const EmoticonBreak: set<char> := {',', ';', '-', '.', '!', '?', '/', '@', '<', '>', '[', ']', '{', '}', '_', '=', '+', '#', '$', '%', '^', '&', '*', '(', '\'', '"', '\\'}

  /** The index at which the scan gives up on a long word. */
  const ScanLimit: nat := 14

  /** A character that an open emoticon keeps. */
  predicate IsContent(c: char)
  {
    c != ')' && c !in EmoticonBreak
  }

  /** The `found` flag after the first `j` characters: set by `(`, cleared by
      a break character, left alone by anything else. */
  function Open(s: string, j: nat): bool
    requires j <= |s|
    decreases j
  {
    if j == 0 then false
    else if s[j - 1] == '(' then true
    else if s[j - 1] in EmoticonBreak then false
    else Open(s, j - 1)
  }

  /** The `val` accumulated over the first `n` characters: every content
      character read while the flag is set. */
  function Content(s: string, n: nat): string
    requires n <= |s|
    decreases n
  {
    if n == 0 then ""
    else Content(s, n - 1) + (if Open(s, n - 1) && IsContent(s[n - 1]) then [s[n - 1]] else "")
  }

  /** A `)` read while the flag is set: it ends the scan. */
  predicate IsClose(s: string, q: nat)
    requires q < |s|
  {
    s[q] == ')' && Open(s, q)
  }

  /** The first close at or after `from`, or |s| when there is none. */
  function CloseFrom(s: string, from: nat): (q: nat)
    requires from <= |s|
    ensures from <= q <= |s|
    ensures q < |s| ==> IsClose(s, q)
    ensures forall k: nat :: from <= k < q ==> !IsClose(s, k)
    decreases |s| - from
  {
    if from == |s| || IsClose(s, from) then from else CloseFrom(s, from + 1)
  }

  /** What `parseEmoticon` reports: the state at the first close (or at the
      end of the word), except that a word still unresolved when index
      `ScanLimit` is reached gives nothing. */
  function EmoticonOf(s: string): EmoticonBack
  {
    var q := CloseFrom(s, 0);
    if |s| > ScanLimit && q >= ScanLimit then EmoticonBack("", false)
    else EmoticonBack(Content(s, q), Open(s, q))
  }

  /** The scanner of `parseEmoticon`, as written: the cut-off test at index
      14 first, then `(` sets the flag, and while it is set `)` breaks, a
      content character is appended and a break character clears the flag. */
  method ParseEmoticon(str: string) returns (eb: EmoticonBack)
    ensures eb == EmoticonOf(str)
  {
    var found := false;
    var val := "";
    ghost var q := CloseFrom(str, 0);
    for i := 0 to |str|
      invariant i <= q && i <= ScanLimit
      invariant found == Open(str, i) && val == Content(str, i)
    {
      if i == ScanLimit {
        val := "";
        found := false;
        break;
      }
      var c := str[i];
      if c == '(' {
        found := true;
        continue;
      }
      if found {
        if c == ')' {
          assert IsClose(str, i);
          break;
        } else if c !in EmoticonBreak {
          val := val + [c];
        } else {
          found := false;
        }
      }
    }
    eb := EmoticonBack(val, found);
  }

  /** Before the first `(` the flag is clear and nothing is kept. */
  lemma {:induction false} ClosedBefore(s: string, a: nat, j: nat)
    requires j <= a <= |s|
    requires forall k :: 0 <= k < a ==> s[k] != '('
    ensures !Open(s, j) && Content(s, j) == ""
    decreases j
  {
    if j > 0 {
      ClosedBefore(s, a, j - 1);
    }
  }

  /** After a `(` at index `a`, a run of content characters keeps the flag
      set and is appended to the value as it stands. */
  lemma {:induction false} InsideRun(s: string, a: nat, j: nat)
    requires a < j <= |s| && s[a] == '('
    requires forall k :: a < k < j ==> IsContent(s[k])
    ensures Open(s, j) && Content(s, j) == Content(s, a) + s[a + 1..j]
    decreases j
  {
    if j == a + 1 {
      assert !IsContent('(');
    } else {
      InsideRun(s, a, j - 1);
      assert s[a + 1..j] == s[a + 1..j - 1] + [s[j - 1]];
    }
  }

  /** Every kept character is a content character, so a value never holds a
      parenthesis or a break character. */
  lemma {:induction false} ContentClean(s: string, n: nat)
    requires n <= |s|
    ensures forall c :: c in Content(s, n) ==> IsContent(c)
    decreases n
  {
    if n > 0 {
      ContentClean(s, n - 1);
    }
  }

  /** The first character is never kept, so the value is shorter than the
      text scanned. */
  lemma {:induction false} ContentLength(s: string, n: nat)
    requires 1 <= n <= |s|
    ensures |Content(s, n)| <= n - 1
    decreases n
  {
    if n > 1 {
      ContentLength(s, n - 1);
    }
  }

  /** An emoticon holds only content characters and at most 13 of them, and a
      found emoticon ended at a `)` or at the end of the word. */
  lemma EmoticonValue(s: string)
    ensures forall c :: c in EmoticonOf(s).val ==> IsContent(c)
    ensures |EmoticonOf(s).val| < ScanLimit
    ensures EmoticonOf(s).found ==> CloseFrom(s, 0) < ScanLimit || |s| <= ScanLimit
  {
    var q := CloseFrom(s, 0);
    if !(|s| > ScanLimit && q >= ScanLimit) {
      ContentClean(s, q);
      if q >= 1 {
        ContentLength(s, q);
      }
    }
  }

  /** The cut-off: a word longer than 14 characters with no close among its
      first 14 gives nothing, however it goes on
      (`(123456789101112131415)` of test.go). */
  lemma CutOff(s: string)
    requires |s| > ScanLimit
    requires forall k: nat :: k < ScanLimit ==> !IsClose(s, k)
    ensures EmoticonOf(s) == EmoticonBack("", false)
  {
  }

  /** On indices: no `(` before `a`, a `(` at `a`, content on `(a, e)` and a
      `)` at `e` before the cut-off: the emoticon is the text between. */
  lemma EmoticonRun(s: string, a: nat, e: nat)
    requires a < e < |s| && e < ScanLimit
    requires forall k :: 0 <= k < a ==> s[k] != '('
    requires s[a] == '(' && s[e] == ')'
    requires forall k :: a < k < e ==> IsContent(s[k])
    ensures EmoticonOf(s) == EmoticonBack(s[a + 1..e], true)
  {
    ClosedBefore(s, a, a);
    InsideRun(s, a, e);
    forall k: nat | k < e ensures !IsClose(s, k) {
      if k < a {
        ClosedBefore(s, a, k);
      }
    }
    assert IsClose(s, e);
  }

  /** Text without `(`, then `(`, content and `)`, within the first 14
      characters: the content is found, whatever follows
      (`f!(kris),`, `(kjersti)`, `(megusta)`, `(success)` of test.go). */
  lemma Bracketed(pre: string, t: string, rest: string)
    requires '(' !in pre
    requires forall c :: c in t ==> IsContent(c)
    requires |pre| + |t| + 1 < ScanLimit
    ensures EmoticonOf(pre + "(" + t + ")" + rest) == EmoticonBack(t, true)
  {
    var s := pre + "(" + t + ")" + rest;
    var a := |pre|;
    var e := a + 1 + |t|;
    forall k | 0 <= k < a ensures s[k] != '(' {
      assert s[k] == pre[k] && pre[k] in pre;
    }
    forall k | a < k < e ensures IsContent(s[k]) {
      assert s[k] == t[k - a - 1] && t[k - a - 1] in t;
    }
    assert s[a] == '(' && s[e] == ')';
    EmoticonRun(s, a, e);
    assert s[a + 1..e] == t;
  }

  /** No closing `)` is needed, on indices: no `(` before `a`, a `(` at `a`
      and content to the end of a word of at most 14 characters. */
  lemma UnclosedRun(s: string, a: nat)
    requires a < |s| <= ScanLimit
    requires forall k :: 0 <= k < a ==> s[k] != '('
    requires s[a] == '('
    requires forall k :: a < k < |s| ==> IsContent(s[k])
    ensures EmoticonOf(s) == EmoticonBack(s[a + 1..], true)
  {
    ClosedBefore(s, a, a);
    InsideRun(s, a, |s|);
    forall k: nat | k < |s| ensures !IsClose(s, k) {
      if k < a {
        ClosedBefore(s, a, k);
      }
    }
  }

  /** A word that ends inside an open emoticon, within 14 characters,
      reports it as found (`(abc`). */
  lemma Unclosed(pre: string, t: string)
    requires '(' !in pre
    requires forall c :: c in t ==> IsContent(c)
    requires |pre| + |t| + 1 <= ScanLimit
    ensures EmoticonOf(pre + "(" + t) == EmoticonBack(t, true)
  {
    var s := pre + "(" + t;
    var a := |pre|;
    forall k | 0 <= k < a ensures s[k] != '(' {
      assert s[k] == pre[k] && pre[k] in pre;
    }
    forall k | a < k < |s| ensures IsContent(s[k]) {
      assert s[k] == t[k - a - 1] && t[k - a - 1] in t;
    }
    assert s[a] == '(';
    UnclosedRun(s, a);
    assert s[a + 1..] == t;
  }

  /** Once the flag is clear, text without `(` leaves the state as it is. */
  lemma {:induction false} StaysClosed(s: string, b: nat, j: nat)
    requires b < j <= |s| && !Open(s, b + 1)
    requires forall k :: b < k < j ==> s[k] != '('
    ensures !Open(s, j) && Content(s, j) == Content(s, b + 1)
    decreases j
  {
    if j > b + 1 {
      StaysClosed(s, b, j - 1);
    }
  }

  /** Right after the break character at `e`, the flag is clear and the
      value holds the content read since the `(` at `a`. */
  lemma BreakState(s: string, a: nat, e: nat)
    requires a < e < |s|
    requires forall k :: 0 <= k < a ==> s[k] != '('
    requires s[a] == '('
    requires forall k :: a < k < e ==> IsContent(s[k])
    requires s[e] in EmoticonBreak && s[e] != '('
    ensures !Open(s, e + 1) && Content(s, e + 1) == s[a + 1..e]
  {
    ClosedBefore(s, a, a);
    InsideRun(s, a, e);
    assert !IsContent(s[e]);
  }

  /** No `)` is ever read with the flag set: none before the `(` at `a`,
      none inside the run of content, and none after the break at `e`. */
  lemma BreakNoClose(s: string, a: nat, e: nat)
    requires a < e < |s|
    requires forall k :: 0 <= k < a ==> s[k] != '('
    requires s[a] == '('
    requires forall k :: a < k < e ==> IsContent(s[k])
    requires s[e] in EmoticonBreak && !Open(s, e + 1)
    requires forall k :: e < k < |s| ==> s[k] != '('
    ensures CloseFrom(s, 0) == |s|
  {
    forall k: nat | k < |s| ensures !IsClose(s, k) {
      if k < a {
        ClosedBefore(s, a, k);
      } else if e < k {
        StaysClosed(s, e, k);
      } else if a < k < e {
        assert IsContent(s[k]);
      }
    }
  }

  /** A break character clears the flag but keeps the value, on indices: no
      `(` before `a` or after `e`, a `(` at `a`, content on `(a, e)`, a break
      character at `e`, in a word of at most 14 characters. */
  lemma BreakRun(s: string, a: nat, e: nat)
    requires a < e < |s| <= ScanLimit
    requires forall k :: 0 <= k < a ==> s[k] != '('
    requires s[a] == '('
    requires forall k :: a < k < e ==> IsContent(s[k])
    requires s[e] in EmoticonBreak && s[e] != '('
    requires forall k :: e < k < |s| ==> s[k] != '('
    ensures EmoticonOf(s) == EmoticonBack(s[a + 1..e], false)
  {
    BreakState(s, a, e);
    StaysClosed(s, e, |s|);
    BreakNoClose(s, a, e);
  }

  /** With no later `(`, the word reports the text read before the break as
      not found (`(kris!` gives `kris`, not found). */
  lemma BreakKeepsVal(pre: string, t: string, b: char, rest: string)
    requires '(' !in pre && '(' !in rest
    requires forall c :: c in t ==> IsContent(c)
    requires b in EmoticonBreak && b != '('
    requires |pre| + |t| + 2 + |rest| <= ScanLimit
    ensures EmoticonOf(pre + "(" + t + [b] + rest) == EmoticonBack(t, false)
  {
    var s := pre + "(" + t + [b] + rest;
    var a := |pre|;
    var e := a + 1 + |t|;
    forall k | 0 <= k < a ensures s[k] != '(' {
      assert s[k] == pre[k] && pre[k] in pre;
    }
    forall k | a < k < e ensures IsContent(s[k]) {
      assert s[k] == t[k - a - 1] && t[k - a - 1] in t;
    }
    forall k | e < k < |s| ensures s[k] != '(' {
      assert s[k] == rest[k - e - 1] && rest[k - e - 1] in rest;
    }
    assert s[a] == '(' && s[e] == b;
    BreakRun(s, a, e);
    assert s[a + 1..e] == t;
  }

  /** No `(` at the indices `i <= k < j` of `s`. */
  predicate OpenFree(s: string, i: nat, j: nat)
    requires j <= |s|
  {
    forall k :: i <= k < j ==> s[k] != '('
  }

  /** Only content at the indices `i <= k < j` of `s`. */
  predicate ContentOn(s: string, i: nat, j: nat)
    requires j <= |s|
  {
    forall k :: i <= k < j ==> IsContent(s[k])
  }

  /** After a break at `e`, text without `(` up to a second `(` at `c`
      and a run of content from there: the flag is set again and the value
      is the text kept before the break followed by the new run. */
  lemma ResumedState(s: string, a: nat, e: nat, c: nat, z: nat)
    requires a < e < c < z <= |s|
    requires forall k :: 0 <= k < a ==> s[k] != '('
    requires s[a] == '(' && s[c] == '('
    requires forall k :: a < k < e ==> IsContent(s[k])
    requires s[e] in EmoticonBreak && s[e] != '('
    requires forall k :: e < k < c ==> s[k] != '('
    requires forall k :: c < k < z ==> IsContent(s[k])
    ensures Open(s, z) && Content(s, z) == s[a + 1..e] + s[c + 1..z]
  {
    BreakState(s, a, e);
    StaysClosed(s, e, c);
    InsideRun(s, c, z);
  }

  /** In such a word no `)` is read with the flag set before index `z`. */
  lemma ResumedNoClose(s: string, a: nat, e: nat, c: nat, z: nat)
    requires a < e < c < z <= |s|
    requires forall k :: 0 <= k < a ==> s[k] != '('
    requires s[a] == '(' && s[c] == '('
    requires forall k :: a < k < e ==> IsContent(s[k])
    requires s[e] in EmoticonBreak && !Open(s, e + 1)
    requires forall k :: e < k < c ==> s[k] != '('
    requires forall k :: c < k < z ==> IsContent(s[k])
    ensures forall k: nat :: k < z ==> !IsClose(s, k)
  {
    forall k: nat | k < z ensures !IsClose(s, k) {
      if k < a {
        ClosedBefore(s, a, k);
      } else if e < k < c {
        StaysClosed(s, e, k);
      } else if a < k < e || c < k {
        assert IsContent(s[k]);
      }
    }
  }

  /** A break does not end the scan, on indices: a later `(` sets the flag
      again, and the emoticon closed by `)` at `z` is the text read before
      the break followed by the text after the second `(`. */
  lemma ResumedRun(s: string, a: nat, e: nat, c: nat, z: nat)
    requires a < e < c < z < |s| && z < ScanLimit
    requires OpenFree(s, 0, a) && ContentOn(s, a + 1, e)
    requires OpenFree(s, e + 1, c) && ContentOn(s, c + 1, z)
    requires s[a] == '(' && s[c] == '(' && s[z] == ')'
    requires s[e] in EmoticonBreak && s[e] != '('
    ensures EmoticonOf(s) == EmoticonBack(s[a + 1..e] + s[c + 1..z], true)
  {
    BreakState(s, a, e);
    ResumedState(s, a, e, c, z);
    ResumedNoClose(s, a, e, c, z);
    assert IsClose(s, z);
  }

  /** Where the pieces of `pre ( t1 b mid ( t2 ) rest` sit, on indices. */
  lemma ResumedLayout(s: string, pre: string, t1: string, b: char, mid: string, t2: string, rest: string)
    requires s == pre + "(" + t1 + [b] + mid + "(" + t2 + ")" + rest
    requires '(' !in pre && '(' !in mid
    requires forall ch :: ch in t1 ==> IsContent(ch)
    requires forall ch :: ch in t2 ==> IsContent(ch)
    ensures OpenFree(s, 0, |pre|) && ContentOn(s, |pre| + 1, |pre| + 1 + |t1|)
    ensures OpenFree(s, |pre| + 2 + |t1|, |pre| + 2 + |t1| + |mid|)
    ensures ContentOn(s, |pre| + 3 + |t1| + |mid|, |pre| + 3 + |t1| + |mid| + |t2|)
    ensures s[|pre|] == '(' && s[|pre| + 1 + |t1|] == b
    ensures s[|pre| + 2 + |t1| + |mid|] == '(' && s[|pre| + 3 + |t1| + |mid| + |t2|] == ')'
    ensures s[|pre| + 1..|pre| + 1 + |t1|] == t1
    ensures s[|pre| + 3 + |t1| + |mid|..|pre| + 3 + |t1| + |mid| + |t2|] == t2
  {
    var a := |pre|;
    var e := a + 1 + |t1|;
    var c := e + 1 + |mid|;
    var z := c + 1 + |t2|;
    forall k | 0 <= k < a ensures s[k] != '(' {
      assert s[k] == pre[k] && pre[k] in pre;
    }
    forall k | a < k < e ensures IsContent(s[k]) {
      assert s[k] == t1[k - a - 1] && t1[k - a - 1] in t1;
    }
    forall k | e < k < c ensures s[k] != '(' {
      assert s[k] == mid[k - e - 1] && mid[k - e - 1] in mid;
    }
    forall k | c < k < z ensures IsContent(s[k]) {
      assert s[k] == t2[k - c - 1] && t2[k - c - 1] in t2;
    }
  }

  /** The same on strings: `(ab!xy(cd)` gives `abcd`, found. */
  lemma Resumed(pre: string, t1: string, b: char, mid: string, t2: string, rest: string)
    requires '(' !in pre && '(' !in mid
    requires forall ch :: ch in t1 ==> IsContent(ch)
    requires forall ch :: ch in t2 ==> IsContent(ch)
    requires b in EmoticonBreak && b != '('
    requires |pre| + |t1| + |mid| + |t2| + 3 < ScanLimit
    ensures EmoticonOf(pre + "(" + t1 + [b] + mid + "(" + t2 + ")" + rest) ==
      EmoticonBack(t1 + t2, true)
  {
    var s := pre + "(" + t1 + [b] + mid + "(" + t2 + ")" + rest;
    ResumedLayout(s, pre, t1, b, mid, t2, rest);
    var a := |pre|;
    var e := a + 1 + |t1|;
    var c := e + 1 + |mid|;
    var z := c + 1 + |t2|;
    ResumedRun(s, a, e, c, z);
  }

  /** A word without `(` never holds an emoticon (`a`, `asf`, `Good`, and the
      empty words between repeated spaces). */
  lemma NoParen(s: string)
    requires '(' !in s
    ensures EmoticonOf(s) == EmoticonBack("", false)
  {
    forall k | 0 <= k < |s| ensures s[k] != '(' {
      assert s[k] in s;
    }
    ClosedBefore(s, |s|, |s|);
    forall k: nat | k < |s| ensures !IsClose(s, k) {
      ClosedBefore(s, |s|, k);
    }
  }

  /** A word longer than 14 characters without `)` never holds an emoticon:
      the scan runs into the cut-off (`a!@#!(*http://google.com`). */
  lemma NoCloseLong(s: string)
    requires |s| > ScanLimit && ')' !in s
    ensures EmoticonOf(s) == EmoticonBack("", false)
  {
    forall k: nat | k < ScanLimit ensures !IsClose(s, k) {
      assert s[k] in s;
    }
    CutOff(s);
  }
}
