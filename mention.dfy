/** The mention classifier, `parseMention` in parse.go: the scanner itself as
    a method, the text it captures as a declarative function, and what the
    test vectors of test.go rely on. Characters are single bytes, so a
    character's index and its byte offset agree. */
module Mention {
  import opened Types

  /** The characters that end a mention (`brkChars` of `parseMention`), `@`
      among them; membership in this set is `strings.Contains(brkChars, char)`
      for a one-character `char`. */
  const MentionBreak: set<char> := {',', ';', '-', '.', '!', '?', '/', '@', '<', '>', '[', ']', '{', '}', '_', '=', '+', '#', '$', '%', '^', '&', '*', '(', ')', '\'', '"', '\\'}

  /** An `@` that is not the last character: it switches capture on, and
      later in the word it is skipped without ending the capture. */
  predicate IsStart(s: string, i: nat)
    requires i < |s|
  {
    s[i] == '@' && i != |s| - 1
  }

  /** A character that ends a capture: a break character other than an `@`
      that starts (so a final `@` does end it). */
  predicate IsStop(s: string, i: nat)
    requires i < |s|
  {
    s[i] in MentionBreak && !IsStart(s, i)
  }

  /** The first start at or after `from`, or |s| when there is none. */
  function StartFrom(s: string, from: nat): (p: nat)
    requires from <= |s|
    ensures from <= p <= |s|
    ensures p < |s| ==> IsStart(s, p)
    ensures forall k: nat :: from <= k < p ==> !IsStart(s, k)
    decreases |s| - from
  {
    if from == |s| || IsStart(s, from) then from else StartFrom(s, from + 1)
  }

  /** The first stop at or after `from`, or |s| when there is none. */
  function StopFrom(s: string, from: nat): (q: nat)
    requires from <= |s|
    ensures from <= q <= |s|
    ensures q < |s| ==> IsStop(s, q)
    ensures forall k: nat :: from <= k < q ==> !IsStop(s, k)
    decreases |s| - from
  {
    if from == |s| || IsStop(s, from) then from else StopFrom(s, from + 1)
  }

  /** The characters of `s[lo..hi]` other than `@`: what a capture over that
      window collects, since every `@` inside a capture is a skipped start. */
  function Captured(s: string, lo: nat, hi: nat): string
    requires lo <= hi <= |s|
    decreases hi
  {
    if hi == lo then "" else Captured(s, lo, hi - 1) + (if s[hi - 1] == '@' then "" else [s[hi - 1]])
  }

  /** What `parseMention` reports: the text after the first non-final `@` up
      to the first stop, without the `@`s it skips, found when not empty. */
  function MentionOf(s: string): MentionBack
  {
    var p := StartFrom(s, 0);
    if p == |s| then MentionBack("", false)
    else
      var v := Captured(s, p + 1, StopFrom(s, p + 1));
      MentionBack(v, v != "")
  }

  /** The scanner of `parseMention`, as written: a loop over the characters
      with `found` and `val`, `continue` on a starting `@`, `break` on a
      break character once capture is on. */
  method ParseMention(str: string) returns (mb: MentionBack)
    ensures mb == MentionOf(str)
  {
    var found := false;
    var l := |str|;
    var li := l - 1;
    var val := "";
    ghost var p := StartFrom(str, 0);
    ghost var q := if p < |str| then StopFrom(str, p + 1) else |str|;
    for i := 0 to |str|
      invariant !found ==> i <= p && val == ""
      invariant found ==> p < i <= q && val == Captured(str, p + 1, i)
    {
      var c := str[i];
      if c == '@' && i != li {
        StepStart(str, i, found);
        found := true;
        continue;
      }
      if found {
        if c !in MentionBreak {
          StepKeep(str, i);
          val := val + [c];
        } else {
          StepStop(str, i);
          break;
        }
      } else {
        StepIdle(str, i);
      }
    }
    if |val| < 1 {
      found := false;
    }
    mb := MentionBack(val, found);
  }

  /** One step of the scan at a starting `@`: it is the first start when
      capture is still off, and a skipped start inside a capture. */
  lemma StepStart(s: string, i: nat, found: bool)
    requires i < |s| && IsStart(s, i)
    requires var p := StartFrom(s, 0);
      (!found ==> i <= p) && (found ==> p < i <= StopFrom(s, p + 1))
    ensures var p := StartFrom(s, 0);
      p <= i && i + 1 <= StopFrom(s, p + 1)
    ensures var p := StartFrom(s, 0);
      !found ==> p == i
    ensures var p := StartFrom(s, 0);
      found ==> Captured(s, p + 1, i + 1) == Captured(s, p + 1, i)
  {
    var p := StartFrom(s, 0);
    if found {
      assert !IsStop(s, i);
    }
  }

  /** One step of the scan at a kept character inside a capture. */
  lemma StepKeep(s: string, i: nat)
    requires i < |s| && s[i] !in MentionBreak
    requires var p := StartFrom(s, 0); p < i <= StopFrom(s, p + 1)
    ensures var p := StartFrom(s, 0);
      i + 1 <= StopFrom(s, p + 1) && Captured(s, p + 1, i + 1) == Captured(s, p + 1, i) + [s[i]]
  {
    assert '@' in MentionBreak;
    assert !IsStop(s, i);
  }

  /** One step of the scan at a break character inside a capture: the
      capture ends here. */
  lemma StepStop(s: string, i: nat)
    requires i < |s| && s[i] in MentionBreak && !IsStart(s, i)
    requires var p := StartFrom(s, 0); p < i <= StopFrom(s, p + 1)
    ensures var p := StartFrom(s, 0); StopFrom(s, p + 1) == i
  {
    assert IsStop(s, i);
  }

  /** One step of the scan at a character other than a start while capture
      is off: the first start lies further on. */
  lemma StepIdle(s: string, i: nat)
    requires i < |s| && !IsStart(s, i)
    requires i <= StartFrom(s, 0)
    ensures i + 1 <= StartFrom(s, 0)
  {
  }

  /** A window whose `@`s are all skipped starts yields no break character. */
  lemma {:induction false} CapturedClean(s: string, lo: nat, hi: nat)
    requires lo <= hi <= |s|
    requires forall k :: lo <= k < hi ==> s[k] == '@' || s[k] !in MentionBreak
    ensures forall c :: c in Captured(s, lo, hi) ==> c !in MentionBreak
    decreases hi
  {
    if hi > lo {
      CapturedClean(s, lo, hi - 1);
    }
  }

  /** A run of `@`s followed by text without `@` captures exactly that text. */
  lemma {:induction false} CapturedRun(s: string, lo: nat, mid: nat, hi: nat)
    requires lo <= mid <= hi <= |s|
    requires forall k :: lo <= k < mid ==> s[k] == '@'
    requires forall k :: mid <= k < hi ==> s[k] != '@'
    ensures Captured(s, lo, hi) == s[mid..hi]
    decreases hi
  {
    if hi > mid {
      CapturedRun(s, lo, mid, hi - 1);
      assert s[mid..hi] == s[mid..hi - 1] + [s[hi - 1]];
    } else if hi > lo {
      CapturedRun(s, lo, hi - 1, hi - 1);
    }
  }

  /** A mention is found exactly when its value is not empty, and the value
      holds no break character, so in particular no `@`. */
  lemma MentionValue(s: string)
    ensures MentionOf(s).found <==> MentionOf(s).val != ""
    ensures forall c :: c in MentionOf(s).val ==> c !in MentionBreak
    ensures '@' !in MentionOf(s).val
  {
    var p := StartFrom(s, 0);
    if p < |s| {
      var q := StopFrom(s, p + 1);
      forall k | p + 1 <= k < q ensures s[k] == '@' || s[k] !in MentionBreak {
        assert !IsStop(s, k);
      }
      CapturedClean(s, p + 1, q);
    }
  }

  /** A word made only of `@`s gives no mention (`@@`, `@@@@` of test.go). */
  lemma OnlyAts(s: string)
    requires forall c :: c in s ==> c == '@'
    ensures MentionOf(s) == MentionBack("", false)
  {
    var p := StartFrom(s, 0);
    if p < |s| {
      var q := StopFrom(s, p + 1);
      assert forall k :: 0 <= k < |s| ==> s[k] in s;
      CapturedRun(s, p + 1, q, q);
    }
  }

  /** The first start is at `a` when `a` is a start and no `@` comes before. */
  lemma StartAt(s: string, a: nat)
    requires a < |s| && IsStart(s, a)
    requires forall k :: 0 <= k < a ==> s[k] != '@'
    ensures StartFrom(s, 0) == a
  {
  }

  /** The first stop from `from` is at `e` when nothing in between stops and
      `e` stops or is the end of the word. */
  lemma StopAt(s: string, from: nat, e: nat)
    requires from <= e <= |s|
    requires forall k: nat :: from <= k < e ==> !IsStop(s, k)
    requires e == |s| || IsStop(s, e)
    ensures StopFrom(s, from) == e
  {
  }

  /** The capture window of a word: the first `@` is at `a` and is a start,
      nothing between it and `e` stops, and `e` stops or ends the word. */
  lemma MentionWindow(s: string, a: nat, e: nat)
    requires a < e <= |s| && IsStart(s, a)
    requires forall k :: 0 <= k < a ==> s[k] != '@'
    requires forall k: nat :: a + 1 <= k < e ==> !IsStop(s, k)
    requires e == |s| || IsStop(s, e)
    ensures MentionOf(s) == MentionBack(Captured(s, a + 1, e), Captured(s, a + 1, e) != "")
  {
    StartAt(s, a);
    StopAt(s, a + 1, e);
  }

  /** The same, stated on indices: no `@` before `a`, a run of `@`s on
      `[a, a + m)`, text free of break characters on `[a + m, e)`, then a
      break character other than `@` or the end of the word. */
  lemma MentionRun(s: string, a: nat, m: nat, e: nat)
    requires 1 <= m && a + m < e <= |s|
    requires forall k :: 0 <= k < a ==> s[k] != '@'
    requires forall k :: a <= k < a + m ==> s[k] == '@'
    requires forall k :: a + m <= k < e ==> s[k] !in MentionBreak
    requires e == |s| || (s[e] in MentionBreak && s[e] != '@')
    ensures MentionOf(s) == MentionBack(s[a + m..e], true)
  {
    assert '@' in MentionBreak;
    assert IsStart(s, a);
    forall k: nat | a + 1 <= k < e ensures !IsStop(s, k) {
      if k < a + m {
        assert IsStart(s, k);
      }
    }
    MentionWindow(s, a, e);
    CapturedRun(s, a + 1, a + m, e);
  }

  /** After the text before it (with no `@`), a run of `@`s starts a capture:
      all of them are skipped, and the capture runs over text free of break
      characters up to a break character or the end of the word. Covers
      `@kris`, `asdf@kjersti,`, `-@charlie!`, `sdf@hank!` and `@@niche`. */
  lemma MentionAfterAts(pre: string, ats: string, t: string, rest: string)
    requires '@' !in pre
    requires |ats| >= 1 && forall c :: c in ats ==> c == '@'
    requires |t| >= 1 && forall c :: c in t ==> c !in MentionBreak
    requires rest == "" || (rest[0] in MentionBreak && rest[0] != '@')
    ensures MentionOf(pre + ats + t + rest) == MentionBack(t, true)
  {
    var s := pre + ats + t + rest;
    var a, m := |pre|, |ats|;
    var e := a + m + |t|;
    forall k | 0 <= k < a ensures s[k] != '@' {
      assert s[k] == pre[k] && pre[k] in pre;
    }
    forall k | a <= k < a + m ensures s[k] == '@' {
      assert s[k] == ats[k - a] && ats[k - a] in ats;
    }
    forall k | a + m <= k < e ensures s[k] !in MentionBreak {
      assert s[k] == t[k - a - m] && t[k - a - m] in t;
    }
    if rest != "" {
      assert s[e] == rest[0];
    }
    MentionRun(s, a, m, e);
    assert s[a + m..e] == t;
  }

  /** `Captured` only looks inside its window, so text appended after the
      word does not change it. */
  lemma {:induction false} CapturedExtend(s: string, x: string, lo: nat, hi: nat)
    requires lo <= hi <= |s|
    ensures Captured(s + x, lo, hi) == Captured(s, lo, hi)
    decreases hi
  {
    if hi > lo {
      CapturedExtend(s, x, lo, hi - 1);
      assert (s + x)[hi - 1] == s[hi - 1];
    }
  }

  /** An `@` as the last character never starts a capture: appending one to
      a word changes nothing that `parseMention` reports. */
  lemma FinalAtIgnored(s: string)
    ensures MentionOf(s + "@") == MentionOf(s)
  {
    var s' := s + "@";
    var n := |s|;
    assert forall k :: 0 <= k < n ==> s'[k] == s[k];
    assert s'[n] == '@' && |s'| == n + 1;
    var p := StartFrom(s, 0);
    if p < n {
      forall k | 0 <= k < p ensures s'[k] != '@' {
        assert !IsStart(s, k);
      }
      var q := StopFrom(s, p + 1);
      forall k: nat | p + 1 <= k < q ensures !IsStop(s', k) {
        assert !IsStop(s, k);
      }
      if q < n - 1 || (q == n - 1 && s[n - 1] != '@') {
        assert IsStop(s, q);
        assert IsStop(s', q);
        MentionWindow(s', p, q);
        CapturedExtend(s, "@", p + 1, q);
      } else {
        if q == n {
          assert !IsStop(s, n - 1) by {
            if n - 1 >= p + 1 {
              assert p + 1 <= n - 1 < q;
            }
          }
          assert !IsStop(s', n - 1);
        } else {
          assert IsStart(s', n - 1);
        }
        MentionWindow(s', p, n);
        CapturedExtend(s, "@", p + 1, q);
        if q == n - 1 {
          CapturedExtend(s, "@", p + 1, n - 1);
        }
      }
    } else if n >= 1 && s[n - 1] == '@' {
      forall k | 0 <= k < n - 1 ensures s'[k] != '@' {
        assert !IsStart(s, k);
      }
      assert IsStart(s', n - 1);
      MentionWindow(s', n - 1, n);
    } else {
      forall k: nat | k < |s'| ensures !IsStart(s', k) {
        if k < n - 1 {
          assert !IsStart(s, k);
        }
      }
    }
  }

  /** A break character right after the starting `@` ends the scan for good:
      nothing is found, whatever follows (`asf8!@#!!@$asdf9124`). */
  lemma BreakAfterStart(pre: string, b: char, rest: string)
    requires '@' !in pre
    requires b in MentionBreak && b != '@'
    ensures MentionOf(pre + "@" + [b] + rest) == MentionBack("", false)
  {
    var s := pre + "@" + [b] + rest;
    var a := |pre|;
    assert forall k :: 0 <= k < a ==> s[k] == pre[k];
    assert s[a] == '@' && s[a + 1] == b;
    forall k | 0 <= k < a ensures s[k] != '@' {
      assert s[k] in pre;
    }
    StartAt(s, a);
    assert IsStop(s, a + 1);
  }

  /** A word without `@` holds no mention (`you`, `around?`). */
  lemma NoAt(s: string)
    requires '@' !in s
    ensures MentionOf(s) == MentionBack("", false)
  {
    forall k: nat | k < |s| ensures !IsStart(s, k) {
      assert s[k] in s;
    }
  }
}
