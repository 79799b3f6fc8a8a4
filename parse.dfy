/** The aggregator, `ParseString` in parse.go: split the line on single
    spaces, launch the three classifiers for every word, then receive their
    reports, in whatever order they arrive, until all are in or the timer
    fires. The goroutines and channels become a launch loop that computes
    every report and a receive loop that takes them from the pool of
    pending reports in an order given by a parameter; the timer becomes the
    number of reports received before it fires, if it fires at all. */
module Parse {
  import opened Types
  import opened GoStrings
  import opened Mention
  import opened Emoticon
  import opened Links

  /** The timeout of `ParseString`, in seconds. */
  const TimeoutSeconds: nat := 3

  /** The error `ParseString` returns when the timer fires first. */
  datatype ParseError = Timeout(seconds: nat)

  /** The words of a line: `strings.Split(input, " ")`, empty words kept. */
  function Words(input: string): (words: seq<string>)
    ensures |words| == Count(input, ' ') + 1
    ensures Join(words, " ") == input
    ensures forall k :: 0 <= k < |words| ==> !Contains(words[k], " ")
  {
    SplitCount(input, ' ');
    SplitJoin(input, " ");
    SplitPiecesLackSep(input, " ");
    Split(input, " ")
  }

  /** The three reports launched for one word, in launch order. */
  function Reports(word: string, pages: Pages): seq<Report>
  {
    [MentionReport(MentionOf(word)), EmoticonReport(EmoticonOf(word)), LinkReport(ParseLink(word, pages))]
  }

  /** Every report launched for a list of words; a word that is a single
      space is skipped, as the launch loop does. */
  function Launched(words: seq<string>, pages: Pages): seq<Report>
    decreases |words|
  {
    if words == [] then []
    else
      var w := words[|words| - 1];
      Launched(words[..|words| - 1], pages) + (if w == " " then [] else Reports(w, pages))
  }

  /** The mentions found in a sequence of received reports, in order. */
  function FoundMentions(s: seq<Report>): seq<string>
    decreases |s|
  {
    if s == [] then []
    else
      var x := s[|s| - 1];
      FoundMentions(s[..|s| - 1]) + (if x.MentionReport? && x.mention.found then [x.mention.val] else [])
  }

  /** The emoticons found in a sequence of received reports, in order. */
  function FoundEmoticons(s: seq<Report>): seq<string>
    decreases |s|
  {
    if s == [] then []
    else
      var x := s[|s| - 1];
      FoundEmoticons(s[..|s| - 1]) + (if x.EmoticonReport? && x.emoticon.found then [x.emoticon.val] else [])
  }

  /** The links found in a sequence of received reports, in order. */
  function FoundLinks(s: seq<Report>): seq<Link>
    decreases |s|
  {
    if s == [] then []
    else
      var x := s[|s| - 1];
      FoundLinks(s[..|s| - 1]) + (if x.LinkReport? && x.link.found then [x.link.val] else [])
  }

  /** The response built from reports received in this order: every found
      value appended to its list as it arrives. */
  function Collected(s: seq<Report>): Response
  {
    Response(FoundEmoticons(s), FoundMentions(s), FoundLinks(s))
  }

  /** One receive of the select: a found value is appended to its list, a
      report of nothing leaves the response as it is. */
  function Receive(r: Response, x: Report): Response
  {
    match x
    case MentionReport(mb) => if mb.found then r.(mentions := r.mentions + [mb.val]) else r
    case EmoticonReport(eb) => if eb.found then r.(emoticons := r.emoticons + [eb.val]) else r
    case LinkReport(lb) => if lb.found then r.(links := r.links + [lb.val]) else r
  }

  /** The mentions of a list of words, in word order. */
  function MentionsIn(words: seq<string>): seq<string>
    decreases |words|
  {
    if words == [] then []
    else
      var w := words[|words| - 1];
      MentionsIn(words[..|words| - 1]) + (if w != " " && MentionOf(w).found then [MentionOf(w).val] else [])
  }

  /** The emoticons of a list of words, in word order. */
  function EmoticonsIn(words: seq<string>): seq<string>
    decreases |words|
  {
    if words == [] then []
    else
      var w := words[|words| - 1];
      EmoticonsIn(words[..|words| - 1]) + (if w != " " && EmoticonOf(w).found then [EmoticonOf(w).val] else [])
  }

  /** The links of a list of words, in word order. */
  function LinksIn(words: seq<string>, pages: Pages): seq<Link>
    decreases |words|
  {
    if words == [] then []
    else
      var w := words[|words| - 1];
      LinksIn(words[..|words| - 1], pages) + (if w != " " && ParseLink(w, pages).found then [ParseLink(w, pages).val] else [])
  }

  /** The launch loop of `ParseString`: for every word but a single space,
      the mention, emoticon and link classifiers, in that order, each
      adding one to `total`. */
  method LaunchAll(words: seq<string>, pages: Pages) returns (pending: seq<Report>, total: nat)
    ensures pending == Launched(words, pages)
    ensures total == |pending|
  {
    total := 0;
    pending := [];
    for k := 0 to |words|
      invariant pending == Launched(words[..k], pages)
      invariant total == |pending|
    {
      var word := words[k];
      assert words[..k + 1][..k] == words[..k];
      if word == " " {
        continue;
      }
      var mb := ParseMention(word);
      pending := pending + [MentionReport(mb)];
      total := total + 1;
      var eb := ParseEmoticon(word);
      pending := pending + [EmoticonReport(eb)];
      total := total + 1;
      var lb := ParseLink(word, pages);
      pending := pending + [LinkReport(lb)];
      total := total + 1;
    }
    assert words[..|words|] == words;
  }

  /** The receive loop of `ParseString`: while fewer than `total` reports
      are in and the timer has not fired, take one report, appending what
      it found, or take the timer, which empties the response and ends the
      loop with the timeout error. `pick(k) % n` is the pending report the
      k-th receive takes when n are pending (every goroutine is ready, and
      the select may take any of them); `deadline` is the number of reports
      received when the timer fires, or None when it does not fire before
      the end. */
  method Gather(launched: seq<Report>, total: nat, pick: nat -> nat, deadline: Option<nat>)
    returns (r: Response, err: Option<ParseError>)
    requires total == |launched|
    ensures err.Some? <==> deadline.Some? && deadline.value < total
    ensures err.Some? ==> err == Some(Timeout(TimeoutSeconds)) && r == EmptyResponse
    ensures err.None? ==>
      && multiset(r.mentions) == multiset(FoundMentions(launched))
      && multiset(r.emoticons) == multiset(FoundEmoticons(launched))
      && multiset(r.links) == multiset(FoundLinks(launched))
  {
    r := EmptyResponse;
    err := None;
    var timeout := TimeoutSeconds;
    var pending := launched;
    ghost var arrived: seq<Report> := [];
    var read: int := 0;
    while read < total && read != -1
      invariant -1 <= read <= total
      invariant read >= 0 ==> |arrived| == read && r == Collected(arrived)
      invariant read >= 0 ==> |pending| == total - read
      invariant read >= 0 ==> multiset(arrived) + multiset(pending) == multiset(launched)
      invariant read >= 0 ==> err.None? && (deadline.Some? ==> read <= deadline.value)
      invariant read == -1 ==> r == EmptyResponse && err == Some(Timeout(timeout))
      invariant read == -1 ==> deadline.Some? && deadline.value < total
      decreases if read == -1 then 0 else total - read + 1
    {
      if deadline.Some? && read == deadline.value {
        read := -1;
        err := Some(Timeout(timeout));
        r := EmptyResponse;
      } else {
        var c := pick(read) % |pending|;
        var rep := pending[c];
        RemoveOne(pending, c);
        CollectedSnoc(arrived, rep);
        pending := pending[..c] + pending[c + 1..];
        arrived := arrived + [rep];
        read := read + 1;
        match rep {
          case MentionReport(mb) =>
            if mb.found {
              r := r.(mentions := r.mentions + [mb.val]);
            }
          case EmoticonReport(eb) =>
            if eb.found {
              r := r.(emoticons := r.emoticons + [eb.val]);
            }
          case LinkReport(lb) =>
            if lb.found {
              r := r.(links := r.links + [lb.val]);
            }
        }
      }
    }
    if read != -1 {
      assert pending == [];
      ArrivalOrder(arrived, launched);
    }
  }

  /** `ParseString`: split the line into words, launch the classifiers,
      gather their reports. Without a timeout every found value is in the
      response, each as often as its word occurs, in some order; on a
      timeout the response is empty and the error is the timeout. The
      timer fires first exactly when it comes before the last of the three
      reports of every word. */
  method ParseString(input: string, pages: Pages, pick: nat -> nat, deadline: Option<nat>)
    returns (r: Response, err: Option<ParseError>)
    ensures err.Some? <==> deadline.Some? && deadline.value < 3 * |Words(input)|
    ensures err.Some? ==> err == Some(Timeout(TimeoutSeconds)) && r == EmptyResponse
    ensures err.None? ==>
      && multiset(r.mentions) == multiset(MentionsIn(Words(input)))
      && multiset(r.emoticons) == multiset(EmoticonsIn(Words(input)))
      && multiset(r.links) == multiset(LinksIn(Words(input), pages))
  {
    var words := Words(input);
    var pending, total := LaunchAll(words, pages);
    LaunchedLength(words, pages);
    r, err := Gather(pending, total, pick, deadline);
    FoundInWords(words, pages);
  }

  /** The number of reports launched: three per word whenever no word is a
      single space, which is always the case for the words of a line. */
  lemma {:induction false} LaunchedLength(words: seq<string>, pages: Pages)
    requires forall k :: 0 <= k < |words| ==> !Contains(words[k], " ")
    ensures |Launched(words, pages)| == 3 * |words|
    decreases |words|
  {
    if words != [] {
      var w := words[|words| - 1];
      assert OccursAt(" ", " ", 0);
      assert w != " ";
      LaunchedLength(words[..|words| - 1], pages);
    }
  }

  /** A line launches three classifiers for every word, empty words
      included: three more than three per space. */
  lemma LaunchCount(input: string, pages: Pages)
    ensures |Launched(Words(input), pages)| == 3 * (Count(input, ' ') + 1)
  {
    LaunchedLength(Words(input), pages);
  }

  /** Each mention value `v` occurs in the found mentions as often as a found
      report with value `v` occurs among the reports. */
  lemma {:induction false} MentionCount(s: seq<Report>, v: string)
    ensures multiset(FoundMentions(s))[v] == multiset(s)[MentionReport(MentionBack(v, true))]
    decreases |s|
  {
    if s != [] {
      var x := s[|s| - 1];
      MentionCount(s[..|s| - 1], v);
      assert s == s[..|s| - 1] + [x];
    }
  }

  /** The same count for emoticons. */
  lemma {:induction false} EmoticonCount(s: seq<Report>, v: string)
    ensures multiset(FoundEmoticons(s))[v] == multiset(s)[EmoticonReport(EmoticonBack(v, true))]
    decreases |s|
  {
    if s != [] {
      var x := s[|s| - 1];
      EmoticonCount(s[..|s| - 1], v);
      assert s == s[..|s| - 1] + [x];
    }
  }

  /** The same count for links. */
  lemma {:induction false} LinkCount(s: seq<Report>, v: Link)
    ensures multiset(FoundLinks(s))[v] == multiset(s)[LinkReport(LinkBack(v, true))]
    decreases |s|
  {
    if s != [] {
      var x := s[|s| - 1];
      LinkCount(s[..|s| - 1], v);
      assert s == s[..|s| - 1] + [x];
    }
  }

  /** The arrival order does not matter: two orders of the same reports
      give responses that hold the same values, as often each. */
  lemma ArrivalOrder(s1: seq<Report>, s2: seq<Report>)
    requires multiset(s1) == multiset(s2)
    ensures multiset(Collected(s1).mentions) == multiset(Collected(s2).mentions)
    ensures multiset(Collected(s1).emoticons) == multiset(Collected(s2).emoticons)
    ensures multiset(Collected(s1).links) == multiset(Collected(s2).links)
  {
    forall v ensures multiset(FoundMentions(s1))[v] == multiset(FoundMentions(s2))[v] {
      MentionCount(s1, v);
      MentionCount(s2, v);
    }
    forall v ensures multiset(FoundEmoticons(s1))[v] == multiset(FoundEmoticons(s2))[v] {
      EmoticonCount(s1, v);
      EmoticonCount(s2, v);
    }
    forall v ensures multiset(FoundLinks(s1))[v] == multiset(FoundLinks(s2))[v] {
      LinkCount(s1, v);
      LinkCount(s2, v);
    }
  }

  /** Taking the report at `c` out of the pool leaves the others. */
  lemma RemoveOne(pending: seq<Report>, c: nat)
    requires c < |pending|
    ensures multiset(pending[..c] + pending[c + 1..]) + multiset{pending[c]} == multiset(pending)
  {
    assert pending == pending[..c] + [pending[c]] + pending[c + 1..];
  }

  /** Receiving one more report is one case of the select. */
  lemma CollectedSnoc(s: seq<Report>, x: Report)
    ensures Collected(s + [x]) == Receive(Collected(s), x)
  {
    assert (s + [x])[..|s|] == s;
  }

  /** Receiving more mention reports appends their mentions. */
  lemma {:induction false} MentionsAppend(a: seq<Report>, b: seq<Report>)
    ensures FoundMentions(a + b) == FoundMentions(a) + FoundMentions(b)
    decreases |b|
  {
    if b == [] {
      assert a + b == a;
    } else {
      MentionsAppend(a, b[..|b| - 1]);
      assert (a + b)[..|a + b| - 1] == a + b[..|b| - 1];
    }
  }

  /** Receiving more emoticon reports appends their emoticons. */
  lemma {:induction false} EmoticonsAppend(a: seq<Report>, b: seq<Report>)
    ensures FoundEmoticons(a + b) == FoundEmoticons(a) + FoundEmoticons(b)
    decreases |b|
  {
    if b == [] {
      assert a + b == a;
    } else {
      EmoticonsAppend(a, b[..|b| - 1]);
      assert (a + b)[..|a + b| - 1] == a + b[..|b| - 1];
    }
  }

  /** Receiving more link reports appends their links. */
  lemma {:induction false} LinksAppend(a: seq<Report>, b: seq<Report>)
    ensures FoundLinks(a + b) == FoundLinks(a) + FoundLinks(b)
    decreases |b|
  {
    if b == [] {
      assert a + b == a;
    } else {
      LinksAppend(a, b[..|b| - 1]);
      assert (a + b)[..|a + b| - 1] == a + b[..|b| - 1];
    }
  }

  /** The three reports of one word hold what its classifiers found. */
  lemma ReportsFound(m: MentionBack, e: EmoticonBack, l: LinkBack)
    ensures var s := [MentionReport(m), EmoticonReport(e), LinkReport(l)];
      && FoundMentions(s) == (if m.found then [m.val] else [])
      && FoundEmoticons(s) == (if e.found then [e.val] else [])
      && FoundLinks(s) == (if l.found then [l.val] else [])
  {
    var s1 := [MentionReport(m)];
    var s2 := s1 + [EmoticonReport(e)];
    var s3 := s2 + [LinkReport(l)];
    assert s1[..0] == [] && s2[..1] == s1 && s3[..2] == s2;
    var fm := if m.found then [m.val] else [];
    assert FoundMentions(s1) == [] + fm == fm;
    assert FoundMentions(s3) == FoundMentions(s2) + [] == FoundMentions(s1) + [] + [];
    var fe := if e.found then [e.val] else [];
    assert FoundEmoticons(s2) == FoundEmoticons(s1) + fe == [] + [] + fe;
    assert FoundEmoticons(s3) == FoundEmoticons(s2) + [];
    var fl := if l.found then [l.val] else [];
    assert FoundLinks(s3) == FoundLinks(s2) + fl == FoundLinks(s1) + [] + fl == [] + [] + fl;
    assert s3 == [MentionReport(m), EmoticonReport(e), LinkReport(l)];
  }

  /** Reports received in launch order give the values word by word. */
  lemma {:induction false} FoundInWords(words: seq<string>, pages: Pages)
    ensures Collected(Launched(words, pages)) ==
      Response(EmoticonsIn(words), MentionsIn(words), LinksIn(words, pages))
    decreases |words|
  {
    if words != [] {
      var w := words[|words| - 1];
      var init := words[..|words| - 1];
      FoundInWords(init, pages);
      var a := Launched(init, pages);
      if w != " " {
        MentionsAppend(a, Reports(w, pages));
        EmoticonsAppend(a, Reports(w, pages));
        LinksAppend(a, Reports(w, pages));
        ReportsFound(MentionOf(w), EmoticonOf(w), ParseLink(w, pages));
      } else {
        assert a + [] == a;
        assert Launched(words, pages) == a;
      }
    }
  }

  /** A line that is one space splits into two empty words: six
      classifiers run and none finds anything. */
  lemma SingleSpace(pages: Pages)
    ensures Words(" ") == ["", ""]
    ensures MentionsIn(Words(" ")) == [] && EmoticonsIn(Words(" ")) == []
    ensures LinksIn(Words(" "), pages) == []
  {
    assert OccursAt(" ", " ", 0);
    assert Index(" ", " ") == 0;
    assert Index("", " ") == -1;
    assert Split(" ", " ") == ["", ""];
    NoParen("");
  }

  /** One more word adds the links of that word alone. */
  lemma LinksInSnoc(ws: seq<string>, w: string, pages: Pages)
    ensures LinksIn(ws + [w], pages) == LinksIn(ws, pages) + LinksIn([w], pages)
  {
    assert (ws + [w])[..|ws|] == ws;
    assert [w][..0] == [];
  }

  /** The links of a line are those of its first words followed by
      those of the rest. */
  lemma {:induction false} LinksInAppend(u: seq<string>, v: seq<string>, pages: Pages)
    ensures LinksIn(u + v, pages) == LinksIn(u, pages) + LinksIn(v, pages)
    decreases |v|
  {
    if v == [] {
      assert u + v == u;
    } else {
      var init, x := v[..|v| - 1], v[|v| - 1];
      assert v == init + [x];
      assert u + v == (u + init) + [x];
      LinksInSnoc(u + init, x, pages);
      LinksInSnoc(init, x, pages);
      LinksInAppend(u, init, pages);
    }
  }

  /** The values of a single word are what its classifiers found. */
  lemma InOne(w: string, pages: Pages)
    requires w != " "
    ensures MentionsIn([w]) == if MentionOf(w).found then [MentionOf(w).val] else []
    ensures EmoticonsIn([w]) == if EmoticonOf(w).found then [EmoticonOf(w).val] else []
    ensures LinksIn([w], pages) == if ParseLink(w, pages).found then [ParseLink(w, pages).val] else []
  {
    assert [w][..0] == [];
  }
}
