/** The test cases of test.go carried through the model: what each
    classifier finds in each word of the inputs, what `ParseString`
    therefore returns when the timer does not fire, and that `compare`
    accepts that response against the expected one whatever the arrival
    order. */
module Scenarios {
  import opened Types
  import opened GoStrings
  import opened Mention
  import opened Emoticon
  import opened Links
  import opened Parse
  import opened ResponseCompare

  /** A line written as its words joined by single spaces splits back into
      those words. */
  lemma WordsOf(words: seq<string>)
    requires |words| >= 1
    requires forall k :: 0 <= k < |words| ==> ' ' !in words[k]
    ensures Words(Join(words, " ")) == words
  {
    JoinSplit(words, ' ');
  }

  /** An expected value listed once and found once is matched. */
  lemma OneValue<T>(r: seq<T>, x: T)
    requires multiset(r) == multiset([x])
    ensures x in r
  {
    assert x in multiset(r);
  }

  /** Three words joined by spaces. */
  lemma Join3(a: string, b: string, c: string)
    ensures Join([a, b, c], " ") == a + " " + b + " " + c
  {
    assert [a, b, c][1..] == [b, c] && [b, c][1..] == [c];
    assert Join([c], " ") == c;
    assert Join([b, c], " ") == b + " " + c;
    assert a + " " + (b + " " + c) == a + " " + b + " " + c;
  }

  /** The mentions of three words, in order. */
  lemma Mentions3(a: string, b: string, c: string)
    requires a != " " && b != " " && c != " "
    ensures MentionsIn([a, b, c]) ==
      (if MentionOf(a).found then [MentionOf(a).val] else []) +
      (if MentionOf(b).found then [MentionOf(b).val] else []) +
      (if MentionOf(c).found then [MentionOf(c).val] else [])
  {
    assert [a, b, c][..2] == [a, b] && [a, b][..1] == [a] && [a][..0] == [];
    assert MentionsIn([a]) == (if MentionOf(a).found then [MentionOf(a).val] else []);
    assert MentionsIn([a, b]) ==
      MentionsIn([a]) + (if MentionOf(b).found then [MentionOf(b).val] else []);
  }

  /** A name `parseMention` takes whole after `@`, in a word of its own:
      not empty, and free of break characters and spaces. */
  predicate MentionName(name: string)
  {
    |name| >= 1 && forall ch :: ch in name ==> ch !in MentionBreak && ch != ' '
  }

  /** `@` and a name: one word, whose mention is the name. */
  lemma AtName(name: string)
    requires MentionName(name)
    ensures ' ' !in "@" + name
    ensures MentionOf("@" + name) == MentionBack(name, true)
  {
    var a := "@" + name;
    forall k | 0 <= k < |a| ensures a[k] != ' ' {
      if k == 0 {
        assert a[0] == '@';
      } else {
        assert a[k] == name[k - 1] && name[k - 1] in name;
      }
    }
    assert "" + "@" + name + "" == a;
    MentionAfterAts("", "@", name, "");
  }

  /** A mention followed by two words without one: the words of the line
      yield the name alone. */
  lemma MentionLineWords(name: string, b: string, c: string)
    requires MentionName(name) && ' ' !in b && ' ' !in c
    requires !MentionOf(b).found && !MentionOf(c).found
    ensures MentionsIn(Words("@" + name + " " + b + " " + c)) == [name]
  {
    var a := "@" + name;
    AtName(name);
    Join3(a, b, c);
    WordsOf([a, b, c]);
    Mentions3(a, b, c);
  }

  /** A mention followed by two words without one, the shape of
      `Provided #1` of test.go (`@chris you around?`): whatever the order in
      which the reports arrived, the response holds the name once, and
      `compare` accepts it. */
  lemma MentionLine(name: string, b: string, c: string, r: Response)
    requires MentionName(name) && ' ' !in b && ' ' !in c
    requires !MentionOf(b).found && !MentionOf(c).found
    requires multiset(r.mentions) == multiset(MentionsIn(Words("@" + name + " " + b + " " + c)))
    ensures multiset(r.mentions) == multiset{name}
    ensures Matches(Response([], [name], []), r)
  {
    MentionLineWords(name, b, c);
    OneValue(r.mentions, name);
  }

  /** A name `parseEmoticon` takes whole between `(` and `)`, in a word of
      its own that closes before the scan limit. */
  predicate EmoticonName(e: string)
  {
    |e| + 1 < ScanLimit && forall ch :: ch in e ==> IsContent(ch) && ch != ' '
  }

  /** `(`, a name and `)`: one word, whose emoticon is the name. */
  lemma ParenName(e: string)
    requires EmoticonName(e)
    ensures ' ' !in "(" + e + ")"
    ensures EmoticonOf("(" + e + ")") == EmoticonBack(e, true)
  {
    var w := "(" + e + ")";
    forall k | 0 <= k < |w| ensures w[k] != ' ' {
      if k == 0 {
        assert w[0] == '(';
      } else if k == |w| - 1 {
        assert w[k] == ')';
      } else {
        assert w[k] == e[k - 1] && e[k - 1] in e;
      }
    }
    assert "" + "(" + e + ")" + "" == w;
    Bracketed("", e, "");
  }

  /** Four words joined by spaces. */
  lemma Join4(a: string, b: string, c: string, d: string)
    ensures Join([a, b, c, d], " ") == a + " " + b + " " + c + " " + d
  {
    assert [a, b, c, d][1..] == [b, c, d];
    Join3(b, c, d);
    assert a + " " + (b + " " + c + " " + d) == a + " " + b + " " + c + " " + d;
  }

  /** The emoticons of four words, in order. */
  lemma Emoticons4(a: string, b: string, c: string, d: string)
    requires a != " " && b != " " && c != " " && d != " "
    ensures EmoticonsIn([a, b, c, d]) ==
      (if EmoticonOf(a).found then [EmoticonOf(a).val] else []) +
      (if EmoticonOf(b).found then [EmoticonOf(b).val] else []) +
      (if EmoticonOf(c).found then [EmoticonOf(c).val] else []) +
      (if EmoticonOf(d).found then [EmoticonOf(d).val] else [])
  {
    assert [a, b, c, d][..3] == [a, b, c] && [a, b, c][..2] == [a, b];
    assert [a, b][..1] == [a] && [a][..0] == [];
    assert EmoticonsIn([a]) == (if EmoticonOf(a).found then [EmoticonOf(a).val] else []);
    assert EmoticonsIn([a, b]) ==
      EmoticonsIn([a]) + (if EmoticonOf(b).found then [EmoticonOf(b).val] else []);
    assert EmoticonsIn([a, b, c]) ==
      EmoticonsIn([a, b]) + (if EmoticonOf(c).found then [EmoticonOf(c).val] else []);
  }

  /** Two words without an emoticon, then two bracketed names: the words of
      the line yield the two names, in order. */
  lemma EmoticonLineWords(a: string, b: string, e1: string, e2: string)
    requires ' ' !in a && ' ' !in b && EmoticonName(e1) && EmoticonName(e2)
    requires !EmoticonOf(a).found && !EmoticonOf(b).found
    ensures EmoticonsIn(Words(a + " " + b + " " + ("(" + e1 + ")") + " " + ("(" + e2 + ")"))) == [e1, e2]
  {
    var c, d := "(" + e1 + ")", "(" + e2 + ")";
    ParenName(e1);
    ParenName(e2);
    Join4(a, b, c, d);
    WordsOf([a, b, c, d]);
    Emoticons4(a, b, c, d);
  }

  /** Two expected values found once each are both matched. */
  lemma TwoValues<T>(r: seq<T>, x: T, y: T)
    requires multiset(r) == multiset([x, y])
    ensures x in r && y in r
    ensures AllIn([x, y], r)
  {
    assert x in multiset(r) && y in multiset(r);
    assert [x, y][0] == x && [x, y][1] == y;
  }

  /** Two words without an emoticon followed by two bracketed names, the
      shape of `Provided #2` of test.go (`Good morning! (megusta)
      (coffee)`): the response holds both names, and `compare` accepts it
      whatever the order in which the reports arrived. */
  lemma EmoticonLine(a: string, b: string, e1: string, e2: string, r: Response)
    requires ' ' !in a && ' ' !in b && EmoticonName(e1) && EmoticonName(e2)
    requires !EmoticonOf(a).found && !EmoticonOf(b).found
    requires multiset(r.emoticons) ==
      multiset(EmoticonsIn(Words(a + " " + b + " " + ("(" + e1 + ")") + " " + ("(" + e2 + ")"))))
    ensures multiset(r.emoticons) == multiset{e1, e2}
    ensures Matches(Response([e1, e2], [], []), r)
  {
    EmoticonLineWords(a, b, e1, e2);
    TwoValues(r.emoticons, e1, e2);
  }

  /** Words without a space, none of which holds a link. */
  predicate LinklessWords(ws: seq<string>, pages: Pages)
  {
    forall k :: 0 <= k < |ws| ==> ' ' !in ws[k] && !ParseLink(ws[k], pages).found
  }

  /** Words none of which holds a link yield no link. */
  lemma {:induction false} NoLinks(ws: seq<string>, pages: Pages)
    requires forall k :: 0 <= k < |ws| ==> !ParseLink(ws[k], pages).found
    ensures LinksIn(ws, pages) == []
  {
    if ws != [] {
      var init := ws[..|ws| - 1];
      assert forall k :: 0 <= k < |init| ==> init[k] == ws[k];
      NoLinks(init, pages);
    }
  }

  /** The link word of a line: text without `http://`, `http://`, and a
      rest without a second `http://`, none of it holding a space. */
  predicate LinkWord(pre: string, rest: string)
  {
    !Contains(pre, Http) && !Contains(rest, Http) && ' ' !in pre && ' ' !in rest
  }

  /** The link word holds no space. */
  lemma LinkWordUnspaced(pre: string, rest: string)
    requires LinkWord(pre, rest)
    ensures ' ' !in pre + Http + rest
  {
    var w := pre + Http + rest;
    forall k | 0 <= k < |w| ensures w[k] != ' ' {
      if k < |pre| {
        assert w[k] == pre[k] && pre[k] in pre;
      } else if k < |pre| + |Http| {
        assert w[k] == Http[k - |pre|];
      } else {
        assert w[k] == rest[k - |pre| - |Http|] && rest[k - |pre| - |Http|] in rest;
      }
    }
  }

  /** Words without a link and a last word holding one: the words of the
      line yield that one link. */
  lemma LinkLineWords(ws: seq<string>, pre: string, rest: string, pages: Pages)
    requires LinklessWords(ws, pages)
    requires LinkWord(pre, rest)
    ensures LinksIn(Words(Join(ws + [pre + Http + rest], " ")), pages) ==
      [Link(Http + rest, GetTitleFromUrl(Http + rest, pages))]
  {
    var w := pre + Http + rest;
    LinkWordUnspaced(pre, rest);
    var line := ws + [w];
    forall k | 0 <= k < |line| ensures ' ' !in line[k] {
      if k < |ws| {
        assert line[k] == ws[k];
      }
    }
    WordsOf(line);
    NoLinks(ws, pages);
    HttpLink(pre, rest, pages);
    LinksInAppend(ws, [w], pages);
    assert |w| >= |Http|;
    InOne(w, pages);
  }

  /** Words without a link followed by one `http://` link whose page has a
      title, the shape of `Provided #3` of test.go (`Olympics are starting
      soon; http://www.nbcolympics.com`) and of its `URLs Edge Cases`
      (`a!@#!(*http://google.com`, a single word): the response holds that
      link with the page's title, and `compare` accepts it whatever the
      order in which the reports arrived. */
  lemma LinkLine(ws: seq<string>, pre: string, rest: string, p: string, title: string, q: string,
                 pages: Pages, r: Response)
    requires LinklessWords(ws, pages)
    requires LinkWord(pre, rest)
    requires !Contains(p, TitleOpen)
    requires !Contains(title, TitleOpen) && !Contains(title, TitleClose)
    requires pages(Http + rest) == Some(p + TitleOpen + title + TitleClose + q)
    requires multiset(r.links) == multiset(LinksIn(Words(Join(ws + [pre + Http + rest], " ")), pages))
    ensures multiset(r.links) == multiset{Link(Http + rest, title)}
    ensures Matches(Response([], [], [Link(Http + rest, title)]), r)
  {
    LinkLineWords(ws, pre, rest, pages);
    TitleOf(p, title, q);
    OneValue(r.links, Link(Http + rest, title));
  }

  /** A word of lower-case letters only. */
  predicate Lower(w: string)
  {
    forall i :: 0 <= i < |w| ==> 'a' <= w[i] <= 'z'
  }

  /** A lower-case word is a name for both `parseMention` and, when short
      enough, `parseEmoticon`. */
  lemma LowerName(w: string)
    requires Lower(w) && |w| >= 1
    ensures MentionName(w)
    ensures |w| + 1 < ScanLimit ==> EmoticonName(w)
  {
    forall ch | ch in w ensures ch !in MentionBreak && ch != ' ' && IsContent(ch) {
      var i :| 0 <= i < |w| && w[i] == ch;
    }
  }

  /** `chris` is a name. */
  lemma ChrisName()
    ensures MentionName("chris")
  {
    LowerName("chris");
  }

  /** `you` and `around?` mention nobody. */
  lemma ProvidedMentionsRest()
    ensures ' ' !in "you" && ' ' !in "around?"
    ensures !MentionOf("you").found && !MentionOf("around?").found
  {
    NoAt("you");
    NoAt("around?");
  }

  /** `megusta` is a name. */
  lemma MegustaName()
    ensures EmoticonName("megusta")
  {
    LowerName("megusta");
  }

  /** `coffee` is a name. */
  lemma CoffeeName()
    ensures EmoticonName("coffee")
  {
    LowerName("coffee");
  }

  /** `Good` and `morning!` hold no emoticon. */
  lemma ProvidedEmoticonsRest()
    ensures ' ' !in "Good" && ' ' !in "morning!"
    ensures !EmoticonOf("Good").found && !EmoticonOf("morning!").found
  {
    NoParen("Good");
    NoParen("morning!");
  }

  /** Words without a space and without `h` hold no link. */
  lemma HlessWords(ws: seq<string>, pages: Pages)
    requires forall k :: 0 <= k < |ws| ==> ' ' !in ws[k] && 'h' !in ws[k]
    ensures LinklessWords(ws, pages)
  {
    forall k | 0 <= k < |ws| ensures !ParseLink(ws[k], pages).found {
      NoLink(ws[k], pages);
    }
  }

  /** The first four words of `Provided #3` hold no link. */
  lemma ProvidedLinksRest(pages: Pages)
    ensures LinklessWords(["Olympics", "are", "starting", "soon;"], pages)
  {
    var ws := ["Olympics", "are", "starting", "soon;"];
    assert ' ' !in ws[0] && 'h' !in ws[0];
    assert ' ' !in ws[1] && 'h' !in ws[1];
    assert ' ' !in ws[2] && 'h' !in ws[2];
    assert ' ' !in ws[3] && 'h' !in ws[3];
    HlessWords(ws, pages);
  }

  /** `http://www.nbcolympics.com` is a link word. */
  lemma OlympicsLinkWord()
    ensures LinkWord("", "www.nbcolympics.com")
  {
    LeadAbsent("www.nbcolympics.com", Http);
  }

  /** The single word of `URLs Edge Cases` is a link word: the junk before
      `http://` holds no `http://`. */
  lemma EdgeLinkWord()
    ensures LinkWord("a!@#!(*", "google.com")
  {
    LeadAbsent("a!@#!(*", Http);
    LeadAbsent("google.com", Http);
  }

  /** A page that opens with `<html><head>` before its `<title>`, as real
      pages do: the title is still the text up to `</title>` (`Google`). */
  lemma GooglePage(post: string)
    ensures TitleFromBody("<html><head>" + TitleOpen + "Google" + TitleClose + post) == "Google"
  {
    var head := "<html><head>";
    forall i: nat | i + |TitleOpen| <= |head| ensures !OccursAt(head, TitleOpen, i) {
      if OccursAt(head, TitleOpen, i) {
        OccursChar(head, TitleOpen, i, 0);
        OccursChar(head, TitleOpen, i, 1);
      }
    }
    LeadAbsent("Google", TitleOpen);
    LeadAbsent("Google", TitleClose);
    TitleOf(head, "Google", post);
  }

  /** `Provided #1` of test.go, word by word. */
  lemma ProvidedMentionsWords()
    ensures MentionsIn(Words("@" + "chris" + " " + "you" + " " + "around?")) == ["chris"]
  {
    ChrisName();
    ProvidedMentionsRest();
    MentionLineWords("chris", "you", "around?");
  }

  /** The words of `Provided #1` make up its line. */
  lemma ProvidedMentionsText()
    ensures "@" + "chris" + " " + "you" + " " + "around?" == "@chris you around?"
  {
  }

  /** `@chris you around?` mentions `chris` and nobody else. */
  lemma ProvidedMentions()
    ensures MentionsIn(Words("@chris you around?")) == ["chris"]
  {
    ProvidedMentionsWords();
    ProvidedMentionsText();
  }

  /** `Provided #2` of test.go, word by word. */
  lemma ProvidedEmoticonsWords()
    ensures EmoticonsIn(Words("Good" + " " + "morning!" + " " + ("(" + "megusta" + ")") + " " +
      ("(" + "coffee" + ")"))) == ["megusta", "coffee"]
  {
    MegustaName();
    CoffeeName();
    ProvidedEmoticonsRest();
    EmoticonLineWords("Good", "morning!", "megusta", "coffee");
  }

  /** The words of `Provided #2` make up its line. */
  lemma ProvidedEmoticonsText()
    ensures "Good" + " " + "morning!" + " " + ("(" + "megusta" + ")") + " " + ("(" + "coffee" + ")") ==
      "Good morning! (megusta) (coffee)"
  {
  }

  /** `Good morning! (megusta) (coffee)` holds `megusta` then `coffee`. */
  lemma ProvidedEmoticons()
    ensures EmoticonsIn(Words("Good morning! (megusta) (coffee)")) == ["megusta", "coffee"]
  {
    ProvidedEmoticonsWords();
    ProvidedEmoticonsText();
  }

  /** `Provided #3` of test.go, word by word. */
  lemma ProvidedLinksWords(pages: Pages)
    ensures LinksIn(Words(Join(["Olympics", "are", "starting", "soon;"] + ["" + Http + "www.nbcolympics.com"], " ")), pages) ==
      [Link(Http + "www.nbcolympics.com", GetTitleFromUrl(Http + "www.nbcolympics.com", pages))]
  {
    ProvidedLinksRest(pages);
    OlympicsLinkWord();
    LinkLineWords(["Olympics", "are", "starting", "soon;"], "", "www.nbcolympics.com", pages);
  }

  /** Five words joined by spaces. */
  lemma Join5(a: string, b: string, c: string, d: string, e: string)
    ensures Join([a, b, c, d, e], " ") == a + " " + b + " " + c + " " + d + " " + e
  {
    assert [a, b, c, d, e][1..] == [b, c, d, e];
    Join4(b, c, d, e);
    assert a + " " + (b + " " + c + " " + d + " " + e) ==
      a + " " + b + " " + c + " " + d + " " + e;
  }

  /** The four words without a link of `Provided #3` and their spaces. */
  lemma ProvidedLinksHead()
    ensures "Olympics" + " " + "are" + " " + "starting" + " " + "soon;" + " " ==
      "Olympics are starting soon; "
  {
    assert "Olympics" + " " + "are" == "Olympics are";
    assert "Olympics are" + " " + "starting" == "Olympics are starting";
    assert "Olympics are starting" + " " + "soon;" == "Olympics are starting soon;";
  }

  /** The link word after them. */
  lemma ProvidedLinksTail()
    ensures "Olympics are starting soon; " + "http://www.nbcolympics.com" ==
      "Olympics are starting soon; http://www.nbcolympics.com"
  {
  }

  /** The five words of `Provided #3` spell its line. */
  lemma ProvidedLinksSpelling()
    ensures "Olympics" + " " + "are" + " " + "starting" + " " + "soon;" + " " +
      "http://www.nbcolympics.com" == "Olympics are starting soon; http://www.nbcolympics.com"
  {
    ProvidedLinksHead();
    ProvidedLinksTail();
  }

  /** The words of `Provided #3` make up its line. */
  lemma ProvidedLinksText()
    ensures Join(["Olympics", "are", "starting", "soon;"] + ["" + Http + "www.nbcolympics.com"], " ") ==
      "Olympics are starting soon; http://www.nbcolympics.com"
    ensures Http + "www.nbcolympics.com" == "http://www.nbcolympics.com"
  {
    var w := "" + Http + "www.nbcolympics.com";
    assert w == "http://www.nbcolympics.com";
    assert ["Olympics", "are", "starting", "soon;"] + [w] ==
      ["Olympics", "are", "starting", "soon;", w];
    Join5("Olympics", "are", "starting", "soon;", w);
    ProvidedLinksSpelling();
  }

  /** `Olympics are starting soon; http://www.nbcolympics.com` holds that one
      link, with the title of its page. */
  lemma ProvidedLinks(pages: Pages)
    ensures LinksIn(Words("Olympics are starting soon; http://www.nbcolympics.com"), pages) ==
      [Link("http://www.nbcolympics.com", GetTitleFromUrl("http://www.nbcolympics.com", pages))]
  {
    ProvidedLinksWords(pages);
    ProvidedLinksText();
  }

  /** `URLs Edge Cases` of test.go, as its one word. */
  lemma EdgeLinksWords(pages: Pages)
    ensures LinksIn(Words(Join([] + ["a!@#!(*" + Http + "google.com"], " ")), pages) ==
      [Link(Http + "google.com", GetTitleFromUrl(Http + "google.com", pages))]
  {
    EdgeLinkWord();
    LinkLineWords([], "a!@#!(*", "google.com", pages);
  }

  /** The word of `URLs Edge Cases` makes up its line. */
  lemma EdgeLinksText()
    ensures Join([] + ["a!@#!(*" + Http + "google.com"], " ") == "a!@#!(*http://google.com"
    ensures Http + "google.com" == "http://google.com"
  {
    var w := "a!@#!(*" + Http + "google.com";
    assert w == "a!@#!(*http://google.com";
    assert [] + [w] == [w];
  }

  /** `a!@#!(*http://google.com` holds `http://google.com` and nothing of
      the junk before it. */
  lemma EdgeLinks(pages: Pages)
    ensures LinksIn(Words("a!@#!(*http://google.com"), pages) ==
      [Link("http://google.com", GetTitleFromUrl("http://google.com", pages))]
  {
    EdgeLinksWords(pages);
    EdgeLinksText();
  }
}
