/** The link classifier, `parseLink` in parse.go, and the title extraction
    of `getTitleFromUrl`. The HTTP GET is not modelled: the body it returns,
    or its failure, comes from a `Pages` parameter. */
module Links {
  import opened Types
  import opened GoStrings

  const Http := "http://"
  const Https := "https://"
  const TitleOpen := "<title>"
  const TitleClose := "</title>"

  /** What `SplitAfter(s, scheme)[1]` is, stated with `Index`: the text after
      the first occurrence of the scheme, up to and including the next
      occurrence, or to the end of the word when there is none. */
  function SchemeTail(s: string, scheme: string): string
    requires scheme != "" && Contains(s, scheme)
  {
    var rest := s[Index(s, scheme) + |scheme|..];
    if Contains(rest, scheme) then rest[..Index(rest, scheme) + |scheme|] else rest
  }

  /** The title extraction of `getTitleFromUrl`: split on `<title>`, then the
      second piece on `</title>`, and take the first piece of that; empty
      when either tag is missing. The result never holds either tag. */
  function TitleFromBody(body: string): (title: string)
    ensures !Contains(body, TitleOpen) ==> title == ""
    ensures !Contains(title, TitleOpen) && !Contains(title, TitleClose)
  {
    var bspl := Split(body, TitleOpen);
    if |bspl| < 2 then ""
    else
      var bbspl := Split(bspl[1], TitleClose);
      if |bbspl| < 2 then ""
      else
        SplitPiecesLackSep(body, TitleOpen);
        SplitPiecesLackSep(bspl[1], TitleClose);
        assert bbspl[0] == bspl[1][..Index(bspl[1], TitleClose)];
        IndexInPrefix(bspl[1], TitleOpen, Index(bspl[1], TitleClose));
        bbspl[0]
  }

  /** `getTitleFromUrl`: the title of the page the URL returns, or empty when
      the request or the read of the body fails. */
  function GetTitleFromUrl(url: string, pages: Pages): (title: string)
    ensures pages(url).None? ==> title == ""
    ensures pages(url).Some? ==> title == TitleFromBody(pages(url).value)
  {
    match pages(url)
    case None => ""
    case Some(body) => TitleFromBody(body)
  }

  /** `parseLink`: a word holding `http://` (or else `https://`) yields the
      scheme followed by the second piece of `SplitAfter` on it, with the
      title of that URL; any other word yields an empty link, not found. */
  function ParseLink(str: string, pages: Pages): (lb: LinkBack)
    ensures lb.found <==> Contains(str, Http) || Contains(str, Https)
    ensures !lb.found ==> lb.val == Link("", "")
    ensures Contains(str, Http) ==> lb.val.url == Http + SchemeTail(str, Http)
    ensures !Contains(str, Http) && Contains(str, Https) ==>
      lb.val.url == Https + SchemeTail(str, Https)
    ensures lb.found ==> lb.val.title == GetTitleFromUrl(lb.val.url, pages)
  {
    if Contains(str, Http) then
      SplitAfterSecond(str, Http);
      var url := Http + SplitAfter(str, Http)[1];
      LinkBack(Link(url, GetTitleFromUrl(url, pages)), true)
    else if Contains(str, Https) then
      SplitAfterSecond(str, Https);
      var url := Https + SplitAfter(str, Https)[1];
      LinkBack(Link(url, GetTitleFromUrl(url, pages)), true)
    else
      LinkBack(Link("", ""), false)
  }

  /** A slice of `s` is its first `m` characters followed by the next `n`. */
  lemma SliceSplit(s: string, i: nat, m: nat, n: nat)
    requires i + m + n <= |s|
    ensures s[i..i + m + n] == s[i..i + m] + s[i + m..][..n]
  {
  }

  /** The tail is a prefix of the text after the scheme. */
  lemma TailPrefix(s: string, scheme: string)
    requires scheme != "" && Contains(s, scheme)
    ensures var rest := s[Index(s, scheme) + |scheme|..];
      var tail := SchemeTail(s, scheme);
      |tail| <= |rest| && rest[..|tail|] == tail
  {
  }

  /** The scheme and its tail are the piece of the word that starts where
      the scheme first occurs. */
  lemma SchemeTailInWord(s: string, scheme: string)
    requires scheme != "" && Contains(s, scheme)
    ensures var i := Index(s, scheme);
      var n := |scheme| + |SchemeTail(s, scheme)|;
      i + n <= |s| && s[i..i + n] == scheme + SchemeTail(s, scheme)
  {
    var i := Index(s, scheme);
    var tail := SchemeTail(s, scheme);
    TailPrefix(s, scheme);
    assert OccursAt(s, scheme, i);
    SliceSplit(s, i, |scheme|, |tail|);
  }

  /** The URL is a piece of the word: it starts where the scheme first
      occurs, so whatever precedes the scheme is dropped. */
  lemma UrlInWord(str: string, pages: Pages)
    requires Contains(str, Http) || Contains(str, Https)
    ensures var scheme := if Contains(str, Http) then Http else Https;
      var i := Index(str, scheme);
      var url := ParseLink(str, pages).val.url;
      i + |url| <= |str| && url == str[i..i + |url|]
  {
    if Contains(str, Http) {
      SchemeTailInWord(str, Http);
    } else {
      SchemeTailInWord(str, Https);
    }
  }

  /** The title is the text between the first `<title>` and the first
      `</title>` after it, provided that `</title>` ends before any second
      `<title>` begins; otherwise it is empty. */
  lemma TitleBetweenMarkers(body: string)
    requires Contains(body, TitleOpen)
    ensures var rest := body[Index(body, TitleOpen) + |TitleOpen|..];
      var j := Index(rest, TitleClose);
      var k := Index(rest, TitleOpen);
      TitleFromBody(body) ==
        if j >= 0 && (k < 0 || j + |TitleClose| <= k) then rest[..j] else ""
  {
    var rest := body[Index(body, TitleOpen) + |TitleOpen|..];
    var k := Index(rest, TitleOpen);
    var piece := Split(body, TitleOpen)[1];
    assert piece == Split(rest, TitleOpen)[0];
    SplitHead(rest, TitleOpen);
    if k >= 0 {
      IndexInPrefix(rest, TitleClose, k);
      SplitHead(piece, TitleClose);
    } else {
      SplitHead(piece, TitleClose);
    }
  }

  /** Each scheme and each tag starts with a character that occurs in it
      nowhere else. */
  lemma LeadsOnce()
    ensures Http[0] !in Http[1..] && Https[0] !in Https[1..]
    ensures TitleOpen[0] !in TitleOpen[1..] && TitleClose[0] !in TitleClose[1..]
  {
  }

  /** With neither tag before it, the closing tag at `m` is the first one,
      and no opening tag starts before it has ended. */
  lemma CloseAfterTitle(rest: string, m: nat)
    requires m + |TitleClose| <= |rest| && rest[m..m + |TitleClose|] == TitleClose
    requires !Contains(rest[..m], TitleOpen) && !Contains(rest[..m], TitleClose)
    ensures Index(rest, TitleClose) == m
    ensures Index(rest, TitleOpen) < 0 || m + |TitleClose| <= Index(rest, TitleOpen)
  {
    LeadsOnce();
    assert OccursAt(rest, TitleClose, m);
    OccursChar(rest, TitleClose, m, 0);
    NoEarlier(rest, TitleClose, m);
    IndexIs(rest, TitleClose, m);
    forall i: nat | i < m + |TitleClose| ensures !OccursAt(rest, TitleOpen, i) {
      if OccursAt(rest, TitleOpen, i) {
        if i + |TitleOpen| <= m {
          OccursInPrefix(rest, TitleOpen, m, i);
        } else if i < m {
          OccursChar(rest, TitleOpen, i, m - i);
        } else if i == m {
          OccursChar(rest, TitleOpen, i, 1);
          OccursChar(rest, TitleClose, m, 1);
        } else {
          OccursChar(rest, TitleOpen, i, 0);
          OccursChar(rest, TitleClose, m, i - m);
        }
      }
    }
  }

  /** After the opening tag: a title holding neither tag, then `</title>`
      and anything; the closing tag ends the title. */
  lemma TitleRest(t: string, post: string)
    requires !Contains(t, TitleOpen) && !Contains(t, TitleClose)
    ensures var rest := t + TitleClose + post;
      Index(rest, TitleClose) == |t| &&
      (Index(rest, TitleOpen) < 0 || |t| + |TitleClose| <= Index(rest, TitleOpen))
  {
    var rest := t + TitleClose + post;
    var m := |t|;
    assert rest[..m] == t;
    assert rest[m..m + |TitleClose|] == TitleClose;
    CloseAfterTitle(rest, m);
  }

  /** A wrapped title is extracted exactly: text without `<title>` (any
      other tags allowed, as in `<html><head>`), `<title>`, a title holding
      neither tag, `</title>` and anything after. */
  lemma TitleOf(pre: string, t: string, post: string)
    requires !Contains(pre, TitleOpen)
    requires !Contains(t, TitleOpen) && !Contains(t, TitleClose)
    ensures TitleFromBody(pre + TitleOpen + t + TitleClose + post) == t
  {
    var body := pre + TitleOpen + t + TitleClose + post;
    var after := t + TitleClose + post;
    assert body == pre + TitleOpen + after;
    LeadsOnce();
    IndexAfterPrefix(pre, TitleOpen, after);
    assert body[|pre| + |TitleOpen|..] == after;
    TitleRest(t, post);
    TitleBetweenMarkers(body);
    assert after[..|t|] == t;
  }

  /** The first occurrence of a pattern whose first character occurs in it
      only there is right after a prefix that does not hold the pattern. */
  lemma IndexAfterPrefix(pre: string, scheme: string, rest: string)
    requires scheme != "" && scheme[0] !in scheme[1..]
    requires !Contains(pre, scheme)
    ensures Index(pre + scheme + rest, scheme) == |pre|
  {
    var s := pre + scheme + rest;
    assert s[..|pre|] == pre;
    assert s[|pre|..|pre| + |scheme|] == scheme;
    assert s[|pre|] == scheme[0];
    NoEarlier(s, scheme, |pre|);
    IndexIs(s, scheme, |pre|);
  }

  /** A word with an `http://` link after a prefix that holds no `http://`,
      and no second `http://`, gives the link from the scheme to the end of
      the word (`a!@#!(*http://google.com` gives `http://google.com`,
      `see:http://x.com` gives `http://x.com`). */
  lemma HttpLink(pre: string, rest: string, pages: Pages)
    requires !Contains(pre, Http) && !Contains(rest, Http)
    ensures ParseLink(pre + Http + rest, pages) ==
      LinkBack(Link(Http + rest, GetTitleFromUrl(Http + rest, pages)), true)
  {
    var s := pre + Http + rest;
    LeadsOnce();
    IndexAfterPrefix(pre, Http, rest);
    assert s[|pre| + |Http|..] == rest;
  }

  /** The same for `https://`: when the word holds no `http://` at all, a
      prefix without `https://` and no second `https://` give the link from
      the scheme to the end of the word. */
  lemma HttpsLink(pre: string, rest: string, pages: Pages)
    requires !Contains(pre, Https) && !Contains(rest, Https)
    requires !Contains(pre + Https + rest, Http)
    ensures ParseLink(pre + Https + rest, pages) ==
      LinkBack(Link(Https + rest, GetTitleFromUrl(Https + rest, pages)), true)
  {
    var s := pre + Https + rest;
    LeadsOnce();
    IndexAfterPrefix(pre, Https, rest);
    assert s[|pre| + |Https|..] == rest;
  }

  /** A word with `https://`, no `h` elsewhere, meets the conditions of
      `HttpsLink`. */
  lemma HttpsOnly(pre: string, rest: string)
    requires 'h' !in pre && 'h' !in rest
    ensures !Contains(pre + Https + rest, Http)
    ensures !Contains(pre, Https) && !Contains(rest, Https)
  {
    var s := pre + Https + rest;
    var n := |pre|;
    forall i: nat | i + |Http| <= |s| ensures !OccursAt(s, Http, i) {
      if i < n {
        assert s[i] == pre[i] && pre[i] in pre;
      } else if i == n {
        assert s[i + 4] == 's';
      } else if i < n + |Https| {
        assert s[i] == Https[i - n];
      } else {
        assert s[i] == rest[i - n - |Https|] && rest[i - n - |Https|] in rest;
      }
    }
    LeadAbsent(pre, Https);
    LeadAbsent(rest, Https);
  }

  /** A word without `h` holds no link (`Good`, `around?`, `starting`). */
  lemma NoLink(str: string, pages: Pages)
    requires 'h' !in str
    ensures ParseLink(str, pages) == LinkBack(Link("", ""), false)
  {
    LeadAbsent(str, Http);
    LeadAbsent(str, Https);
  }

  /** A word too short to hold `http://` holds no link. */
  lemma ShortWord(str: string, pages: Pages)
    requires |str| < |Http|
    ensures ParseLink(str, pages) == LinkBack(Link("", ""), false)
  {
  }
}
