# hipchat-string-server, modelled in Dafny

hipchat-string-server takes a chat message and returns, as a `Response`, the
`@mentions`, the `(emoticons)` and the links with their page titles that it
finds. `ParseString` splits the message on single spaces. For every word it
starts three goroutines, one per classifier (`parseMention`, `parseEmoticon`,
`parseLink`). It then collects their reports from three channels, racing a
3-second timer. When the timer wins, everything collected is thrown away and
an error is returned. The test program's `compare` checks a response against
the expected one, ignoring order.

The project models that core:

| module | file | what it holds |
|---|---|---|
| `Types` | `types.dfy` | `Response`, `Link`, the three `...Back` report records, the report kinds of the channels, the page source `Pages` |
| `GoStrings` | `gostrings.dfy` | `strings.Index`, `Contains`, `Split` and `SplitAfter` as functions, with the facts the classifiers rely on |
| `Mention` | `mention.dfy` | `parseMention`: the scanner as a method, proved equal to a declarative `MentionOf`, and lemmas about `MentionOf` |
| `Emoticon` | `emoticon.dfy` | `parseEmoticon`: the scanner as a method, proved equal to `EmoticonOf`, and lemmas about it |
| `Links` | `links.dfy` | `parseLink` and the title extraction of `getTitleFromUrl`, as functions |
| `Parse` | `parse.dfy` | `ParseString` as a launch loop and a receive loop, and what the response holds |
| `ResponseCompare` | `compare.dfy` | `compare` of test.go as a method, proved equal to a predicate `Matches` |
| `Scenarios` | `scenarios.dfy` | the test inputs of test.go carried through the model |

Modelling choices:

- The page fetch of `getTitleFromUrl` is a parameter `pages: string -> Option<string>`. It gives the body for a URL, or `None` when the GET or the read of the body fails.
- The goroutines send their reports in no fixed order. `ParseString` takes a parameter `pick: nat -> nat`: the k-th receive takes report `pick(k) % n` of the `n` still pending.
- The timer is a parameter `deadline: Option<nat>`. `Some(d)` selects the timer case once `d` reports have been received; `None` means the timer never wins the race.
- Every property of the response is stated for all `pick` and all `deadline`. Its lists are exact up to order, as multisets: each value is found as often as the words yield it.
- Characters are bytes. The index that `range` gives on a string is a byte offset, which equals the character index for single-byte text.

Points where the code behaves in ways its comments and names do not
suggest, as the model states them:

- Empty words (from consecutive or trailing spaces) are classified like any other word. The test `word == " "` can never hold for a piece of `strings.Split(input, " ")`. So a message yields `3 × (spaces + 1)` reports, never zero, and a single space yields six (`Parse.SingleSpace`, `Parse.LaunchCount`).
- The emoticon break set contains `(`. That character never reaches the break test, because `(` is checked first and starts a capture (`Emoticon.EmoticonBreak`).
- A URL does not always run to the end of its word. `SplitAfter(str, scheme)[1]` stops after a second occurrence of the scheme, if there is one (`Links.SchemeTail`, `Links.ParseLink`).
- A run of `@` does not stop a mention. Every `@` that is not the last character of the word is skipped by `continue` and sets `found`, whether or not a capture is on, so `@@niche` mentions `niche` (`Mention.MentionRun`, `Mention.MentionAfterAts`). A final `@` never starts a capture. Once a capture is on, a final `@` is a break character and ends it (`Mention.FinalAtIgnored`).
- A break character inside an emoticon clears `found` but keeps `val`. With no later `(`, the word reports the kept text, not found (`Emoticon.BreakKeepsVal`). A later `(` sets `found` again, and appending resumes after the kept text: `(ab!xy(cd)` gives `abcd`, found (`Emoticon.Resumed`).
- An emoticon needs no closing `)` (`Emoticon.Unclosed`).
- The length bound is index 14 of the word, not 14 characters of content. A word still unresolved on reaching its fifteenth character yields nothing (`Emoticon.CutOff`).

## Model

| member | source | states |
|---|---|---|
| `GoStrings.IndexFrom` | hipchat-string-server/parse.go:199 | the first occurrence of the pattern at or after `from`, or -1 when there is none |
| `GoStrings.Index` | hipchat-string-server/parse.go:199 | `strings.Index`: an occurrence and none before it, or -1 exactly when the pattern occurs nowhere |
| `GoStrings.Split` | hipchat-string-server/parse.go:64 | `strings.Split` yields at least one piece, and two or more exactly when the separator occurs |
| `GoStrings.SplitAfter` | hipchat-string-server/parse.go:201 | the same for `strings.SplitAfter` |
| `GoStrings.SplitJoin` | hipchat-string-server/parse.go:64 | joining the pieces of `Split` with the separator gives the input back |
| `GoStrings.SplitPiecesLackSep` | hipchat-string-server/parse.go:64 | no piece of `Split` contains the separator |
| `GoStrings.SplitHead` | hipchat-string-server/parse.go:238-243 | the first piece of `Split` is the text before the first separator, or the whole text |
| `GoStrings.SplitAfterConcat` | hipchat-string-server/parse.go:201 | the pieces of `SplitAfter` concatenate back to the input |
| `GoStrings.SplitAfterSecond` | hipchat-string-server/parse.go:201-202 | `SplitAfter(s, sep)[1]` is the text after the first separator, up to and including the next one, or to the end |
| `GoStrings.SplitCount` | hipchat-string-server/parse.go:64-65 | splitting on a character gives one piece more than it has occurrences |
| `GoStrings.JoinSplit` | hipchat-string-server/parse.go:64 | words free of the separator, joined by it, split back into exactly those words |
| `GoStrings.NoEarlier` | hipchat-string-server/parse.go:199-209 | a pattern whose first character occurs in it only there, found at `n` and absent from the text before `n`, occurs at no earlier index of the text |
| `Mention.StartFrom` | hipchat-string-server/parse.go:145-148 | the first `@` at or after `from` that is not the last character of the word, or the end |
| `Mention.StopFrom` | hipchat-string-server/parse.go:149-154 | the first break character at or after `from` that is not such an `@`, or the end |
| `Mention.ParseMention` | hipchat-string-server/parse.go:137-163 | the scanner as written returns exactly `MentionOf` of the word |
| `Mention.MentionValue` | hipchat-string-server/parse.go:150-160 | a mention is found exactly when its value is not empty, and the value holds no break character, in particular no `@` |
| `Mention.OnlyAts` | hipchat-string-server/parse.go:145-160 | a word made only of `@` (`@@`, `@@@@`) mentions nobody |
| `Mention.MentionWindow` | hipchat-string-server/parse.go:143-160 | the mention is what is captured between the first start and the next stop |
| `Mention.MentionRun` | hipchat-string-server/parse.go:143-160 | a run of `@`s then text free of break characters, ended by a break or the end of the word, mentions that text |
| `Mention.MentionAfterAts` | hipchat-string-server/parse.go:143-160 | the same on strings: `pre + ats + t + rest` mentions `t` (`@kris`, `asdf@kjersti,`, `-@charlie!`, `@@niche`, `sdf@hank!`) |
| `Mention.FinalAtIgnored` | hipchat-string-server/parse.go:145 | appending an `@` to a word never changes what it mentions |
| `Mention.BreakAfterStart` | hipchat-string-server/parse.go:149-160 | a break character right after the first `@` leaves the word mentionless (`asf8!@#!!@$asdf9124`) |
| `Mention.NoAt` | hipchat-string-server/parse.go:143-160 | a word without `@` mentions nobody |
| `Emoticon.CloseFrom` | hipchat-string-server/parse.go:182-183 | the first `)` read with the flag set, at or after `from`, or the end |
| `Emoticon.ParseEmoticon` | hipchat-string-server/parse.go:166-192 | the scanner as written returns exactly `EmoticonOf` of the word |
| `Emoticon.EmoticonValue` | hipchat-string-server/parse.go:170-190 | a value holds only content characters (no parenthesis, no break character) and fewer than 14 of them, and a found one ended at a close or within a word of at most 14 characters |
| `Emoticon.CutOff` | hipchat-string-server/parse.go:171-175 | a word longer than 14 characters with no close among its first 14 yields nothing (`(123456789101112131415)`) |
| `Emoticon.EmoticonRun` | hipchat-string-server/parse.go:177-185 | the first `(`, content, and a `)` before index 14 give that content, found |
| `Emoticon.Bracketed` | hipchat-string-server/parse.go:177-185 | the same on strings, whatever follows the `)` (`f!(kris),`, `(kjersti)`, `(megusta)`) |
| `Emoticon.UnclosedRun` | hipchat-string-server/parse.go:177-191 | an opened emoticon that reaches the end of a short word is found without a `)` |
| `Emoticon.Unclosed` | hipchat-string-server/parse.go:177-191 | the same on strings: `pre + "(" + t` gives `t`, found |
| `Emoticon.StaysClosed` | hipchat-string-server/parse.go:181-188 | once the flag is clear, text without `(` changes neither the flag nor the value |
| `Emoticon.BreakRun` | hipchat-string-server/parse.go:186-188 | a break character clears the flag and keeps the value read so far |
| `Emoticon.BreakKeepsVal` | hipchat-string-server/parse.go:184-191 | the same on strings: `(kris!` reports `kris`, not found |
| `Emoticon.ResumedRun` | hipchat-string-server/parse.go:170-191 | after a break inside an emoticon, a later `(` and content closed by `)` before index 14 report the text kept before the break followed by the new text, found |
| `Emoticon.Resumed` | hipchat-string-server/parse.go:177-188 | the same on strings: `pre ( t1 b mid ( t2 ) rest` gives `t1 + t2`, found (`(ab!xy(cd)` gives `abcd`) |
| `Emoticon.NoParen` | hipchat-string-server/parse.go:177-191 | a word without `(` yields nothing |
| `Emoticon.NoCloseLong` | hipchat-string-server/parse.go:171-175 | a word longer than 14 characters without `)` yields nothing |
| `Links.TitleFromBody` | hipchat-string-server/parse.go:232-243 | no `<title>` gives the empty title, and a title never contains either tag |
| `Links.TitleBetweenMarkers` | hipchat-string-server/parse.go:233-243 | the title is the text between the first `<title>` and the next `</title>`, provided that `</title>` ends before any second `<title>` starts; otherwise it is empty |
| `Links.TitleRest` | hipchat-string-server/parse.go:238-243 | after `<title>`, a title holding neither tag followed by `</title>`: the closing tag found is the one right after the title, and no second `<title>` starts before it ends |
| `Links.TitleOf` | hipchat-string-server/parse.go:233-243 | a page `pre<title>t</title>post` with no `<title>` in `pre` (other tags allowed) and neither tag in `t` has the title `t` |
| `Links.GetTitleFromUrl` | hipchat-string-server/parse.go:218-244 | a failed fetch gives the empty title; otherwise the title is extracted from the body |
| `Links.ParseLink` | hipchat-string-server/parse.go:195-215 | found exactly when the word contains `http://` or `https://`, with `http://` tried first; the URL is the scheme and its tail, the title is that URL's, and a word without a link gives an empty link |
| `Links.SchemeTailInWord` | hipchat-string-server/parse.go:201-202 | the scheme and its tail are the piece of the word starting at the scheme's first occurrence |
| `Links.UrlInWord` | hipchat-string-server/parse.go:199-209 | the URL is a piece of the word starting at the scheme, so only the text before the scheme is dropped |
| `Links.HttpLink` | hipchat-string-server/parse.go:199-203 | after a prefix holding no `http://`, and with no second `http://`, the link runs from `http://` to the end of the word (`a!@#!(*http://google.com`, `see:http://x.com`) |
| `Links.HttpsLink` | hipchat-string-server/parse.go:205-209 | the same for `https://`: in a word without any `http://`, after a prefix holding no `https://` and with no second `https://`, the link runs from `https://` to the end of the word |
| `Links.HttpsOnly` | hipchat-string-server/parse.go:199-205 | a word whose only `h` is that of its `https://` meets the conditions of `Links.HttpsLink`: no `http://`, no `https://` before the scheme and none after it (the twitter link) |
| `Links.NoLink` | hipchat-string-server/parse.go:199-214 | a word without `h` holds no link |
| `Links.ShortWord` | hipchat-string-server/parse.go:199-214 | a word shorter than `http://` holds no link |
| `Parse.Words` | hipchat-string-server/parse.go:64-65 | the words are one more than the spaces, contain no space, and joined by spaces give the input back |
| `Parse.LaunchAll` | hipchat-string-server/parse.go:74-90 | the launch loop sends, for every word in order, its mention, emoticon and link reports, and counts them |
| `Parse.Gather` | hipchat-string-server/parse.go:92-133 | the receive loop returns the timeout error and an empty response exactly when the timer is selected before all reports arrive; otherwise each list holds exactly the found values of the reports, whatever the arrival order |
| `Parse.ParseString` | hipchat-string-server/parse.go:59-134 | a timeout, with an empty response, exactly when the timer fires before `3 × words` reports; otherwise each list holds exactly the values its classifier finds in the words |
| `Parse.LaunchedLength` | hipchat-string-server/parse.go:74-90 | every word launches three classifiers, since none is ever skipped |
| `Parse.LaunchCount` | hipchat-string-server/parse.go:64-90 | `total` is three times the number of spaces plus one, never zero |
| `Parse.MentionCount` | hipchat-string-server/parse.go:97-102 | a name is collected as often as a found mention report of it is received |
| `Parse.EmoticonCount` | hipchat-string-server/parse.go:103-108 | the same for emoticons |
| `Parse.LinkCount` | hipchat-string-server/parse.go:109-114 | the same for links |
| `Parse.ArrivalOrder` | hipchat-string-server/parse.go:95-123 | two arrival orders of the same reports yield the same lists up to order |
| `Parse.CollectedSnoc` | hipchat-string-server/parse.go:96-114 | receiving one more report appends its value to its own list when found, and changes nothing else |
| `Parse.FoundInWords` | hipchat-string-server/parse.go:74-114 | the found values of all launched reports are, list by list, the values the classifiers find in the words |
| `Parse.SingleSpace` | hipchat-string-server/parse.go:64-90 | a message of one space splits into two empty words, which yield nothing |
| `ResponseCompare.Search` | test.go:251-256 | the inner loop sets the flag exactly when the value occurs in the actual list |
| `ResponseCompare.Compare` | test.go:246-292 | `compare` is true exactly when the expected response lists something and each of its values occurs in the same list of the actual one |
| `ResponseCompare.EmptyExpected` | test.go:248-291 | an expected response that lists nothing never matches |
| `ResponseCompare.ExtraActual` | test.go:246-292 | values the expected response does not list never make the comparison fail |
| `ResponseCompare.ReorderedActual` | test.go:244-246 | the order of the actual lists does not matter |
| `ResponseCompare.LinksByHash` | test.go:277-285 | two links match exactly when both URL and title agree |
| `Scenarios.MentionLine` | test.go:66-69 | `@name b c` with `b`, `c` mentionless (`@chris you around?`): the response's mentions are exactly `name`, and `compare` accepts them |
| `Scenarios.ChrisName` | test.go:69 | `chris` is a name taken whole |
| `Scenarios.ProvidedMentionsRest` | test.go:69 | `you` and `around?` mention nobody |
| `Scenarios.EmoticonLine` | test.go:74-77 | `a b (e1) (e2)` with `a`, `b` emoticonless (`Good morning! (megusta) (coffee)`): the emoticons are exactly `e1` and `e2`, and `compare` accepts them |
| `Scenarios.MegustaName` | test.go:77 | `megusta` is an emoticon name taken whole |
| `Scenarios.CoffeeName` | test.go:77 | `coffee` is an emoticon name taken whole |
| `Scenarios.ProvidedEmoticonsRest` | test.go:77 | `Good` and `morning!` hold no emoticon |
| `Scenarios.LinkLine` | test.go:82-87 | linkless words then one `http://` link whose page holds its title after any tags other than `<title>` (`Olympics are starting soon; http://www.nbcolympics.com`, and the single word `a!@#!(*http://google.com`): the links are exactly that link with that title, and `compare` accepts them |
| `Scenarios.ProvidedLinksRest` | test.go:87 | `Olympics`, `are`, `starting` and `soon;` hold no link |
| `Scenarios.OlympicsLinkWord` | test.go:87 | `http://www.nbcolympics.com` is a link word |
| `Scenarios.EdgeLinkWord` | test.go:125 | `a!@#!(*http://google.com` is a link word: the junk before `http://` holds no `http://` |
| `Scenarios.GooglePage` | test.go:120-125 | a page `<html><head><title>Google</title>…`, with tags before its title, gives the title `Google` that the URL edge case expects |
| `Scenarios.ProvidedMentions` | test.go:69 | the words of `@chris you around?` mention `chris` and nobody else |
| `Scenarios.ProvidedEmoticons` | test.go:77 | the words of `Good morning! (megusta) (coffee)` hold `megusta` then `coffee` and nothing else |
| `Scenarios.ProvidedLinks` | test.go:87 | the words of `Olympics are starting soon; http://www.nbcolympics.com` hold the one link `http://www.nbcolympics.com`, with the title of its page |
| `Scenarios.EdgeLinks` | test.go:125 | the word `a!@#!(*http://google.com` holds the one link `http://google.com`, with the title of its page |

## Left out

- The HTTP GET and the read of the body in `getTitleFromUrl` are I/O. They are the `pages` parameter, so the model does not know the real title of a page.
- `pages` is a function, so within one `ParseString` every word holding the same URL sees the same body and the same title. Two real GETs of one URL may return different pages.
- Goroutines and channels are modelled as a sequence of pending reports and the receive order `pick`, which also stands for Go's choice among ready `select` cases.
- The closing of the three report channels (parse.go:126-128) is not modelled; the model stops when `ParseString` returns. The timer wins only while reports are still pending (fewer than `total` received), so every timeout leaves at least one classifier goroutine whose report was not received. The channels are unbuffered, so that report is still unsent: the goroutine's send (parse.go:162, 191, 214) then meets a closed channel and panics, taking the process down unless it has exited first. The model neither receives those reports nor states that outcome.
- After a normal completion, nobody receives from the timer channel again, so the `getTimeout` goroutine blocks for ever on its unbuffered send (parse.go:250) and leaks. The model does not state this either.
- The timer and its goroutine (`getTimeout`) are the `deadline` parameter; wall-clock time is not modelled.
- The logger calls and `getErrorAndLog` do only logging. The error's message text is reduced to `Timeout(3)`.
- `Link.ToHash` compares links by an MD5 sum of the struct. The model uses structural equality: up to hash collisions, it decides the same thing.
- `ToJson`, the HTTP server (server.go), main.go, devel.go, logger.go, and the rest of test.go (the test runner, `testServer`, `handleArgs`) are not part of this model.
- Multi-byte UTF-8 characters are not modelled: each character is one byte. Go's `range` over a string decodes runes and gives byte offsets, which the final-`@` test and the index-14 cut-off use.
- `Provided #4`, `Mention Edge Cases` and `Emoticons Edge Cases` of test.go are covered word by word by the classifier lemmas, not as whole lines.
- Parse.ParseString: states each list only up to order, as a multiset, because the order depends on `pick`; the exact order for a given `pick` is not stated.
- Scenarios.LinkLine: covers `http://` links only; an `https://` line (the twitter link) is covered only per word by `Links.HttpsLink`.
- ResponseCompare.ExtraActual: one direction only. Values the actual response lists and the expected one does not are never checked by `compare`, so no converse holds.
