/** The records of parse.go: the parse result, a link, and the message each
    classifier sends back on its channel. */
module Types {

  datatype Option<+T> = None | Some(value: T)

  /** A URL found in the text and the title of the page it points to
      (empty when the page could not be fetched or has no title). */
  datatype Link = Link(url: string, title: string)

  /** The result of parsing one line: the values found, in arrival order. */
  datatype Response = Response(emoticons: seq<string>, mentions: seq<string>, links: seq<Link>)

  /** `Response{}`: no emoticons, no mentions, no links. */
  const EmptyResponse := Response([], [], [])

  /** What the mention classifier sends back for one word. */
  datatype MentionBack = MentionBack(val: string, found: bool)

  /** What the emoticon classifier sends back for one word. */
  datatype EmoticonBack = EmoticonBack(val: string, found: bool)

  /** What the link classifier sends back for one word. */
  datatype LinkBack = LinkBack(val: Link, found: bool)

  /** A message received by the aggregation loop: one of its three channels. */
  datatype Report =
    | MentionReport(mention: MentionBack)
    | EmoticonReport(emoticon: EmoticonBack)
    | LinkReport(link: LinkBack)

  /** The network as seen by the title lookup: the body a GET of the URL
      returns, or None when the request or the read of the body fails. */
  type Pages = string -> Option<string>
}
