/** The text build.rs writes for the application to embed: one length-prefixed frame per
    article file, frames joined by '\n', and the ad file names joined by '\n'. The directory
    walk and file writes around it are not part of this model. */
module Build {
  import opened Wrappers
  import opened Strings

  /** The record for one article file: the topic's length, the topic (a directory name that
      may hold spaces), the file name, and the trimmed article text, separated by spaces. */
  function ArticlePayload(topic: string, fileName: string, article: string): string
  {
    Decimal(|topic|) + " " + topic + " " + fileName + " " + Trim(article)
  }

  /** `format!("{} {}", data.len(), data)`. */
  function Frame(payload: string): string
  {
    Decimal(|payload|) + " " + payload
  }

  function Frames(payloads: seq<string>): (r: seq<string>)
    ensures |r| == |payloads| && forall k :: 0 <= k < |r| ==> r[k] == Frame(payloads[k])
  {
    seq(|payloads|, k requires 0 <= k < |payloads| => Frame(payloads[k]))
  }

  /** `articles.join("\n")` over the frames. */
  function ArticlesData(payloads: seq<string>): string
  {
    JoinWith(Frames(payloads), '\n')
  }

  /** `ads.join("\n")`. */
  function AdsData(names: seq<string>): string
  {
    JoinWith(names, '\n')
  }

  /** A frame's text before its first space is the decimal length of the rest, which is the
      payload. */
  lemma FrameLayout(payload: string)
    ensures SplitOnce(Frame(payload), ' ') == Some((Decimal(|payload|), payload))
    ensures ParseUsize(Decimal(|payload|)) == Some(|payload|)
  {
    SplitOnceAt(Decimal(|payload|), ' ', payload);
    ParseDecimal(|payload|);
  }

  /** No frames give the empty text; otherwise the first frame, then for each further frame a
      single '\n' and that frame, with nothing after the last. */
  lemma ArticlesDataShape(payloads: seq<string>)
    ensures payloads == [] ==> ArticlesData(payloads) == []
    ensures |payloads| == 1 ==> ArticlesData(payloads) == Frame(payloads[0])
    ensures |payloads| > 1 ==>
      ArticlesData(payloads) == Frame(payloads[0]) + "\n" + ArticlesData(payloads[1..])
  {
    if |payloads| > 1 {
      assert Frames(payloads)[1..] == Frames(payloads[1..]);
    }
  }

  /** Reading the topic back off a payload: the length before the first space says how many
      characters the topic takes, and a space must follow it. */
  function SplitTopic(payload: string): Option<(string, string)>
  {
    match SplitOnce(payload, ' ')
    case None => None
    case Some((prefix, rest)) =>
      match ParseUsize(prefix)
      case None => None
      case Some(n) =>
        if n < |rest| && rest[n] == ' ' then
          Some((rest[..n], rest[n + 1..]))
        else None
  }

  /** The length prefix lets the topic be split back off, whatever spaces it holds. */
  lemma SplitTopicOfPayload(topic: string, fileName: string, article: string)
    ensures SplitTopic(ArticlePayload(topic, fileName, article))
            == Some((topic, fileName + " " + Trim(article)))
  {
    var tail := fileName + " " + Trim(article);
    assert ArticlePayload(topic, fileName, article) == Decimal(|topic|) + " " + topic + " " + tail;
    SplitTopicAfterLength(topic, tail);
  }

  lemma SplitTopicAfterLength(topic: string, tail: string)
    ensures SplitTopic(Decimal(|topic|) + " " + topic + " " + tail) == Some((topic, tail))
  {
    ParseDecimal(|topic|);
    SplitTopicAfter(Decimal(|topic|), topic, tail);
  }

  lemma SplitTopicAfter(prefix: string, topic: string, tail: string)
    requires ParseUsize(prefix) == Some(|topic|)
    ensures SplitTopic(prefix + " " + topic + " " + tail) == Some((topic, tail))
  {
    var rest := topic + " " + tail;
    assert prefix + " " + topic + " " + tail == prefix + " " + rest;
    SplitOnceAt(prefix, ' ', rest);
    assert rest[..|topic|] == topic && rest[|topic| + 1..] == tail;
    SplitTopicAt(prefix + " " + rest, prefix, rest, |topic|);
  }

  lemma SplitTopicAt(payload: string, prefix: string, rest: string, n: nat)
    requires SplitOnce(payload, ' ') == Some((prefix, rest)) && ParseUsize(prefix) == Some(n)
    requires n < |rest| && rest[n] == ' '
    ensures SplitTopic(payload) == Some((rest[..n], rest[n + 1..]))
  {
  }

  /** Reading the ad file back line by line gives the names, when none holds a line break and
      the last is not empty. */
  lemma AdsRoundTrip(names: seq<string>)
    requires forall k :: 0 <= k < |names| ==> '\n' !in names[k]
    requires names != [] ==> names[|names| - 1] != []
    ensures Lines(AdsData(names)) == names
  {
    LinesOfJoin(names);
  }
}
