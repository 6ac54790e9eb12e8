/** `get_articles` of src/main.rs: reading the length-prefixed frames build.rs writes back
    into articles, one frame at a time. */
module Loader {
  import opened Wrappers
  import opened Strings
  import opened Articles
  import Build

  /** Why loading stops: no space before a length (`invalid data`), a length that does not
      parse as a `usize`, a length past the end of the data (the panic of `&rest[..length]`),
      or a record its parser rejects. */
  datatype LoadError<+E> = InvalidData | InvalidLength | RecordOutOfRange | BadRecord(error: E)

  /** `xs` in front of the values of `r`, or the error of `r`. */
  function Prepend<T, E>(xs: seq<T>, r: Result<seq<T>, E>): (p: Result<seq<T>, E>)
    ensures p.Success? <==> r.Success?
    ensures p.Success? ==> p.value == xs + r.value
    ensures p.Failure? ==> p.error == r.error
  {
    match r
    case Success(vs) => Success(xs + vs)
    case Failure(e) => Failure(e)
  }

  /** The records of `data` read with `parse`: while data is left, the text before the first
      space is the decimal length of the record after it; one character following the record
      (whatever it is) is skipped, and when there is none the data is used up. */
  function Decode<T, E>(data: string, parse: string -> Result<T, E>): Result<seq<T>, LoadError<E>>
    decreases |data|
  {
    if data == [] then Success([])
    else
      match SplitOnce(data, ' ')
      case None => Failure(InvalidData)
      case Some((prefix, rest)) =>
        match ParseUsize(prefix)
        case None => Failure(InvalidLength)
        case Some(n) =>
          if n > |rest| then Failure(RecordOutOfRange)
          else
            match parse(rest[..n])
            case Failure(e) => Failure(BadRecord(e))
            case Success(v) =>
              Prepend([v], Decode(if n + 1 <= |rest| then rest[n + 1..] else rest[n..], parse))
  }

  /** `get_articles`, the loop that walks the embedded data. */
  method GetArticles(data: string) returns (r: Result<seq<Article>, LoadError<ArticleError>>)
    ensures r == Decode(data, FromStr)
  {
    var remaining := data;
    var articles: seq<Article> := [];
    PrependNothing(Decode(data, FromStr));
    while remaining != []
      invariant Decode(data, FromStr) == Prepend(articles, Decode(remaining, FromStr))
      decreases |remaining|
    {
      var split := SplitOnce(remaining, ' ');
      if split.None? {
        return Failure(InvalidData);
      }
      var (prefix, rest) := split.value;
      var length := ParseUsize(prefix);
      if length.None? {
        return Failure(InvalidLength);
      }
      var n := length.value;
      if n > |rest| {
        return Failure(RecordOutOfRange);
      }
      var article := FromStr(rest[..n]);
      if article.Failure? {
        return Failure(BadRecord(article.error));
      }
      var next := if n + 1 <= |rest| then rest[n + 1..] else rest[n..];
      DecodeNext(remaining, FromStr, prefix, rest, n);
      assert Decode(remaining, FromStr) == Prepend([article.value], Decode(next, FromStr));
      PrependTwice(articles, [article.value], Decode(next, FromStr));
      articles := articles + [article.value];
      remaining := next;
    }
    assert Decode(remaining, FromStr) == Success([]);
    assert articles + [] == articles;
    return Success(articles);
  }

  /** One step of `Decode` past a record that parses. */
  lemma DecodeNext<T, E>(data: string, parse: string -> Result<T, E>, prefix: string, rest: string, n: nat)
    requires data != [] && SplitOnce(data, ' ') == Some((prefix, rest))
    requires ParseUsize(prefix) == Some(n) && n <= |rest| && parse(rest[..n]).Success?
    ensures Decode(data, parse)
            == Prepend([parse(rest[..n]).value], Decode(if n + 1 <= |rest| then rest[n + 1..] else rest[n..], parse))
  {
  }

  /** One step of `Decode` at a record its parser rejects: the load stops with that error. */
  lemma DecodeRejects<T, E>(data: string, parse: string -> Result<T, E>, prefix: string, rest: string, n: nat)
    requires data != [] && SplitOnce(data, ' ') == Some((prefix, rest))
    requires ParseUsize(prefix) == Some(n) && n <= |rest| && parse(rest[..n]).Failure?
    ensures Decode(data, parse) == Failure(BadRecord(parse(rest[..n]).error))
  {
  }

  /** A length written with a sign and a leading zero is read like the plain number. */
  lemma DecodePaddedLength()
    ensures Decode("+02 ab", Keep) == Success(["ab"])
  {
    SplitOnceAt("+02", ' ', "ab");
    assert "+02" + [' '] + "ab" == "+02 ab";
    ParsePaddedTwo();
    DecodeNext("+02 ab", Keep, "+02", "ab", 2);
    assert "ab"[..2] == "ab" && "ab"[2..] == [];
    assert ["ab"] + [] == ["ab"];
  }

  lemma ParsePaddedTwo()
    ensures ParseUsize("+02") == Some(2)
  {
    assert UnsignedDigits("+02") == "02";
    assert "02"[..1] == "0" && "0"[..0] == [];
    assert DigitsValue("02") == 2;
  }

  lemma PrependNothing<T, E>(r: Result<seq<T>, E>)
    ensures Prepend([], r) == r
  {
    if r.Success? {
      assert [] + r.value == r.value;
    }
  }

  lemma PrependTwice<T, E>(xs: seq<T>, ys: seq<T>, r: Result<seq<T>, E>)
    ensures Prepend(xs, Prepend(ys, r)) == Prepend(xs + ys, r)
  {
    if r.Success? {
      assert xs + (ys + r.value) == (xs + ys) + r.value;
    }
  }

  /** One frame as build.rs writes it, followed by any one character and more data, or by
      nothing: its record is parsed, and reading goes on after that character. */
  lemma DecodeFrame<T, E>(payload: string, sep: string, tail: string, parse: string -> Result<T, E>)
    requires |sep| <= 1 && (sep == [] ==> tail == [])
    ensures Decode(Build.Frame(payload) + sep + tail, parse)
            == var record := parse(payload);
               if record.Failure? then Failure(BadRecord(record.error))
               else Prepend([record.value], Decode(tail, parse))
  {
    var rest := payload + sep + tail;
    assert Build.Frame(payload) + sep + tail == Decimal(|payload|) + " " + rest;
    SplitOnceAt(Decimal(|payload|), ' ', rest);
    ParseDecimal(|payload|);
    assert rest[..|payload|] == payload;
    if sep == [] {
      assert rest[|payload|..] == tail;
    } else {
      assert rest[|payload| + 1..] == tail;
    }
  }

  /** A length field that is not a `usize`, or one that reaches past the end of the data,
      stops the load at that frame. */
  lemma DecodeBadLength<T, E>(prefix: string, rest: string, parse: string -> Result<T, E>)
    requires ' ' !in prefix
    ensures ParseUsize(prefix).None? ==> Decode(prefix + " " + rest, parse) == Failure(InvalidLength)
    ensures ParseUsize(prefix).Some? && ParseUsize(prefix).value > |rest|
            ==> Decode(prefix + " " + rest, parse) == Failure(RecordOutOfRange)
  {
    SplitOnceAt(prefix, ' ', rest);
  }

  /** Data that is not empty and holds no space is not frame data. */
  lemma DecodeNoSpace<T, E>(data: string, parse: string -> Result<T, E>)
    requires data != [] && ' ' !in data
    ensures Decode(data, parse) == Failure(InvalidData)
  {
  }

  /** The record parse results lifted into load results. */
  function Lift<T, E>(r: Result<seq<T>, E>): (l: Result<seq<T>, LoadError<E>>)
    ensures l.Success? <==> r.Success?
    ensures l.Success? ==> l.value == r.value
    ensures l.Failure? ==> l.error == BadRecord(r.error)
  {
    match r
    case Success(vs) => Success(vs)
    case Failure(e) => Failure(BadRecord(e))
  }

  /** Reading back what build.rs writes parses every payload in order, and stops at the first
      payload that does not parse, with its error. */
  lemma {:induction false} DecodeEncode<T, E>(payloads: seq<string>, parse: string -> Result<T, E>)
    ensures Decode(Build.ArticlesData(payloads), parse) == Lift(Collect(payloads, parse))
  {
    Build.ArticlesDataShape(payloads);
    if |payloads| == 1 {
      DecodeFrame(payloads[0], [], [], parse);
      assert Build.Frame(payloads[0]) + [] + [] == Build.Frame(payloads[0]);
    } else if |payloads| > 1 {
      var tail := Build.ArticlesData(payloads[1..]);
      DecodeFrame(payloads[0], "\n", tail, parse);
      DecodeEncode(payloads[1..], parse);
    }
  }

  function Keep(s: string): Result<string, ()>
  {
    Success(s)
  }

  /** With a parser that accepts every record, the payloads come back exactly. */
  lemma DecodeEncodeRaw(payloads: seq<string>)
    ensures Decode(Build.ArticlesData(payloads), Keep) == Success(payloads)
  {
    DecodeEncode(payloads, Keep);
    var c := Collect(payloads, Keep);
    assert c.Success?;
    assert c.value == payloads;
  }
}
