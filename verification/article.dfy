/** The article text format of src/article.rs: a header line `id title`, a line with the
    image URL, then blank-line-separated fragments, each a tag line (`text` or `image`)
    followed by its content line. Reading time is counted at 200 characters a minute. */
module Articles {
  import opened Wrappers
  import opened Strings

  datatype Fragment = Text(text: string) | Image(url: string)

  datatype Article = Article(id: string, title: string, imageUrl: string, fragments: seq<Fragment>)
  {
    /** `text_len`: the characters of the text fragments. */
    function TextLen(): nat
    {
      FragmentsTextLen(fragments)
    }

    /** `reading_time`: `text_len().div_ceil(200)`, the minutes needed at 200 characters a
        minute, rounded up. */
    function ReadingTime(): (r: nat)
      ensures r * 200 >= TextLen()
      ensures TextLen() > 0 ==> (r - 1) * 200 < TextLen()
      ensures r == 0 <==> TextLen() == 0
    {
      (TextLen() + 199) / 200
    }
  }

  /** The reasons `from_str` gives up. The first four are its `anyhow` errors; `UnknownTag`
      is the `unreachable!()` panic on a tag other than `text` or `image`, and `MissingContent`
      the out-of-bounds panic of `fragment[1]` on a one-line fragment. */
  datatype ArticleError = NoData | NoTitle | NoImage | NoFragmentData | UnknownTag | MissingContent

  /** `Fragment::as_text`. */
  function AsText(f: Fragment): (r: Option<string>)
    ensures r.Some? <==> f.Text?
    ensures r.Some? ==> Text(r.value) == f
  {
    if f.Text? then Some(f.text) else None
  }

  function FragmentsTextLen(fragments: seq<Fragment>): nat
  {
    if fragments == [] then 0
    else
      (match AsText(fragments[0]) case Some(t) => |t| case None => 0)
      + FragmentsTextLen(fragments[1..])
  }

  /** The text length adds up over consecutive runs of fragments. */
  lemma {:induction false} TextLenAppend(a: seq<Fragment>, b: seq<Fragment>)
    ensures FragmentsTextLen(a + b) == FragmentsTextLen(a) + FragmentsTextLen(b)
  {
    if a == [] {
      assert a + b == b;
    } else {
      assert (a + b)[0] == a[0] && (a + b)[1..] == a[1..] + b;
      TextLenAppend(a[1..], b);
    }
  }

  /** Each fragment adds the length of its text, or nothing when it is an image. */
  lemma TextLenCounts(fragments: seq<Fragment>, f: Fragment)
    ensures FragmentsTextLen(fragments + [f]) == FragmentsTextLen(fragments) + (if f.Text? then |f.text| else 0)
  {
    TextLenAppend(fragments, [f]);
  }

  /** The lines one fragment is written as. */
  function FragmentLines(f: Fragment): seq<string>
  {
    match f
    case Text(t) => ["text", t]
    case Image(u) => ["image", u]
  }

  /** The closure `from_str` maps over each blank-line-separated group of lines. Lines after
      the second are ignored. */
  function ParseFragment(group: seq<string>): (r: Result<Fragment, ArticleError>)
    ensures r == Failure(NoFragmentData) <==> group == []
    ensures r == Failure(UnknownTag) <==> group != [] && group[0] != "text" && group[0] != "image"
    ensures r == Failure(MissingContent) <==> |group| == 1 && (group[0] == "text" || group[0] == "image")
    ensures r.Success? <==> |group| >= 2 && (group[0] == "text" || group[0] == "image")
    ensures r.Success? ==> FragmentLines(r.value) == group[..2]
  {
    if group == [] then Failure(NoFragmentData)
    else if group[0] == "text" then (if |group| < 2 then Failure(MissingContent) else Success(Text(group[1])))
    else if group[0] == "image" then (if |group| < 2 then Failure(MissingContent) else Success(Image(group[1])))
    else Failure(UnknownTag)
  }

  /** `Article::from_str`. */
  function FromStr(s: string): (r: Result<Article, ArticleError>)
    ensures r == Failure(NoData) <==> s == []
    ensures r == Failure(NoTitle) <==> s != [] && ' ' !in Lines(s)[0]
    ensures r == Failure(NoImage) <==> s != [] && ' ' in Lines(s)[0] && |Lines(s)| == 1
    ensures r.Success? ==>
      var ls := Lines(s);
      var groups := Split(ls[2..], "");
      |ls| >= 2 && ls[0] == r.value.id + " " + r.value.title && ' ' !in r.value.id
      && ls[1] == r.value.imageUrl
      && |r.value.fragments| == |groups|
      && forall k :: 0 <= k < |groups| ==>
           |groups[k]| >= 2 && FragmentLines(r.value.fragments[k]) == groups[k][..2]
    ensures s != [] && ' ' in Lines(s)[0] && |Lines(s)| >= 2 ==>
      var groups := Split(Lines(s)[2..], "");
      (r.Success? <==> forall k :: 0 <= k < |groups| ==> ParseFragment(groups[k]).Success?)
      && (r.Failure? ==>
            exists k :: 0 <= k < |groups| && ParseFragment(groups[k]) == Failure(r.error)
                        && forall m :: 0 <= m < k ==> ParseFragment(groups[m]).Success?)
  {
    var lines := Lines(s);
    if lines == [] then Failure(NoData)
    else
      match SplitOnce(lines[0], ' ')
      case None => Failure(NoTitle)
      case Some((id, title)) =>
        if |lines| < 2 then Failure(NoImage)
        else
          match Collect(Split(lines[2..], ""), ParseFragment)
          case Failure(e) => Failure(e)
          case Success(fragments) => Success(Article(id, title, lines[1], fragments))
  }

  /** A successful parse saw at least one line after the image, and no empty fragment: the
      fragment lines neither start nor end with a blank line nor hold two in a row. */
  lemma ParsedHasNoEmptyFragment(s: string)
    requires FromStr(s).Success?
    ensures var body := Lines(s)[2..];
      body != [] && body[0] != "" && body[|body| - 1] != ""
      && forall k :: 0 <= k < |body| - 1 ==> !(body[k] == "" && body[k + 1] == "")
  {
    var body := Lines(s)[2..];
    var groups := Split(body, "");
    var r := Collect(groups, ParseFragment);
    assert r.Success?;
    SplitPartsNonEmpty(body, "");
  }

  // ---------------------------------------------------------------- writing an article

  /** The article text `from_str` reads: the header, the image URL, then the fragments
      separated by blank lines. */
  function Render(a: Article): string
  {
    JoinWith([a.id + " " + a.title, a.imageUrl] + FragmentBlock(a.fragments), '\n')
  }

  function FragmentBlock(fragments: seq<Fragment>): seq<string>
  {
    JoinWith(FragmentGroups(fragments), "")
  }

  function FragmentGroups(fragments: seq<Fragment>): (r: seq<seq<string>>)
    ensures |r| == |fragments| && forall k :: 0 <= k < |r| ==> r[k] == FragmentLines(fragments[k])
  {
    seq(|fragments|, k requires 0 <= k < |fragments| => FragmentLines(fragments[k]))
  }

  /** An article whose text format reads back: the id holds no space, no field holds a line
      break, and there is at least one fragment, none of them empty. */
  predicate Writable(a: Article)
  {
    ' ' !in a.id && '\n' !in a.id && '\n' !in a.title && '\n' !in a.imageUrl
    && a.fragments != []
    && forall k :: 0 <= k < |a.fragments| ==>
         var c := FragmentLines(a.fragments[k])[1]; c != "" && '\n' !in c
  }

  /** Reading back a written article gives the article. */
  lemma FromStrRender(a: Article)
    requires Writable(a)
    ensures FromStr(Render(a)) == Success(a)
  {
    var lines := Lines(Render(a));
    RenderLines(a);
    SplitOnceAt(a.id, ' ', a.title);
    assert lines[2..] == FragmentBlock(a.fragments);
    FragmentsReadBack(a);
  }

  lemma RenderLines(a: Article)
    requires Writable(a)
    ensures Lines(Render(a)) == [a.id + " " + a.title, a.imageUrl] + FragmentBlock(a.fragments)
  {
    var groups := FragmentGroups(a.fragments);
    var block := JoinWith(groups, "");
    var lines := [a.id + " " + a.title, a.imageUrl] + block;
    forall k | 0 <= k < |block|
      ensures '\n' !in block[k]
    {
      JoinWithElement(groups, "", k);
    }
    JoinWithLast(groups, "");
    assert forall k :: 0 <= k < |lines| ==> '\n' !in lines[k];
    LinesOfJoin(lines);
  }

  lemma FragmentsReadBack(a: Article)
    requires Writable(a)
    ensures Collect(Split(FragmentBlock(a.fragments), ""), ParseFragment) == Success(a.fragments)
  {
    var groups := FragmentGroups(a.fragments);
    forall k | 0 <= k < |groups|
      ensures "" !in groups[k] && ParseFragment(groups[k]) == Success(a.fragments[k])
    {
      FragmentReadsBack(a.fragments[k]);
    }
    SplitJoin(groups, "");
    assert Split(FragmentBlock(a.fragments), "") == groups;
    var r := Collect(groups, ParseFragment);
    assert r.Success?;
    assert |r.value| == |a.fragments|;
    assert forall k :: 0 <= k < |groups| ==> r.value[k] == a.fragments[k];
    assert r.value == a.fragments;
  }

  /** The two lines a fragment is written as read back as that fragment. */
  lemma FragmentReadsBack(f: Fragment)
    requires FragmentLines(f)[1] != ""
    ensures "" !in FragmentLines(f) && ParseFragment(FragmentLines(f)) == Success(f)
  {
    var g := FragmentLines(f);
    assert g[0] == "text" || g[0] == "image";
    assert g[..2] == g;
  }
}
