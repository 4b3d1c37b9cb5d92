/** The article records the news API returns and their plain-text rendering (formatArticle, fetchAndFormatArticles). */
module Articles {
  import opened Wrappers
  import Text

  /** One news item; every display field may be absent. */
  datatype Article = Article(
    id: int,
    title: Option<string>,
    url: Option<string>,
    summary: Option<string>,
    publishedAt: Option<string>,
    newsSite: Option<string>)

  /** The parsed payload `{ results, count }`; `results` may be missing from the JSON. */
  datatype ArticlesResponse = ArticlesResponse(results: Option<seq<Article>>, count: int)

  /** JavaScript truthiness of an optional string: present and not empty. */
  predicate Truthy(field: Option<string>)
  {
    field.Some? && field.value != ""
  }

  /** `field || fallback` */
  function OrElse(field: Option<string>, fallback: string): string
  {
    if Truthy(field) then field.value else fallback
  }

  /** The six lines of one article block, in display order. */
  function ArticleLines(a: Article, localeDate: string -> string): seq<string>
  {
    [ "Title: " + OrElse(a.title, "Unknown"),
      "Published: " + (if Truthy(a.publishedAt) then localeDate(a.publishedAt.value) else "Unknown"),
      "Source: " + OrElse(a.newsSite, "Unknown"),
      "Summary: " + OrElse(a.summary, "No summary available"),
      "URL: " + OrElse(a.url, "No URL available"),
      "---" ]
  }

  /** formatArticle: the six lines joined by single newlines; `localeDate` stands for toLocaleDateString. */
  function FormatArticle(a: Article, localeDate: string -> string): string
  {
    Text.Join(ArticleLines(a, localeDate), "\n")
  }

  /** No field shown in the block contains a line break of its own. */
  predicate NoLineBreaks(a: Article, localeDate: string -> string)
  {
    && (a.title.Some? ==> '\n' !in a.title.value)
    && (a.newsSite.Some? ==> '\n' !in a.newsSite.value)
    && (a.summary.Some? ==> '\n' !in a.summary.value)
    && (a.url.Some? ==> '\n' !in a.url.value)
    && (Truthy(a.publishedAt) ==> '\n' !in localeDate(a.publishedAt.value))
  }

  /** `results.map(formatArticle)` */
  function Blocks(rs: seq<Article>, localeDate: string -> string): (bs: seq<string>)
    ensures |bs| == |rs|
    ensures forall i :: 0 <= i < |rs| ==> bs[i] == FormatArticle(rs[i], localeDate)
  {
    if rs == [] then [] else [FormatArticle(rs[0], localeDate)] + Blocks(rs[1..], localeDate)
  }

  /** `data && data.results?.length`: a payload with at least one article. */
  predicate HasArticles(data: Option<ArticlesResponse>)
  {
    data.Some? && data.value.results.Some? && |data.value.results.value| > 0
  }

  /** The rendering half of fetchAndFormatArticles, given the fetch outcome `data`. */
  function FormatArticles(data: Option<ArticlesResponse>, fallback: string, localeDate: string -> string): string
  {
    if !HasArticles(data) then fallback
    else Text.Join(Blocks(data.value.results.value, localeDate), "\n")
  }

  /** The lines of every block, one block after another. */
  function AllLines(rs: seq<Article>, localeDate: string -> string): seq<string>
  {
    if rs == [] then [] else ArticleLines(rs[0], localeDate) + AllLines(rs[1..], localeDate)
  }

  /** The block written out as one template string: each label, its value or fallback, a newline, and `---` last. */
  lemma FormatArticleText(a: Article, localeDate: string -> string)
    ensures var title := if a.title.Some? && a.title.value != "" then a.title.value else "Unknown";
      var published := if a.publishedAt.Some? && a.publishedAt.value != "" then localeDate(a.publishedAt.value) else "Unknown";
      var site := if a.newsSite.Some? && a.newsSite.value != "" then a.newsSite.value else "Unknown";
      var summary := if a.summary.Some? && a.summary.value != "" then a.summary.value else "No summary available";
      var url := if a.url.Some? && a.url.value != "" then a.url.value else "No URL available";
      FormatArticle(a, localeDate) ==
        ("Title: " + title) + "\n" + ("Published: " + published) + "\n" + ("Source: " + site) + "\n"
        + ("Summary: " + summary) + "\n" + ("URL: " + url) + "\n" + "---"
  {
    var ls := ArticleLines(a, localeDate);
    Text.JoinSix(ls, "\n");
  }

  /** An article with every field absent or empty renders as the five fallback lines and `---`. */
  lemma MissingFields(a: Article, localeDate: string -> string)
    requires !Truthy(a.title) && !Truthy(a.publishedAt) && !Truthy(a.newsSite)
    requires !Truthy(a.summary) && !Truthy(a.url)
    ensures FormatArticle(a, localeDate) ==
      "Title: Unknown" + "\n" + "Published: Unknown" + "\n" + "Source: Unknown" + "\n"
      + "Summary: No summary available" + "\n" + "URL: No URL available" + "\n" + "---"
  {
    FormatArticleText(a, localeDate);
    FallbackLines();
  }

  /** The fallback lines spelled out; a lemma of its own because checking it inside MissingFields is slow. */
  lemma FallbackLines()
    ensures "Title: " + "Unknown" == "Title: Unknown"
    ensures "Published: " + "Unknown" == "Published: Unknown"
    ensures "Source: " + "Unknown" == "Source: Unknown"
    ensures "Summary: " + "No summary available" == "Summary: No summary available"
    ensures "URL: " + "No URL available" == "URL: No URL available"
  {
  }

  lemma {:induction false} LinesHaveNoBreaks(a: Article, localeDate: string -> string)
    requires NoLineBreaks(a, localeDate)
    ensures forall i :: 0 <= i < 6 ==> '\n' !in ArticleLines(a, localeDate)[i]
  {
    var ls := ArticleLines(a, localeDate);
    Labelled("Title: ", OrElse(a.title, "Unknown"));
    Labelled("Published: ", (if Truthy(a.publishedAt) then localeDate(a.publishedAt.value) else "Unknown"));
    Labelled("Source: ", OrElse(a.newsSite, "Unknown"));
    Labelled("Summary: ", OrElse(a.summary, "No summary available"));
    Labelled("URL: ", OrElse(a.url, "No URL available"));
    assert '\n' !in ls[5];
  }

  /** A labelled line has no break when its value has none; a lemma of its own because inlining it is slow. */
  lemma Labelled(tag: string, value: string)
    requires forall i :: 0 <= i < |tag| ==> tag[i] != '\n'
    requires '\n' !in value
    ensures '\n' !in tag + value
  {
  }

  /**
   * When no field holds a line break, the block is exactly six lines: the five labelled
   * lines, each with the value if it is present and non-empty and its fallback otherwise,
   * and then `---`.
   */
  lemma FormatArticleLines(a: Article, localeDate: string -> string)
    requires NoLineBreaks(a, localeDate)
    ensures var lines := Text.Split(FormatArticle(a, localeDate), '\n');
      && |lines| == 6
      && lines[0] == "Title: " + (if Truthy(a.title) then a.title.value else "Unknown")
      && lines[1] == "Published: " + (if Truthy(a.publishedAt) then localeDate(a.publishedAt.value) else "Unknown")
      && lines[2] == "Source: " + (if Truthy(a.newsSite) then a.newsSite.value else "Unknown")
      && lines[3] == "Summary: " + (if Truthy(a.summary) then a.summary.value else "No summary available")
      && lines[4] == "URL: " + (if Truthy(a.url) then a.url.value else "No URL available")
      && lines[5] == "---"
  {
    LinesHaveNoBreaks(a, localeDate);
    Text.SplitJoin(ArticleLines(a, localeDate), '\n');
  }

  /** Exactly one line of a block is `---`: the labelled lines never are. */
  lemma OneSeparator(a: Article, localeDate: string -> string)
    ensures Text.Count(ArticleLines(a, localeDate), "---") == 1
  {
    var ls := ArticleLines(a, localeDate);
    var sep := "---";
    assert sep[0] == '-';
    assert ls[0][0] == 'T' && ls[1][0] == 'P' && ls[2][0] == 'S' && ls[3][0] == 'S' && ls[4][0] == 'U';
    assert Text.Count(ls[5..], sep) == 1 by { assert ls[5..][1..] == []; }
    assert Text.Count(ls[4..], sep) == 1 by { assert ls[4..][1..] == ls[5..]; }
    assert Text.Count(ls[3..], sep) == 1 by { assert ls[3..][1..] == ls[4..]; }
    assert Text.Count(ls[2..], sep) == 1 by { assert ls[2..][1..] == ls[3..]; }
    assert Text.Count(ls[1..], sep) == 1 by { assert ls[1..][1..] == ls[2..]; }
  }

  lemma {:induction false} AllLinesNoBreaks(rs: seq<Article>, localeDate: string -> string)
    requires forall i :: 0 <= i < |rs| ==> NoLineBreaks(rs[i], localeDate)
    ensures forall j :: 0 <= j < |AllLines(rs, localeDate)| ==> '\n' !in AllLines(rs, localeDate)[j]
    decreases |rs|
  {
    if rs != [] {
      AllLinesNoBreaks(rs[1..], localeDate);
      LinesHaveNoBreaks(rs[0], localeDate);
      AllLinesFacts(rs[1..], localeDate);
    }
  }

  lemma {:induction false} AllLinesFacts(rs: seq<Article>, localeDate: string -> string)
    ensures var lines := AllLines(rs, localeDate);
      && |lines| == 6 * |rs|
      && (forall i :: 0 <= i < |rs| ==> lines[6 * i..6 * i + 6] == ArticleLines(rs[i], localeDate))
      && Text.Count(lines, "---") == |rs|
  {
    AllLinesLength(rs, localeDate);
    AllLinesBlocks(rs, localeDate);
    AllLinesCount(rs, localeDate);
  }

  lemma {:induction false} AllLinesLength(rs: seq<Article>, localeDate: string -> string)
    ensures |AllLines(rs, localeDate)| == 6 * |rs|
    decreases |rs|
  {
    if rs != [] {
      AllLinesLength(rs[1..], localeDate);
    }
  }

  lemma {:induction false} AllLinesBlocks(rs: seq<Article>, localeDate: string -> string)
    ensures |AllLines(rs, localeDate)| == 6 * |rs|
    ensures forall i :: 0 <= i < |rs| ==> AllLines(rs, localeDate)[6 * i..6 * i + 6] == ArticleLines(rs[i], localeDate)
    decreases |rs|
  {
    AllLinesLength(rs, localeDate);
    if rs != [] {
      var head := ArticleLines(rs[0], localeDate);
      var tail := AllLines(rs[1..], localeDate);
      AllLinesBlocks(rs[1..], localeDate);
      assert AllLines(rs, localeDate) == head + tail;
      forall i | 0 <= i < |rs|
        ensures (head + tail)[6 * i..6 * i + 6] == ArticleLines(rs[i], localeDate)
      {
        if i == 0 {
          assert (head + tail)[..6] == head;
        } else {
          assert rs[1..][i - 1] == rs[i];
          assert (head + tail)[6 * i..6 * i + 6] == tail[6 * (i - 1)..6 * (i - 1) + 6];
        }
      }
    }
  }

  lemma {:induction false} AllLinesCount(rs: seq<Article>, localeDate: string -> string)
    ensures Text.Count(AllLines(rs, localeDate), "---") == |rs|
    decreases |rs|
  {
    if rs != [] {
      AllLinesCount(rs[1..], localeDate);
      OneSeparator(rs[0], localeDate);
      Text.CountAppend(ArticleLines(rs[0], localeDate), AllLines(rs[1..], localeDate), "---");
    }
  }

  lemma {:induction false} JoinBlocks(rs: seq<Article>, localeDate: string -> string)
    requires |rs| >= 1
    ensures Text.Join(Blocks(rs, localeDate), "\n") == Text.Join(AllLines(rs, localeDate), "\n")
    decreases |rs|
  {
    var head := ArticleLines(rs[0], localeDate);
    if |rs| == 1 {
      assert AllLines(rs, localeDate) == head + [] && head + [] == head;
    } else {
      JoinBlocks(rs[1..], localeDate);
      AllLinesFacts(rs[1..], localeDate);
      var bs := Blocks(rs, localeDate);
      assert bs[1..] == Blocks(rs[1..], localeDate);
      Text.JoinAppend(head, AllLines(rs[1..], localeDate), "\n");
    }
  }

  /**
   * With at least one article and no line break inside a field, the output is the blocks'
   * lines in upstream order: six per article, so exactly one `---` line per article.
   */
  lemma FormatArticlesLines(data: Option<ArticlesResponse>, fallback: string, localeDate: string -> string)
    requires HasArticles(data)
    requires forall i :: 0 <= i < |data.value.results.value| ==> NoLineBreaks(data.value.results.value[i], localeDate)
    ensures var rs := data.value.results.value;
      var lines := Text.Split(FormatArticles(data, fallback, localeDate), '\n');
      && |lines| == 6 * |rs|
      && (forall i :: 0 <= i < |rs| ==> lines[6 * i..6 * i + 6] == ArticleLines(rs[i], localeDate))
      && Text.Count(lines, "---") == |rs|
  {
    var rs := data.value.results.value;
    JoinBlocks(rs, localeDate);
    AllLinesFacts(rs, localeDate);
    AllLinesNoBreaks(rs, localeDate);
    Text.SplitJoin(AllLines(rs, localeDate), '\n');
  }

  /**
   * Without articles the output is the fallback, verbatim; with articles it starts with
   * the first article's title line and ends with a newline and `---`.
   */
  lemma FormatArticlesCases(data: Option<ArticlesResponse>, fallback: string, localeDate: string -> string)
    ensures !HasArticles(data) ==> FormatArticles(data, fallback, localeDate) == fallback
    ensures HasArticles(data) ==>
      var r := FormatArticles(data, fallback, localeDate);
      Text.HasPrefix(r, "Title: " + OrElse(data.value.results.value[0].title, "Unknown") + "\n")
      && Text.HasSuffix(r, "\n---")
  {
    if HasArticles(data) {
      var rs := data.value.results.value;
      var lines := AllLines(rs, localeDate);
      JoinBlocks(rs, localeDate);
      assert lines[..6] == ArticleLines(rs[0], localeDate);
      assert |lines| >= 6 && lines[0] == ArticleLines(rs[0], localeDate)[0];
      assert lines[|lines| - 1] == "---" by { LastLine(rs, localeDate); }
      Text.JoinEnds(lines, "\n");
    }
  }

  lemma {:induction false} LastLine(rs: seq<Article>, localeDate: string -> string)
    requires |rs| >= 1
    ensures |AllLines(rs, localeDate)| >= 6
    ensures AllLines(rs, localeDate)[|AllLines(rs, localeDate)| - 1] == "---"
    decreases |rs|
  {
    if |rs| > 1 {
      LastLine(rs[1..], localeDate);
    }
  }
}
