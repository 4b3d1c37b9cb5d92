# space-flight-news, modelled in Dafny

space-flight-news is an MCP server with two tools. `get-latest-articles` lists the newest
articles of the Spaceflight News API (v4). `search-articles` lists the articles that match a
keyword. Each tool does four things:

1. It builds a request URL against `https://api.spaceflightnewsapi.net/v4`.
2. It fetches that URL. Every failure collapses to "no data".
3. It renders each article as a six-line text block.
4. It returns a heading followed by the blocks, or followed by a fallback message when there
   is nothing to show.

This project models that pure core of `src/index.ts` as Dafny functions and proves properties
about them:

- `Text.dfy` has joining and splitting on a separator, prefix and suffix tests, and counting
  (`Array.prototype.join` and the line structure of the output).
- `Decimal.dfy` renders an integral `limit` in decimal, the way a template literal shows it, and
  parses it back.
- `Utf8.dfy` encodes code points as UTF-8 (RFC 3629, section 3) and decodes them.
- `Uri.dfy` is `encodeURIComponent` as ECMAScript 2022 (ECMA-262, 13th edition) defines it in
  section 19.2.6.5, through the abstract operation Encode of section 19.2.6.1.1, with an
  unescaping decoder as its inverse.
- `Articles.dfy` holds the `Article` and `ArticlesResponse` records, `formatArticle`, and the
  rendering half of `fetchAndFormatArticles`.
- `Fetch.dfy` shows how `makeSpaceFlightNewsRequest` turns a network outcome into the parsed
  payload or nothing.
- `Query.dfy` has the parameter schemas and the two URL builders, with parsers that read the
  parameters back.
- `Tools.dfy` holds the two tool handlers and their reply texts.

The two effects in the core are passed in as parameters:

- `fetch: string -> Fetch.HttpOutcome` stands for the network exchange for a URL.
- `localeDate: string -> string` stands for `new Date(s).toLocaleDateString()`, which depends on
  the host's locale and time zone.

Two consequences of the code are worth spelling out:

- A non-empty `publishedAt` that is not a date renders as whatever `toLocaleDateString`
  returns for it (`Invalid Date`), never as `Unknown` (src/index.ts:35-37). `Unknown` appears
  only when the field is absent or empty, so the model applies `localeDate` to every
  non-empty `publishedAt`.
- An empty search result gives the heading followed by the fallback, for example
  `Search results for "k":\n\nNo articles found for keyword: "k"` (src/index.ts:127-136).
  `Tools.SearchTextCases` and `Tools.ExampleEmptySearch` state it.

## Model

| member | source | states |
|---|---|---|
| Text.Join | src/index.ts:43 | no contract of its own (`Array.prototype.join`, also used at src/index.ts:81); stated by Text.SplitJoin, Text.JoinSplit and Text.JoinEnds |
| Text.SplitJoin | src/index.ts:32-43 | splitting a newline-joined list of lines at `\n` gives back exactly those lines, provided none of them contains `\n` and there is at least one |
| Text.JoinSplit | src/index.ts:43 | joining the pieces of a split with the separator gives back the original text, character for character |
| Text.JoinEnds | src/index.ts:43 | a join of two or more parts starts with the first part and one separator, and ends with one separator and the last part |
| Decimal.Render | src/index.ts:97 | the rendered `limit` is a non-empty string of decimal digits, with no leading zero unless the number is 0 |
| Decimal.ParseRender | src/index.ts:97 | reading the rendered numeral back gives the same number, so different limits render differently |
| Utf8.EncodeChar | src/index.ts:124-126 | a code point becomes 1 to 4 bytes: one byte exactly for ASCII, lead bytes in C2-DF, E0-EF or F0-F4 by length, all further bytes continuation bytes 80-BF |
| Utf8.DecodeEncode | src/index.ts:124-126 | decoding the UTF-8 encoding of a string gives the string back |
| Utf8.EncodeDecode | src/index.ts:124-126 | a byte sequence that decodes is the encoding of what it decodes to, so each string has exactly one well-formed UTF-8 form |
| Uri.Escape | src/index.ts:124-126 | a byte becomes `%` and two upper-case hex digits whose value is that byte |
| Uri.EncodeURIComponent | src/index.ts:124-126 | every character of the encoded keyword is unreserved, `%` or an upper-case hex digit (that escapes themselves use upper case is Uri.EncodeWellEscaped) |
| Uri.EscapeAllBytes | src/index.ts:124-126 | the escaped form of a byte sequence is one `%XX` triple per byte, triple `i` being the escape of byte `i` |
| Uri.EncodeReservedChar | src/index.ts:124-126 | a character outside the unreserved set, ASCII or not, becomes one upper-case `%XX` escape per byte of its UTF-8 encoding, in order |
| Uri.EncodeWellEscaped | src/index.ts:124-126 | every `%` in any encoding is followed by two upper-case hex digits, so no escape is written in lower case |
| Uri.ExampleEAcute | src/index.ts:124-126 | `é` (U+00E9) encodes as `%C3%A9` |
| Uri.EncodeAppend | src/index.ts:124-126 | the encoding of a concatenation is the concatenation of the encodings, so characters are encoded one at a time |
| Uri.EncodeAsciiReserved | src/index.ts:124-126 | an ASCII character outside the unreserved set becomes `%` followed by its code in two upper-case hex digits |
| Uri.EncodeLength | src/index.ts:124-126 | the encoding is never shorter than the keyword, and it has the same length only when every character is unreserved |
| Uri.EncodeIdentity | src/index.ts:124-126 | a keyword is left unchanged exactly when all its characters are in `A-Z a-z 0-9 - _ . ! ~ * ' ( )` |
| Uri.EncodeHasNoDelimiters | src/index.ts:124-126 | an encoded keyword holds no space, `&`, `+`, `=`, `#` or `/`, so it cannot end the `search` parameter or start another |
| Uri.UnescapeEncode | src/index.ts:124-126 | turning the `%XX` escapes of an encoded keyword back into bytes gives the keyword's UTF-8 bytes |
| Uri.DecodeEncode | src/index.ts:124-126 | decoding an encoded keyword gives the keyword back |
| Uri.EncodeInjective | src/index.ts:124-126 | two keywords with the same encoding are equal |
| Uri.EncodeBetweenWords | src/index.ts:124-126 | around a separator, runs of unreserved characters pass through and only the separator is encoded |
| Uri.ExampleSpace | tests/coverage.test.js:95 | a space encodes as `%20` |
| Uri.ExampleAmpersand | tests/coverage.test.js:101 | ` & ` encodes as `%20%26%20` |
| Uri.ExamplePlus | tests/coverage.test.js:102 | `+` encodes as `%2B` |
| Uri.ExampleNasaEsa | tests/coverage.test.js:101 | `NASA & ESA` encodes as `NASA%20%26%20ESA` |
| Uri.ExampleMarsVenus | tests/coverage.test.js:102 | `Mars+Venus` encodes as `Mars%2BVenus` |
| Uri.ExamplePercent | tests/coverage.test.js:103 | `100%` encodes as `100%25` |
| Uri.ExampleNasaMars | tests/coverage.test.js:95 | `NASA Mars` encodes as `NASA%20Mars` |
| Articles.FormatArticle | src/index.ts:31-44 | no contract of its own; stated by Articles.FormatArticleText, Articles.MissingFields, Articles.FormatArticleLines and Articles.OneSeparator |
| Articles.FormatArticles | src/index.ts:71-83 | no contract of its own; stated by Articles.FormatArticlesCases and Articles.FormatArticlesLines |
| Articles.HasArticles | src/index.ts:77 | no contract of its own (the guard `!data \|\| !data.results?.length`); stated by Articles.FormatArticlesCases, Tools.LatestTextCases and Tools.SearchTextCases |
| Articles.Blocks | src/index.ts:81 | mapping the results gives one block per article, in the same order, block `i` being the rendering of article `i` |
| Articles.FormatArticleText | src/index.ts:31-44 | an article renders as its title, date, source, summary and URL lines, each value replaced by its fallback when absent or empty, separated by single newlines and ending in `---` |
| Articles.MissingFields | src/index.ts:31-44 | an article with no displayable field renders as `Title: Unknown`, `Published: Unknown`, `Source: Unknown`, `Summary: No summary available`, `URL: No URL available` and `---` |
| Articles.FormatArticleLines | src/index.ts:31-44 | when no field contains a line break, the block is exactly six lines with the labelled values and fallbacks in order, the last being `---` |
| Articles.OneSeparator | src/index.ts:42 | exactly one of a block's six lines is `---` |
| Articles.FormatArticlesLines | src/index.ts:77-82 | the rendering of `n` articles with no line breaks in their fields is `6n` lines: six per article, in upstream order, with exactly `n` lines equal to `---` |
| Articles.FormatArticlesCases | src/index.ts:77-82 | without data or with an empty or missing `results`, the fallback is returned verbatim; otherwise the text starts with the first article's title line and ends with a newline and `---` |
| Fetch.RequestArticles | src/index.ts:46-67 | the payload is available exactly when a response arrived with a 2xx status and a body that parses; then it is the parsed body, and a network error, non-2xx status or bad JSON all give nothing |
| Query.ParseLimit | src/index.ts:89-94 | an absent limit becomes 10, a present one is accepted exactly when it lies in 1..50 and is then kept, and every accepted limit lies in 1..50 |
| Query.LatestUrl | src/index.ts:97 | no contract of its own; stated by Query.LatestUrlRoundTrip and Query.ExampleLatest |
| Query.SearchUrl | src/index.ts:124-126 | no contract of its own; stated by Query.SearchUrlRoundTrip, Query.SearchUrlInjective and the search examples |
| Query.LatestUrlRoundTrip | src/index.ts:97 | the limit can be read back from the latest-articles URL, so different limits request different URLs |
| Query.SearchUrlRoundTrip | src/index.ts:124-126 | keyword and limit can both be read back from the search URL: the encoded keyword runs exactly up to `&limit=` |
| Query.SearchUrlInjective | src/index.ts:124-126 | two search URLs are equal exactly when their keywords and limits are equal |
| Query.ExampleLatest | tests/coverage.test.js:91-92 | limit 5 requests `.../v4/articles?limit=5`, and the default limit requests `.../v4/articles?limit=10` |
| Query.ExampleSearchSpaceX | tests/coverage.test.js:94 | `SpaceX` with limit 3 requests `.../v4/articles?search=SpaceX&limit=3` |
| Query.ExampleSearchDefaultLimit | tests/coverage.test.js:95 | `NASA Mars` with the default limit requests `.../v4/articles?search=NASA%20Mars&limit=10` |
| Tools.LatestText | src/index.ts:103-107 | no contract of its own; stated by Tools.LatestTextCases |
| Tools.SearchText | src/index.ts:132-139 | no contract of its own; stated by Tools.SearchTextCases and Tools.ExampleEmptySearch |
| Tools.GetLatestArticles | src/index.ts:96-107 | no contract of its own; stated by Tools.LatestFailure, and through Tools.LatestText by Tools.LatestTextCases |
| Tools.SearchArticles | src/index.ts:123-139 | no contract of its own; stated by Tools.SearchNotFound, and through Tools.SearchText by Tools.SearchTextCases |
| Tools.ReplyIsFallback | src/index.ts:77-82 | a heading followed by the rendered message equals the heading followed by the fallback exactly when there were no articles, provided the fallback does not end like a block |
| Tools.LatestTextCases | src/index.ts:96-107 | the latest reply always starts with `Latest space flight news:\n\n`; it is that heading plus `No latest articles available.` exactly when there are no articles, and otherwise it ends with `\n---` |
| Tools.SearchTextCases | src/index.ts:123-139 | the search reply always starts with `Search results for "<keyword>":\n\n`; it is that heading plus `No articles found for keyword: "<keyword>"` exactly when there are no articles, and otherwise it ends with `\n---` |
| Tools.LatestFailure | src/index.ts:59-66 | when the request for the latest URL fails (no response, a non-2xx status or a body that does not parse), the tool replies with its heading and fallback |
| Tools.SearchNotFound | src/index.ts:127-136 | a 404 for the search URL gives the search heading followed by the keyword's fallback |
| Tools.ExampleEmptySearch | src/index.ts:127-136 | `{results: [], count: 0}` for `zzzznotfound` gives `Search results for "zzzznotfound":\n\n` followed by `No articles found for keyword: "zzzznotfound"` |

## Left out

- The network exchange in makeSpaceFlightNewsRequest (src/index.ts:46-67) is left out: node-fetch, the `Accept` header, reading the body, `JSON.parse` and the `[DEBUG]` logging. The model takes it as the parameter `fetch`, which gives a `Fetch.HttpOutcome`.
- `toLocaleDateString` is a parameter `localeDate`, because its output depends on the host's locale and time zone. No property here depends on what it returns, except that the line-structure lemmas assume it returns no line break.
- The MCP server, its stdio transport, tool registration and `main` are not modelled; they are framework plumbing with no logic of their own. The zod schemas are modelled as preconditions of the handlers (`Query.ValidLimit`, `Query.ValidKeyword`) and as `Query.ParseLimit`; the SDK's rejection message for bad arguments is not modelled.
- Query.ParseLimit: `z.number()` also accepts fractional limits such as `2.5`, which would be rendered as `2.5`. The model takes `limit` as an integer.
- Articles.FormatArticles: a payload whose `results` is present but not an array is left out. The model's `results` is either missing or a list of articles, so the `?.length` check becomes "missing or empty". A non-array `results` with a non-zero `length`, such as a string, passes the guard at src/index.ts:77. It then makes `.map` at src/index.ts:81 throw a TypeError outside the `try`, which escapes the tool handler; the model cannot express that payload.
- Articles.FormatArticle: a `null` entry in `results` makes `article.title` at src/index.ts:33 throw a TypeError, which also escapes the tool handler. The model's entries are always records, so this case is not modelled.
- Articles.FormatArticle: fields are modelled as present or absent strings. Falsy non-string values (`0`, `false`, `null`) take the fallback, exactly as an absent field does. Truthy non-string values (a number, `true`, an object) would be converted to text by the template literal. Neither kind is expressible in the model.
- Uri.EncodeURIComponent: the `URIError` for a lone surrogate is not modelled. Dafny characters are Unicode scalar values, so a keyword here cannot contain one.
- Articles.FormatArticleLines: stated only for articles whose fields contain no newline. A field with its own newline still renders verbatim, but the output then has more than six lines. The same holds for Articles.FormatArticlesLines.
- The helper copies of the source functions inside the test files (tests/coverage.test.js and tests/integration.test.js) are not modelled separately; their expectations appear as the `Example…` lemmas.
