# hallucination-or-bias: article extraction, cleaning and prompting, in Dafny

This project models the text-handling core of a pipeline that scrapes news
articles from RTS pages, cleans the extracted fields for analysis and asks
language models to score the articles for bias. It models three parts:

- **Field extraction** (`HtmlParse`, app/html_parse.py). This covers:
  - the `safe_strip` and `safe_text` helpers;
  - the lead, body, sources and credits of a page;
  - the choice of the `NewsArticle` object among the JSON-LD script blocks;
  - the keywords, publisher and other JSON-LD text fields;
  - the file name an article is saved under.

  A page is the sequence of its elements in document order. Each element has
  a tag, a class list and text nodes, which is what the CSS selectors and
  `get_text(" ", strip=True)` look at. JSON values are the `Json` datatype of
  `PyJson`.
- **Cleaning** (`PostProcessing`, app/post_processing.py):
  - `_clean_text`: tag removal, whitespace collapsing, stripping;
  - `_ensure_list`;
  - the word and character counts;
  - the `canonical_domain` column.
- **Prompting** (`Prompting`, app/prompting.py):
  - removing a Markdown code fence from a model's answer and parsing what is left;
  - substituting the article body into the prompt template;
  - the name of the per-model output folder.

Three support modules hold what the source takes from Python:
- `Wrappers` holds `Option`, `Result` and the Python exceptions that can escape
  the modelled functions.
- `PyText` holds the `str` operations used, for ASCII text. These include
  `strip`, `split`, `join`, `replace`, `lower` and `split()` on whitespace, plus
  the filter `[k for k in ks if k]`.
- `PyJson` holds JSON values with Python's truth value, `dict.get`, `or` and
  `str()`.

Where the source loops (`extract_body`, `_pick_newsarticle`,
`extract_jsonld_newsarticle`, `_ensure_list`), the model is a method with a
loop. Each such method is proved equal to a function that states the result.
Lemmas about those functions state the promised properties:
- the body stops at the first sources or credit paragraph;
- classed paragraphs are skipped;
- the article pick is the first article-typed object;
- cleaning is idempotent on text without `<`;
- cleaning is `" ".join(x.split())` of the tag-free text;
- a fenced answer gives back its body;
- a URL ending in `-<digits>.html` names the file `<digits>.json`.

Errors the source raises are `Failure` values, not preconditions:
- `AttributeError`: `.strip()` or `.lower()` on a true value that is not a string.
- `IndexError`: an opening fence with no newline.
- `KeyError`: an article with no `body`.
- `TypeError`: a body that is not a string.

## Model

| member | source | states |
|---|---|---|
| HtmlParse.Select | app/html_parse.py:140-141 | `node.select(sel)` keeps only matching elements and never more than the node holds |
| HtmlParse.SelectConcat | app/html_parse.py:140 | `select` keeps document order: the selection of a concatenation is the concatenation of the selections |
| HtmlParse.SelectSingle | app/html_parse.py:140 | one element is selected exactly when it matches the selector |
| HtmlParse.SelectNonEmpty | app/html_parse.py:143-144 | the selection is non-empty exactly when some element matches, so `select_one` finds one exactly then |
| HtmlParse.StrippedNonEmpty | app/html_parse.py:141 | the stripped text nodes kept by `get_text(strip=True)` are non-empty and trimmed, and none are kept exactly when all are blank |
| HtmlParse.StrippedNonEmptyConcat | app/html_parse.py:141 | text nodes are stripped and filtered piece by piece, in order: the result for a concatenation is the concatenation of the results |
| HtmlParse.StrippedNonEmptySingle | app/html_parse.py:141 | one text node gives its stripped form, or nothing when it is blank |
| HtmlParse.StrippedNonEmptyAvoids | app/html_parse.py:231-232 | stripping and dropping empty pieces introduces no character |
| HtmlParse.GetText | app/html_parse.py:141 | an element's text has no surrounding whitespace |
| HtmlParse.GetTextEmpty | app/html_parse.py:184-185 | an element's text is empty exactly when all its text nodes are blank |
| HtmlParse.SafeStrip | app/html_parse.py:146-150 | false value → `None`; a string → its stripped form, or `None` when blank; any other true value → `AttributeError`; a returned text is non-empty and trimmed |
| HtmlParse.SafeTextMany | app/html_parse.py:135-141 | no node → `[]`; otherwise one text per selected element, in order, each the element's `get_text` |
| HtmlParse.SafeTextOne | app/html_parse.py:135-144 | a text exactly when there is a node and something matches; it is the first match's text |
| HtmlParse.ExtractLead | app/html_parse.py:164-169 | a lead exactly when some `div.article-part.article-lead` exists; it is trimmed |
| HtmlParse.ExtractSources | app/html_parse.py:191-197 | one trimmed text per `p.sources` of the body, none without a body |
| HtmlParse.ExtractCredits | app/html_parse.py:200-206 | one trimmed text per `p.credit` of the body, none without a body |
| HtmlParse.TrailerIndex | app/html_parse.py:177-180 | the position of the first sources or credit block; no such block before it |
| HtmlParse.ExtractBody | app/html_parse.py:172-188 | the loop returns `BodyText`: the unclassed non-empty texts before the first sources/credit block, joined by blank lines, or `None` |
| HtmlParse.BodyTextTrimmed | app/html_parse.py:184-188 | a body, when there is one, is non-empty and trimmed |
| HtmlParse.ParagraphsNonEmpty | app/html_parse.py:184-186 | every collected paragraph is non-empty and trimmed |
| HtmlParse.TextBlocks | app/html_parse.py:177 | `select("p, h2, h3")` yields only p/h2/h3 elements and never more than the body holds |
| HtmlParse.TextBlocksSingle | app/html_parse.py:177 | one element is kept exactly when it is a `p`, `h2` or `h3` |
| HtmlParse.TextBlocksConcat | app/html_parse.py:177 | `select("p, h2, h3")` respects document order: the selection of a concatenation is the concatenation of selections |
| HtmlParse.ParagraphsConcat | app/html_parse.py:181-186 | paragraph collection respects order over concatenated blocks |
| HtmlParse.BodyStopsAtTrailer | app/html_parse.py:178-180 | nothing after the first sources or credit paragraph reaches the body |
| HtmlParse.BodySkipsIgnored | app/html_parse.py:177-182 | an element that is not p/h2/h3, or carries another class, changes nothing in the body |
| HtmlParse.TwoParagraphsThenSources | app/html_parse.py:172-188 | two plain paragraphs then a sources paragraph give the two texts separated by a blank line, whatever follows |
| HtmlParse.BodyOfTwo | app/html_parse.py:177-188 | two unclassed blocks with text, each a paragraph or a sub-heading (`p`, `h2`, `h3`), are joined by `"\n\n"` |
| HtmlParse.FirstArticle | app/html_parse.py:124-128 | `None` exactly when no list entry is an article object; otherwise the first article entry |
| HtmlParse.Pick | app/html_parse.py:111-130 | a dict is returned exactly when its `@type` is NewsArticle/Article; a list gives its first article entry; anything else `None` |
| HtmlParse.PickNewsArticle | app/html_parse.py:111-130 | the loop over a list returns `Pick` |
| HtmlParse.FirstBlockArticle | app/html_parse.py:93-107 | `None` exactly when no script block yields an article; otherwise the pick of the first block that does |
| HtmlParse.ExtractJsonLd | app/html_parse.py:88-109 | the loop skips empty and undecodable blocks and returns the first pick, or `{}`; the `headline`/`datePublished` test never changes the result |
| HtmlParse.StrKeyword | app/html_parse.py:228 | `safe_strip(str(x))` is `None` exactly when `str(x)` is blank, else its stripped, non-empty form |
| HtmlParse.KeywordItemsTrimmed | app/html_parse.py:227-228 | list keywords are non-empty, trimmed, at most one per entry |
| HtmlParse.KeywordItemsConcat | app/html_parse.py:228 | list keywords keep the order of the entries |
| HtmlParse.KeywordItemsSingle | app/html_parse.py:228 | one entry gives its stripped `str()`, or nothing when blank |
| HtmlParse.Keywords | app/html_parse.py:225-233 | keywords are non-empty and trimmed; a list gives at most one per entry; a string gives at most one per comma-separated segment, none holding a comma, and is `KeywordSegments`; a list is `KeywordItems`; anything else `[]` |
| HtmlParse.KeywordSegmentsComma | app/html_parse.py:229-232 | a keyword string is read segment by segment: the first comma-free segment gives its stripped form, or nothing when blank, followed by the keywords of the rest |
| HtmlParse.KeywordStringWithoutComma | app/html_parse.py:229-232 | a keyword string without a comma is one keyword, or none when blank |
| HtmlParse.JsonLdText | app/html_parse.py:242-270 | each getter: missing or false → `None`; string → stripped unless blank; another true value → `AttributeError` |
| HtmlParse.PublisherName | app/html_parse.py:236-240 | no publisher object → `None`; fails exactly when the publisher's `name` is a true non-string; `None` exactly when there is no publisher object, or its `name` is false or a blank string; otherwise the stripped name |
| HtmlParse.TrailingDigits | app/html_parse.py:303 | the run of digits ending the text: all digits, preceded by a non-digit |
| HtmlParse.IdAtEnd | app/html_parse.py:303-305 | a capture is non-empty digits and the text ends with `-<capture>.html` |
| HtmlParse.NumericId | app/html_parse.py:303-305 | a capture is non-empty digits and the URL ends with `-<capture>.html`, optionally then a newline (Python's `$`) |
| HtmlParse.NumericIdOfArticleUrl | app/html_parse.py:303-305 | every `…-<digits>.html` URL, with or without a final newline, yields exactly those digits |
| HtmlParse.Underscored | app/html_parse.py:309 | the substitution leaves letters, digits and single underscores only; UnderscoredAlnumCons and UnderscoredRun pin it case by case |
| HtmlParse.UnderscoredAlnumCons | app/html_parse.py:309 | a letter or digit in front passes through the substitution unchanged |
| HtmlParse.UnderscoredRun | app/html_parse.py:309 | a maximal run of characters other than letters and digits becomes exactly one `_` |
| HtmlParse.UnderscoredNoUpper | app/html_parse.py:309 | lower-cased input stays free of upper-case letters |
| HtmlParse.UnderscoredBlank | app/html_parse.py:309 | the result is all underscores exactly when the text has no letter or digit |
| HtmlParse.SlugFacts | app/html_parse.py:309 | the stripped underscored title is slug-shaped, starts with no underscore, and is empty exactly when the title has no letter or digit |
| HtmlParse.StripKeepsSlugShape | app/html_parse.py:309 | `.strip("_")` keeps the slug shape |
| HtmlParse.Slug | app/html_parse.py:308-310 | at most 30 characters of `[a-z0-9_]`, no leading or doubled underscore, empty exactly when the title has no letter or digit |
| HtmlParse.MakeFilename | app/html_parse.py:299-310 | a name is `<stem>.json` whose stem is a digit id or at most 30 characters of `[a-z0-9_]`; fails, with `AttributeError`, exactly when there is no numeric id and the value reached (a true `title`, else a true `headline`) is not a string |
| HtmlParse.FilenameFromArticleUrl | app/html_parse.py:301-305 | a canonical URL (or URL) ending `-<digits>.html` gives `<digits>.json` |
| HtmlParse.FilenameFromTitle | app/html_parse.py:307-310 | without a numeric id, a non-empty string `title` names the file `<slug of title>.json`, whatever the headline |
| HtmlParse.FilenameFromHeadline | app/html_parse.py:307-310 | without a numeric id, a false `title` and a non-empty string `headline` name the file `<slug of headline>.json` |
| HtmlParse.FilenameFallback | app/html_parse.py:307-310 | without a numeric id, a false `title` and a false `headline` name the file `article.json` |
| HtmlParse.SlugOfLowerWord | app/html_parse.py:308-310 | a word of at most 30 lower-case letters is its own slug |
| HtmlParse.UnderscoredAlnum | app/html_parse.py:309 | text made only of letters and digits passes the substitution unchanged |
| PostProcessing.StripTags | app/post_processing.py:50 | removing tags never lengthens the text; the lemmas below pin whole tags, tag-free text, a `<` with no `>` after it, and `<>` |
| PostProcessing.StripTagsNoAngle | app/post_processing.py:50 | text without `<` is unchanged |
| PostProcessing.StripTagsNoClose | app/post_processing.py:10 | text without `>` holds no tag and is unchanged, so a stray `<` is kept |
| PostProcessing.StripTagsEmptyBrackets | app/post_processing.py:10 | `<>` is no tag: both brackets are kept and the rest is processed on its own |
| PostProcessing.StripTagsOfTag | app/post_processing.py:10 | a leading `<name>` becomes one space |
| PostProcessing.StripTagsPrefix | app/post_processing.py:50 | text without `<` before the rest passes through |
| PostProcessing.StripTagsBetween | app/post_processing.py:50 | a tag between two tag-free texts becomes one space |
| PostProcessing.CollapseWs | app/post_processing.py:51 | the result is single-spaced, empty only for empty input, and starts as the input does |
| PostProcessing.WordsCollapse | app/post_processing.py:51 | collapsing whitespace keeps the words: `split()` of the result equals `split()` of the input |
| PostProcessing.JoinWords | app/post_processing.py:51 | trimmed single-spaced text is its words joined by single spaces |
| PostProcessing.CollapseWsSingleSpaced | app/post_processing.py:51 | single-spaced text is a fixed point |
| PostProcessing.StripSingleSpaced | app/post_processing.py:51 | stripping keeps text single-spaced |
| PostProcessing.CollapseAvoids | app/post_processing.py:51 | collapsing introduces no character but a space |
| PostProcessing.CleanText | app/post_processing.py:44-52 | `None` stays `None`; any result is non-empty, trimmed and single-spaced |
| PostProcessing.CleanTextWords | app/post_processing.py:44-52 | for any value other than `None`, the result is `" ".join(w)` for the words `w` of the tag-free `str()` text, and `None` when there is no word |
| PostProcessing.CleanTextNoClose | app/post_processing.py:44-52 | a string without `>` cleans to its words joined by single spaces, keeping every `<` |
| PostProcessing.CleanTextFixedPoint | app/post_processing.py:44-52 | clean text is returned unchanged |
| PostProcessing.CleanTextIdempotent | app/post_processing.py:44-52 | on text without `<`, cleaning a cleaned value changes nothing |
| PostProcessing.CleanTextOfUntagged | app/post_processing.py:51-52 | text whose tag removal leaves clean text cleans to that text |
| PostProcessing.CleanTextDropsTag | app/post_processing.py:50-52 | a tag between two clean words leaves them one space apart |
| PostProcessing.EnsureListClean | app/post_processing.py:54-66 | every entry is cleaned text; at most one per list entry, at most one for a scalar |
| PostProcessing.EnsureListConcat | app/post_processing.py:58-64 | list coercion keeps order over concatenation |
| PostProcessing.CleanEachConcat | app/post_processing.py:59-61 | entries are cleaned one at a time, in order, over concatenated lists |
| PostProcessing.EnsureListOfCleanStrings | app/post_processing.py:58-64 | a list of clean strings comes back as it is |
| PostProcessing.EnsureList | app/post_processing.py:54-66 | the loop returns `EnsureListOf`: `[]` for `None`, cleaned non-empty entries of a list, a one-element list for a scalar that cleans to text |
| PostProcessing.CharCount | app/post_processing.py:76-77 | the length of the text, 0 for `None` |
| PostProcessing.WordsCountRuns | app/post_processing.py:74 | `split()` gives one word per maximal non-whitespace run |
| PostProcessing.WordCount | app/post_processing.py:70-74 | the word count of a text is its number of maximal non-whitespace runs, and never exceeds the character count |
| PostProcessing.SchemeSlashes | app/post_processing.py:143 | a URL containing `://` has at least two `/`, so piece 2 exists |
| PostProcessing.CanonicalDomain | app/post_processing.py:142-144 | `None` for missing, empty or scheme-less URLs; a domain holds no `/` |
| PostProcessing.DomainOfUrl | app/post_processing.py:142-144 | `scheme://host/path` gives `host` |
| PostProcessing.DomainAfterScheme | app/post_processing.py:143 | after `scheme://` the domain is the first `/`-piece of the rest |
| PostProcessing.SplitOfUrl | app/post_processing.py:143 | `scheme://rest` splits into `scheme:`, an empty piece, then the pieces of `rest` |
| PostProcessing.SplitHostFirst | app/post_processing.py:143 | the first piece of host-then-path is the host |
| Prompting.AfterFirstNewline | app/prompting.py:33 | `IndexError` exactly when there is no newline; otherwise the text after the first one |
| Prompting.BeforeLastNewline | app/prompting.py:37 | the text before the last newline, or the whole text without one |
| Prompting.StripMarkdownJson | app/prompting.py:28-39 | fails exactly when the stripped text opens a fence without a newline; any result is trimmed; unfenced text is only stripped |
| Prompting.OpeningFence | app/prompting.py:31-33 | "```tag\n" is removed up to the first newline |
| Prompting.ClosingFence | app/prompting.py:35-37 | a final "\n```" line is removed |
| Prompting.FencedBody | app/prompting.py:28-39 | a fenced answer gives back its stripped body |
| Prompting.ParseJsonFromModel | app/prompting.py:42-47 | a fence error propagates; a result is what `json.loads` gives on the de-fenced text; a rejected text is `JSONDecodeError` |
| Prompting.BuildPrompt | app/prompting.py:50-54 | fails exactly when `body` is missing (`KeyError`) or is not a string (`TypeError`, from `str.replace`) |
| Prompting.PromptWithoutPlaceholder | app/prompting.py:54 | a template without `{{ARTICLE_TEXT}}` is unchanged |
| Prompting.PromptWithOnePlaceholder | app/prompting.py:54 | a single placeholder is replaced by the body, the rest kept |
| Prompting.ModelFolderName | app/prompting.py:72 | same length, every `:` becomes `_`, nothing else changes, no `:` left |
| PyText.Strip | app/html_parse.py:149 | `str.strip()` gives trimmed text, empty exactly for blank text, and leaves trimmed text alone |
| PyText.StripSlice | app/html_parse.py:149 | `str.strip()` is a contiguous slice of the text, and the parts it drops before and after are whitespace |
| PyText.StripChars | app/html_parse.py:309 | `str.strip(chars)` leaves no stripped character at either end, is empty exactly when all characters are stripped, and keeps text with no such ends |
| PyText.StripCharsSlice | app/html_parse.py:309 | `str.strip(chars)` is a contiguous slice of the text, and the parts it drops before and after are made only of the stripped characters |
| PyText.StripCharsAvoids | app/post_processing.py:51 | stripping introduces no character |
| PyText.Split | app/html_parse.py:231 | `split(sep)` gives at least one piece and no piece holds the separator |
| PyText.SplitCount | app/post_processing.py:143 | there is one more piece than separators |
| PyText.JoinSplit | app/html_parse.py:231 | joining the pieces with the separator gives back the text |
| PyText.SplitAt | app/post_processing.py:143 | the text before the first separator is the first piece |
| PyText.JoinEnds | app/html_parse.py:188 | a join of non-empty parts starts and ends as its outer parts do |
| PyText.Join | app/html_parse.py:188 | every joined part fits within the joined text |
| PyText.Words | app/post_processing.py:74 | `split()` gives non-empty pieces with no whitespace |
| PyText.WordsBlankPrefix | app/post_processing.py:74 | leading whitespace adds no word to `split()` |
| PyText.WordsBlankSuffix | app/post_processing.py:74 | trailing whitespace adds no word to `split()` |
| PyText.WordsCons | app/post_processing.py:74 | a non-whitespace character in front extends the first word, or is a word of its own before whitespace or at the end |
| PyText.WordsStrip | app/html_parse.py:149 | `s.strip().split() == s.split()` |
| PyText.Replace | app/prompting.py:54 | replacing by a text of the same length keeps the length |
| PyText.ReplaceAbsent | app/prompting.py:54 | `replace` without an occurrence changes nothing |
| PyText.ReplaceFirst | app/prompting.py:54 | the first occurrence is replaced and the scan resumes after it |
| PyText.ReplaceChar | app/prompting.py:72 | replacing one character by another is pointwise |
| PyText.Lower | app/html_parse.py:309 | `lower()` maps each character and leaves no upper-case letter |
| PyText.KeepTrue | app/post_processing.py:62-63 | the kept values are non-empty, at most one per entry |
| PyText.KeepTrueConcat | app/html_parse.py:228 | filtering keeps order over concatenation |
| PyText.KeepTrueFrom | app/html_parse.py:228 | every kept value comes from the input |
| PyJson.Or | app/html_parse.py:301 | Python's `or`: the first operand when it is true, otherwise the second; true exactly when either operand is |
| PyJson.Str | app/post_processing.py:49 | `str()` of a string is the string, of `None` is `"None"`, and of a list or dictionary is a non-empty text |
| PyText.KeepTrueSomes | app/post_processing.py:60-63 | values that are all present and non-empty are all kept, in order |

## Left out

- Fetching pages (`fetch_rts_soup`), calling the model server (`call_ollama`), reading and writing files (`save_data`, `save_model_results`, `score_folder`, `process_input_data`) and the pandas frame functions: I/O and third-party code. The pure steps inside them are modelled: the file name, the folder name, the prompt substitution and the domain column.
- HTML parsing: BeautifulSoup's parser is not modelled. A page is its element sequence, and `get_text` is the join of an element's stripped non-empty text nodes.
- `json.loads`: a parameter of `ParseJsonFromModel`. Script blocks arrive as `ScriptBlock`, already decoded or marked empty or malformed.
- `extract_title`, `extract_description`, `extract_date_published`, the `date_accessed` clock and the `parse_html` orchestrator: they only read one tag, format a date or call the modelled functions.
- Non-ASCII text. Whitespace, `lower()`, `\d` and `[a-zA-Z0-9]` are modelled on ASCII. Python treats more characters as whitespace, digits or cased letters.
- `str()` of a list or dictionary: rendered as the fixed `[...]` / `{...}`, not Python's `repr` of the contents. A number or boolean carries its own `str()` text.
- pandas missing values (`NaN`) in the cleaned columns are not modelled. `_clean_text` and `canonical_domain` see `None` or a string.
- HtmlParse.ExtractBody: the `break` at the first sources or credit block is the loop condition, and the `continue` for classed blocks is a branch that adds nothing. The behaviour is the same.
