# Website text extractor — a Dafny model

`WebsiteTextExtractor` crawls one website, starting from a root URL. It
downloads each page at most once successfully and turns the page's headings,
paragraphs, emphasis, lists, quotes and code into markdown-like text. When
that text is longer than 100 characters, it saves it as a `.md` file named
after the page's path, and then follows the page's links that stay on the
same host. The crawl stops once the frontier is empty or `max_pages` pages
have been visited.

The model is split into five modules:

- `Strings` (strings.dfy) defines the Python string built-ins the extractor
  relies on, written out in Dafny: `str(n)`, `join`, `strip`, `strip(chars)`
  and `replace`.
- `Urls` (urls.dfy) covers `is_valid_url` and the filter loop of
  `extract_links`, over URLs already parsed into their six components.
- `Render` (render.dfy) covers `convert_tag` and the post-processing in
  `extract_clean_text`: join, collapse newline runs, strip, then the length
  threshold.
- `Naming` (naming.dfy) covers the output-directory name, the base file name
  of `save_text` and the numbered names it tries.
- `Crawler` (crawler.dfy) holds the extractor as a class. It has a
  `visitedUrls` field and an `OutputDirectory` object whose `files` map, from
  file name to contents, stands for the directory on disk. It models
  `save_text` with its probing loop and `extract_website_text` with its crawl
  loop. The loop invariant `CrawlInv` records what the crawl guarantees:
  - the page budget;
  - visited exactly when downloaded with a body;
  - saved exactly when the text is non-empty;
  - one fresh file per saved page, with no other file touched;
  - frontier links are admissible and have no fragment;
  - closure: every link found on a visited page is visited, still queued, or
    was attempted;
  - origin: every URL attempted or queued is the root or a link on a page
    downloaded earlier;
  - naming: each saved page went under the first free name for its path.

The HTTP client, the HTML parser and URL resolution are not modelled. A `Web`
value passed to the crawl supplies them as functions:
- `download(u)` returns the page body, or `None` on any request error;
- `elements(html)` returns the matched elements in document order;
- `anchors(html, u)` returns the page's `href` targets, resolved against `u`
  and parsed.

## Model

| member | source | states |
|---|---|---|
| Strings.Decimal | download_website.py:137 | Definition of `str(counter)`: a non-empty string of digits with no leading zero unless the number is 0. |
| Strings.Join | download_website.py:107 | Definition of `sep.join(parts)`. The properties stated about it are under `Strings.JoinConcat`. |
| Strings.Trim | download_website.py:108 | Definition of `strip()` and `strip('/')` as dropping a character class at both ends. The properties are under `TrimIsMaximalSlice` and `TrimIdempotent`. |
| Strings.ReplaceAll | download_website.py:16 | Definition of `str.replace`: every non-overlapping occurrence, scanned left to right, is replaced. The properties are under `ReplaceCharPointwise` and `ReplaceAbsent`. |
| Strings.ParseDecimalOfDecimal | download_website.py:137 | The decimal rendering of a counter reads back as the same number. |
| Strings.DecimalInjective | download_website.py:137 | Distinct counters give distinct digit strings. |
| Strings.JoinConcat | download_website.py:107 | `'\n'.join` of a concatenation is the two joins with one separator between them. |
| Strings.TrimStartShape | download_website.py:108 | Stripping the front leaves a suffix that starts with a kept character. Everything removed was droppable. |
| Strings.TrimEndShape | download_website.py:108 | Stripping the back leaves a prefix that ends with a kept character. Everything removed was droppable. |
| Strings.TrimIsMaximalSlice | download_website.py:108 | `strip()` returns a contiguous slice of the input with no whitespace at either end. Every character outside the slice is whitespace. |
| Strings.TrimIdempotent | download_website.py:108 | Stripping twice equals stripping once. |
| Strings.ReplaceCharPointwise | download_website.py:129 | Replacing one character by another keeps the length and maps each position independently. |
| Strings.ReplaceAbsent | download_website.py:16 | `replace` of a pattern that never occurs returns the string unchanged. |
| Urls.IsValidUrl | download_website.py:33-36 | Definition of `is_valid_url` on a parsed URL: the host is the base domain or empty, and the scheme is `http` or `https`. |
| Urls.ValidUrlDependsOnSchemeAndHost | download_website.py:26-36 | Admissibility depends only on the scheme and the host. Two URLs that agree on both are admitted or refused together, whatever their path, parameters, query and fragment. |
| Urls.WithoutFragmentKeepsRest | download_website.py:156-159 | Dropping the fragment empties it, changes no other component, and does not change admissibility. |
| Urls.LinkSetAdmissible | download_website.py:158-162 | Every link collected from a page has no fragment and is admissible. |
| Urls.LinkSetSnoc | download_website.py:154-162 | Each further anchor adds at most its own fragment-free form, and adds it exactly when that form is admissible. |
| Urls.ExtractLinks | download_website.py:143-164 | Returns the set of fragment-free admissible anchor targets. Every link has an empty fragment and is admissible. Every admissible anchor contributes its fragment-free form. There are no more links than anchors. |
| Render.ConvertTag | download_website.py:67-95 | Definition of `convert_tag` for the sixteen tags `find_all` returns. The properties are under `HeadingRule`, `EmphasisSynonyms`, `BlockAndInlineTags` and `ConvertTagKeepsText`. |
| Render.BulletLines | download_website.py:85 | One `- item` line per list item, in order. |
| Render.NumberedLines | download_website.py:87 | One `n. item` line per item, numbered consecutively in item order. |
| Render.HeadingRule | download_website.py:68-79 | A level-k heading (tag `h` followed by the digit k) becomes a line of k `#` marks, a space and the text, between newlines. |
| Render.EmphasisSynonyms | download_website.py:80-83 | `b` renders like `strong` (`**text**`), and `i` renders like `em` (`*text*`). |
| Render.BlockAndInlineTags | download_website.py:67-95 | Headings, paragraphs, lists, quotes and `pre` blocks start and end with a newline. `strong`, `b`, `em`, `i` and `code` add no newline beyond those in their text. |
| Render.ConvertTagKeepsText | download_website.py:67-95 | For every tag except `ul` and `ol`, the rendering determines the element's text. |
| Render.DocumentOrder | download_website.py:99-107 | Blocks are emitted in document order. The text of a document is the text of its first part, a newline, then the text of its second part. |
| Render.NewlineRun | download_website.py:108 | Measures the maximal run of newlines at the start of a string. |
| Render.CollapseNewlines | download_website.py:108 | Definition of `re.sub(r'\n{3,}', '\n\n', …)`: each maximal run of three or more newlines becomes two. The properties are in the rows below. |
| Render.CollapseHead | download_website.py:108 | Collapsing keeps emptiness, and keeps whether the text starts with a newline. |
| Render.CollapseNoTriple | download_website.py:108 | After `re.sub(r'\n{3,}', '\n\n', …)` no three newlines are adjacent. |
| Render.CollapseKeepsCompactText | download_website.py:108 | Text without three adjacent newlines is left unchanged. |
| Render.CollapseIdempotent | download_website.py:108 | Collapsing twice equals collapsing once. |
| Render.CollapseKeepsOtherChars | download_website.py:108 | Collapsing only removes newlines. The non-newline characters stay the same and in the same order. |
| Render.CleanText | download_website.py:99-111 | Definition of the text `extract_clean_text` returns for the matched elements. Its properties are under `CleanTextShape`. |
| Render.CleanTextShape | download_website.py:106-111 | The cleaned text is empty or longer than 100 characters. It has no whitespace at either end and no three adjacent newlines. |
| Render.ExtractCleanText | download_website.py:99-111 | The loop over matched elements, followed by join, collapse, strip and threshold, yields `CleanText` and hence the three properties above. |
| Naming.OutputDirName | download_website.py:16 | Definition of the output directory name: every `https://` is removed, then every `.` becomes `_`. |
| Naming.OutputDirOfHttpsRoot | download_website.py:16 | For `https://host`, where the rest `host` holds no further `https://`, the directory name is `host` with every `.` turned into `_`, so it contains no dot. |
| Naming.OutputDirOfPlainHost | download_website.py:16 | A rest without any `:` (no port, no second scheme) meets that assumption, so its directory name is the rest with dots turned into `_`. |
| Naming.HttpRootKeepsScheme | download_website.py:16 | For an `http://host` root with no `https://` anywhere in it, the directory name is `http://` followed by `host` with its dots turned into `_`, so the scheme, colon and slashes remain. |
| Naming.SafeName | download_website.py:121-129 | Definition of the base file name: the path with `/` stripped at both ends, `index` when that is empty, then `/` and `\` replaced by `_`. Its properties are under `SafeNameShape`. |
| Naming.SafeNameShape | download_website.py:121-129 | The base name never contains `/` or `\`. A path of slashes only, or an empty path, gives `index`. Any other path keeps its stripped characters, with each separator turned into `_`. |
| Naming.Candidate | download_website.py:132-137 | Definition of the k-th name tried: `safe.md` for k = 0, otherwise `safe_k.md`. Its properties are in the rows below. |
| Naming.CandidateInjective | download_website.py:132-138 | Different attempt numbers give different file names. |
| Naming.CandidateIsPlainName | download_website.py:132-137 | Every name tried is a plain file name directly inside the output directory. |
| Naming.TriedGrows | download_website.py:135-138 | Each taken name that is probed is new, so after n probes n distinct taken names have been seen. The search therefore ends within one more probe than there are files. |
| Naming.FirstFreeCandidateUnique | download_website.py:135-138 | Exactly one name is the first one not yet taken. |
| Crawler.SavedAsStep | download_website.py:187-188 | Saving one more page under a fresh name extends the record of saved files. |
| Crawler.SavedFileCount | download_website.py:187-188 | The directory gains exactly one file per saved page. |
| Crawler.StartInv | download_website.py:170 | Before the first pass, with only the root in the frontier and nothing downloaded, the crawl invariant holds. |
| Crawler.SkipKeepsInv | download_website.py:173-176 | Popping an already visited URL keeps the crawl invariant. |
| Crawler.FailedDownloadKeepsInv | download_website.py:180-182 | A failed or empty download leaves the URL unvisited and keeps the invariant. |
| Crawler.FailKeepsVisitInv | download_website.py:180-182 | Recording a download without a body keeps the visited set and its budget invariant. |
| Crawler.FailKeepsFrontierInv | download_website.py:173-182 | Popping a URL and recording a failed attempt keeps the frontier admissible and closed. |
| Crawler.FetchKeepsOrigin | download_website.py:173-195 | Downloading a URL taken from the frontier, and enqueuing only links of that page, keeps every attempted or queued URL traceable to the root through earlier pages. |
| Crawler.VisitKeepsVisitInv | download_website.py:182-190 | A download with a body below the budget marks exactly that URL visited and keeps the budget. |
| Crawler.VisitKeepsNameInv | download_website.py:132-138 | A page saved under the first free name for its path keeps the record that every earlier name tried was taken, in the starting directory or by an earlier save. |
| Crawler.VisitKeepsSaveInv | download_website.py:184-190 | A successful visit saves the page exactly when its text is non-empty, under a name not previously used, and touches no other file. |
| Crawler.VisitKeepsFrontierInv | download_website.py:190-195 | Enqueuing a page's unvisited links keeps the frontier admissible, fragment-free and closed under the links of visited pages. |
| Crawler.VisitKeepsRecords | download_website.py:182-190 | A successful visit keeps the visited, saved-file and naming parts of the invariant. |
| Crawler.VisitKeepsLinks | download_website.py:190-195 | A successful visit keeps the frontier and origin parts of the invariant. |
| Crawler.VisitKeepsInv | download_website.py:182-195 | A successful visit keeps the whole crawl invariant. |
| Crawler.CrawlFollowsLinks | download_website.py:154-195 | The crawl only follows links. Its first download is the root. Every page it visits other than the root has no fragment, is admissible, and was downloaded after a page that links to it. |
| Crawler.ExhaustedFrontierIsClosed | download_website.py:170-195 | When the frontier runs dry, the root and every link of every page visited were either visited or downloaded without a body. |
| Crawler.BudgetReached | download_website.py:172 | Starting from nothing visited, if every download succeeds and the root links to at least `max_pages` admissible pages, exactly `max_pages` pages are visited. |
| Crawler.OutputDirectory.constructor | download_website.py:24 | The directory keeps whatever files it already held. |
| Crawler.WebsiteTextExtractor.constructor | download_website.py:8-21 | Sets the base domain to the root's host. The output directory name is derived from the root URL, whatever `output_dir` is passed. Nothing is visited yet. |
| Crawler.WebsiteTextExtractor.SaveText | download_website.py:113-141 | Writes the text under the first of `safe.md`, `safe_1.md`, … not yet taken, where every earlier name was taken. No other file changes. |
| Crawler.WebsiteTextExtractor.VisitPage | download_website.py:182-195 | Marks the page visited. Saves its text when the text is non-empty, under the first name for its path that was free, every earlier name having been taken. Returns the page's admissible fragment-free links. |
| Crawler.WebsiteTextExtractor.CrawlStep | download_website.py:173-195 | One iteration pops some URL from the frontier and keeps `CrawlInv`. A visited URL is only dropped. A download without a body is only recorded as attempted. A download with a body adds exactly that URL to the visited set, and the new frontier is the old one without it plus the page's unvisited links. The trace of attempts grows by that URL. Each pass visits one page or shrinks the frontier, which is why the loop ends. |
| Crawler.WebsiteTextExtractor.ExtractWebsiteText | download_website.py:166-197 | Ends with an empty frontier or a full budget, in a state satisfying `CrawlInv` relative to the start state. Every newly visited page other than the root is a same-host `http`/`https` URL without a fragment. |

## Left out

- Network I/O: `download_page`'s request, its 10-second timeout and its
  error printing are not modelled. `Web.download` returns `None` for every
  request error.
- HTML parsing is not modelled:
  - the BeautifulSoup parse;
  - the removal of `script`, `style`, `nav`, `header` and `footer`;
  - `find_all`;
  - `get_text(strip=True)`.
  `Web.elements` yields the matched elements, each with its flattened text
  and list items. Elements nested inside other matched elements appear as
  separate entries, which is what `find_all` does, but their contents are
  not derived from the markup.
- Render.ConvertTag: the final fallback `return tag.get_text(strip=True)` is
  not modelled. `find_all` only returns the sixteen tags handled above it, so
  the fallback cannot be reached.
- Urls: `urljoin`, `urlparse` and `geturl` are not modelled. A link is
  represented by its parsed record, and two link strings count as the same
  URL when they parse to the same record.
- The file system is not modelled. The output directory is a map from file
  name to contents. The model does not cover `os.makedirs`, `os.path.join`
  (names are kept relative to the directory), file encoding, or write errors.
- Logging: `print` output and `main` are not modelled.
- Crawler.WebsiteTextExtractor.ExtractWebsiteText: which URL `set.pop()`
  returns is left open (any element of the frontier). The contract therefore
  says nothing about the order of visits or which pages make the budget.
- Crawler.WebsiteTextExtractor.ExtractWebsiteText: `Web.download` is a
  function, so repeated downloads of one URL are assumed to return the same
  result. A real server can answer differently on a second request. Two
  statements rely on this assumption: `VisitInv`'s clause that a URL is
  downloaded again only after a failed download, and
  `ExhaustedFrontierIsClosed`.
- Crawler.WebsiteTextExtractor.ExtractWebsiteText: the code marks a URL
  visited only after a download that returned a body, not when the URL is
  popped. As a result, a URL whose download failed can be attempted again if
  another page links to it. The model follows the code.
- URL normalisation and exclusion rules (lower-casing, trailing slashes,
  skipping binary files) are not modelled, because the code has none. Links
  are compared exactly as parsed.
- Naming.OutputDirName: as in the code, `replace` removes every occurrence
  of `https://`, not only a leading one. For example, `https://a.b/?u=https://c`
  gives `a_b/?u=c`. An `http://` root keeps its scheme, colon and slashes in
  the directory name. The lemmas about the name assume that the rest of the
  URL holds no further `https://`.
- Crawler.WebsiteTextExtractor.constructor: the `output_dir` argument is
  accepted but ignored, as in the code.
