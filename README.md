# Website-Cloning design-context extractors, modelled in Dafny

The service clones a web page in three steps. It loads the page in a headless
browser, through a rotating pool of proxies and with a retry policy. From the
rendered HTML and CSS it extracts a design context. A language model then turns
that context into a static HTML and CSS page. This project models the decision
logic of those steps and proves properties of the model:

- `Proxy` (proxy.dfy): the `ProxyManager` class. It is a pool of proxy entries
  with failure counts and last-use times, a round-robin cursor and a
  reshuffle every ten minutes. The clock reading and the outcome of
  `random.shuffle` are parameters.
- `Navigation` (navigation.dfy): the retry loop of `get_page_content`. It makes
  up to three attempts, pauses 2 s and then 4 s after failed attempts, and
  accepts the page only when the last response was a 200. What each browser
  attempt yields is a parameter.
- `StyleAnalysis` (css.dfy) and `StyleLaws` (style_laws.dfy): the CSS
  analysers. Colour-bearing property values are scanned for `#rgb`,
  `#rrggbb`, `rgb()` and `rgba()` tokens, which are normalised, deduplicated,
  sorted and capped at eight. This is the behaviour with the hex converters
  as intended. As written, only `rgb()` and `rgba()` colours are kept
  (`StyleAnalysis.FoundColorsAsWritten`, see "## Findings"). Font families come from CSS rules and from inline
  `style` attributes, without the generic families. The regular expressions are
  written out as scanners.
- `Content` (content.dfy): the page title, the image URLs, the text snippets
  (headings, paragraphs, buttons), the placeholder skeleton of the semantic
  layout tags and the class-name layout hints.
- `Classifier` (classifier.dfy): `analyze_component`, its rules, statistics,
  descriptions and confidences, and `extract_component_descriptions`, which
  keeps the first component of each kind in document order.
- `LlmReply` (llm_reply.dfy): how the decoded reply of the language-model
  service becomes a `WebsiteCode`. It follows the subscript path to the
  generated text, takes the first ```` ```html ```` fence or else a raw page,
  and takes the first `<style>` block as the css.
- `Text` (text.dfy) and `Dom` (dom.dfy) are shared support. `Text` holds
  Python's `str.strip`, `split`, `lower` (ASCII), substring search and
  decimal and hex formatting. `Dom` is a parsed-HTML tree with BeautifulSoup's
  pre-order `find_all`, `get_text`, `.string`, `get` and class matching.
  Each string in the tree carries the kind the parser gives it: the name of
  its innermost `script`, `style`, `template`, `rt` or `rp` ancestor, or
  none. `get_text()` on an ordinary element keeps only ordinary strings, so
  the text snippets never include script, style, template or ruby text.

Where the source updates state step by step, the model is imperative: the
proxy pool is a class with `modifies` clauses, and the scanning and collecting
loops are methods with loop invariants. Each such method is proved equal to a
specification function, and the properties are proved about those functions.

Notes on how the source behaves, which the model follows:

- The `buttons` statistic of `analyze_component` counts only `<button>` and
  `<a>` elements whose class contains `btn`. A `<button>` without that class
  is not counted. The button texts of `extract_text_snippets` take every
  `<button>`.
- During navigation, a status that is not 200, is below 400 and is not 403
  (a redirect, say) is neither accepted nor paused after. The next attempt
  follows at once, and on the last attempt the page is refused.
- The 403 branch of the retry loop behaves exactly like the `>= 400` branch.
- The `text` and `classes` statistics of `get_element_stats` are computed but
  never used.

## Model

| member | source | states |
|---|---|---|
| Proxy.ProxyManager.constructor | backend/utils/extractors.py:40-44 | a new manager has an empty pool, its rotation clock at the current time and the cursor at 0 |
| Proxy.ProxyManager.AddProxy | backend/utils/extractors.py:46-52 | exactly one entry is appended, with the server, no failures and last use five minutes before now; the cursor and rotation time are unchanged |
| Proxy.ProxyManager.GetNextProxy | backend/utils/extractors.py:54-73 | an empty pool gives None and nothing changes; otherwise the pool is reshuffled by the permutation iff more than ten minutes passed, the first eligible entry from the cursor round the pool is stamped with now and its server returned, and the cursor moves just past it; with no eligible entry, None and the cursor is back where it started |
| Proxy.ProxyManager.Scan | backend/utils/extractors.py:65-73 | the loop visits at most one round of the pool from the cursor and stops at the first entry with fewer than three failures idle for more than two seconds |
| Proxy.ProxyManager.MarkProxyFailure | backend/utils/extractors.py:75-80 | only the first entry with that server gets one more failure; nothing is added, removed or reordered, and the cursor and clock are untouched |
| Proxy.FirstEligibleOffset | backend/utils/extractors.py:65-71 | the first offset round the pool whose entry is eligible, with every earlier offset ineligible, or None when none from the given offset is |
| Proxy.ScanFindsAnyEligible | backend/utils/extractors.py:65-73 | the round finds nothing exactly when no entry of the pool is eligible |
| Proxy.NewEntryEligible | backend/utils/extractors.py:46-52 | a freshly added entry is eligible at any later time |
| Proxy.PermuteKeepsEntries | backend/utils/extractors.py:60-61 | the reshuffle neither loses nor invents an entry |
| Proxy.CursorStep | backend/utils/extractors.py:67 | one `(i + 1) % n` step of the cursor is one step round the pool |
| Proxy.FirstWithServer | backend/utils/extractors.py:77-80 | the first index holding that server, or None when no entry has it |
| Navigation.NavigateWithRetry | backend/utils/extractors.py:186-230 | the loop's outcome (accepted, attempts made, pauses) equals the recursive retry policy |
| Navigation.AttemptsBounded | backend/utils/extractors.py:186-225 | one to three attempts are made, and fewer pauses than attempts |
| Navigation.LoadedIffLast200 | backend/utils/extractors.py:200-230 | the page is accepted iff the last attempt made answered 200, and no earlier attempt did |
| Navigation.StopsAtFirst200 | backend/utils/extractors.py:200-201 | the first 200 ends the navigation with the page accepted |
| Navigation.WaitsAreBackoffs | backend/utils/extractors.py:196-222 | every pause is `2000 * (k + 1)` ms for a non-final attempt k |
| Navigation.WaitsIncrease | backend/utils/extractors.py:196-222 | the pauses grow strictly, the first no shorter than the backoff of the attempt the run starts from |
| Navigation.PersistentFailure | backend/utils/extractors.py:186-230 | three retryable failures give three attempts, pauses of 2000 and 4000 ms and no page |
| Navigation.OtherStatusRetriedWithoutPause | backend/utils/extractors.py:199-215 | a non-200 status below 400 other than 403 leads to the next attempt with no pause |
| StyleAnalysis.ExtractColorsFromCss | backend/utils/extractors.py:382-421 | with the hex converters as intended: the result is strictly sorted, holds min(8, n) of the n colours found, and they are the smallest ones. As written only `rgb()` and `rgba()` colours are kept (`FoundColorsAsWritten`) |
| StyleAnalysis.CollectColors | backend/utils/extractors.py:405-418 | the loops over properties, values, notations and matches collect exactly the found colours |
| StyleAnalysis.ScanProperty | backend/utils/extractors.py:407-418 | the colours of one property are the union over its values |
| StyleAnalysis.ScanValue | backend/utils/extractors.py:411-418 | the colours of one value are the union over the four notations |
| StyleAnalysis.PropertyValuesFrom | backend/utils/extractors.py:407-410 | each value starts with the property name, case-insensitively, holds no `;` or `}`, and is a piece of the css |
| StyleAnalysis.SortStrings | backend/utils/extractors.py:421 | the set as a strictly increasing sequence with the same members |
| StyleAnalysis.ExtractFontsFromCss | backend/utils/extractors.py:347-362 | the fonts are the non-generic cleaned pieces of every terminated `font-family` declaration |
| StyleAnalysis.ExtractFontsFromInlineStyles | backend/utils/extractors.py:364-380 | the fonts are those of the `style` attributes of the elements that have one and mention font-family |
| StyleAnalysis.FontsOfDeclarations | backend/utils/extractors.py:354-360 | the loop over declarations collects the union of their fonts |
| StyleAnalysis.FontsOfDeclaration | backend/utils/extractors.py:356-360 | the loop over the comma-separated pieces collects the kept names |
| StyleAnalysis.AddUnlessGeneric | backend/utils/extractors.py:359-360 | a name is added iff its lower-case form is not a generic family |
| StyleAnalysis.FontDeclAt | backend/utils/extractors.py:351-373 | a declaration read is non-empty, is a piece of the text, and in a rule ends at `;` or `}` |
| StyleAnalysis.CleanFontName | backend/utils/extractors.py:357 | the cleaned name neither starts nor ends with a double quote |
| StyleAnalysis.DesignFonts | backend/main.py:207-209 | the design fonts are sorted and are exactly the union of the CSS and inline fonts |
| StyleLaws.FoundColorsAreHex | backend/utils/extractors.py:391-416 | every colour found is `#` followed by at least three lower-case hex digits |
| StyleLaws.AsWrittenOnlyRgbColors | backend/utils/extractors.py:388-418 | as written, every colour found has at least seven characters, so no `#rgb` token is ever kept |
| StyleLaws.ShortHexFinding | backend/utils/extractors.py:388-418 | `#ABC` gives `#abc` under the hex converters as intended and nothing as written |
| StyleLaws.FoundColorsScoped | backend/utils/extractors.py:406-416 | a colour comes from a value after some colour property, and that value holds no `;` or `}` |
| StyleLaws.NoPropertyNoColors | backend/utils/extractors.py:397-410 | css with no colour property yields no colours |
| StyleLaws.RgbReadsChannels | backend/utils/extractors.py:390-391 | `rgb(x,y,z)` with decimal channels is read as `#` and the three two-digit hex channels, ending after `)` |
| StyleLaws.RgbaReadsChannels | backend/utils/extractors.py:392-393 | `rgba(x,y,z,a)` is read as the same hex triple, whatever the alpha |
| StyleLaws.HexTripleShape | backend/utils/extractors.py:391 | the formatted triple is `#` and hex digits, at least seven characters |
| StyleLaws.RgbExample | backend/utils/extractors.py:390-391 | `rgb(12,34,56)` becomes `#0c2238` |
| StyleLaws.RgbaExample | backend/utils/extractors.py:392-393 | `rgba(12,34,56,0.5)` becomes `#0c2238` |
| StyleLaws.WideChannelExample | backend/utils/extractors.py:391 | a channel above 255 is not clamped: (256, 0, 0) becomes `#1000000` |
| StyleLaws.KeptNameExactly | backend/utils/extractors.py:357-360 | a piece contributes its cleaned name iff that name is not generic |
| StyleLaws.FontsOfPiecesExactly | backend/utils/extractors.py:356-360 | a font is kept from a declaration iff it is the cleaned name of one of its pieces and not generic |
| StyleLaws.FontsOfGroupsExactly | backend/utils/extractors.py:354-360 | a font is found iff one declaration contributes it |
| StyleLaws.DesignFontsNotGeneric | backend/utils/extractors.py:359-377 | no design font is a generic family, in any letter case |
| StyleLaws.CssDeclarationNeedsTerminator | backend/utils/extractors.py:351 | css without `;` or `}` has no CSS font declaration |
| StyleLaws.FontDeclReads | backend/utils/extractors.py:351-373 | after `font-family`, spaces, `:` and spaces, the declaration read is the text up to the terminator |
| StyleLaws.CleanFontNameExample | backend/utils/extractors.py:357 | ` 'Inter' ` cleans to `Inter` |
| StyleLaws.OneRuleGroups | backend/utils/extractors.py:351-352 | a stylesheet holding only `font-family:g;` yields the single declaration `g`, for any `g` that starts with a non-space and holds no terminator |
| StyleLaws.GroupFontsOfTwo | backend/utils/extractors.py:356-360 | a declaration `a,b` contributes exactly what `a` and `b` contribute on their own |
| StyleLaws.OneRuleFonts | backend/utils/extractors.py:347-362 | `font-family:a,b;` yields the union of the names `a` and `b` keep |
| StyleLaws.CssFontsExample | backend/utils/extractors.py:347-362 | `font-family:Arial,serif;` yields exactly `{"Arial"}`: the generic `serif` is dropped |
| StyleLaws.QuoteOrderExample | backend/utils/extractors.py:357 | `"'Roboto'"` keeps its inner single quotes, since they are stripped before the double quotes |
| Content.FirstWithTag | backend/utils/extractors.py:472-477 | the first element with the tag, or None iff there is none |
| Content.ExtractTitle | backend/utils/extractors.py:286-289 | the title has no surrounding whitespace, and is empty without a title element or when that element has no single string |
| Content.TitleIsStrippedText | backend/utils/extractors.py:286-289 | a title with a single string is that string stripped, whatever its kind; for an ordinary string that is the element's stripped text, a piece of it |
| Content.StringOfIsText | backend/utils/extractors.py:287 | when `.string` is defined, `get_text()` is that string if its kind is the one the element collects, and empty otherwise |
| Content.Source | backend/utils/extractors.py:428-429 | an image contributes its `src` iff that is present and non-empty |
| Content.ImageUrlsExactly | backend/utils/extractors.py:427-431 | a URL is collected iff it is the join of the base and some image's non-empty `src` |
| Content.ExtractImages | backend/utils/extractors.py:423-434 | at most ten distinct collected URLs, all of them when there are at most ten |
| Content.Enumerate | backend/utils/extractors.py:434 | `list(set)` lists each member exactly once, in some order |
| Content.ExtractTextSnippets | backend/utils/extractors.py:436-465 | the three lists are the headings, the paragraphs and the button texts |
| Content.ExtractButtons | backend/utils/extractors.py:449-459 | the loop keeps the non-empty stripped text of each `<button>` and each `<a>` with a `btn` class, in order |
| Content.HeadingsExactly | backend/utils/extractors.py:439-441 | a heading text is kept iff it is the non-empty stripped text of an h1 to h3 |
| Content.ParagraphsExactly | backend/utils/extractors.py:444-446 | at most ten, and a text is kept iff it is longer than 20 and from one of the first ten `<p>` |
| Content.ButtonsExactly | backend/utils/extractors.py:449-459 | a button text is kept iff it is the non-empty stripped text of a button element |
| Content.ContainerTextSkipped | backend/utils/extractors.py:439-446 | `get_text()` on an ordinary element skips the text of a script, style, template, rt or rp child: `<p>a<script>b</script></p>` reads as `a` |
| Content.KeptTextsExactly | backend/utils/extractors.py:439-446 | a text is kept iff a picked node has it as its stripped text and it passes the filter |
| Content.KeptTextsStripped | backend/utils/extractors.py:439-459 | every kept text is already stripped |
| Content.ExtractRawHtmlSnippet | backend/utils/extractors.py:497-515 | the snippet is the rendering of a `<div>` holding one placeholder per semantic tag |
| Content.SkeletonShape | backend/utils/extractors.py:506-513 | the skeleton has one child per semantic tag, in order, with the same name and attributes, and its text is `...` repeated |
| Content.SkeletonIdempotent | backend/utils/extractors.py:497-515 | building the skeleton of a skeleton gives it back |
| Content.PlaceholderText | backend/utils/extractors.py:512 | the text of the placeholders is one `...` per placeholder |
| Content.ExtractLayoutHints | backend/utils/extractors.py:467-495 | the tag hints followed by the class hints |
| Content.AppendClassHints | backend/utils/extractors.py:489-493 | the nested loop appends each component whose terms match, once, in table order |
| Content.ClassHintsExactly | backend/utils/extractors.py:489-493 | no duplicates, and a name is listed iff one of its terms occurs in some class |
| Content.TagHintsShape | backend/utils/extractors.py:472-477 | the tag hints are distinct and among navbar, header, footer |
| Content.LayoutHintsDistinct | backend/utils/extractors.py:467-495 | no hint is listed twice, and `hero` is listed iff a class contains hero, banner or jumbotron |
| Content.ComponentNamesDistinct | backend/utils/extractors.py:480-487 | the component names differ from each other and from the tag hints |
| Classifier.AnalyzeComponent | backend/utils/extractors.py:549-625 | a component is returned iff one of the five rules applies, with a known kind, confidence at least 0.6 and a non-empty description |
| Classifier.AnalyzePriority | backend/utils/extractors.py:567-625 | the kind is that of the first rule that applies, in the order navbar, hero, grid, footer, features |
| Classifier.ConfidenceLevels | backend/utils/extractors.py:577-622 | confidence is one of 0.9, 0.8, 0.7, 0.6, and 0.9 exactly for a `<nav>` navbar or a `<footer>` footer |
| Classifier.HeaderIsNavbar | backend/utils/extractors.py:568-578 | a `<header class="header">` is a navbar of confidence 0.7, never a hero |
| Classifier.NavbarCountReadsBack | backend/utils/extractors.py:576 | the link count can be read back from the navbar description |
| Classifier.Classified | backend/utils/extractors.py:637-639 | no more components than elements, and each has one of the five kinds and a confidence of at least 0.6 |
| Classifier.ClassifiedKinds | backend/utils/extractors.py:637-639 | every classified component has one of the five kinds |
| Classifier.ClassifiedKeepsRecognised | backend/utils/extractors.py:637-639 | one component per recognised element, since every confidence passes the threshold |
| Classifier.FirstIndex | backend/utils/extractors.py:641-647 | the least index with that kind |
| Classifier.FirstOfEachKindCovers | backend/utils/extractors.py:641-647 | a kind is kept iff some component has it |
| Classifier.FirstOfEachKindDistinct | backend/utils/extractors.py:641-647 | no kind is kept twice |
| Classifier.FirstOfEachKindFirst | backend/utils/extractors.py:641-647 | each kept component is the first of its kind, in first-appearance order |
| Classifier.FirstOfEachKindStep | backend/utils/extractors.py:641-647 | one more component is kept iff its kind is new |
| Classifier.ExtractComponentDescriptions | backend/utils/extractors.py:627-649 | the descriptions and the layout are those of the first component of each kind among the section elements |
| Classifier.DescribeAll | backend/utils/extractors.py:632-649 | the loop over the sections returns the descriptions and kinds of the first component of each kind among the classified sections |
| Classifier.DescribeOne | backend/utils/extractors.py:638-647 | one iteration extends the two lists from a prefix of the sections to one more section, and keeps `seen_types` equal to the kinds in the layout |
| Classifier.KeepFirst | backend/utils/extractors.py:640-647 | a component that passes the threshold extends the lists exactly as keeping the first of each kind of one more component, and `seen_types` stays the set of kinds in the layout |
| Classifier.ComponentDescriptionsAlign | backend/utils/extractors.py:627-649 | the two lists align, the layout has no duplicates, lists exactly the kinds found, in first-appearance order, and each description is that of the first component of its kind |
| LlmReply.Key | backend/utils/llm_generator.py:91 | a string subscript gives the field of an object iff it has the key, a missing key is a KeyError naming it, any other value a TypeError, and an earlier error passes through |
| LlmReply.First | backend/utils/llm_generator.py:91 | `[0]` gives the first item of a non-empty list or the first character of a non-empty string and nothing else, a KeyError `0` on an object, and an earlier error passes through |
| LlmReply.FirstBlock | backend/utils/llm_generator.py:95-100 | the group lies between the two delimiters, holds no closing delimiter, and no opening delimiter starts before it; None iff there is no opener or no closer after the first one |
| LlmReply.FirstBlockIsSearch | backend/utils/llm_generator.py:95-100 | that two-step search is the leftmost, shortest regex match |
| LlmReply.WrappedBlock | backend/utils/llm_generator.py:95-100 | a leading block whose body holds no closer is matched with exactly that body |
| LlmReply.StyleOf | backend/utils/llm_generator.py:100-112 | the css is empty or a piece of the html |
| LlmReply.StyleRoundTrip | backend/utils/llm_generator.py:100-101 | the first `<style>` block gives its stripped body, whatever follows |
| LlmReply.NoStyleNoCss | backend/utils/llm_generator.py:101 | html without `<style>` has empty css |
| LlmReply.ParseText | backend/utils/llm_generator.py:94-123 | on success the html is a piece of the text and the css is its style block; every failure is the "No valid HTML found" record with empty html and css |
| LlmReply.ParseOutcome | backend/utils/llm_generator.py:95-117 | accepted iff there is a fence or the stripped text opens with `<!DOCTYPE html>` or `<html>`; the html is then the stripped fence body, or the stripped text |
| LlmReply.FencedRoundTrip | backend/utils/llm_generator.py:95-106 | a fenced body comes back stripped, whatever follows the fence |
| LlmReply.ProseRefused | backend/utils/llm_generator.py:118-123 | unfenced text that does not open like a page is refused |
| LlmReply.GenerateFromReply | backend/utils/llm_generator.py:89-139 | every error comes with empty html and css |
| LlmReply.WellFormedReply | backend/utils/llm_generator.py:91 | a reply with the expected shape is parsed from its text |
| LlmReply.MissingCandidates | backend/utils/llm_generator.py:125-131 | a body without `candidates` is an "Unexpected response format" error naming the key |
| LlmReply.NoCandidates | backend/utils/llm_generator.py:125-131 | an empty candidate list is the same error with the IndexError text |
| LlmReply.MissingPath | backend/utils/llm_generator.py:125-131 | whenever a key or index on the path to the text is missing, the reply has empty html and css and the error is the format message followed by what is missing |
| LlmReply.ReplyOutcomes | backend/utils/llm_generator.py:89-139 | every result is a success without error, whose html is a piece of the generated text, or a failure with empty html and css |

## Left out

- Browser automation: `setup_browser`, the Playwright calls of `get_page_content` (headers, screenshot, `page.content()`), `capture_screenshot` and `get_rendered_html`. These are subprocess and network I/O. Only the retry decisions are modelled; each attempt's outcome is the parameter `outcomes`, and a pause is recorded rather than taken.
- The outer `try` of `get_page_content` is not modelled. An exception on the last attempt shows as a refused page (`loaded` false), which is what that handler returns.
- `extract_css_links` and `extract_css_content` fetch stylesheets over the network. `is_valid_url` and `urljoin` use `urllib.parse`, so `urljoin` is the opaque parameter `join` of `Content.ExtractImages`.
- BeautifulSoup's serialiser is the parameter `render` of `Content.ExtractRawHtmlSnippet`. The HTML parser is left out too: documents are given as trees, with one value per attribute name, no comments, and each string's kind already set. Nothing checks that a given tree's kinds and `class` entries are the ones the parser would produce.
- The order of Python set iteration is left open. `Content.Enumerate` may list the set in any order, so `extract_images` is specified up to order.
- `random.shuffle` is any permutation passed in. `datetime.now()` is an integer time in microseconds passed in.
- `extract_color_palette` is not called anywhere in the service and is not part of this model. `extract_colors_from_css` does its job.
- `process_screenshot_for_llm` is not part of this model. It depends on PIL, `getcolors` and `webcolors`.
- The module-level `proxy_manager` instance and the exception classes `ScrapingError`, `ProxyError` and `RateLimitError` are not modelled. The modelled code never raises them.
- Logging is not modelled anywhere.
- backend/main.py is FastAPI glue and is not part of this model, except the font union and sort at lines 207-209 (`StyleAnalysis.DesignFonts`).
- The rest of llm_generator.py is not modelled: the prompt text, the HTTP POST, `raise_for_status` and `configure_gemini`.
- The test scripts test_api.py, test_generate.py and test_gemini.py are live-network scripts and are not modelled.
- LlmReply.GenerateFromReply: the text of a TypeError is the interpreter's wording, so it is a parameter. A generated text that is not a string is treated as a TypeError. Under Python 3.12 and later, a dictionary there raises KeyError from the log line's slice instead.
- StyleLaws.RgbaReadsChannels: states the colour an `rgba()` match converts to, not the index where the match ends.
- Case folding and `\d`, `\b` are modelled as ASCII. `\s` and `strip()` use Python's `str.isspace` set, which is what `\s` matches on `str`. There is no Unicode normalisation.
- `Classifier.Component.confidence` is an exact `real`, not a binary float. All the source's constants compare the same way.

## Findings

| source | as written | input that shows it | evidently intended | confidence | as-written member | corrected member |
|---|---|---|---|---|---|---|
| backend/utils/extractors.py:388-418 | the hex converters `lambda x: x` return the match object. Its `.lower()` raises, and the bare `except` drops the colour, so only `rgb()` and `rgba()` colours are ever found | `color: #ABC;` gives no colour | the matched text, lower-cased: `#abc` | not executed | StyleLaws.AsWrittenOnlyRgbColors | StyleAnalysis.ExtractColorsFromCss |
