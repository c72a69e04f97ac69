# Case analysis of a Wikidot site, in Dafny

`CaseAnalysis.py` audits a dump of a Wikidot wiki before its move to MediaWiki.
Wikidot reads many spellings of a link as one page name (its canonical form,
computed by `WikidotHelpers.Cannonicize`); MediaWiki's canonical form is much
weaker. The script:

- reads every page's text;
- decides whether the page is a redirect or a page with `[[[link|text]]]` links;
- builds the reverse index `inverseSite` (link text to the pages that use it);
- sorts the link texts by Wikidot form, then MediaWiki form, then the raw text;
- in one scan, reports every Wikidot name that MediaWiki would split into two or
  more pages;
- lists redirects whose destination is written in small letters, chains of
  redirects, and redirects to names that are not pages.

This project models that logic and proves what it computes.

| file | module | models |
|---|---|---|
| `text.dfy` | `Text` | the Python string operations used: `strip`, `find`, `in`, `replace`, `rstrip`, `lower`, `isdigit`, `str(int)` (ASCII), and code-point order of strings |
| `mediawiki.dfy` | `MediaWiki` | `MediawikiCanonicize`, as a loop proved equal to a reference form |
| `pages.dfy` | `Pages` | the page record, the site, `IsRedirect`, the link scan, what `LoadPage` stores |
| `reverse_index.dfy` | `ReverseIndex` | `AddLink` on the class `InverseSite`, and the inverse-index loop |
| `key_order.dfy` | `KeyOrder` | `list(inverseSite.keys())` and the three in-place stable sorts |
| `page_list.dfy` | `PageList` | `FormatPageList` |
| `grouping.dfy` | `Grouping` | the grouping scan as written, its reference meaning, and the corrected scan |
| `redirects.dfy` | `Redirects` | the lowercase, double-redirect and missing-target reports |

`WikidotHelpers.Cannonicize` is not part of this model. Every operation that
uses it takes it as a parameter `canon: string -> string`, and nothing is
assumed about it beyond being a function.

The site is a sequence of `(name, PageInfo)` pairs with distinct names, in
dictionary order. A page is `Content(links)` or `Redirect(target)`, with a
title.

Report files become returned sequences of lines. Each report's count is
returned beside its lines.

Each loop of the modelled logic is a method with invariants, except the loop
that prints the saved lines of a group (CaseAnalysis.py:232-234), which is the
concatenation in `Flush`; the loops of `LoadDirectory` are left out. Each loop method's `ensures`
ties its result to a function: either a fold that follows the code line by line,
or a reference definition. `KeyOrder.KeyList` and `KeyOrder.SortByKey` instead
state their results directly (the keys each once; a stable sorted permutation),
and `InverseSite.AddLink` gives the new state entry by entry. Lemmas then state what those functions
mean.

For the grouping scan:

- the fold `Scan` follows the code;
- `Expected` is described through `Groups` (the maximal runs of keys with one
  Wikidot form) and `Runs` (the maximal runs, within a group, of keys with one
  MediaWiki form);
- the lemmas prove that the scan equals that description, except for the
  defects listed under Findings.

## Model

| member | source | states |
|---|---|---|
| MediaWiki.MediawikiCanonicize | CaseAnalysis.py:20-37 | the loop that replaces `_`, strips, and repeats `replace("  ", " ")` ends, and returns the reference form `MediawikiForm(name)`; the empty name comes back unchanged |
| MediaWiki.CollapseOfReplace | CaseAnalysis.py:31-32 | one round of `replace("  ", " ")` leaves the collapsed-space form unchanged, so the loop computes the same form on every pass |
| MediaWiki.ReplaceShrinks | CaseAnalysis.py:31-32 | `replace("  ", " ")` never lengthens the name, and shortens it while a double space remains, so the `while` loop ends |
| MediaWiki.MediawikiFormShape | CaseAnalysis.py:20-37 | the form of `""` is `""`; any form has no `_`, no two adjacent spaces, no whitespace at either end, and no small letter first |
| MediaWiki.MediawikiFormIdempotent | CaseAnalysis.py:20-37 | canonicalising a canonical name gives it back |
| MediaWiki.TidyName | CaseAnalysis.py:20-37 | a name that already has no `_`, no double space and no padding only has its first letter raised |
| MediaWiki.TidyFormsDiffer | CaseAnalysis.py:20-37 | two such names that differ at a position after the first character have different forms |
| MediaWiki.PaddingIgnored | CaseAnalysis.py:24-28 | whitespace and underscores added at either end never change the form |
| MediaWiki.PaddedExample | CaseAnalysis.py:20-37 | `" _x_ "` and `"x"` both become `"X"` |
| Pages.Lookup | CaseAnalysis.py:287-289 | `site[name]` is None exactly when the name is not a key; otherwise the value stored under that key |
| Pages.RedirectRecognised | CaseAnalysis.py:85-89 | `IsRedirect` returns a value exactly when the trimmed text starts, in any case, with the 31-character directive and ends with `"]]` |
| Pages.RedirectValue | CaseAnalysis.py:88 | the value is the text after the directive up to a tail made only of `"` and `]`, and it does not itself end in either |
| Pages.RedirectPadding | CaseAnalysis.py:86 | whitespace around the page text never changes the result |
| Pages.DirectiveRoundTrip | CaseAnalysis.py:85-89 | a directive written in any case around a destination not ending in `"` or `]` gives that destination back |
| Pages.RedirectRoundTrip | CaseAnalysis.py:85-89 | the same, with whitespace around the directive |
| Pages.CutAtBar | CaseAnalysis.py:111-112 | the link is the longest prefix without `|`, and the next character, if any, is `|` |
| Pages.LinkText | CaseAnalysis.py:109-113 | a stored link has no `|` and no whitespace at either end |
| Pages.FirstSpan | CaseAnalysis.py:103-108 | the two `find` calls locate the first `[[[` and the first `]]]` at or after it; the `]]]` starts at least three characters later |
| Pages.LinksAreDelimited | CaseAnalysis.py:101-117 | every link collected is the trimmed text before `|` between some `[[[` and the first `]]]` after it |
| Pages.LinkShape | CaseAnalysis.py:109-113 | no collected link contains `|` or `]]]` |
| Pages.LinkFound | CaseAnalysis.py:101-117 | the set of links is empty exactly when no `[[[` is followed by a `]]]` |
| Pages.ScanLinks | CaseAnalysis.py:101-117 | the loop that cuts `source` ends and returns the set `LinksIn(source)`, with its delimiters and shape as above |
| Pages.LoadPage | CaseAnalysis.py:85-117 | the page is a redirect exactly when `IsRedirect` gives a non-empty value, and that value is its destination; otherwise it holds the scanned links; the title is kept |
| ReverseIndex.InverseSite.constructor | CaseAnalysis.py:160 | the index starts empty |
| ReverseIndex.InverseSite.AddLink | CaseAnalysis.py:151-155 | the key is added if new; its list gains the name at the end; every other list is unchanged |
| ReverseIndex.AddLinks | CaseAnalysis.py:163-164 | adding a set of links one by one gives `AddAll`, whatever the order |
| ReverseIndex.BuildReverseIndex | CaseAnalysis.py:159-167 | the loop over the site builds `ReverseIndexOf(site)` |
| ReverseIndex.KeysAreTargets | CaseAnalysis.py:159-167 | the keys are exactly the links of content pages and the destinations of redirects |
| ReverseIndex.ReferrersIff | CaseAnalysis.py:159-167 | a page is listed under `l` exactly when `l` is one of its links or its destination |
| ReverseIndex.ReferrersOnce | CaseAnalysis.py:159-167 | with distinct page names, no page is listed twice under one key |
| ReverseIndex.ReverseIndexMeaning | CaseAnalysis.py:159-167 | both facts above, plus: every list is non-empty and holds each page at most once |
| KeyOrder.KeyList | CaseAnalysis.py:175 | the list holds exactly the dictionary's keys, each once |
| KeyOrder.SortByKey | CaseAnalysis.py:176-178 | `list.sort(key=…)` in place: a permutation, sorted by the key, stable |
| KeyOrder.StableSortRefines | CaseAnalysis.py:176-178 | a stable sort by `f` of a list sorted by `fs` leaves it sorted by `f`, then `fs` |
| KeyOrder.SortAgain | CaseAnalysis.py:177-178 | each later sort keeps the earlier order among ties |
| KeyOrder.SortKeys | CaseAnalysis.py:175-178 | the three sorts give a permutation of the keys, ordered by Wikidot form, then MediaWiki form, then raw text |
| KeyOrder.AnalysisOrderLe | CaseAnalysis.py:171-173 | that order, spelled out as a comparison of triples |
| KeyOrder.WikidotGroupsContiguous | CaseAnalysis.py:171-172 | in the sorted keys, keys with one Wikidot form stand together |
| KeyOrder.MediawikiRunsContiguous | CaseAnalysis.py:172-173 | within them, keys with one MediaWiki form stand together |
| KeyOrder.SortedUnique | CaseAnalysis.py:175-178 | two sorted lists of the same distinct keys are equal, so dictionary order does not change the result |
| PageList.FormatPageList | CaseAnalysis.py:189-199 | the loop returns `Summary` of the referrers: the first four quoted and joined by `",  "`, then the count of the rest |
| PageList.SummaryEmpty | CaseAnalysis.py:189-199 | the summary is `""` exactly when no page refers to the name |
| PageList.SummaryMore | CaseAnalysis.py:197-198 | it ends with `" more..."` exactly when more than four pages refer to the name, and then with `",  plus " + (n - 4) + " more..."` |
| PageList.SummaryShows | CaseAnalysis.py:193-196 | each of the first four referrers appears in it, quoted |
| Grouping.Opening | CaseAnalysis.py:243 | the line that opens a run is non-empty and starts with a quote |
| Grouping.ReportMultipleForms | CaseAnalysis.py:215-261 | the loop, as written, returns the count and the lines of the fold `Scan` |
| Grouping.ScanStepExpected | CaseAnalysis.py:220-259 | one step of the scan keeps its state equal to the reference state built from groups and runs |
| Grouping.FlushExpected | CaseAnalysis.py:226-234 | writing out the saved lines adds exactly the current group's report and count |
| Grouping.ScanFollows | CaseAnalysis.py:215-259 | unless the first key shares the sentinel's Wikidot form, the scan's state is the reference state |
| Grouping.ScanMeaning | CaseAnalysis.py:215-261 | for non-empty keys whose first key's Wikidot form is not that of `"nonsense"`, the scan counts and writes every group but the last that has two or more MediaWiki forms |
| Grouping.ReportAllGroups | CaseAnalysis.py:215-261 | the corrected loop counts and writes every group with two or more MediaWiki forms |
| Grouping.SplitFlatten | CaseAnalysis.py:210-213 | grouping loses, adds and reorders no key |
| Grouping.SplitAgree | CaseAnalysis.py:223 | every key of a group has the group's form |
| Grouping.SplitBreaks | CaseAnalysis.py:223 | neighbouring groups have different forms |
| Grouping.SplitDistinctImages | CaseAnalysis.py:171-178 | when keys of one form stand together, no two groups share a form |
| Grouping.ReportedIff | CaseAnalysis.py:214 | a group is reported exactly when two of its keys have different MediaWiki forms |
| Grouping.GroupsAreWikidotNames | CaseAnalysis.py:223 | over the sorted keys, no two groups share a Wikidot form |
| Grouping.RunsAreMediawikiForms | CaseAnalysis.py:248 | within a group of the sorted keys, no two runs share a MediaWiki form, so each form gets one saved line |
| Grouping.LastGroupDropped | CaseAnalysis.py:220-261 | two keys with one Wikidot form (other than the sentinel's) and two MediaWiki forms: the scan writes nothing, yet one group is to be reported |
| Grouping.LastGroupDroppedExample | CaseAnalysis.py:220-261 | for the sorted keys `"Foo bar"`, `"foo-bar"` of one Wikidot form (other than the sentinel's): the scan counts 0 and writes nothing, yet one group is to be reported |
| Grouping.SentinelCounted | CaseAnalysis.py:215-245 | for two keys `[a, b]`, where `a` has the Wikidot form of `"nonsense"` but a MediaWiki form other than that of `"random string"`, and `b` has another Wikidot form: the scan counts 1 and writes `"\nnonsense"`, an empty line and `a`'s line, though nothing is to be reported |
| Grouping.SentinelCountedExample | CaseAnalysis.py:215-245 | for the keys `["nonsense", b]`, `b` of another Wikidot form: count 1, and the lines `"\nnonsense"`, `""` and the line of `"nonsense"`, though nothing is to be reported |
| Redirects.LowercaseRedirects | CaseAnalysis.py:267-273 | the loop returns the lines of `LowercaseReport`, and the count is the number of lines |
| Redirects.LowerUnchangedIff | CaseAnalysis.py:271 | `t == t.lower()` exactly when `t` has no capital letter |
| Redirects.LowercaseListed | CaseAnalysis.py:269-273 | a line is listed exactly when some redirect has a destination with no capital that is not all digits |
| Redirects.NoCapitalListed | CaseAnalysis.py:271 | a destination with no capital and a character other than a digit is flagged |
| Redirects.CapitalNotListed | CaseAnalysis.py:271 | a destination with a capital letter is never flagged |
| Redirects.LowercaseExample | CaseAnalysis.py:266 | `"elvis_presley"` is flagged |
| Redirects.CapitalizedExample | CaseAnalysis.py:266 | `"Elvis Presley"` is not |
| Redirects.NumberExample | CaseAnalysis.py:271 | `"1984"` is not |
| Redirects.DoubleRedirects | CaseAnalysis.py:281-307 | the loop, as written, returns the lines and the count of the folds `DoubleReport` and `DoubleCount` |
| Redirects.DoubleEntryMeaning | CaseAnalysis.py:283-307 | a page writes lines exactly when its redirect leads to another redirect; it is counted exactly when, in addition, the third name is missing or is a redirect |
| Redirects.DoubleEntryLines | CaseAnalysis.py:293-306 | every line starts with the page's title and the second page's title |
| Redirects.DoubleCountBound | CaseAnalysis.py:283-307 | the count never exceeds the number of lines |
| Redirects.PlainChainUncounted | CaseAnalysis.py:296-298 | a chain ending at a content page writes one line and is not counted |
| Redirects.PlainChainExample | CaseAnalysis.py:283-307 | the site `a → b → c` with `c` a content page, with canon leaving `b` and `c` unchanged: one line, count 0 |
| Redirects.CountChains | CaseAnalysis.py:281-307 | the corrected loop writes the same lines and counts every page that starts a chain |
| Redirects.MissingTargets | CaseAnalysis.py:314-322 | the loop returns the lines of `MissingReport`, and the count is the number of lines |
| Redirects.MissingListed | CaseAnalysis.py:316-322 | a line is listed exactly when some redirect's Wikidot-form destination is not a page name |
| Redirects.MissingStartsNoChain | CaseAnalysis.py:286-288 | a redirect to a missing name writes nothing in the chain report |
| Redirects.BrokenChainListed | CaseAnalysis.py:289-295 | a chain broken at its second hop also shows up, for the middle page, in the missing-target report |

## Left out

- `LoadDirectory`, the directory walk, the `.txt` filter, the `index_` skip, and the XML title and tags (CaseAnalysis.py:47-83): file and XML input. `LoadPage` takes the title and the decoded text as arguments, and tags are not kept.
- The cp437 decoding, and Python's Unicode meaning of `upper`, `lower`, `strip`, `isspace` and `isdigit`: the model is ASCII only. Whitespace is ASCII space, `\t` through `\r`, and `\x1c`–`\x1f`.
- `WikidotHelpers.Cannonicize` is not part of this model. It is the parameter `canon`.
- MediaWiki.MediawikiCanonicize: does not model the `None` input, which no caller passes.
- `logger`, `tempPrint` with its encoding fallback, the trace file, and the printed count lines (CaseAnalysis.py:10-14, 182-187, 221-258, 261-262, 275-276, 309-310, 324-325): output only. Report lines and counts are returned instead.
- `PrintPageList` (CaseAnalysis.py:201-202): never called.
- The hard-coded root path and the module-level file handles (CaseAnalysis.py:125-126, 144).
- Dictionary iteration order of `site` is the order of the site sequence. The order of `inverseSite`'s keys before sorting is not modelled, because `KeyOrder.SortedUnique` shows it cannot change the sorted result.
- Redirects.DoubleRedirects: `pageRRRT` (CaseAnalysis.py:305) is computed and never used. The third line ends with the Wikidot form `pageRRCR` rather than a title, and the model writes it that way.
- The iteration order of a page's `links` set (CaseAnalysis.py:163): `ReverseIndex.AddLinks` proves that the resulting index is the same for every order.

## Findings

| source | as written | input that shows it | evidently intended | confidence | as-written member | corrected member |
|---|---|---|---|---|---|---|
| CaseAnalysis.py:220-261 | the saved lines of a group are written only when a key of the next group arrives, and nothing is written after the loop, so the last Wikidot group is never reported | sorted keys `"Foo bar"`, `"foo-bar"` with one Wikidot form: count 0, nothing written | the last group is written too: count 1, two lines | high; not executed | Grouping.LastGroupDroppedExample | Grouping.ReportAllGroups |
| CaseAnalysis.py:215-245 | the scan starts with `outerKey = "nonsense"` and `innerKey = "random string"`, so a first key with the Wikidot form of `"nonsense"` is taken into the sentinel's group | first key `"nonsense"`, then any key of another Wikidot form: count 1, lines `"\nnonsense"`, `""` and the first key's line | the first key opens a group of its own; count 0 | high; not executed | Grouping.SentinelCountedExample | Grouping.ReportAllGroups |
| CaseAnalysis.py:296-307 | a chain `a → b → c` that ends at a content page writes its line at :297 but does not raise the count | site `a → b → c`, `c` a content page, canon leaving `b` and `c` unchanged: one line, count 0 | the count is the number of chains reported, here 1 | medium; not executed | Redirects.PlainChainExample | Redirects.CountChains |

The script's own text says what was meant. The comment at CaseAnalysis.py:214
asks for a Wikidot name to be printed whenever it has more than one MediaWiki
form, and nothing there exempts the last name. The lines of the chain walk go to "Double Redirects.txt"
(CaseAnalysis.py:281), and the count is printed as "Double redirects:"
(CaseAnalysis.py:309), so it is meant to count the chains written there. The
model follows the code and proves the corrected loops beside it.
