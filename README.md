# humm — a verified model of the link checker's core

humm is a command-line link checker. It fetches a page, collects its links,
makes each link absolute against the root URL, splits the links into internal
ones (same host as the root) and external ones, and removes duplicates from
each side while keeping the first occurrence. It then probes every internal
link for its HTTP status code, attaching basic-auth credentials only when the
root host is on a fixed allow-list. Finally it prints a report grouped by
status code.

This project models that core in Dafny:

- `wrappers.dfy` (`Wrappers`): the `Option` and `Result` types.
- `humm.dfy` (`Humm`): the types `LinkStats` and `SpiderSummary` and the library functions of `humm.go`. These are pure functions over a value model of `url.URL`: `MakeAbsolute`, `AddBasicAuth`, `RemoveBasicAuth`, `IsInternal`, `IsExternal` and `DeterminePageType`. The page-type regular expressions are written out as predicates.
- `sorting.dfy` (`Sorting`): `sort.Slice` as an in-place sort of an `array`. Its comparison must be a strict weak order, and the proof shows the result is sorted and a permutation. This file also proves that Go's `<` on strings and on ints are strict weak orders.
- `links.dfy` (`MainLinks`): the link pipeline of `cmd/humm/main.go`. It covers the allow-list search, the basic-auth setup, the URL each probe requests, `makeLinksAbsolute`, `splitInternalExternalLinks`, `makeLinksUniq` and the links limit. The loops are methods proved against the functions `Uniq`, `InternalLinks` and `ExternalLinks`.
- `summary.dfy` (`MainSummary`): the summary stage of `cmd/humm/main.go`, covering these steps:
  - the receive loop that groups records by status code;
  - gathering and sorting the status codes;
  - sorting each group in place by URL string when the sort field is `url`;
  - rendering the report.

  The report is a sequence of `Line` values. A header line holds the status code and its group's size. An entry line holds the status code and the URL with credentials removed. The bracketed page type printed after an entry's URL is `PageColumn(line)`, the page type of that URL.

Three behaviours of the code that the model keeps:

- Groups are sorted by the string of the stored URL, which still carries the credentials. Credentials are removed only on the copy that is printed.
- Only the sort field `url` reorders anything. Every other value, `time` included, keeps arrival order.
- Duplicate removal compares every modelled field of the URL, credentials included.

## Model

| member | source | states |
|---|---|---|
| Humm.MakeAbsolute | humm.go:28-41 | scheme, host and path are each filled from the base only when empty; the opaque part, user, query and fragment are kept; a base with non-empty scheme and host gives a result with non-empty scheme and host |
| Humm.MakeAbsoluteIdempotent | humm.go:28-41 | making an absolute link absolute again against the same base changes nothing |
| Humm.MakeAbsoluteSelf | humm.go:28-41 | a URL made absolute against itself is unchanged |
| Humm.MakeAbsoluteKeepsAbsolute | humm.go:30-38 | a link with scheme, host and path all set is returned unchanged |
| Humm.AddBasicAuth | humm.go:44-47 | the result carries the base's credentials and differs from the link in nothing else |
| Humm.RemoveBasicAuth | humm.go:50-53 | the result has no credentials and differs from the link in nothing else |
| Humm.RemoveBasicAuthIdempotent | humm.go:50-53 | stripping credentials twice is the same as once |
| Humm.RemoveAfterAdd | humm.go:44-53 | stripping after adding credentials gives the stripped original |
| Humm.IsInternal | humm.go:56-61 | definition: a link is internal when its host equals the root's host; its properties are the two lemmas below |
| Humm.IsExternal | humm.go:64-69 | definition: a link is external when its host differs from the root's host |
| Humm.ExternalIsNotInternal | humm.go:56-69 | a link is external exactly when it is not internal |
| Humm.InternalDependsOnlyOnHosts | humm.go:56-69 | internal and external depend on the two hosts and nothing else |
| Humm.Matches | humm.go:86-95 | definition of `t.re.MatchString(path)`: `Exactly(t)` is `^t$`; `PrefixThenSlug(p)` is `^p[a-z0-9-]+/?$`, anchored at the end of the text as Go's `$` is; the example lemmas below exercise each pattern |
| Humm.AllTypes | humm.go:82-96 | definition of the priority table `allTypes`: index `^/$`, technology `^/technology/…`, project `^/projects/…`, static `^/…`, in that order |
| Humm.FirstMatch | humm.go:99-103 | the index returned is of a matching pattern with no earlier match; none means no pattern matches |
| Humm.DeterminePageType | humm.go:73-107 | the tag is one of index, technology, project, static, unknown |
| Humm.PageTypeIsFirstMatch | humm.go:84-106 | each tag holds exactly when its pattern matches and no earlier pattern does; unknown exactly when none of the four matches |
| Humm.PageTypeDependsOnlyOnPath | humm.go:99-100 | two URLs with the same path get the same tag |
| Humm.PageTypeIgnoresCredentials | humm.go:73-107 | removing credentials does not change the tag |
| Humm.PageTypeOfRoot | humm.go:84-86 | "/" is index |
| Humm.PageTypeOfTechnology | humm.go:87-89 | "/technology/rust-lang" is technology |
| Humm.PageTypeOfProject | humm.go:90-92 | "/projects/my-app/" (trailing slash allowed) is project |
| Humm.PageTypeOfAbout | humm.go:93-95 | "/about" is static |
| Humm.PageTypeOfDeepPath | humm.go:98-106 | "/a/b/c", which no pattern matches, is unknown |
| Humm.PageTypeOfBareTechnology | humm.go:87-95 | "/technology/" has no slug after the prefix and falls through to static |
| Sorting.SortSlice | cmd/humm/main.go:198 | sort.Slice with a strict weak order: the array ends sorted and is a permutation of its old contents |
| Sorting.InsertAt | cmd/humm/main.go:198 | one step of the sort: with the prefix before `i` sorted, the prefix up to `i` ends sorted, the elements after `i` are untouched, and the array is a permutation of its old contents |
| Sorting.SwapDown | cmd/humm/main.go:198 | one exchange of neighbours: the two elements swap, the rest is unchanged, the multiset is kept |
| Sorting.StrLess | cmd/humm/main.go:206 | definition of Go's `<` on strings, recursive over the first characters; its properties are the three lemmas below |
| Sorting.StrLessIsLexicographic | cmd/humm/main.go:206 | StrLess holds exactly when the strings agree up to some position and there `a` has ended while `b` has not, or `a` has the smaller character |
| Sorting.StrLessAsymmetric | cmd/humm/main.go:206 | string `<` is asymmetric |
| Sorting.StrLessNegTransitive | cmd/humm/main.go:206 | string `<` is negatively transitive |
| Sorting.StrLessByKeyIsStrictWeakOrder | cmd/humm/main.go:205-207 | comparing elements by a string key is a strict weak order, so the URL sort has a valid comparison |
| Sorting.IntLessIsStrictWeakOrder | cmd/humm/main.go:198 | int `<` is a strict weak order, so the key sort has a valid comparison |
| MainLinks.ContainsHost | cmd/humm/main.go:238-245 | true exactly when the host is in the allow-list |
| MainLinks.ConfigureBasicAuth | cmd/humm/main.go:76-90 | without both user and password nothing changes; with both, a host outside the allow-list is an error, and otherwise the root gets those credentials and basic auth is on; credentials are only ever put on an allow-listed host |
| MainLinks.ProbeUrl | cmd/humm/main.go:142-144 | the probed URL gets the root's credentials exactly when basic auth is on and the link is internal; nothing else about it changes |
| MainLinks.ProbeCredentialsStayOnRootHost | cmd/humm/main.go:142-144 | if a probe's credentials differ from the link's, basic auth is on and the link is on the root host |
| MainLinks.MakeLinksAbsolute | cmd/humm/main.go:267-274 | one result per link, in order, each the link made absolute; with a root that has scheme and host, every result has both |
| MainLinks.FirstIndex | cmd/humm/main.go:292-307 | the index of the first occurrence of an element |
| MainLinks.UniqMembers | cmd/humm/main.go:292-307 | deduplication keeps exactly the elements of the input |
| MainLinks.UniqNoDuplicates | cmd/humm/main.go:292-307 | the deduplicated list has no duplicates |
| MainLinks.UniqNoLonger | cmd/humm/main.go:292-307 | the deduplicated list is no longer than the input |
| MainLinks.UniqOfDistinct | cmd/humm/main.go:292-307 | a list without duplicates is returned unchanged |
| MainLinks.UniqIdempotent | cmd/humm/main.go:292-307 | deduplicating twice is the same as once |
| MainLinks.FirstIndexOfExtension | cmd/humm/main.go:296-300 | appending an element does not move the first occurrence of one already present |
| MainLinks.UniqFirstOccurrenceOrder | cmd/humm/main.go:292-307 | the kept elements appear in the order of their first occurrences in the input |
| MainLinks.MakeLinksUniq | cmd/humm/main.go:292-307 | the nested search loop computes Uniq: no duplicates, the same elements, no longer than the input |
| MainLinks.SplitMembers | cmd/humm/main.go:279-285 | the internal side holds exactly the links on the root host and the external side exactly the others |
| MainLinks.SplitInternalExternalLinks | cmd/humm/main.go:276-290 | each side is the deduplicated filter of the links; internal links are on the root host and external ones are not; the sides are disjoint, together hold exactly the input's links, and have no duplicates |
| MainLinks.TruncateAsWritten | cmd/humm/main.go:133-135 | the limit code as written: a negative limit panics; limit 0 or a list no longer than the limit is kept; otherwise the first limit links are kept |
| MainLinks.NegativeLimitPanics | cmd/humm/main.go:133-134 | limit -1 panics for every list, the empty one included |
| MainLinks.TruncateLinks | cmd/humm/main.go:133-135 | a positive limit below the length keeps that many leading links; any other limit keeps all; the result is always a prefix |
| MainLinks.TruncateAgreesWhenDefined | cmd/humm/main.go:133-135 | for every limit that does not panic, the corrected limit agrees with the code as written |
| MainLinks.PrepareLinks | cmd/humm/main.go:120-135 | absolute, split, deduplicated and limited with the corrected TruncateLinks: the internal list is the truncated deduplicated internal side; both sides have no duplicates and the right hosts |
| MainLinks.SplitOfRepeatedLink | cmd/humm/main.go:276-290 | an internal link given twice followed by an external one splits into that internal link once and the external one |
| MainLinks.ExampleComScenario | cmd/humm/main.go:118-124 | root https://example.com/ with hrefs /about, https://example.com/about and https://other.com/x gives internal [https://example.com/about] and external [https://other.com/x] |
| MainLinks.MailtoLinksStayDistinct | humm.go:28-41 | two mailto links that differ only in their opaque part both become internal against https://example.com/ and both survive deduplication |
| MainSummary.AddResult | cmd/humm/main.go:175-181 | the record is appended to the group of its status code, which is created when missing; all other groups are unchanged |
| MainSummary.CollectResults | cmd/humm/main.go:157-182 | the groups are exactly the status codes received, each holding its records in arrival order |
| MainSummary.CodeNotSeen | cmd/humm/main.go:176-179 | a status code not seen so far has no records |
| MainSummary.WithCodeMembers | cmd/humm/main.go:181 | a group holds exactly the received records with that code |
| MainSummary.WithCodeAppend | cmd/humm/main.go:163-181 | grouping the concatenation of two arrival sequences concatenates their groups |
| MainSummary.SumSizesStep | cmd/humm/main.go:181 | one more record adds one to the total size over the listed codes exactly when its code is listed |
| MainSummary.GroupSizesSum | cmd/humm/main.go:163-181 | over distinct codes covering every code seen, the group sizes add up to the number of records |
| MainSummary.ZeroSizes | cmd/humm/main.go:157-158 | before any record arrives every group size is zero |
| MainSummary.CollectedSizesSum | cmd/humm/main.go:163-202 | the header counts of the collected summary add up to the number of records received |
| MainSummary.GroupTotalIsSumSizes | cmd/humm/main.go:202 | the sizes of the stored groups are the counts of their codes among the records |
| MainSummary.DistinctCountsAtMostOne | cmd/humm/main.go:190-196 | a list of distinct keys holds each key at most once |
| MainSummary.DistinctPermutation | cmd/humm/main.go:198 | sorting distinct keys keeps them distinct |
| MainSummary.GatherStatusKeys | cmd/humm/main.go:187-198 | the keys are exactly the status codes of the summary, in strictly ascending order |
| MainSummary.SortGroupByUrl | cmd/humm/main.go:204-208 | the group becomes a permutation of itself in ascending order of URL string |
| MainSummary.PageColumn | cmd/humm/main.go:216-221 | definition of the bracketed `[%s]` column: `DeterminePageType` of the entry's (credential-stripped) URL; EntryPageColumn relates it to the record |
| MainSummary.EntryLine | cmd/humm/main.go:216-221 | an entry carries its status code and the record's URL with credentials removed |
| MainSummary.EntryPageColumn | cmd/humm/main.go:216-221 | the page type printed is that of the record's own URL |
| MainSummary.GroupLines | cmd/humm/main.go:210-221 | definition of one group's listing: nothing for status 200 unless 200s are shown, otherwise one entry per record in order; RenderGroup is proved to compute it |
| MainSummary.RenderGroup | cmd/humm/main.go:210-222 | the listing loop yields one entry per record in order, and nothing for 200 unless 200s are shown |
| MainSummary.Report | cmd/humm/main.go:200-222 | definition of the printed report: for each key in order, its header with the group's size, then its listing; its properties are the Report and Headers lemmas below |
| MainSummary.ReportExtend | cmd/humm/main.go:200-223 | replacing the group of the next key and printing its section extends the report by that section and leaves earlier sections as they were |
| MainSummary.ReportFrame | cmd/humm/main.go:200-223 | the report depends only on the groups of the keys it lists |
| MainSummary.ReportIsSafe | cmd/humm/main.go:210-221 | no listed URL carries credentials, and no 200 is listed unless 200s are shown |
| MainSummary.ReportListsExactlyTheRecords | cmd/humm/main.go:200-222 | each entry comes from a record of its group, and every record of a listed group that is not a hidden 200 is listed |
| MainSummary.HeadersAppend | cmd/humm/main.go:202 | the headers of two concatenated reports are the concatenated headers |
| MainSummary.NoHeadersInGroup | cmd/humm/main.go:210-221 | a group's listing contains no header lines |
| MainSummary.HeadersOfSection | cmd/humm/main.go:202 | a section contributes exactly its own header |
| MainSummary.ReportHeaders | cmd/humm/main.go:200-202 | the report has one header per key, in key order, each with its group's size |
| MainSummary.ReportGroup | cmd/humm/main.go:201-222 | one key's section: its group is sorted by URL for sort field url and kept otherwise; the lines are its header, then its listing |
| MainSummary.ReportKeys | cmd/humm/main.go:200-223 | the print loop over ascending keys reorders each listed group in place, leaves other groups alone and outputs the report of the new groups |
| MainSummary.Finalize | cmd/humm/main.go:187-224 | the keys are the status codes in ascending order; the groups keep their keys and are reordered as the sort field says, and are unchanged unless it is url; the lines are the report of the final summary |

## Left out

- `GetStatusCode` (humm.go:123-141), the root page fetch and its status check: HTTP requests, timeouts and clocks are I/O. The probed records enter the model as the input sequence of `CollectResults`.
- `CheckXPath` and `gatherLinks`: HTML parsing belongs to an external library. Links enter the model as already parsed `Url` values.
- `url.Parse` and `url.URL.String()`: the string form of a URL is the function parameter `show`, used as the sort key. The fields `RawPath`, `ForceQuery`, `RawFragment` and `OmitHost` are not modelled.
- The goroutines and the buffered channel (main.go:137-164): the model receives the records in one arrival order given as input. Any order the scheduler produces is one such input. `MaxThreads` sizes only the channel buffer and does not appear.
- The timestamps and the `-t` elapsed-time column, the `-v` link counts, the `-silent` flag and the progress counter with its escape codes: output formatting and clocks.
- The flag parsing, the argument count check, `os.Exit` codes and the `-c` switch: command-line plumbing. `ConfigureBasicAuth` returns the allow-list error as a `Failure` instead of exiting.
- MainSummary.GatherStatusKeys: the inner loop at main.go:191-195 is not modelled. Its `continue` applies to the inner loop itself, so it never skips a key and has no effect.
- MainLinks.MakeLinksUniq: Go's `x == link` compares the `User` pointer, so the same href with userinfo (`https://u:p@example.com/a`) parsed twice gives two links that Go keeps apart. The model compares credentials by value and merges them, so it is exact only for hrefs without userinfo. Links that differ only in `RawPath`, `ForceQuery`, `RawFragment` or `OmitHost` are also merged by the model, because those fields are not modelled.
- MainLinks.PrepareLinks: it limits the internal links with the corrected TruncateLinks, so a negative limit keeps every link. The code as written panics there, as TruncateAsWritten and the row under "## Findings" record.
- Sorting.SortSlice: proved sorted and a permutation, which is all that `sort.Slice` promises. Which of several equal-key orders Go's unstable sort picks is left open.

## Findings

| source | as written | input that shows it | evidently intended | confidence | as-written member | corrected member |
|---|---|---|---|---|---|---|
| cmd/humm/main.go:133-134 | `if limit != 0 && len(links) > limit { links = links[:limit] }` with no check for a negative limit | `-l -1`: any internal list, even an empty one, is longer than -1, and slicing to -1 panics | a limit of 0 or less means "no limit", as 0 already does | not executed | MainLinks.TruncateAsWritten, MainLinks.NegativeLimitPanics | MainLinks.TruncateLinks, MainLinks.TruncateAgreesWhenDefined |
