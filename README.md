# Glassdoor review scraper: verified model of the harvest core

`main.py` signs in to Glassdoor in a browser and, for each company it is given,
walks that company's review listing page by page. It turns each review that is
not featured into a row of sixteen fields and writes the rows to a CSV file.
This project models the deterministic core under the browser plumbing, with the
browser replaced by the data it would show. A listing is a sequence of pages.
A page is a sequence of review nodes, each carrying what the field rules read
from it: whether it is featured, its date (an integer ordered like the date),
and its element texts.

- `wrappers.dfy` (`Wrappers`): `Option` for a field that may be missing
  (`np.nan`), `Outcome` for a check that passes or raises, `Result`.
- `text.dfy` (`Text`): the Python string operations the scraper uses, over
  ASCII. These are `split` with one separator, `join`, `strip`,
  `replace(pat, '')` and the substring test `in`. The file also has
  `re.sub(r'\W+', '-', name).lower()` and the derived output file name.
- `review.dfy` (`Review`): the review node, the sixteen-field record, and the
  field rules inside `scrape`. These are employment status, job title,
  location, review title, helpful count, pros/cons/advice and the positional
  sub-ratings. Because the record is a datatype with exactly the sixteen schema
  fields, the `assert set(res.keys()) == set(SCHEMA)` of `extract_review` holds
  by construction.
- `arguments.dfy` (`Arguments`): the start-up rejection of option combinations
  and `verify_date_sorting`.
- `scraper.dfy` (`Scraper`): the harvest state machine.
  - It has specification functions on values: the rows of one page, the date
    flag, the first stopping point of the paging loop, and the rows of one
    target.
  - It has lemmas about these functions: filtering, keys, the date flag,
    overshoot, loop conditions and date tolerance.
  - The class `Scraper` holds the module-level cells `page`, `idx` and
    `date_limit_reached`, and the browser's position in the listing. Its
    methods `ExtractFromPage`, `GoToNextPage`, `OpenListing`, `HarvestRest`,
    `ProcessUrl` and `ProcessTargets` are proved against those functions.

The model follows the code where it is subtle:
- Location is read when the review text contains the substring `in`, not when
  the author is not anonymous (main.py:136).
- A missing date or review title is not isolated per field: those two rules
  have no `try`, so a failure would raise out of the harvest. The model gives
  every node a date and a summary.
- The date-limit test looks at the dates of the harvested, non-featured rows
  only. A page whose rows are all featured, or that has no rows, never sets the
  flag: pandas gives `NaT` as the maximum and minimum of an empty column, and
  `NaT` compares false.
- The test is `max_date and A or min_date and B`, which Python reads as
  `(max_date and A) or (min_date and B)`.

## Model

| member | source | states |
|---|---|---|
| Arguments.CheckArguments | main.py:73-82 | A date bound without `--start_from_url` is rejected with that error, which wins over the other check. Both bounds together are rejected otherwise. A run is accepted exactly when no bound is set, or resume mode is on and at most one bound is set. |
| Arguments.VerifyDateSorting | main.py:399-408 | `min_date` on an ascending listing is rejected first, then `max_date` on a descending one. For an accepted configuration with a bound, the check passes exactly for max+ascending or min+descending. |
| Text.Split | main.py:148 | `split` on one character gives at least one segment, none of which contains the separator. |
| Text.JoinSplit | main.py:148 | Joining the segments of a split with the separator gives back the original string. |
| Text.SplitJoin | main.py:127 | Splitting a join of separator-free segments gives back the segments. |
| Text.FirstSegmentIsPrefix | main.py:148 | The first segment is a prefix of the string and ends at the string's end or at a separator. |
| Text.Strip | main.py:155 | The result is the contiguous middle of the string left after cutting stripped characters from both ends, and neither of its ends is a stripped character. It is empty only when every character was stripped. |
| Text.StripUnaccepted | main.py:155 | A string neither end of which is a stripped character is left as it is. |
| Text.StripWrapped | main.py:155 | A string wrapped in one stripped character on each side, whose own ends are not stripped characters, is recovered by stripping. |
| Text.StripIdempotent | main.py:192 | Stripping twice equals stripping once. |
| Text.RemoveAll | main.py:192 | `replace(pat, '')` never lengthens the string and adds no character. A one-character pattern is removed entirely. A string without the pattern is left unchanged. |
| Text.RemoveAllFirst | main.py:192 | The first occurrence, preceded by text without the pattern's first character, is removed and the scan goes on after it: `replace` of `a + pat + b` is `a` followed by the `replace` of `b`. |
| Text.RemoveAllSkip | main.py:192 | A pattern character that does not start an occurrence is kept, and the scan goes on after it. |
| Text.NotContainsFirst | main.py:192 | A string without the pattern's first character does not contain the pattern. |
| Text.ContainsIff | main.py:136 | The substring test `pat in s` holds exactly when `pat` occurs in `s` at some position. |
| Text.JoinAvoids | main.py:192 | A character absent from the separator and from every part is absent from the join. |
| Text.CollapseNonWord | main.py:459 | `re.sub(r'\W+', '-', s)` leaves only word characters and `-`, never two dashes in a row, and keeps a leading word character. |
| Text.CollapseKeepsWords | main.py:459 | Collapsing keeps every word character, in order, and adds none. |
| Text.CollapseAppend | main.py:459 | No run of non-word characters crosses a boundary that follows a word character, so collapsing splits there. |
| Text.CollapseRunToDash | main.py:459 | A maximal run of non-word characters between word characters (or the ends) becomes exactly one `-` in its place, with the text on each side collapsed on its own. |
| Text.CollapseIdempotent | main.py:459 | Collapsing twice equals collapsing once. |
| Text.LowerChar | main.py:459 | `lower()` on one character maps each ASCII capital to the letter 32 code points above it, leaves every other character alone, and never changes whether it is a word character. |
| Text.Lower | main.py:459 | `lower()` preserves length and lowercases each ASCII letter in place. |
| Text.CollapseLower | main.py:459 | Lowercasing and collapsing commute. |
| Text.SanitizeShape | main.py:459 | The sanitised name has only lowercase word characters and single dashes, and holds the name's word characters, lowercased, in order. |
| Text.SanitizeIdempotent | main.py:459 | Sanitising a sanitised name changes nothing. |
| Text.FileNameShape | main.py:459 | The file name is the sanitised name followed by `.csv` and never contains `--`. |
| Review.EmployeeStatus | main.py:146-152 | Status is always present. It is the prefix of the author line up to the first `-`, or the whole line when it has no `-`. |
| Review.JobTitleSegment | main.py:126-127 | `split('-')[1]` is missing exactly when the line has no `-`. Otherwise it is the `-`-free text between the first `-` and the next `-` or the end. |
| Review.EmployeeTitle | main.py:123-133 | The title is present exactly when the review text lacks "Anonymous Employee", the title element exists and its text has a `-`. The title is then that text's second segment. |
| Review.Location | main.py:135-144 | The location element's text is read exactly when the review text contains `in`. Otherwise the location is missing. |
| Review.ReviewTitle | main.py:154-155 | `strip('"')` gives the contiguous middle of the summary left after cutting `"` from both ends, with no `"` at either end. It is empty only for an all-quote summary. |
| Review.ReviewTitleKeepsUnquoted | main.py:155 | A summary that neither starts nor ends with `"` is the title unchanged. |
| Review.ReviewTitleIdempotent | main.py:155 | Stripping a title again changes nothing. |
| Review.ReviewTitleUnquotes | main.py:155 | A summary in surrounding quotes gives back the text they enclose, when that does not itself start or end with a quote. |
| Review.Helpful | main.py:166-172 | The recorded helpful count is 0, the fallback that always runs. |
| Review.CleanParagraph | main.py:192 | A cleaned paragraph has no newline, no whitespace at either end, and no character not in the original. A paragraph without a newline is only stripped of surrounding whitespace. |
| Review.CleanParagraphShowLess | main.py:192 | A trailing `\nShow Less` is removed whole, and the rest is stripped. |
| Review.CleanParagraphJoinsLines | main.py:192 | A newline that does not start `\nShow Less` is removed, and the lines on each side are joined and stripped. |
| Review.CleanParagraphs | main.py:192 | Every paragraph is cleaned, in order. |
| Review.Comment | main.py:182-195 | The comment is missing exactly when there are no blocks, `ind` is out of range, or the block has no paragraphs. Otherwise it is the cleaned paragraphs after the label, joined by single spaces, so it contains no newline and is empty when the block has only its label. |
| Review.CommentOfTwoParagraphs | main.py:182-195 | A block of a label, an expanded paragraph ending in `\nShow Less` and a second paragraph gives the two stripped paragraphs joined by one space. |
| Review.CommentRecoversParagraphs | main.py:192 | When no cleaned paragraph contains a space, splitting the comment at spaces gives back paragraphs 2..n, cleaned, in order. |
| Review.SubRating | main.py:216-226 | Sub-rating `i` is the `i`-th bar's title, and missing past the end of the list. |
| Review.ExtractReview | main.py:276-283 | The record holds every schema field of one node, each the result of its own rule: title, location, status, review title, pros, cons, advice and the five sub-ratings equal `EmployeeTitle`, `Location`, `EmployeeStatus`, `ReviewTitle`, `Comment` of blocks 0-2 and `SubRating` 0-4. The date, years and overall rating are the node's own, and the helpful count is 0. |
| Scraper.NonFeatured | main.py:292-300 | The featured filter keeps only non-featured nodes of the page, keeps every one of them, and never grows the page. |
| Scraper.NonFeaturedCounts | main.py:292-300 | Each non-featured node occurs in the batch as often as in the page, and no featured node occurs. |
| Scraper.NonFeaturedNone | main.py:292-300 | A page without featured reviews is kept whole. |
| Scraper.RowsFromReviews | main.py:292-300 | A page's batch is exactly the non-featured nodes, in page order. |
| Scraper.RowsFromKeys | main.py:292-300 | The row keys count all nodes, featured ones included. They lie in `[idx, idx + n)` and strictly increase. |
| Scraper.RowsFromAppend | main.py:292-300 | Harvesting two runs of nodes in turn equals harvesting them together. |
| Scraper.DatesOfRowsFrom | main.py:302-305 | The batch's date column is the dates of the page's non-featured nodes. |
| Scraper.MaxOfIsMax | main.py:303 | The column maximum bounds every date and is one of them. |
| Scraper.MinOfIsMin | main.py:305 | The column minimum bounds every date from below and is one of them. |
| Scraper.DateLimitHitIff | main.py:302-307 | The date test holds exactly when a max is set and some date exceeds it, or a min is set and some date precedes it. |
| Scraper.PageDatesMembers | main.py:302-305 | A date is in the page's column exactly when a non-featured node carries it. |
| Scraper.PageHitIff | main.py:302-307 | A page reaches the limit exactly when one of its non-featured reviews is after the max or before the min. Featured reviews never count. |
| Scraper.PrefixRowsConcat | main.py:442-447 | Page-by-page harvesting equals harvesting the concatenated pages from index 0. The running index is the total node count. |
| Scraper.PrefixRowsGrow | main.py:443-447 | Harvesting more pages only appends to the result. |
| Scraper.HitByWitness | main.py:302-307 | A set flag points to a page that reached the limit. |
| Scraper.NoHitPages | main.py:302-307 | A clear flag means no page so far reached the limit. |
| Scraper.HitByIff | main.py:302-307 | After `k` pages the flag is set exactly when one of them reached the limit. Harvesting never clears it. |
| Scraper.FirstStopIsLeast | main.py:444 | `FirstStop` is the least stopping point from its start. |
| Scraper.HarvestedPages | main.py:442-447 | Between one page and the whole listing is harvested. |
| Scraper.HarvestedPagesIsLeast | main.py:444 | The loop stops after `HarvestedPages` pages and at no earlier page. |
| Scraper.Session | main.py:420-449 | For one target, the result is the sort-direction error exactly when resume mode with a bound fails `verify_date_sorting`. Otherwise it is the rows of the first `HarvestedPages` pages. |
| Scraper.SessionHarvestsFirstPage | main.py:442-443 | The first page's rows always begin the output. |
| Scraper.SessionLoopCondition | main.py:444 | A page after the first is harvested only if there was a next page, fewer rows than the limit and no date flag. After the last harvested page one of these fails. |
| Scraper.SessionOvershoot | main.py:444-447 | When more than one page is harvested, the count before the last page was below the limit. The output therefore overshoots by less than one page. |
| Scraper.SessionRows | main.py:442-447 | The output is exactly the non-featured reviews of a prefix of the listing, in order, under strictly increasing keys. |
| Scraper.PageWithinBounds | main.py:302-307 | A page that does not reach the limit has all its row dates within the bounds. |
| Scraper.NoHitWithinBounds | main.py:302-307 | If no page reached the limit, every row is within the bounds. |
| Scraper.SessionDateTolerance | main.py:442-447 | Only the last harvested page can hold rows beyond the bound. A set flag was set by that page. |
| Scraper.TwoPageScenario | main.py:442-447 | Pages of 5 reviews (1 featured) and 3 reviews with limit 10 and no bound give 7 rows from both pages. |
| Scraper.OvershootScenario | main.py:442-447 | Limit 3 and a first page of 5 non-featured reviews give 5 rows from page 1 alone. |
| Scraper.DateLimitScenario | main.py:442-447 | Resume mode, max date, ascending, and a first page with a later review: the loop stops after page 1 with the flag set. |
| Scraper.LoopStep | main.py:444-447 | One loop turn, on values, takes the state after `k+1` pages to the state after `k+2` pages. |
| Scraper.LoopEnd | main.py:444 | When the loop condition fails, the pages harvested are exactly `HarvestedPages`. |
| Scraper.Scraper.constructor | main.py:411-414 | The cells start at page 1, index 0 and flag false. |
| Scraper.Scraper.ExtractFromPage | main.py:267-309 | The batch is the page's rows from the current index. `idx` grows by the page's node count. The flag becomes old flag or the page's date test, and is never cleared. |
| Scraper.Scraper.MorePages | main.py:312-321 | There are more pages exactly when the browser is not on the listing's last page. |
| Scraper.Scraper.GoToNextPage | main.py:324-331 | The browser moves to the next page and `page` grows by exactly 1. |
| Scraper.Scraper.OpenListing | main.py:420-440 | The cells are reset to page 1, index 0 and flag false whatever came before. In resume mode with a bound the sort direction is checked first. In resume mode `page` becomes the listing's current page. |
| Scraper.Scraper.HarvestRest | main.py:444-447 | The loop ends after exactly `HarvestedPages` pages with the rows, index and flag of that prefix. `page` has grown by one per advance. |
| Scraper.Scraper.ProcessUrl | main.py:420-449 | One target's result equals `Session`. On success `page`, `idx` and the flag are those of the harvested prefix, depending only on this target. |
| Scraper.Scraper.ProcessTargets | main.py:454-459 | Target `i` is written to `FileName(name)` with `Session`'s rows, independently of earlier targets. A sort-direction error ends the batch at that target. |

## Left out

- Browser work is not modelled: `sign_in`, `get_browser`, the browser's
  navigation, `time.sleep`, and the `expand_show_more` JavaScript click. The
  model reads the paragraph texts as they are after any expansion.
- `navigate_to_reviews`: `no_reviews` always returns False, so the
  "no reviews" return of `process_url` never runs. The model opens the listing
  directly.
- `get_current_page`: the XPath read of the current page number is a
  parameter of the target (`currentPage`).
- `more_pages`: the test for the disabled class on the "next" link is modelled
  as "the listing has a page after the current one".
- `verify_date_sorting`: the `parse_qs` of the URL is not modelled; the sort
  direction is a boolean input. The source raises a `KeyError` instead in two
  cases (main.py:401): the URL has no `sort.ascending` parameter at all, or
  `sort.ascending` is its first query parameter, which `parse_qs` of the whole
  URL files under a key that includes the path.
- argparse, `strptime` (dates are integers ordered like dates), loading
  credentials from a file or `secret.json` (main.py:84-100), logging and
  wall-clock timing are outside libraries or I/O.
- Building the pandas DataFrame and writing the CSV are not modelled. Rows are
  a sequence of (index, review) pairs; `Row.Assembled` gives the record.
- Single-URL mode (`process_url(args.url, args.file)`) is `ProcessUrl` with an
  explicit file name. Only batch mode derives the name.
- A missing `time`, `summary` or `authorInfo` element raises out of the
  harvest in the source. The model's nodes always carry them.
- Review.Helpful: models only the fallback 0. Slicing the element object
  always raises, so no vote count is ever parsed.
- Unicode: `\w`, `lower()` and `str.strip()` whitespace are the ASCII
  classes.
