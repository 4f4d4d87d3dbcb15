# fedora-best-mirror, modelled in Dafny

`fedora-best-mirror` fetches Fedora's mirror list, downloads a test file from
each mirror for a bounded time, and prints the mirrors twice: ranked first by
mean download rate and then by peak one-second rate. Each row is written as a
`baseurl` line with dnf's `$releasever` / `$basearch` placeholders. This
project models the sequential rules under the network and asyncio code:

- `outcomes.dfy`: the Python exceptions involved (`AssertionError`,
  `ZeroDivisionError`, `OSError`), plus `Result` and `Option`.
- `mirror_list.dfy`: `get_mirror_list`'s line filter, that is
  `str.strip`, `str.splitlines` and the `#` comment test.
- `repo_url.dfy`: `str.replace` and `to_repo_url`, with its `assert`.
- `speed_probe.dfy`: `check_speed` without asyncio.
  - The pump adds up chunk lengths.
  - The once-per-second sampler keeps the largest per-tick byte count.
  - The average is the total divided by the elapsed time.
  - A run is described by the chunks delivered and by how many of them had
    arrived when the sampler started and at each completed tick.
- `top_urls.dfy`: `get_top_urls`. Mirrors whose probe raised `OSError` are
  skipped, and every other exception ends the loop.
- `ranking.dfy`: `_main` after argument parsing.
  - The `--max-mirrors` truncation, using Python's truthiness and slicing
    rules.
  - The two stable descending sorts (`reverse=True` keeps stability), each
    followed by its `print_stats` pass, which can fail the `to_repo_url`
    assertion.

The comprehension at `main.py:38` drops only lines that start with `#`, so an
empty or all-whitespace line is kept, as the entry `""`
(`MirrorList.BlankLineIsKept`). The comment test runs before stripping, so
`"  # x"` is kept as `"# x"` (`MirrorList.IndentedHashIsKept`).

## Model

| member | source | states |
|---|---|---|
| MirrorList.TrimLeft | fedora_best_mirror/main.py:38 | `lstrip` never lengthens the line and its result does not start with whitespace; TrimLeftDropsLeadingSpace adds that it is the suffix left after the leading whitespace |
| MirrorList.TrimRight | fedora_best_mirror/main.py:38 | `rstrip` never lengthens the line and its result does not end with whitespace; TrimRightDropsTrailingSpace adds that it is the prefix left before the trailing whitespace |
| MirrorList.Strip | fedora_best_mirror/main.py:38 | `strip` never lengthens the line; StripIsTrimmedSlice and StripIdempotent state what it keeps |
| MirrorList.TrimLeftDropsLeadingSpace | fedora_best_mirror/main.py:38 | `lstrip` returns a suffix; everything it removed is whitespace; the result is empty or starts with a non-space |
| MirrorList.TrimRightDropsTrailingSpace | fedora_best_mirror/main.py:38 | `rstrip` returns a prefix; everything it removed is whitespace; the result is empty or ends with a non-space |
| MirrorList.StripIsTrimmedSlice | fedora_best_mirror/main.py:38 | `strip` returns a contiguous slice of the line; all text before and after it is whitespace; the slice is empty or starts and ends with a non-space |
| MirrorList.StripIdempotent | fedora_best_mirror/main.py:38 | stripping an already stripped line changes nothing |
| MirrorList.BoundaryIndex | fedora_best_mirror/main.py:38 | the index found is the first line boundary of the text, or its length when it has none |
| MirrorList.SplitLines | fedora_best_mirror/main.py:38 | no line `splitlines` returns holds a line boundary; there are at most as many lines as characters; non-empty text gives at least one line |
| MirrorList.SplitJoinRoundTrip | fedora_best_mirror/main.py:38 | splitting lines that were joined with "\n" gives the same lines back, provided none of them holds a boundary |
| MirrorList.SplitFirstCrlfLine | fedora_best_mirror/main.py:38 | `splitlines` treats "\r\n" as one boundary: a boundary-free line followed by "\r\n" is split off whole, and no empty line follows it |
| MirrorList.SplitJoinCrlfRoundTrip | fedora_best_mirror/main.py:38 | splitting boundary-free lines joined with "\r\n" gives the same lines back |
| MirrorList.ParseMirrorList | fedora_best_mirror/main.py:38 | the mirror list is no longer than the line list |
| MirrorList.ParseSelectsNonComments | fedora_best_mirror/main.py:38 | entry k is the stripped text of the k-th line that does not start with '#'; the source indices increase (order is kept); every such line yields exactly one entry |
| MirrorList.GetMirrorList | fedora_best_mirror/main.py:38 | the list of a response body has no more entries than the body has characters, and entry k is the k-th line of `splitlines` not starting with '#', stripped, in line order, with none of those lines left out |
| MirrorList.NonCommentIsKept | fedora_best_mirror/main.py:38 | any line that does not start with '#' shows up, stripped, in the mirror list |
| MirrorList.IndentedHashIsKept | fedora_best_mirror/main.py:38 | a line whose first character is whitespace is kept, even when a '#' follows the whitespace; in particular `"  # x"` is not a comment and strips to `"# x"` |
| MirrorList.BlankLineIsKept | fedora_best_mirror/main.py:38 | an empty or all-whitespace line produces an empty entry |
| RepoUrl.ReleasePath | fedora_best_mirror/main.py:98 | the concrete segment is 24 characters longer than the version and the architecture together |
| RepoUrl.ReplaceAll | fedora_best_mirror/main.py:100 | `str.replace` for a non-empty pattern, scanning left to right without overlaps; ReplaceAbsent and ReplaceFirst pin down its content, and ReplaceBySelf covers replacing a pattern with itself. Its own contract adds only that a replacement as long as the pattern keeps the length of the text. |
| RepoUrl.ToRepoUrl | fedora_best_mirror/main.py:97-100 | `to_repo_url` returns Err(AssertionError) exactly when the concrete segment is absent from the URL, and otherwise the URL with every occurrence of the segment replaced by the template |
| RepoUrl.ReplaceAbsent | fedora_best_mirror/main.py:100 | `str.replace` changes nothing when the pattern does not occur |
| RepoUrl.ReplaceFirst | fedora_best_mirror/main.py:100 | the first occurrence is replaced, the text before it is kept, and the replacement goes on in the rest |
| RepoUrl.SingleOccurrence | fedora_best_mirror/main.py:98-100 | when the segment occurs exactly once, `to_repo_url` returns prefix + template + suffix |
| RepoUrl.RewriteRemovesSegment | fedora_best_mirror/main.py:98-100 | once the URL is rewritten, the concrete segment no longer occurs in it, provided version and arch contain no '$' |
| RepoUrl.RewriteTwiceFails | fedora_best_mirror/main.py:98-100 | applying `to_repo_url` to its own output fails the `assert` (AssertionError), provided version and arch contain no '$' |
| RepoUrl.ReplaceBySelf | fedora_best_mirror/main.py:100 | replacing a pattern with itself changes nothing |
| RepoUrl.PlaceholdersAreFixpoint | fedora_best_mirror/main.py:98-100 | the '$' condition is needed: when the placeholders themselves are the version and arch, the rewrite is the identity and a second application succeeds |
| SpeedProbe.Pump | fedora_best_mirror/main.py:71-72 | the pump loop's total is the sum of the chunk lengths |
| SpeedProbe.SumMonotone | fedora_best_mirror/main.py:72 | the running total never goes down |
| SpeedProbe.SampleTicks | fedora_best_mirror/main.py:50-60 | the sampler loop, which updates `last` and `max_rate`, computes the fold `Sample` over the tick totals |
| SpeedProbe.SampleFromState | fedora_best_mirror/main.py:50-60 | from any state, the fold fails iff some tick's delta is negative; otherwise its peak is at least the initial peak and every delta, and is equal to one of them |
| SpeedProbe.PeakIsLargestDelta | fedora_best_mirror/main.py:45-60 | the sampler fails its assert iff the total goes down at some tick; otherwise the peak is >= 0 and >= every delta, is 0 when no tick completed, and otherwise equals some tick's delta |
| SpeedProbe.CheckSpeed | fedora_best_mirror/main.py:44-82 | the probe (pump, sampler, then the average) computes the specification `ProbeSpec` |
| SpeedProbe.WindowDeltas | fedora_best_mirror/main.py:54-72 | the byte count the sampler sees at tick k is exactly the bytes of the chunks that arrived since the previous tick |
| SpeedProbe.ProbeNeverAsserts | fedora_best_mirror/main.py:54-55 | under any event-loop schedule the pump can produce, `assert this_chunk >= 0` holds, so the probe fails iff the elapsed time is 0, and then with ZeroDivisionError |
| SpeedProbe.ProbeAverage | fedora_best_mirror/main.py:79-81 | the returned average times 1048576 equals the total bytes divided by the elapsed time, and it is not negative |
| SpeedProbe.ProbePeak | fedora_best_mirror/main.py:45-60 | the returned peak is >= 0; scaled back to bytes it is >= every completed window's byte count; it is 0 when no tick completed, and otherwise equals some window's byte count |
| SpeedProbe.TrailingBytesIgnored | fedora_best_mirror/main.py:76-78 | chunks that arrive after the last completed tick leave the peak unchanged; for the same elapsed time, the average does not go down |
| TopUrls.CollectErrorSticks | fedora_best_mirror/main.py:88-92 | once a probe has raised a non-`OSError` exception, later mirrors do not change the outcome |
| TopUrls.GetTopUrls | fedora_best_mirror/main.py:85-94 | the append loop computes `Collect` over the probe outcomes |
| TopUrls.CollectFailsOnlyByFatal | fedora_best_mirror/main.py:88-92 | `get_top_urls` raises iff some probe raised something other than OSError; the exception is the first such probe's, and never OSError |
| TopUrls.CollectKeepsSuccesses | fedora_best_mirror/main.py:86-94 | the returned list holds exactly the mirrors whose probe returned, in input order, each with its own rates; its length is the number of mirrors minus the number of failures |
| TopUrls.ProbeFailsOnlyByZeroTime | fedora_best_mirror/main.py:76-81 | a probe raises something other than OSError iff it streamed with zero elapsed time, and then the exception is ZeroDivisionError |
| TopUrls.GetTopUrlsFailsOnlyByZeroTime | fedora_best_mirror/main.py:85-94 | `get_top_urls` raises iff some download had zero elapsed time, and then with ZeroDivisionError |
| TopUrls.RatesNonNegative | fedora_best_mirror/main.py:81-93 | when every elapsed time is positive, `get_top_urls` returns, and every recorded average and peak is >= 0 |
| Ranking.Truncate | fedora_best_mirror/main.py:121-122 | the result is a prefix of the list; None or 0 keeps the whole list; a positive n keeps min(n, len) entries; a negative n keeps max(len + n, 0) |
| Ranking.SortIsStableSort | fedora_best_mirror/main.py:127 | the sort returns a permutation that is non-increasing in the key; entries with equal keys keep their relative order |
| Ranking.SortByKey | fedora_best_mirror/main.py:127 | the insertion-sort loop computes `InsertionSort`, a permutation of its input that is non-increasing in the key and keeps the order of equal keys |
| Ranking.PeakRankingBreaksTiesByAverage | fedora_best_mirror/main.py:127-131 | after both sorts, the list is a permutation sorted by peak, and mirrors with equal peaks appear in descending average order |
| Ranking.PrintedRows | fedora_best_mirror/main.py:103-107 | `print_stats` succeeds iff every URL contains the release segment; on failure the exception is AssertionError; on success row k holds entry k's chosen rate and its templated URL |
| Ranking.PeakRowsFollowAverageRows | fedora_best_mirror/main.py:127-133 | when the average printout succeeds, so does the peak printout, because both cover the same results |
| Ranking.Rank | fedora_best_mirror/main.py:127-133 | the part after probing fails only with AssertionError; on success the lists are the sort by average and that list sorted by peak, and each printout has one row per entry; RankFailsOnlyOnMissingSegment and RankOrdersResults state when it fails and what the lists are |
| Ranking.BestMirrors | fedora_best_mirror/main.py:120-133 | `_main` (truncate, probe, sort, print, sort, print) computes `Run` |
| Ranking.RankFailsOnlyOnMissingSegment | fedora_best_mirror/main.py:127-133 | ranking fails iff some result's URL lacks the release segment; the exception is AssertionError, and it is already raised by the average printout |
| Ranking.RankOrdersResults | fedora_best_mirror/main.py:127-133 | on success both lists are permutations of the results: the first is a stable descending sort by average, the second descends by peak with ties kept in average order; the printed rows follow the lists rate by rate |
| Ranking.RunRanksSuccessfulMirrors | fedora_best_mirror/main.py:120-133 | collection fails iff some download had zero elapsed time, and then the whole run fails with ZeroDivisionError; otherwise the run ranks exactly the truncated mirrors whose probe did not raise OSError |

## Left out

- The HTTP requests through `niquests` / `AsyncSession`, `raise_for_status` and the making of `OSError` are foreign network calls. A probe's outcome is an input: `ConnectionFailed` stands for an `OSError`.
- `get_mirror_list`'s network fetch and its `assert content is not None`: the response body is a parameter, taken to be a string.
- asyncio task creation, `asyncio.sleep`, `asyncio.timeout` and cancellation are concurrency. Only their observable effect is modelled: the chunk counts at the sampler's start and at each completed tick, all within the chunks the pump received.
- `time.monotonic` is a clock: the elapsed time is a parameter, a real number with no constraint.
- Floating-point arithmetic: rates are Dafny reals. The sampler compares per-tick byte counts and scales the peak by 1048576 at the end, which gives the same comparisons as dividing first, up to float rounding.
- `urlparse` / `urljoin` (main.py:42-43): the model assumes every mirror URL parses. These calls run before any network I/O. For a host with an unbalanced `[` or `]`, such as the line `http://[x/`, they raise `ValueError`. The mirror-list filter keeps such a line, and since `ValueError` is not an `OSError`, it would end `get_top_urls` and the run. No `Trial` stands for it.
- TopUrls.ProbeFailsOnlyByZeroTime: the "only by zero elapsed time" holds for the modelled trials, which leave out the `ValueError` of an unparsable mirror URL (see `urlparse` above).
- TopUrls.GetTopUrlsFailsOnlyByZeroTime: the same restriction; a mirror URL that `urlparse` rejects would also make `get_top_urls` raise.
- Ranking.RunRanksSuccessfulMirrors: the same restriction; a mirror URL that `urlparse` rejects would also end the run, with `ValueError`.
- All printed output, including the `:6.02f` formatting and the stderr error lines. `PrintedRows` returns the rows instead, and when a printout fails partway, the rows printed before the failing one are not recorded.
- `get_fedora_version`, `platform.machine` and `argparse` belong to the environment and the CLI. Version, architecture and `max_mirrors` are parameters, and `--download-timeout` is reflected only in the trials.
- `main`'s `KeyboardInterrupt` handling is an external signal.
- Ranking.SortByKey: `list.sort` sorts in place, while the model returns a new sequence built by a loop. Aliasing of the list is not modelled, because nothing else holds a reference to it.
- Ranking.SortByKey: the source uses Timsort and the model uses an insertion sort. Both are stable descending sorts, and the contracts state what that means: a permutation, non-increasing in the key, with equal keys in input order.
