# RepositoryCollector selection pipeline in Dafny

This project models the selection half of RepositoryCollector, a script that
builds a dataset of public Java repositories. It draws random words from a
word service, searches the code host with each word, keeps the candidates
that pass a fixed suitability filter, and repeats until it has the wanted
number of repository names.

The model is functional. The network is an input:

- the word service is a finite stream of replies, each a list whose first
  element is the word;
- the search service is a function from query word to decoded reply, which
  either lacks an `items` field or lists candidate records.

Modules, leaf first:

- `Results` (`results.dfy`): `Option` and `Result`.
- `AsciiText` (`ascii_text.dfy`): ASCII lower-casing, prefix test and
  substring search, with the search proved equal to "occurs at some position".
- `Suitability` (`suitability.dfy`): the candidate record, `is_suitable_repo`
  and `repo_contain_android`. Each rejection reason is also defined on its
  own (`Rejections`), and the combined filter is proved to accept exactly
  when no reason applies.
- `Search` (`search.dfy`): `find_x_repos_for_text` without the HTTP call.
  It is a loop shaped like the source's, proved equal to "the first `n`
  names of the reference filter `SuitableNames`".
- `WordSource` (`word_source.dfy`): `get_random_word` with its word ledger.
  The retry is bounded by `fuel`.
- `Collector` (`collector.dfy`): the `get_repos` loop. It returns the
  accepted names together with the per-round trace: the words used, what
  each round contributed, and the word-service replies left before each
  round. On failure it returns the trace up to the draw that failed.

Where the code and its documentation disagree, the model follows the code:

- The thresholds are inclusive. Size 2000 and 100 stars pass, although the
  docstring says "over 2000" and "more than 100".
- The accepted years are the two hard-coded prefixes "2021" and "2022", not a
  configurable set.
- A record is not checked for missing fields; the code would fail on one.
  The model's record is typed, so every field is present.
- The collection loop has no "as many as achievable" exit. It stops at the
  quota, or when an exception escapes a round. That happens when fetching a
  word fails, and also when the search request or its decoding fails, or a
  candidate lacks a field. The model keeps only the first of these; see
  "## Left out".

## Model

| member | source | states |
|---|---|---|
| Suitability.IsSuitableRepo | collector.py:115-132 | rejects a private repository, a fork, size below 2000, fewer than 100 stars, an update date not starting with "2021" or "2022", and an Android-looking repository; accepts exactly when none of the six separately defined rejection reasons applies |
| Suitability.RepoContainAndroid | collector.py:135-148 | true exactly when some topic, or the description (a null one read as "None"), contains "android" after lower-casing |
| Suitability.TopicsMentionAndroid | collector.py:141-144 | the early-return scan over topics is true exactly when some topic mentions Android |
| Suitability.InclusiveThresholds | collector.py:128 | for a repository that is public, not a fork, recently updated and free of Android mentions: with at least 100 stars, size 2000 is accepted and 1999 rejected; with size at least 2000, 100 stars are accepted and 99 rejected |
| Suitability.NullDescriptionNeverMatches | collector.py:145 | a missing description, stringified as "None", never counts as mentioning Android |
| Suitability.AndroidInAnyCaseRejected | collector.py:129-148 | a topic or description containing "android" in any letter case makes the repository Android-looking and unsuitable |
| AsciiText.Lower | collector.py:143-145 | lower-casing keeps the length, turns each upper-case letter into the lower-case letter at the same alphabet position, leaves no upper-case letter, changes nothing else, and leaves text with no upper-case letter unchanged |
| AsciiText.LowerIdempotent | collector.py:143-145 | lower-casing twice is the same as lower-casing once |
| AsciiText.ContainsIffOccurs | collector.py:143-145 | the left-to-right substring scan answers true exactly when the needle occurs at some position |
| AsciiText.ContainsAnyCase | collector.py:143-145 | an occurrence of any case variant of the needle is found after lower-casing the text |
| Search.FindXReposForText | collector.py:93-112 | a reply without `items` gives the empty list; otherwise the result is the full names of the first `n` suitable items in response order, never more than `n`, each the name of a suitable item |
| Search.SuitableNamesMembership | collector.py:105-109 | a name passes the filter exactly when some suitable item carries it |
| Search.SuitableNamesConcat | collector.py:105-109 | filtering item by item in order distributes over splitting the item list |
| WordSource.GetRandomWord | collector.py:78-90 | a returned word was not in the ledger, the ledger grows by exactly that word, and it comes from the first reply, within the retry bound, that is not a repeat; a fresh word reached within the bound is always returned; an empty-reply failure happens only when the first non-repeat reply is empty; running out of replies or of retries is reported only after repeats |
| WordSource.OutcomeAfterRepeat | collector.py:86-87 | skipping a reply whose word is already in the ledger and drawing again from the rest gives an outcome that is right for the whole reply stream |
| WordSource.DrawKeepsLedgerDistinct | collector.py:86-89 | a duplicate-free ledger stays duplicate-free after a draw |
| Collector.RoundCap | collector.py:67-69 | the per-round request is the per-word cap or the number still needed, whichever is smaller |
| Collector.GetRepos | collector.py:56-75 | the run is a trace of the loop: each word is what the word source returns for the ledger and replies left by the rounds before it, each round is the capped search result for its word, and the list is the rounds appended in order; on success it has exactly the wanted length, every earlier list is a prefix of it, and the words are distinct and new to the ledger; it fails only when, still short of the quota, the next draw fails, with that draw's error and the partial trace |
| Collector.ExtendDraws | collector.py:66 | one more successful draw from the leftover replies, with the ledger grown by the earlier words, extends the chain of draws |
| Collector.TracesAgree | collector.py:64-71 | two traces of the same inputs agree on their words, rounds and leftover replies up to any common round |
| Collector.TraceDeterminedByInputs | collector.py:56-75 | two traces of the same inputs with the same number of rounds are equal |
| Collector.ShorterRunBelowQuota | collector.py:64 | if a run of the same inputs went on past a trace's rounds, that trace was still below the quota, since the loop only continues below it |
| Collector.SuccessfulTracesEqual | collector.py:56-75 | two runs of the same inputs that both reach the quota are identical, so a successful result is fixed by the inputs |
| Collector.SuccessExcludesFailure | collector.py:64-66 | when some run of the inputs reaches the quota, no run of the same inputs still short of it meets a failing draw, so success and failure cannot both be outcomes |
| Collector.ExtendTrace | collector.py:64-71 | one more round, with the word drawn from the leftover replies and the search capped at min(per-word cap, still needed), extends a trace |
| Collector.FlattenPrefix | collector.py:71 | appending rounds only extends the list: what was collected before a round is a prefix of what is collected after |
| Collector.ExtendRounds | collector.py:67-71 | a round asking for min(per-word cap, still needed) keeps the list within the quota and the per-round rule for all rounds |
| Collector.TwoRoundScenario | collector.py:64-71 | with 5 wanted and 3 per word, a word with 3 suitable results and then one with 4 give all 3 and then the first 2, 5 in total |

## Left out

- `download_repos` and `download_repo` (collector.py:151-175): streaming download and zip extraction to disk, with a catch-all error print. This is all I/O.
- `time.sleep` rate limiting (collector.py:111, 175), and the timing and printing in `main` and `get_repos` (collector.py:21-32, 72-74). These are side effects. The round counter `count` only feeds a print; it equals the number of rounds in the trace.
- `read_config_file` (collector.py:35-53): configuration parsing. Its two numeric settings are the `Config` parameter, and the word ledger is an explicit parameter instead of a global list.
- The HTTP requests and JSON decoding (collector.py:83, 101-102). They are replaced by the reply stream and the search function.
- GetRepos: a search request or decoding that fails, or a candidate missing a field (a `KeyError` at collector.py:108, 128, 141 or 145), raises out of `find_x_repos_for_text` and aborts the source's run. The model's search function is total and its records are typed, so such an abort cannot happen in the model; only a failing word draw ends a run early.
- Full Unicode `str.lower()` and `str()` of arbitrary values. Lower-casing is ASCII only, topics are strings, and the description is an optional string.
- GetRandomWord: the source's retry is a recursive call with no bound of its own. Python's recursion limit (1000 frames by default) stops it with a `RecursionError` after about a thousand repeats in a row. The model stands for that limit with `fuel`: at most `fuel` requests per draw, then a `RetriesExhausted` failure. An empty reply, which makes the source raise an index error, is the `EmptyReply` failure.
- GetRepos: the source loops forever when searches keep returning nothing. Because the reply stream is finite, the model ends such a run with a word failure once the replies run out. The contract says nothing about how many rounds a run takes.
