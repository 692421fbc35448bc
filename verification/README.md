# cex-dex-tracker core in Dafny

This project models the two pieces of logic in the cex-dex-tracker scripts that make decisions.

1. **Listing reconciliation** (`listings_check.py`, `main`). Each listing snapshot maps an exchange to its symbols. A run loads a baseline snapshot, a current snapshot and the event log. It then:
   - stamps the log's "last updated" sentinel record with the run's time, or inserts a stamped copy of `DUMMY_ENTRY` at the front when the log has none;
   - appends one "listed" record for each (exchange, symbol) pair that is new in the current snapshot, in sorted order;
   - appends one "delisted" record for each pair that has gone, also in sorted order.
2. **Perpetuals data files** (`perps_data_fetcher.py`). This part covers:
   - exchange-name sanitising;
   - choosing the per-exchange JSON file to append into: the largest `_<NNNNN>` suffix, rotated to the next suffix once the file reaches 3 MB;
   - the rows appended to that file;
   - the per-exchange index of file names, which stays duplicate-free when it starts so;
   - the combined daily summary;
   - the case-insensitive selection of an exchange's tickers from the API response.

Modules:
- `Wrappers`: `Option`.
- `Ordering`: Python's ordering of strings and of `(str, str)` tuples, and `sorted` on a set of pairs.
- `Decimal`: `str.isdigit`, `int()` on digit strings, and `f"{n:05}"`.
- `Listings`: the reconciliation.
- `Perps`: the data-file logic.

The event log is local to a run: it is loaded, changed and saved. So it is modelled as a value passed in and returned. `Listings.Reconcile` is proved equal to the specification `Listings.RunLog`, and the properties of a run are lemmas about `RunLog`. The clock reading, the directory listing, the size of the current file and every loaded JSON document are parameters.

Where the system's design description (which describes a later variant of these scripts) or a docstring disagrees with the code, the model follows the code:
- **No de-duplication.** The design description speaks of suppressing events already reported against a last-known state. The code has no such step: every run re-emits every difference between the two snapshots (`Listings.RerunAppendsAgain`).
- **The sentinel is not always at index 0.** The design description says the sentinel is kept at index 0. The code stamps the first "last updated" record wherever it is. Only a freshly inserted sentinel goes to index 0 (`Listings.SentinelStamped`).
- **Only the first sentinel is stamped.** When the log holds several "last updated" records, only the first is stamped. A log with at most one sentinel leaves a run with exactly one (`Listings.SoleSentinel`).
- **The daily summary is appended, not upserted.** Running twice on one day gives two records for the same date and market (`Perps.DailyCombinedRepeats`).
- **Rotation happens at exactly the limit.** The docstring of `rotate_json_if_needed` says a file rotates when it is over 3 MB; the code rotates once its size is at least 3 MB (`Perps.RotatedSuffix`).

## Model

| member | source | states |
|---|---|---|
| Listings.Flatten | listings_check.py:59-60 | a pair is in the flattened set exactly when its exchange is a key of the snapshot and its symbol is in that exchange's list |
| Listings.Added | listings_check.py:63 | a pair is new exactly when the current snapshot lists it and the baseline does not |
| Listings.Removed | listings_check.py:72 | a pair has gone exactly when the baseline lists it and the current snapshot does not |
| Listings.FirstSentinel | listings_check.py:46-51 | the scan finds no sentinel exactly when no entry's action is "last updated"; otherwise it gives a valid index of one, and no earlier entry is one |
| Listings.Touched | listings_check.py:45-55 | with a sentinel present the log keeps its length; without one it grows by one, with `{now, "NA", "NA", "last updated"}` first |
| Listings.Transitions | listings_check.py:63-78 | one record per pair, in order, each with the given action and `date = now`, and carrying back exactly its (exchange, symbol) pair |
| Listings.RunLog | listings_check.py:45-78 | the saved log has the updated log's length plus one record per added and per removed pair |
| Listings.TouchSentinel | listings_check.py:45-55 | the loop with the `found` flag and `break` produces exactly `Touched`: the first sentinel stamped, or a stamped dummy inserted in front |
| Listings.SentinelUpdatedInPlace | listings_check.py:46-51 | when entry i is the first sentinel, the length is unchanged, entry i gets `date = now`, and every other entry is untouched |
| Listings.SentinelInsertedAtFront | listings_check.py:52-55 | with no sentinel in the log, the result is a stamped copy of `DUMMY_ENTRY` (listings_check.py lines 9-14), `{date: now, symbol: "NA", name: "NA", action: "last updated"}` followed by the whole old log |
| Listings.TouchedStampsSentinel | listings_check.py:45-55 | after the update step, the first sentinel is at the stamped index and carries `now` |
| Listings.TouchedPreserves | listings_check.py:45-55 | the update step shifts old entries by 0 or 1; each old entry survives equal except for its date, and only the first sentinel can differ |
| Listings.AppendTransitions | listings_check.py:63-78 | the `for … in sorted(pairs): log.append(...)` loop appends one record per pair, in sorted order, after the given log |
| Listings.Reconcile | listings_check.py:45-78 | the body of `main` produces exactly `RunLog(log, current − baseline, baseline − current, now)` |
| Listings.RunLayout | listings_check.py:63-78 | a saved log is the updated old log, then the "listed" records in order, then the "delisted" records in order |
| Listings.SentinelStamped | listings_check.py:45-78 | after a whole run, the first "last updated" record is where the first old one was (index 0 if there was none) and carries `now` |
| Listings.SoleSentinel | listings_check.py:45-55 | when the log holds at most one "last updated" record, the stamped sentinel is the only one after the run |
| Listings.OldEntriesPreserved | listings_check.py:46-78 | every pre-existing entry survives in order, possibly shifted by one; only the first sentinel's date may change; the log only grows |
| Listings.ListedRecords | listings_check.py:59-69 | right after the updated log come exactly \|current − baseline\| "listed" records, dated `now`; each carries a pair from the set, every pair of the set appears, and they are strictly ascending |
| Listings.DelistedRecords | listings_check.py:72-78 | after the "listed" records come exactly \|baseline − current\| "delisted" records up to the end of the log, with the same properties |
| Listings.SameListingsOnlyStamp | listings_check.py:59-78 | when both snapshots flatten to the same pairs, the run appends nothing and only stamps the sentinel |
| Listings.RerunAppendsAgain | listings_check.py:59-78 | a second run over the same differences appends all \|added\| + \|removed\| records again (no de-duplication) |
| Listings.NewListingsDiff | listings_check.py:59-60 | baseline {A: [X]} and current {A: [X, Y], B: [Z]} give the new pairs {(A, Y), (B, Z)} and no vanished pairs |
| Listings.NewListingsExample | listings_check.py:63-69 | for those pairs the saved log ends with "listed" records for (A, Y) and then (B, Z) |
| Listings.DelistingDiff | listings_check.py:59-60 | baseline {A: [X, Y]} and current {A: [X]} give only the vanished pair (A, Y) |
| Listings.DelistingExample | listings_check.py:72-78 | for that pair the saved log ends with one "delisted" record for (A, Y) |
| Ordering.SortedPairs | listings_check.py:63 | `sorted` of a set of pairs holds each element once, has the set's size, and is strictly ascending in Python tuple order |
| Ordering.AscendingUnique | listings_check.py:63 | two strictly ascending sequences with the same elements are equal, so the sorted order is determined |
| Ordering.StrLessTotal | listings_check.py:63 | Python string comparison is total: two distinct strings are ordered one way or the other |
| Ordering.StrLessTransitive | listings_check.py:63 | Python string comparison is transitive |
| Ordering.PairLessTransitive | listings_check.py:63 | tuple comparison of (exchange, symbol) is transitive |
| Decimal.IsDigits | perps_data_fetcher.py:74 | `isdigit()` on ASCII text: non-empty and every character in '0'..'9' |
| Decimal.ParseDigitsBound | perps_data_fetcher.py:75 | `int()` of k digits is below 10^k, and one digit reads as its own value |
| Decimal.ToDigits | perps_data_fetcher.py:77 | the decimal rendering of n is a non-empty digit string that `int()` reads back as n |
| Decimal.ParseLeadingZeros | perps_data_fetcher.py:75 | `int()` ignores leading zeros |
| Decimal.ZeroPad | perps_data_fetcher.py:77 | `f"{n:0w}"` is a digit string of length max(w, number of digits of n) that `int()` reads back as n |
| Decimal.FiveDigitsSuffice | perps_data_fetcher.py:77 | numbers below 100000 need at most five digits |
| Perps.Replace | perps_data_fetcher.py:18 | `replace` of one character keeps the length and changes exactly the occurrences of that character |
| Perps.Sanitize | perps_data_fetcher.py:17-18 | `sanitize` keeps the length, turns each space, '(', ')' and '-' into '_', and leaves every other character alone |
| Perps.SanitizeIsClean | perps_data_fetcher.py:17-18 | the output of `sanitize` contains none of space, '(', ')' or '-' |
| Perps.SanitizeIdempotent | perps_data_fetcher.py:17-18 | sanitising twice equals sanitising once |
| Perps.Lower | perps_data_fetcher.py:91 | `lower()` keeps the length and lowercases each character |
| Perps.LastIndexOf | perps_data_fetcher.py:73 | the position `rsplit("_", 1)` splits at: the last occurrence of the character, or none when it does not occur |
| Perps.RSplitOnceRejoins | perps_data_fetcher.py:73 | `rsplit(sep, 1)` gives the whole text when `sep` does not occur, and otherwise two parts that rejoin around `sep`, the second free of `sep` |
| Perps.Join | perps_data_fetcher.py:77 | `os.path.join(folder, name)` ends with `name`, and starts with `folder` unless `name` is absolute |
| Perps.Basename | perps_data_fetcher.py:130-131 | `os.path.basename(path)` is a '/'-free tail of the path, right after a '/' when shorter than the path |
| Perps.BasenameOfJoin | perps_data_fetcher.py:130-131 | the basename of `folder` joined with a non-empty name without '/' is that name |
| Perps.SuffixOf | perps_data_fetcher.py:72-75 | an entry yields a suffix only when it starts with the base name and ends with ".json" |
| Perps.SuffixOfDigits | perps_data_fetcher.py:72-75 | an entry that starts with the base name and reads `<pre>_<digits>.json`, with non-empty digits, is counted with `int` of those digits |
| Perps.SuffixOfCounted | perps_data_fetcher.py:72-75 | conversely, a counted entry starts with the base name, reads `<pre>_<digits>.json` with non-empty digits, and contributes `int` of those digits |
| Perps.Existing | perps_data_fetcher.py:70-75 | the `existing` list holds exactly the suffixes of the directory entries that start with the base name, end with ".json" and have digits after their last '_' |
| Perps.ExistingSnoc | perps_data_fetcher.py:71-75 | listing one more entry extends `existing` by that entry's suffix, if it has one, after the others |
| Perps.Max | perps_data_fetcher.py:76 | `max` of a non-empty list is an element of it and at least every element |
| Perps.CurrentSuffix | perps_data_fetcher.py:70-76 | the chosen suffix is 1 when no entry counts; otherwise it is the suffix of some counted entry and at least every counted suffix |
| Perps.CurrentJsonPath | perps_data_fetcher.py:66-77 | the path ends with `<base>_<suffix:05>.json` for the chosen suffix, a name the scan reads back as that suffix |
| Perps.JsonNameRoundTrip | perps_data_fetcher.py:72-77 | a file named `<base>_<suffix:05>.json` is counted by the scan with exactly that suffix |
| Perps.NewFileBecomesCurrent | perps_data_fetcher.py:66-77 | after a file with a suffix at least the current one is added to the folder, the scan picks that suffix |
| Perps.IndexFileNeverCounted | perps_data_fetcher.py:71-75 | `combined_<base>.json`, which shares the folder, is never counted as a data file, whatever the base name |
| Perps.RotatedSuffix | perps_data_fetcher.py:84-86 | the suffix is the current one or one more, and one more exactly when the file exists with size ≥ 3·1024·1024 |
| Perps.RotateJsonIfNeeded | perps_data_fetcher.py:79-88 | the path ends with the file name for the rotated suffix |
| Perps.RotationRule | perps_data_fetcher.py:83-88 | if the current file exists with size ≥ 3·1024·1024 bytes, the path moves to suffix + 1; otherwise the current path is returned unchanged |
| Perps.RotatedFileIsNextCurrent | perps_data_fetcher.py:79-88 | once the file chosen by rotation exists, the next scan of the folder picks it as current |
| Perps.RotateAsWritten | perps_data_fetcher.py:83-88 | as written: a file below the limit (or missing) keeps the current path; a full one is renamed from the five characters before ".json" |
| Perps.RotateAsWrittenBelowLimit | perps_data_fetcher.py:86 | while the current suffix is below 100000, re-reading it from `path[-10:-5]` gives the intended rotation |
| Perps.RotateAsWrittenWrapsAt100000 | perps_data_fetcher.py:86-87 | with `<base>_100000.json` full, the code as written picks suffix 1 while the intended rule picks 100001 |
| Perps.WrapRepeats | perps_data_fetcher.py:71-87 | once `<base>_00001.json` sits beside `<base>_100000.json`, the scan still picks 100000, so every later full run is sent to `<base>_00001.json` again |
| Perps.Coerce | perps_data_fetcher.py:108-115 | a numeric field becomes its value; a missing, null, empty or unparseable field becomes 0 |
| Perps.RowOf | perps_data_fetcher.py:105-121 | the row has `date = unix_date`, the ticker's symbol (or "" when absent), and each numeric field's value (or 0) |
| Perps.RowsOf | perps_data_fetcher.py:104-122 | one row per ticker, each dated `unix_date` and carrying that ticker's coerced volume |
| Perps.AppendRows | perps_data_fetcher.py:104-122 | the ticker loop yields the loaded rows followed by one row per ticker, in order |
| Perps.RowsLayout | perps_data_fetcher.py:100-122 | the saved rows keep the earlier list (or [] when it was not a list) as a prefix, then hold exactly one row per ticker, each dated `unix_date` |
| Perps.AddToIndex | perps_data_fetcher.py:129-132 | the index update contains the file name, keeps the old index as a prefix, adds at most that one name, and keeps a duplicate-free index duplicate-free |
| Perps.AddToIndexIdempotent | perps_data_fetcher.py:129-132 | repeating the index update is a no-op |
| Perps.SafeName | perps_data_fetcher.py:91 | the exchange's folder and base name keep its length, are lowercased, and have each separator replaced by '_' |
| Perps.ExchangeFolder | perps_data_fetcher.py:92 | the folder ends with the safe name and, for a relative name, lies under `data/perps/` |
| Perps.IndexPath | perps_data_fetcher.py:128 | the index path lies in the exchange's folder and ends with `/combined_<base>.json` |
| Perps.SaveExchangeData | perps_data_fetcher.py:90-132 | writes the rotated path of `data/perps/<sanitize(lower(exchange))>`, the loaded rows plus one row per ticker, and the index updated with the file's basename at `combined_<base>.json` |
| Perps.UpdateDailyCombined | perps_data_fetcher.py:134-142 | appends exactly one record `{date, market: sanitize(exchange), sum_volume_24h}` and keeps every earlier record |
| Perps.DailyCombinedStaysClean | perps_data_fetcher.py:139 | if every market in the summary is free of separator characters, it stays so after an update |
| Perps.DailyCombinedRepeats | perps_data_fetcher.py:136-142 | two updates for the same day and exchange leave two records with that date and market |
| Perps.MarketMatches | perps_data_fetcher.py:165 | the market (missing counts as "") and the exchange name have the same length and agree character by character after lowercasing |
| Perps.SelectTickers | perps_data_fetcher.py:165 | keeps exactly the tickers whose lowercased market (missing counts as "") equals the lowercased exchange name |
| Perps.SelectTickersAppend | perps_data_fetcher.py:165 | the selection keeps the original order: selecting from a concatenation concatenates the selections |
| Perps.SelectTickersCounts | perps_data_fetcher.py:165 | each matching ticker is kept as often as it occurs, and a non-matching one never |

## Findings

| source | as written | input that shows it | evidently intended | confidence | as-written member | corrected member |
|---|---|---|---|---|---|---|
| perps_data_fetcher.py:86 | the rotated suffix is re-read as `int(path[-10:-5]) + 1`, the five characters before ".json" | the folder holds only `<base>_100000.json` and it is full: the slice reads "00000", so the next file is `<base>_00001.json` instead of `<base>_100001.json`; the next scan still picks 100000, so every later full run goes to `<base>_00001.json` again | the current suffix plus one, as the docstring and the name rotation promise | not executed | Perps.RotateAsWritten (counterexample: Perps.RotateAsWrittenWrapsAt100000, Perps.WrapRepeats) | Perps.RotateJsonIfNeeded (property: Perps.RotatedFileIsNextCurrent) |

The rest of the model, `Perps.SaveExchangeData` included, uses the corrected `Perps.RotateJsonIfNeeded`. `Perps.RotateAsWrittenBelowLimit` shows that the two agree while suffixes stay below 100000.

## Left out

- HTTP fetching with its retry and sleep loop (`fetch_derivatives_data`, perps_data_fetcher.py:43-64): network I/O and wall-clock waits. The API response is a parameter.
- File and environment access (`load_json`, `save_json`, `load_log`, `save_log`, `ensure_dir`, `os.listdir`, `os.path.getsize`, `os.path.exists`, the API key from the environment): the listing, the size and the loaded documents are parameters. A missing file is `None` or `Missing`. A non-list rows document is `OtherDoc`.
- `get_unix_now_utc`: the time is a parameter.
- `print` status output.
- The drivers in both `main` functions: the early exits on a missing key, list or response, and the loop over exchanges that calls `save_exchange_data` and `update_daily_combined`. They only sequence I/O around the modelled operations.
- The `sum_volume` accumulation (perps_data_fetcher.py:172-178): it is floating-point arithmetic. `UpdateDailyCombined` takes the sum as a parameter.
- Perps.Coerce: does not model `float()` parsing of strings or floating-point rounding. A field is either a real value or not numeric, and not numeric gives 0.
- Perps.RowOf: a `symbol` key that is present but null is not told apart from a missing one; both give "".
- Perps.MarketMatches: a `market` key that is present but null is not modelled; `Ticker.market` is None only for a missing key. In the source, `item.get("market", "")` then returns None and `.lower()` raises, which ends the run.
- Perps.Lower: handles ASCII letters only, not Unicode case mapping.
- Decimal.IsDigits: accepts ASCII digits only, while `str.isdigit` also accepts other Unicode digits. Some of those, such as superscript '²', pass `isdigit()` but make `int()` raise ValueError (perps_data_fetcher.py:75), which ends the scan in the source; the model skips such names.
- JSON shapes other than the modelled ones are not represented: log entries without an `action` key or with extra keys, snapshot values that are not lists, and an index file that is not a list.
- Paths are POSIX paths. Windows `os.path` rules are not modelled.
- `Listings.Entry` holds only the four keys of `DUMMY_ENTRY`. A stamped entry keeps its other fields, which the model has none of.
