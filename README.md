# Log analysis for policy deployments, modelled in Dafny

This project models the analysis core of a small set of Python log-analysis
scripts:

- `advanced_log_analysis.py` has three analysis functions, modelled here:
  - `filter_logs` keeps the records whose level and component are in two given sets.
  - `count_error_patterns` counts the records whose message matches each pattern, ignoring case.
  - `correlate_policy_deployment_failures` pairs every failed policy deployment with the ERROR records among the five entries before it.
- `log_analysis.py`, `improved_log_analysis.py` and `simple_log_analysis.py` read a CSV file the same way.
  - They keep the `POLICY_DEPLOYMENT` rows and copy five columns of each into a deployment record.
  - They split the deployments by status (SUCCESS, FAILED and, in two of them, PENDING) and compute counts and rates.
  - `improved_log_analysis.py` adds per-policy and per-device counters, the five most common ids, success rates by id, and a three-way failure-reason classifier.
- `ip_analyzer.py` has three analysis functions, modelled here:
  - `extract_ip_addresses` collects every address that the pattern `client\s+(\d{1,3}\.\d{1,3}\.\d{1,3}\.\d{1,3})#` finds, line by line.
  - `count_ip_occurrences` counts each address.
  - `find_duplicate_ips` keeps the addresses that occur more than once.

How the model is organised:

- Records are `map<string, string>`.
- `log.get(field)` is `Records.Get`, which returns an `Option`.
- `row[field]` on a missing column is the `KeyError` the scripts' generic handlers catch. It is the `MissingField` case of `Deployments.Read`.
- The scripts' loops are Dafny methods with loop invariants. Each one is proved against a recursive specification function, such as `ExtractDeployments`, `WithStatus`, `Correlations` or `AllIps`.
- The list comprehension of `filter_logs` is modelled directly as the recursive function `FilterLogs`.
- Lemmas then say what these functions mean: subsequence and multiset exactness, index windows, and counts.
- The regular expression of `ip_analyzer.py` is matched by a hand-written matcher, `IpAnalyzer.MatchAt`. It is proved equal to a declarative reading of the pattern, `IpAnalyzer.MatchesWith`, in both directions.
- Percentages are kept as the integer pair (numerator, denominator), written `Deployments.Rate`.

Files: `records.dfy`, `text.dfy` and `sequences.dfy` hold shared helpers. `deployments.dfy` holds what the three deployment scripts share. Each remaining file holds one script.

The model keeps these details of what the code does:

- `count_error_patterns` returns a `defaultdict`. A pattern that never matches has no key; it is not stored as a zero.
- A pattern listed twice is tested twice per record, so its count is the number of matches times the number of listings.
- The correlator's window is the constant 5. It is not a parameter.
- A deployment row without one of the columns it reads is not skipped. The `KeyError` ends the whole loop. `log_analysis.py` and `improved_log_analysis.py` then return `None`. `simple_log_analysis.py` prints an error and no summary.
- With no deployments, `simple_log_analysis.py` divides by zero on the first percentage line. Its generic handler catches that, so no percentages are shown. This is the `ZeroDivision` outcome of `SimpleLogAnalysis.AnalyzeDeployments`.

## Model

| member | source | states |
|---|---|---|
| AdvancedLogAnalysis.FilterLogsExact | Log-Analysis-for-Deployment/advanced_log_analysis.py:23-27 | The filtered list is a subsequence of the input (order kept). Each record's multiplicity is its input multiplicity if its level and component are both in their sets, and 0 otherwise. |
| AdvancedLogAnalysis.MissingFieldNeverSelected | Log-Analysis-for-Deployment/advanced_log_analysis.py:26 | A record without a `log_level` or `component` column is never in the filtered list. |
| AdvancedLogAnalysis.CountErrorPatterns | Log-Analysis-for-Deployment/advanced_log_analysis.py:29-36 | A pattern has a key exactly when it is listed and some message matches it. Its count is (matching records) × (times listed). For a list without repeats, each count equals the number of matching records and is at most the number of records. |
| AdvancedLogAnalysis.MatchCountIsCardinality | Log-Analysis-for-Deployment/advanced_log_analysis.py:31-35 | The per-pattern match count is the size of the set of indices whose message, or `''` when the column is missing, contains the pattern ignoring case. |
| AdvancedLogAnalysis.MatchCountBound | Log-Analysis-for-Deployment/advanced_log_analysis.py:31-35 | A pattern's match count never exceeds the number of records. |
| AdvancedLogAnalysis.TallyIsProduct | Log-Analysis-for-Deployment/advanced_log_analysis.py:31-35 | After the first n records, the counter for p holds (matches among them) × (times p is listed). |
| AdvancedLogAnalysis.CorrelatePolicyDeploymentFailures | Log-Analysis-for-Deployment/advanced_log_analysis.py:38-53 | The nested loops build exactly `Correlations(logs, |logs|)`: for each failed policy deployment, in order, the failure and the ERROR records of indices max(0, i-5) .. i-1. |
| AdvancedLogAnalysis.CorrelationsExact | Log-Analysis-for-Deployment/advanced_log_analysis.py:41-52 | There is one entry per index holding a failed POLICY_DEPLOYMENT, in ascending index order. The k-th entry is the one built for the k-th such index. |
| AdvancedLogAnalysis.ErrorsBetweenPositions | Log-Analysis-for-Deployment/advanced_log_analysis.py:45-48 | The preceding errors are the records at the ERROR positions of the window, in ascending position order. Positions hold only in-window ERROR indices; `PositionsComplete` gives that they hold all of them. |
| AdvancedLogAnalysis.PositionsComplete | Log-Analysis-for-Deployment/advanced_log_analysis.py:46-47 | Every ERROR index of the window is reported, and the window yields at most hi - lo positions. |
| AdvancedLogAnalysis.WindowBound | Log-Analysis-for-Deployment/advanced_log_analysis.py:46 | A failure at index i has at most min(5, i) preceding errors. A failure at index 0 has none. |
| AdvancedLogAnalysis.OverlapReportedTwice | Log-Analysis-for-Deployment/advanced_log_analysis.py:41-52 | An ERROR record inside the windows of two failures is reported for both; windows are not deduplicated. |
| AdvancedLogAnalysis.SevenRecordScenario | Log-Analysis-for-Deployment/advanced_log_analysis.py:38-53 | Seven records with ERROR records at 2 and 4 and one failure at 5 give exactly one entry: that failure with the records at 2 and 4, in that order. |
| Text.ContainsAt | Log-Analysis-for-Deployment/improved_log_analysis.py:106-109 | Python's substring test holds exactly when the needle occurs at some offset of the text. |
| Text.IgnoreCaseAt | Log-Analysis-for-Deployment/advanced_log_analysis.py:34 | A case-insensitive search for a literal pattern succeeds exactly when some offset of the message agrees with the pattern character by character, up to case. |
| Deployments.DeploymentOf | Log-Analysis-for-Deployment/improved_log_analysis.py:34-40 | The deployment record exists exactly when all five columns are present, and it copies them unchanged. Otherwise the error names the first missing column in reading order. |
| Deployments.ExtractErrorPersists | Log-Analysis-for-Deployment/improved_log_analysis.py:31-40 | Once a row raises `KeyError`, the loop's outcome is that error, whatever rows follow. |
| Deployments.ErrorNamesFirstUnreadable | Log-Analysis-for-Deployment/improved_log_analysis.py:31-40 | A failed extraction names the column missing from the first unreadable row: `event_type` if that row lacks it, otherwise the first of the five deployment columns, in reading order, that it lacks. |
| Deployments.ExtractDeploymentsExact | Log-Analysis-for-Deployment/improved_log_analysis.py:31-42 | The loop succeeds exactly when every row has `event_type` and every POLICY_DEPLOYMENT row has the five columns. It then yields one deployment per POLICY_DEPLOYMENT row, in file order, copied from that row. |
| Deployments.PolicyRowsExact | Log-Analysis-for-Deployment/improved_log_analysis.py:33 | The kept rows are a subsequence of the input holding exactly the POLICY_DEPLOYMENT rows, with their multiplicities. |
| Deployments.WithStatusExact | Log-Analysis-for-Deployment/improved_log_analysis.py:44-50 | Each status list is a subsequence of the deployments and holds exactly those with that status, with their multiplicities. |
| Deployments.BucketsDisjoint | Log-Analysis-for-Deployment/improved_log_analysis.py:44-50 | The SUCCESS, FAILED and PENDING lists together are a sub-multiset of the deployments. No deployment is in two of them, and their lengths add up to at most the total. |
| Deployments.TwoBucketsDisjoint | Log-Analysis-for-Deployment/log_analysis.py:43-47 | The same as the row above, for the two lists of `log_analysis.py`. |
| LogAnalysis.AnalyzePolicyDeployments | Log-Analysis-for-Deployment/log_analysis.py:20-67 | Returns `None` exactly when a row raises `KeyError`. Otherwise the lists are the extracted deployments and their SUCCESS and FAILED sublists, the counts are their lengths, successes + failures <= total, and the rate is successes / total, or 0 when there are no deployments. |
| ImprovedLogAnalysis.AnalyzePolicyDeployments | Log-Analysis-for-Deployment/improved_log_analysis.py:20-76 | As the row above, adding the PENDING list and count. Completed = successes + failures, the three counts add up to at most the total, and the rate is successes / completed, or 0 when nothing completed. |
| ImprovedLogAnalysis.TallyPositive | Log-Analysis-for-Deployment/improved_log_analysis.py:91-97 | An id has a positive deployment count exactly when it occurs among the deployments. |
| ImprovedLogAnalysis.SuccessTallyBound | Log-Analysis-for-Deployment/improved_log_analysis.py:91-101 | An id's success count never exceeds its deployment count, so every rate is at most 100%. |
| ImprovedLogAnalysis.TallyStep | Log-Analysis-for-Deployment/improved_log_analysis.py:95-101 | One `counter[id] += 1` keeps the counter equal to the tally of the prefix read so far, with a key only for a positive count. |
| ImprovedLogAnalysis.TalliesIsIdCounts | Log-Analysis-for-Deployment/improved_log_analysis.py:84-101 | A finished counter is the map from each occurring id to its number of deployments. |
| ImprovedLogAnalysis.CountDeployments | Log-Analysis-for-Deployment/improved_log_analysis.py:84-101 | After the loop, the four counters are the tallies of all deployments and of successful ones, by policy and by device. |
| ImprovedLogAnalysis.MaxKey | Log-Analysis-for-Deployment/improved_log_analysis.py:114-115 | Returns a candidate whose count is at least every other candidate's. |
| ImprovedLogAnalysis.SelectingStep | Log-Analysis-for-Deployment/improved_log_analysis.py:114-115 | Taking a remaining id with the largest count keeps the selection in non-increasing order and dominant over the rest. |
| ImprovedLogAnalysis.SelectingDone | Log-Analysis-for-Deployment/improved_log_analysis.py:114-115 | A finished selection is a valid `most_common(n)` answer. |
| ImprovedLogAnalysis.MostCommon | Log-Analysis-for-Deployment/improved_log_analysis.py:114-115 | `most_common(n)` returns min(n, keys) distinct entries with their counts, in non-increasing count order. No left-out key has a larger count than a reported one. |
| ImprovedLogAnalysis.ReasonCountsSum | Log-Analysis-for-Deployment/improved_log_analysis.py:103-112 | Every failure gets exactly one of the three reasons, so the three reason counts add up to the number of failures. |
| ImprovedLogAnalysis.ReasonCountStep | Log-Analysis-for-Deployment/improved_log_analysis.py:104-112 | One more failure adds one to its own reason's count and nothing to the others. |
| ImprovedLogAnalysis.ReasonStep | Log-Analysis-for-Deployment/improved_log_analysis.py:104-112 | One classifier iteration keeps the reason counter equal to the prefix's reason counts. Keys stay among the three reasons, with positive counts. |
| ImprovedLogAnalysis.CountFailureReasons | Log-Analysis-for-Deployment/improved_log_analysis.py:103-112 | The reason counter holds, for every reason, the number of failures the first-match classifier ('Invalid rule syntax', then 'Connection timed out', else 'Other') gives it. Its keys are among the three reasons, with positive counts. |
| ImprovedLogAnalysis.SuccessRatesExact | Log-Analysis-for-Deployment/improved_log_analysis.py:116-119 | Rates are defined for exactly the occurring ids, never divide by zero, and are (successes of id) / (deployments of id). |
| ImprovedLogAnalysis.ReportIds | Log-Analysis-for-Deployment/improved_log_analysis.py:114-119 | One kind's top-5 list and rate map meet `ReportsIds`: a valid `most_common(5)` of the id counts, and exact per-id rates. |
| ImprovedLogAnalysis.AnalyzeDeploymentPatterns | Log-Analysis-for-Deployment/improved_log_analysis.py:78-121 | `None` in gives `None` out. Otherwise the top policies and devices, both rate maps, and the failure-reason counter all meet the properties above, over the deployments and failures in the results. |
| ImprovedLogAnalysis.ReasonsCoverFailures | Log-Analysis-for-Deployment/improved_log_analysis.py:103-112 | On results built by `analyze_policy_deployments`, the three reason counts add up to `failed_deployments`. |
| SimpleLogAnalysis.AnalyzeDeployments | Log-Analysis-for-Deployment/simple_log_analysis.py:27-67 | A `KeyError` (caught at lines 94-95) happens exactly when a row lacks a column it reads. It names the column that `Deployments.ErrorNamesFirstUnreadable` identifies. Zero deployments divide by zero at line 65, and the same handler catches it. Otherwise: the deployments are the extracted rows, the three lists are their SUCCESS, FAILED and PENDING sublists, the lengths add up to at most the total, and each percentage is its count over the total. |
| IpAnalyzer.SpaceRunMaximal | ip_analyzer.py:39 | `\s+` takes the whole run of white space: the run is all white space and is followed by a non-space or the end. |
| IpAnalyzer.DigitRunMaximal | ip_analyzer.py:39 | The run of digits is all digits and is followed by a non-digit or the end. |
| IpAnalyzer.GroupsEndSound | ip_analyzer.py:39 | What the group scanner accepts is n dot-separated groups of one to three digits. |
| IpAnalyzer.GroupsEndComplete | ip_analyzer.py:39 | Any n dot-separated groups of one to three digits that are not followed by a digit are accepted, ending at their end. |
| IpAnalyzer.GroupsChars | ip_analyzer.py:39 | An address starts with a digit and holds only digits and dots. |
| IpAnalyzer.MatchAtSound | ip_analyzer.py:39 | Whatever the matcher reports is a match of `client\s+(\d{1,3}\.\d{1,3}\.\d{1,3}\.\d{1,3})#` with that captured address. |
| IpAnalyzer.MatchAtComplete | ip_analyzer.py:39 | Every match of the pattern at a position is what the matcher reports there: the same address and end. |
| IpAnalyzer.OctetsNotRangeChecked | ip_analyzer.py:39 | `client 999.999.999.999#` is matched and captures `999.999.999.999`. Octet values are not range-checked. |
| IpAnalyzer.NoMatchInside | ip_analyzer.py:39-45 | No match starts strictly inside another, so matches never overlap. |
| IpAnalyzer.FindAllIsIpsFrom | ip_analyzer.py:45 | `re.findall` lists, left to right, the address of every position where the pattern matches. Resuming after each match skips none. |
| IpAnalyzer.IpsFromNoMatch | ip_analyzer.py:44-46 | A line where the pattern matches nowhere contributes nothing. |
| IpAnalyzer.IpsFromHasMatch | ip_analyzer.py:45 | Every match in a line contributes its address. |
| IpAnalyzer.IpsFromAreAddresses | ip_analyzer.py:45 | Everything reported for a line is four dot-separated groups of one to three digits. |
| IpAnalyzer.ExtractIpAddresses | ip_analyzer.py:30-49 | The loop returns exactly `AllIps(lines)`: the `findall` results of the lines, concatenated in line order. |
| IpAnalyzer.AllIpsConcat | ip_analyzer.py:44-46 | The result for a file is the result for its first part followed by the result for the rest. |
| IpAnalyzer.AllIpsAreAddresses | ip_analyzer.py:39-49 | Every extracted entry is four dot-separated groups of one to three digits. |
| IpAnalyzer.CountIps | ip_analyzer.py:60 | `Counter(ip_list)` has a key exactly for each address in the list, and its count is that address's number of occurrences. An empty list gives an empty map. |
| IpAnalyzer.DistinctExact | ip_analyzer.py:60 | The counter's keys are exactly the addresses of the list, with no repeats. |
| IpAnalyzer.DistinctOrder | ip_analyzer.py:60 | The counter's keys come in first-occurrence order: a key listed earlier first occurs earlier in the list. |
| IpAnalyzer.CountsSumToLength | ip_analyzer.py:60 | The counts add up to the length of the list. |
| IpAnalyzer.FindDuplicates | ip_analyzer.py:74 | An entry is kept exactly when its count is above 1, and its count is unchanged. |
| IpAnalyzer.TwiceIffCount | ip_analyzer.py:74 | An address occurs at two different places of the list exactly when its count is at least 2. |
| IpAnalyzer.DuplicatesAreRepeats | ip_analyzer.py:66-77 | The duplicates of an address list are exactly the addresses that occur at two different places, each with its number of occurrences. An empty list gives an empty map. |

## Left out

- Reading files and parsing CSV (`open`, `csv.DictReader`, `readlines`, `read_logs`, `read_log_file`) are I/O. The input is a given sequence of rows (`map<string, string>`) or of lines.
- `csv.DictReader` fills a short row's missing columns with `None` and collects extra fields under a `None` key. These are not modelled: every column a row has holds a string.
- All `print` output and the reporting functions (`print_analysis_summary`, `print_results` and its sort by count, the `main` drivers and their early exits) are console presentation.
- The text of error messages and the `FileNotFoundError` branches belong to file I/O and are not modelled. A `KeyError`, and in `simple_log_analysis.py` the `ZeroDivisionError` of line 65, are the only exceptions the model raises from the data.
- Percentages and rates are kept as integer (numerator, denominator) pairs. The floating-point division and `* 100` are not modelled.
- ImprovedLogAnalysis.MostCommon: the order among ids with equal counts is not fixed. Python returns them in first-insertion order; the model allows any order.
- AdvancedLogAnalysis.CountErrorPatterns: a pattern is treated as literal text. General regular-expression syntax, and an invalid pattern raising `re.error`, are not modelled. The four configured patterns contain no metacharacters.
- AdvancedLogAnalysis.MatchCountIsCardinality: `re.IGNORECASE` is modelled as ASCII case folding. Case-insensitive matching of non-ASCII letters is not captured.
- IpAnalyzer.MatchAtComplete: `\d` is restricted to the ASCII digits 0-9. For `str` patterns Python's `\d` also matches other Unicode decimal digits.
- IpAnalyzer.CountIps: a `Counter` is modelled as a map. Its key order is stated separately, by `Distinct` and `DistinctOrder`.
- IpAnalyzer.FindDuplicates: the returned dict is modelled as a map, so its key order is not modelled.
- Python lists and dicts are mutable, but none of these functions changes its input. The model's inputs are immutable values, so aliasing is not modelled.
