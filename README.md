# ramulator memory-controller core in Dafny

This project models three pieces of the ramulator DRAM simulator's memory
controller and its configuration reader, and proves what they promise.

- **Row table** (`row_table.dfy`, `addr_vec.dfy`). The controller tracks one
  entry per row group (bank or sub-array) whose row buffer is open. Each entry
  holds the open row, the hits served since opening, and the cycle of the
  last open or access.
  - `RowTable.Update` applies a DRAM command in three steps: open, then
    access, then close.
  - The close removes every entry matching the address on the closing
    width and counts the removed entries, as the C++ erase loop in
    ramulator's `update` does (its visiting order is not modelled; see
    "Left out").
  - `GetHits` and `GetOpenRow` are the table's queries.
  - The table's key order is the lexicographic order of `std::vector<int>`.
    `LexLess` defines it, and it is proved a strict total order.
- **Row policy** (`row_policy.dfy`). `RowPolicy.GetVictim` chooses which open
  row group to close. The policies are closed, closed with auto-precharge,
  opened (never close) and timeout (close only rows idle for 50 cycles). The
  victim is the first eligible row group in map order, that is the least
  eligible key.
- **Request scheduler** (`scheduler.dfy`). `Scheduler.GetHead` picks the next
  request to serve under one of four policies:
  - FCFS (first come, first served);
  - FR-FCFS (first ready, then first come);
  - FR-FCFS with a cap of 16 hits per open row;
  - FR-FCFS with hit priority. It first looks for a ready row hit. Failing
    that, it passes over requests whose precharge would close a row that a
    pending row hit needs.

  Queue positions stand for list iterators; position `|q|` is `q.end()`.
- **Configuration** (`config_lines.dfy`, `config.dfy`). `Config` is the
  first-value-wins option store and its predicates. `Config.Add` stores an
  option and converts the numeric ones into fields. `Config.Parse` works on
  the lines of a configuration file:
  - it splits each line into tokens on `" \t="`;
  - it skips blank lines and comments;
  - it adds every two-token line;
  - it stops with exit code 2 at the first other line.
- **Policy names** (`policy_names.dfy`). Policy names are lower-cased
  (`std::tolower` in the C locale) before they are matched.

Each imperative operation is a method proved against a specification
function: `Updated`, `Head`, `Applied` and `Tokens`. The properties of each
function are proved as lemmas beside it.

Where the code and its comments or documentation disagree, the model follows
the code:

- `is_early_exit` is commented "the default value is true", but it is true
  only when `early_exit` is exactly `off`. It is therefore false when the
  option is absent (`Config.IsEarlyExit`).
- The tokenizer takes `line.substr(start, end)` where `end` is an absolute
  position, not a length. A token that does not start at position 0 can
  therefore run past its run of non-delimiters. For example, `"  a = 1"`
  yields the tokens `"a ="` and `"1"`. The model keeps this behaviour:
  - `ConfigLines.TokensMatchRuns` proves that each token starts with its
    whole run;
  - `ConfigLines.LeadingBlanksWidenToken` proves the example.

## Model

| member | source | states |
|---|---|---|
| AddressVectors.RowGroup | src/Scheduler.h:318-320 | the row-group key is the first `Row` levels of the address, a prefix of it |
| AddressVectors.LexLessIrreflexive | src/Scheduler.h:312 | the key order of the row table's map is irreflexive |
| AddressVectors.LexLessTransitive | src/Scheduler.h:312 | the key order of the row table's map is transitive |
| AddressVectors.LexLessTotal | src/Scheduler.h:312 | any two distinct keys are ordered one way or the other, so "first in map order" is well defined |
| RowTables.GetHits | src/Scheduler.h:359-375 | 0 for a closed row group; 0 when the open row differs and `to_opened_row` is unset; otherwise the stored hit count |
| RowTables.GetOpenRow | src/Scheduler.h:377-388 | the stored open row of the address's row group, or -1 when the group has no entry |
| RowTables.Updated | src/Scheduler.h:316-357 | an update keeps every key of the table a row-group key |
| RowTables.CloseWidth | src/Scheduler.h:339-344 | an access that also closes (RDA, WRA: scope `Row-1`) compares the whole row-group key; any other close compares `scope+1` levels |
| RowTables.UpdateAllowed | src/Scheduler.h:329-355 | the asserts of `update`, plus the unchecked address bounds listed under "Left out": an access that does not open needs its row group already open at the addressed row, and a close that does not open needs an entry to remove |
| RowTables.RowTable.constructor | src/Scheduler.h:314 | a new row table is empty |
| RowTables.RowTable.Update | src/Scheduler.h:316-357 | the table after open, access and close is `Updated` of the old table; the table stays well formed |
| RowTables.RowTable.EraseMatching | src/Scheduler.h:339-353 | the erase loop removes exactly the entries agreeing with the address on the close width, and counts them |
| RowTables.OpeningClosedGroup | src/Scheduler.h:325-326 | opening a closed group stores its row with 0 hits stamped `clk`, adds only that key and keeps all other entries |
| RowTables.OpeningOpenGroupKeepsEntry | src/Scheduler.h:325-326 | `insert` on an already open group leaves the table unchanged |
| RowTables.AccessingCountsHit | src/Scheduler.h:328-335 | an access adds exactly one hit, sets the timestamp to `clk`, keeps the row and every other entry |
| RowTables.ClosingRemovesScope | src/Scheduler.h:337-356 | a close removes exactly the entries matching the first `scope+1` levels, removes at least one, and leaves the others untouched |
| RowTables.AccessAndCloseRemovesOwnGroup | src/Scheduler.h:341-342 | an access with auto-precharge (scope `Row-1`) removes exactly its own row group, which then reads as closed |
| RowTables.OpenAccessCloseRoundTrip | src/Scheduler.h:316-388 | open, access, close on one address: every step's assertions hold, one hit is counted, and the row reads as -1 afterwards |
| PolicyNames.LowerChar | src/Scheduler.h:82 | `tolower` changes only `A`..`Z`, by 32 |
| PolicyNames.ToLower | src/Scheduler.h:82 | the lower-cased name has the same length and lower-cases each character |
| PolicyNames.ToLowerIdempotent | src/Scheduler.h:241 | lower-casing twice is lower-casing once |
| RowPolicies.RowPolicyFor | src/Scheduler.h:239-253 | each of the four names selects its policy; anything else keeps `Opened`; only a non-empty unknown name warns |
| RowPolicies.RowPolicyIgnoresCase | src/Scheduler.h:241-249 | the row policy chosen does not depend on the case of the name |
| RowPolicies.FirstAccepted | src/Scheduler.h:264-269 | the scan returns the least accepted key in map order, or the empty vector when none is accepted |
| RowPolicies.RowPolicy.constructor | src/Scheduler.h:235-253 | the policy is the one its name selects, and the timeout is 50 |
| RowPolicies.RowPolicy.GetVictim | src/Scheduler.h:255-295 | the victim is the least eligible row group, or empty when none is eligible; under timeout an entry accessed fewer than 50 cycles ago is not eligible |
| RowPolicies.OpenedNeverCloses | src/Scheduler.h:280-282 | the opened policy never has an eligible victim |
| RowPolicies.TimeoutWindow | src/Scheduler.h:286-292 | a row accessed at cycle 10 is not a victim at cycle 40 and is one at cycle 61 |
| RowPolicies.VictimIsUnique | src/Scheduler.h:261-295 | two least eligible row groups coincide, so the victim is determined |
| Schedulers.SchedPolicyFor | src/Scheduler.h:80-94 | each of the four names selects its policy (`frfcfs_timeout` selects hit priority); anything else keeps `FRFCFS_Cap`; only a non-empty unknown name warns |
| Schedulers.SchedPolicyIgnoresCase | src/Scheduler.h:82-90 | the scheduler policy chosen does not depend on the case of the name |
| Schedulers.ReadinessNarrowsByPolicy | src/Scheduler.h:176-221 | the readiness each comparator ranks by: every request under FCFS, `is_ready` under FR-FCFS, `is_ready` within the hit cap under capped FR-FCFS, a ready row hit under hit priority |
| Schedulers.Compare | src/Scheduler.h:176-222 | each comparator returns one of its two arguments |
| Schedulers.CompareKeepsFirstRanked | src/Scheduler.h:183-221 | a comparator keeps its first argument exactly when that one is ready and the other not, or both tie on readiness and it arrived no later |
| Schedulers.Fold | src/Scheduler.h:105-108 | the left fold of the comparator is `q.end()` on no requests and one of the given positions otherwise |
| Schedulers.FoldPicksFirstBest | src/Scheduler.h:105-108 | the fold returns a request that ranks first against all others and strictly first against every earlier one |
| Schedulers.HitGroups | src/Scheduler.h:127-138 | `hit_reqs` has at most one row group per request |
| Schedulers.HitGroupsMembers | src/Scheduler.h:127-138 | a row group is in `hit_reqs` exactly when some row-hit request lies in it |
| Schedulers.ViolatesHitMeansSharedGroup | src/Scheduler.h:143-157 | a request violates a hit exactly when it is not a hit, its row group has a row open, and some pending row hit lies in the same precharge row group |
| Schedulers.Kept | src/Scheduler.h:141-166 | the requests the second pass folds over are positions of the queue, among the first `n` |
| Schedulers.KeptIncreasing | src/Scheduler.h:141-166 | the second pass visits the requests it keeps in queue order |
| Schedulers.KeptMembers | src/Scheduler.h:141-166 | a request is folded over exactly when it does not violate a hit |
| Schedulers.Head | src/Scheduler.h:96-171 | the head is a queue position or `q.end()` |
| Schedulers.HeadIsFirstBest | src/Scheduler.h:99-110 | for FCFS, FR-FCFS and capped FR-FCFS the head is `q.end()` exactly on an empty queue; otherwise it ranks first, with ties going to the earliest request |
| Schedulers.FcfsServesOldest | src/Scheduler.h:178-180 | FCFS serves a request of least arrival time, the earliest such in the queue |
| Schedulers.ReadyRequestsComeFirst | src/Scheduler.h:183-209 | under FR-FCFS and capped FR-FCFS the head is ready exactly when some request is; if none is, the head is an oldest request |
| Schedulers.CapDemotesBusyRow | src/Scheduler.h:193-208 | a ready request whose row has served more than `cap` hits is not served while a ready request within the cap waits |
| Schedulers.PriorHitServesReadyHit | src/Scheduler.h:117-125 | under hit priority, if any request is a ready row hit the head is the oldest ready row hit, the earliest in the queue on a tie |
| Schedulers.PriorHitFallback | src/Scheduler.h:127-169 | with no ready row hit, the head is `q.end()` exactly when every request violates a hit; otherwise it violates none and ranks first by FR-FCFS among those that violate none, the earliest such on a tie |
| Schedulers.PriorHitKeepsHits | src/Scheduler.h:96-171 | the hit-priority head never closes the open row a pending row hit needs |
| Schedulers.PriorHitSkipsConflictingRequest | src/Scheduler.h:141-166 | an older request to another row of a bank that a younger row hit needs is passed over, and the younger request is served |
| Schedulers.Scheduler.constructor | src/Scheduler.h:76-94 | the policy is the one its name selects, and the cap is 16 |
| Schedulers.Scheduler.GetHead | src/Scheduler.h:96-171 | `get_head` returns `Head`, the policy's fold with the hit-priority fast path and fallback |
| Schedulers.Scheduler.FoldQueue | src/Scheduler.h:105-108 | the loop `head = compare(head, itr)` computes the fold over the whole queue |
| Schedulers.Scheduler.HitRequestGroups | src/Scheduler.h:127-138 | the loop builds `hit_reqs`, the precharge row groups of the row hits in queue order |
| Schedulers.Scheduler.FoldUnviolated | src/Scheduler.h:141-169 | the second loop computes the FR-FCFS fold over the requests that do not violate a hit, or `q.end()` |
| Schedulers.Scheduler.FoldIn | src/Scheduler.h:162-166 | a request that violates no hit becomes the head when there is none, and is compared with the head by FR-FCFS otherwise: the fold extended by that request |
| Schedulers.Scheduler.IsViolating | src/Scheduler.h:143-163 | a request violates a hit exactly when it is a non-hit to an open row group that is in `hit_reqs` |
| Schedulers.Scheduler.Contains | src/Scheduler.h:154-159 | the search of `hit_reqs` finds the row group exactly when it is there |
| ConfigLines.FindFirstNotOf | src/Config.cpp:53-54 | the first position at or after `from` holding no delimiter, or the end of the line |
| ConfigLines.FindFirstOf | src/Config.cpp:56 | the first position at or after `from` holding a delimiter, or the end of the line |
| ConfigLines.Substr | src/Config.cpp:57 | `substr` yields at most `len` characters starting at `pos`, clamped to the line |
| ConfigLines.TokensFrom | src/Config.cpp:53-58 | every token is non-empty and starts with a non-delimiter |
| ConfigLines.StartsLineUp | src/Config.cpp:53-58 | there is one start position per token, starts increase, and each token is the `substr` of its start up to the next delimiter's index |
| ConfigLines.StartsAreRunStarts | src/Config.cpp:53-58 | the token starts are exactly the first characters of the runs of non-delimiters |
| ConfigLines.TokensMatchRuns | src/Config.cpp:53-58 | there is one token per maximal run, in order, and each token begins with its whole run |
| ConfigLines.LeadingBlanksWidenToken | src/Config.cpp:56-57 | `"  a = 1"` yields `"a ="` and `"1"` |
| ConfigLines.Tokenize | src/Config.cpp:50-58 | the tokenizing loop produces `Tokens(line)` |
| ConfigLines.ActionOf | src/Config.cpp:60-72 | no tokens or a leading `#` skips the line; exactly two tokens set an option; anything else is fatal |
| Configs.Settled | src/Config.cpp:23-36 | a numeric field keeps its value unless its option was newly added |
| Configs.Applied | src/Config.cpp:47-73 | reading lines never removes or changes an option that is already set |
| Configs.FirstMalformed | src/Config.cpp:64-68 | reading stops at the first line that is neither blank, a comment, nor two tokens |
| Configs.MalformedStops | src/Config.cpp:64-68 | reading reaches line `i`: the first malformed line is `i` exactly when line `i` is malformed |
| Configs.FirstSettingWins | src/Config.cpp:15-21 | an option takes the value from the first line that sets it |
| Configs.UnsetNameStaysAbsent | src/Config.cpp:13-21 | an option that no line sets stays absent |
| Configs.SkippedLineChangesNothing | src/Config.cpp:60-62 | a blank or comment line leaves the options unchanged |
| Configs.Config.constructor | src/Config.h:23-30 | a new configuration has no options, and `core_num`, `expected_limit_insts` and `warmup_insts` are 0 |
| Configs.Config.Get | src/Config.h:35-42 | `operator[]` returns the stored value, or `missing` (the constant `Configs.Missing`, the empty string of src/Config.cpp:6) for an absent option |
| Configs.Config.Contains | src/Config.h:44-46 | true exactly when the option is present |
| Configs.Config.HasL3Cache | src/Config.h:59-62 | true exactly when `cache` is `all` or `L3` |
| Configs.Config.HasCoreCaches | src/Config.h:64-67 | true exactly when `cache` is `all` or `L1L2` |
| Configs.CachePredicates | src/Config.h:59-67 | both cache predicates hold only for `all`; neither holds without a `cache` option; the L3 cache alone means `L3` |
| Configs.Config.IsEarlyExit | src/Config.h:69-73 | true exactly when `early_exit` is `off`, hence false when it is absent |
| Configs.Config.CalcWeightedSpeedup | src/Config.h:75-77 | true exactly when `expected_limit_insts` is non-zero |
| Configs.Config.RecordCmdTrace | src/Config.h:79-83 | true exactly when `record_cmd_trace` is `on` |
| Configs.Config.PrintCmdTrace | src/Config.h:85-89 | true exactly when `print_cmd_trace` is `on` |
| Configs.Config.SetCoreNum | src/Config.h:48 | sets `core_num` and nothing else |
| Configs.Config.Add | src/Config.cpp:13-37 | a present name changes nothing; a fresh name is stored and converted into its numeric field only if it names one; `core_num` never changes |
| Configs.Config.Parse | src/Config.cpp:39-75 | every setting line before the first malformed line is added in order, first value wins; the result is exit code 2 at that line, or done |

## Left out

- File input in `Config::parse` (`ifstream`, `getline`, the `exit(1)` on a
  file that cannot be opened) is left out. `Config.Parse` takes the file's
  lines, and it returns `Exit(2, line)` instead of ending the process.
- The `std::cerr` messages are not modelled. `RowPolicyFor` and
  `SchedPolicyFor` compute whether the policy constructors would warn
  (`Selection.warning`); the constructors themselves keep only the policy.
  The messages of `add` and `parse` are dropped.
- `std::stoi` and `std::stol` are the function parameter `toInt`. Their
  exceptions on non-numeric text, and the `int` and `long` widths of the
  fields, are not modelled.
- The getters `get_channels` … `get_warmup_insts` (src/Config.h:50-57) return
  a field unchanged. The model reads the fields directly.
- `src/Gem5Wrapper.h` is not part of this model. It is a bridge to another
  simulator and holds only declarations.
- The controller's collaborators are inputs to the model:
  - `is_ready`, `is_row_hit`, `is_row_open` and `arrive` are fields of
    `Request`;
  - a row group's `is_ready(cmd, key)` is the function `isReady`;
  - the clock is the parameter `clk`;
  - `spec->is_opening/is_accessing/is_closing` and `scope` are `Command`;
  - `T::Level::Row` is `rowLevel`, and `scope[PRE]` is `preScope`.
- The `ctrl` back-pointers are not modelled. `GetVictim` and `GetHead`
  receive the row table and the controller's view as parameters.
- `RowTables.RowTable.Update`: the `assert`s of `update` are preconditions
  (`UpdateAllowed`). What happens when such an assert fails is not modelled.
- `RowTables.UpdateAllowed` and `Schedulers.Addressable` also require bounds
  that the C++ reads without checking: `Row < |addr_vec|` in `update`,
  `scope+1 <= Row` for a close that does not access, and
  `scope[PRE] < |addr_vec|` in `get_head`. The C++ asserts only
  `match != table.end()`, `match->second.row == row` and `n_rm > 0`. Calls
  that break these bounds read out of range, which is undefined behaviour in
  C++, and are not modelled.
- `ConfigLines.TokensFrom`: a `char` of the line stands for one byte of the
  `std::string`. Lines with non-ASCII text are not modelled byte for byte.
  The widened tail of a token, `substr(start, end)` with `end` an absolute
  position, can then hold a different number of characters. For example,
  C++ reads `"é=ab   "` as `"é"` and `"ab   "`, but the model gives `"é"` and
  `"ab  "`. The number of tokens and the skip, set or fatal decision for a
  line do not depend on this.
- `RowTables.Entry`: `hits` is unbounded, so `int` overflow of the hit
  counter is not modelled. `timestamp` and `clk` are unbounded integers
  rather than `long`.
- `RowTables.RowTable.EraseMatching` removes the matching keys from a
  snapshot of the key set, one arbitrary key at a time. It does not model
  the C++ loop's walk of the map in key order with `it = table.erase(it)`;
  the resulting table and count do not depend on that order.
- `RowPolicies.FirstAccepted` visits the keys in any order and keeps the
  least accepted key. It does not model the map's visiting order itself. It
  returns the key the in-order scan returns, since that scan stops at the
  least accepted key.
- `Schedulers.Scheduler.GetHead`: the queue is a sequence and positions stand
  for list iterators. The list is not changed, and iterator aliasing is not
  modelled.
- `Schedulers.Scheduler.FoldUnviolated`, `IsViolating`, `Contains` and
  `FoldIn` split the second pass of `get_head` into one method per nested
  loop or branch of ramulator's `get_head`. Together they compute the same result in
  the same order.
