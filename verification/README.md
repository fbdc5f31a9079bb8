# ConnectionPool-MySQL in Dafny

This is a model of the MySQL connection pool `ConnectionPool` (sources/CommonConnectionPool.cpp, header/CommonConnectionPool.h) and of its configuration reader. It has three modules.

- **`Text`** (text.dfy) holds the string idioms the reader is built from:
  - the `find_first_not_of` / `find_last_not_of` + `erase` trimming;
  - `find`;
  - `::tolower` in the "C" locale;
  - `std::stoi` (leading white space, a sign, the longest run of digits, and the two exceptions as `None`).
- **`Config`** (config.dfy) is `loadConfigFile`. It covers:
  - the normalisation of each line;
  - skipping blank lines, `#` lines and `[section]` lines;
  - cutting inline comments;
  - splitting at the first `=`, with the key lower-cased;
  - the key table with its aliases, and the numeric fields read through `stoi`;
  - the final checks: the required fields, and `0 < initSize <= maxSize`.

  `ScanLines`/`Load` give the meaning of a file as functions over its lines. `ReadLines` and `LoadConfig` are the loop over those lines, proved against that meaning. `RequiredFileLoads` works one whole file through that meaning.
- **`Pool`** (pool.dfy) is the pool itself. The class `ConnectionPool` holds:
  - the idle queue (`_connectionQue`) as a `seq` of handles;
  - the total count (`_connectionCnt`);
  - the settings, which are constants once loading has ended.

  Each critical section of the source is one method: startup, a borrow, the deleter that returns a lease, one producer step, one reaper pass, shutdown and the statistics. `Valid()` is the invariant every method keeps. It says:
  - the queue holds distinct handles, oldest first;
  - none of them is lent out;
  - `count == |queue| + |leased|`;
  - after a successful load, `count <= maxSize` and the settings are acceptable;
  - after a failed load, the pool stays empty.

The world outside the program is passed in as parameters:
- `now` is the clock reading.
- `dead` is the set of handles whose `mysql_ping` fails at the moment of a borrow.
- `alive` is the ping result when a lease is returned.
- `connected` says whether the producer's `new Connection()` and `connect` succeeded rather than threw.
- A file that cannot be opened is `None`.

A handle's idle time is `now - aliveTime`. The reaper's threshold is `maxIdleTime * 1000`, the constant the source compares against.

## Model

| member | source | states |
|---|---|---|
| Text.TrimRight | sources/CommonConnectionPool.cpp:41 | the result is a prefix of the input, does not end in a character of the set, and everything cut off is in the set |
| Text.TrimLeft | sources/CommonConnectionPool.cpp:44 | the result is a suffix of the input, does not start with a character of the set, and everything cut off is in the set |
| Text.Trim | sources/CommonConnectionPool.cpp:79-82 | neither end of the result is a blank, it is no longer than the input, and an already trimmed string is unchanged |
| Text.TrimPadded | sources/CommonConnectionPool.cpp:79-82 | trimming removes exactly the blanks around a text that has none at either end: `Trim(p + k + q) == k`, and blanks alone trim to the empty string |
| Text.FindChar | sources/CommonConnectionPool.cpp:68 | the position of the first occurrence, or the length (npos) when the character does not occur |
| Text.ToLower | sources/CommonConnectionPool.cpp:85 | same length, no upper-case letter left, each character lowered on its own, lower-case text unchanged |
| Text.Stoi | sources/CommonConnectionPool.cpp:89 | a number is returned only within the range of a 32-bit `int` |
| Text.StoiStopsAtNonDigit | sources/CommonConnectionPool.cpp:89 | digits followed by other text are read as the number they spell; the rest is ignored |
| Text.StoiWithoutDigits | sources/CommonConnectionPool.cpp:89 | empty text, or text that starts with neither white space, a sign nor a digit, is invalid_argument (`None`) |
| Text.StoiOutOfRange | sources/CommonConnectionPool.cpp:89 | a decimal number above `INT_MAX` is out_of_range (`None`) |
| Text.StoiNegativeOutOfRange | sources/CommonConnectionPool.cpp:89 | a minus sign followed by a decimal number below `INT_MIN` is out_of_range (`None`) |
| Text.StoiDecimal | sources/CommonConnectionPool.cpp:93 | stoi reads back every non-negative `int` written in decimal |
| Text.StoiNegativeDecimal | sources/CommonConnectionPool.cpp:94 | stoi reads back every negative `int` written with a minus sign |
| Config.NormalizeShape | sources/CommonConnectionPool.cpp:41-44 | a line with its trailing line breaks and then its leading blanks removed (`Normalize`) is never longer, and neither starts with a blank nor ends in a line break |
| Config.SkippedExactly | sources/CommonConnectionPool.cpp:47-54 | a line is skipped exactly when, after its line breaks and leading blanks are removed, it is empty, starts with `#`, or is a `[...]` header (`IsSkipped`) |
| Config.CutComment | sources/CommonConnectionPool.cpp:57-61 | the result is a prefix of the line with no `#`; a line without `#` is unchanged |
| Config.SplitEntry | sources/CommonConnectionPool.cpp:68-85 | a line without `=` is a syntax error and only such a line; an entry's key has no `=`, no upper case and no blank at either end, and its value has no blank at either end |
| Config.ParseLine | sources/CommonConnectionPool.cpp:36-85 | an entry read from any line has a lower-case, trimmed key without `=` or `#`, and a trimmed value without `#` |
| Config.ParseWritten | sources/CommonConnectionPool.cpp:68-85 | a line written as `key=value` with a line break reads back as exactly that key and value |
| Config.SplitPadded | sources/CommonConnectionPool.cpp:68-85 | `key = value` with any blanks around key and value splits into the lower-cased key and the value, padding removed; a value of blanks only is the empty value |
| Config.ParsePadded | sources/CommonConnectionPool.cpp:36-85 | an indented, padded, mixed-case `key = value` line ending in any line breaks (`\r\n` among them) reads as the lower-cased key and the value; `password = ` reads as an empty password |
| Config.ParseCommented | sources/CommonConnectionPool.cpp:57-61 | an inline ` #comment` after an entry is cut, together with the blank before it |
| Config.CommentLineSkipped | sources/CommonConnectionPool.cpp:47-49 | a line whose first non-blank character is `#` is skipped |
| Config.SectionLineSkipped | sources/CommonConnectionPool.cpp:52-54 | a `[section]` line, indented or not, is skipped |
| Config.BlankLineSkipped | sources/CommonConnectionPool.cpp:41-49 | a line of blanks followed by line breaks is skipped |
| Config.BlankAfterBreakIsError | sources/CommonConnectionPool.cpp:41-44 | a blank after a line break is not stripped: ` \r \n` keeps `\r ` and is a line without `=` |
| Config.SectionWithTrailingBlankIsError | sources/CommonConnectionPool.cpp:52-72 | `[pool] ` with a trailing blank is not taken as a section header; it is a line without `=` |
| Config.Assign | sources/CommonConnectionPool.cpp:88-102 | the assignment fails exactly when the field is numeric and stoi throws; otherwise only the named field changes and it holds the value (the port modulo 2^16); ignored and unknown keys change nothing |
| Config.UnknownExactly | sources/CommonConnectionPool.cpp:88-102 | a key is unknown (only warned about) exactly when it is none of the eighteen names in the key table (`FieldOf`, `KeyTable`) |
| Config.StoreText | sources/CommonConnectionPool.cpp:88-92 | a text field takes the value and no other field changes |
| Config.StoreNumber | sources/CommonConnectionPool.cpp:89-96 | a numeric field takes the number (the `unsigned short` port modulo 2^16) and no other field changes |
| Config.AliasesShareField | sources/CommonConnectionPool.cpp:88-96 | host/ip, user/username, database/dbname, initial_size/initsize, max_size/maxsize, max_idle_time/maxidletime and connect_timeout/connectiontimeout each name one field |
| Config.TextEntry | sources/CommonConnectionPool.cpp:88-92 | a well-formed `key=value` line for a text field stores the value in that field, and nothing else in the scan changes |
| Config.NumberEntry | sources/CommonConnectionPool.cpp:89-96 | a well-formed line for a numeric field whose value is a decimal `int` stores that number in the field |
| Config.HostEntry | sources/CommonConnectionPool.cpp:88 | a `host=` line sets `ip` and nothing else |
| Config.UserEntry | sources/CommonConnectionPool.cpp:90 | a `user=` line sets `username` and nothing else |
| Config.DatabaseEntry | sources/CommonConnectionPool.cpp:92 | a `database=` line sets `dbname` and nothing else |
| Config.InitialSizeEntry | sources/CommonConnectionPool.cpp:93 | an `initial_size=` line with a decimal `int` sets `initSize` to it and nothing else |
| Config.MaxSizeEntry | sources/CommonConnectionPool.cpp:94 | a `max_size=` line with a decimal `int` sets `maxSize` to it and nothing else |
| Config.StepEffects | sources/CommonConnectionPool.cpp:36-102 | one pass of the reading loop (`Step`): only an entry can end the reading (stoi throwing); a line that is not an entry leaves every field as it was; the error flag is raised exactly by a line without `=` and never lowered |
| Config.ScanThrough | sources/CommonConnectionPool.cpp:36-102 | lines that each take the scan one given state further, with no stoi failure, read to the last of those states |
| Config.RequiredFileLoads | sources/CommonConnectionPool.cpp:36-129 | a file with a section header, a comment, and host, user, database, initial_size and max_size lines (`0 < initial_size <= max_size`) loads with exactly those values and every other field zero |
| Config.AbortIsFinal | sources/CommonConnectionPool.cpp:89-96 | once stoi has thrown, reading the rest of the file cannot bring the load back |
| Config.ScanLines | sources/CommonConnectionPool.cpp:36-103 | reading goes on past a line without `=`, and when stoi does not throw the error flag is set exactly when some line lacked `=` |
| Config.Validate | sources/CommonConnectionPool.cpp:107-129 | the settings read are kept; the load succeeds exactly when the error flag is clear, ip, username and dbname are set and `0 < initSize <= maxSize` |
| Config.LoadOutcome | sources/CommonConnectionPool.cpp:25-141 | the whole load (`Load`, and `LoadLines` for a file that opened): a file that cannot be opened is rejected with every field unset; the load aborts exactly when stoi throws on some line; a successful load comes from an opened file with acceptable settings and no line without `=` |
| Config.MissingEqualsAt | sources/CommonConnectionPool.cpp:69-72 | a line without `=` at any position of the file is counted as an error |
| Config.LoadConfig | sources/CommonConnectionPool.cpp:25-30 | a file that cannot be opened fails the load with every field unset; the result is that of the file's meaning `Load` |
| Config.ReadLine | sources/CommonConnectionPool.cpp:36-102 | one pass of the reading loop is the step `Step` gives; the error flag is raised exactly by a line without `=`, and stoi throwing ends the reading |
| Config.ReadLines | sources/CommonConnectionPool.cpp:36-129 | the loop over the lines yields `LoadLines`; a successful load has ip, username and dbname set, `0 < initSize <= maxSize`, and no line without `=` |
| Pool.LeadingDead | sources/CommonConnectionPool.cpp:195-215 | the number of handles at the front that fail their ping: all of them do, and the next one does not |
| Pool.LeadingStale | sources/CommonConnectionPool.cpp:316-331 | the number of handles a reaper pass takes: never more than the count's excess over `initSize`, all of them stale, and it stops at the first handle that is not |
| Pool.FreshBehindFront | sources/CommonConnectionPool.cpp:328-330 | in a queue ordered oldest first, once the reaper stops at a handle that is not stale, no handle behind it is stale |
| Pool.ReapedWellFormed | sources/CommonConnectionPool.cpp:316-331 | where a pass ends is the count `LeadingStale` gives, the rest of the queue stays well formed, and a pass that stops early leaves nothing stale |
| Pool.ReapAsWritten | sources/CommonConnectionPool.cpp:316-332 | the loop as written reads the front of an empty queue exactly when every idle handle is stale and there are fewer of them than the count's excess over `initSize`; otherwise it removes what `LeadingStale` says |
| Pool.ConnectionPool.constructor | sources/CommonConnectionPool.cpp:156-181 | a successful load leaves exactly `initSize` handles queued and counted, each stamped with the startup time and numbered in creation order; a failed load leaves an empty pool |
| Pool.ConnectionPool.FillInitial | sources/CommonConnectionPool.cpp:164-172 | the startup loop queues `initSize` handles in creation order, all refreshed at startup, and counts each once |
| Pool.ConnectionPool.Borrow | sources/CommonConnectionPool.cpp:185-217 | an empty queue times out with nothing changed; otherwise every dead front handle is popped and uncounted once, the first live one is refreshed and lent out and leaves the queue, and a queue that runs dry yields no lease |
| Pool.ConnectionPool.Release | sources/CommonConnectionPool.cpp:200-210 | a handle that still pings is refreshed and appended at the back with the count unchanged; a dead one is uncounted and not queued; either way it is no longer lent out |
| Pool.ConnectionPool.ProduceStep | sources/CommonConnectionPool.cpp:251-280 | below `maxSize` a handle that connects is appended and counted once; otherwise queue and count are unchanged; `count <= maxSize` is kept |
| Pool.ConnectionPool.ReaperPass | sources/CommonConnectionPool.cpp:313-332 | stale handles leave from the front, one uncount each, never taking the count below `initSize`; a pass that stops above `initSize` leaves no stale handle |
| Pool.ConnectionPool.Shutdown | sources/CommonConnectionPool.cpp:342-349 | the queue is emptied and the count set to zero; the pool stays consistent only if no lease is outstanding |
| Pool.ConnectionPool.Stats | sources/CommonConnectionPool.cpp:353-359 | reports the total count and the idle queue's length, changes nothing, and the total is the idle plus the lent-out handles; after a successful load it is at most `maxSize` |
| Pool.BorrowThenRelease | sources/CommonConnectionPool.cpp:195-209 | borrowing a live handle and returning it alive restores both the count and the queue length |
| Pool.ReleasedFirstServedFirst | header/CommonConnectionPool.h:88 | the idle queue is FIFO: after `a` and then `b` are returned to any pool, borrows with every handle alive serve the handles already idle in queue order, then `a`, leaving only `b` idle |
| Pool.ReaperFaultScenario | sources/CommonConnectionPool.cpp:316-317 | a reachable state (initSize 1, maxSize 2, one handle produced, both lent out) in which the reaper as written reads the front of the empty queue |
| Pool.StartupThenReaperFault | sources/CommonConnectionPool.cpp:316-317 | the same fault from the start: a configuration file with `initial_size=1` and `max_size=2` loads, the pool starts, and the reaper as written then reads the front of the empty queue |

## Where the code and its comments differ

- The header promises that `getConnection` throws `std::runtime_error` when it times out or fails (header/CommonConnectionPool.h:35). The code returns `nullptr` instead (sources/CommonConnectionPool.cpp:190 and 216). The model follows the code: `Borrow` returns `TimedOut` or `Drained`, and neither is an exception.
- `getConnection` can return no lease even when the wait did not time out. This happens when every idle handle failed its ping and the queue ran dry (sources/CommonConnectionPool.cpp:195-216). That is `Drained`.
- The constructor ignores the boolean result of `connect` (sources/CommonConnectionPool.cpp:168), while the producer tests it (sources/CommonConnectionPool.cpp:264). `connect` never returns false: it throws when the connection fails (sources/Connection.cpp:57-63), and so does `new Connection()` (sources/Connection.cpp:10-14). In the producer the exception is caught and no handle is added; at startup it escapes the constructor.
- The reaper's comment calls `_initSize` a hard floor and says it only looks at the front. Its loop tests only the count (sources/CommonConnectionPool.cpp:316), and lent-out handles are in the count but not in the queue. See Findings.
- The destructor sets the count to zero while leases may still be outstanding (sources/CommonConnectionPool.cpp:348). `Shutdown` promises a consistent pool only when none are.
- The header says `printStats` also reports the number of waiting threads (header/CommonConnectionPool.h:41-46). The code prints only the total count and the idle count (sources/CommonConnectionPool.cpp:353-359), and so does `Stats`.

## Left out

- Threads, the mutex and the condition variable are not modelled. Each critical section is one atomic method, and an empty queue at a borrow is a wait that timed out, since no other thread can refill it during the step. A `wait_for` that reports a timeout although the queue was refilled is not modelled.
- `ReaperPass` is one atomic step. The source unlocks around `delete` (sources/CommonConnectionPool.cpp:325-327), so other threads may interleave there. The sleep between passes is not modelled.
- The producer's wait condition (`queue.empty() || count < maxSize`) is not modelled as a blocking wait. A step in which the count is at `maxSize` changes nothing, which is also what the code does once woken.
- The MySQL client calls in sources/Connection.cpp are not modelled, and Connection.h is not part of this model. Whether `connect` succeeds and whether `isValid` (`mysql_ping`) answers are the boolean inputs `connected`, `alive` and `dead`. `clock()`-based idle times are abstract natural-number timestamps; the source mixes clock ticks, milliseconds and seconds.
- Pool.ConnectionPool.ReaperPass: the threshold `maxIdleTime * 1000` is an unbounded integer, so the 32-bit overflow of that product for large `maxIdleTime` is not modelled.
- Config.ParseLine: each line is taken whole and characters stand for bytes. The source builds `str` from the `char` buffer (sources/CommonConnectionPool.cpp:38), so a line ends at its first NUL byte there; a line holding a NUL byte can read differently in the model (`\0x` is a line without `=` here but skipped in the source, `host=a\0b` sets `ip` to `a\0b` here but to `a` in the source).
- The file is given as its sequence of lines. `fgets` splits a line longer than 1023 characters into several reads; that is not modelled. A file that cannot be opened is `None`.
- Pool.ConnectionPool.constructor: a failed `new Connection()` or `connect` at startup throws out of the constructor (sources/Connection.cpp:10-14, 57-63; sources/CommonConnectionPool.cpp:167-168), leaving the handles made so far unowned. The model follows only startups in which every initial connection succeeds.
- An exception from `stoi` escapes `loadConfigFile` and the constructor. The model records it as `Aborted` in the pool's `load` field, with an empty pool that starts no threads.
- The singleton (`getConnectionPool`), logging, `printStats`'s output format, and the file left open when `stoi` throws are not modelled.
- Leases still outstanding when the pool is destroyed are not followed further. Their deleter would act on a destroyed pool.
- Pool.ReleasedFirstServedFirst takes any consistent pool rather than building one from a configuration file. Pool.ReaperFaultScenario takes a pool in a stated state, and Pool.StartupThenReaperFault reaches it from a file.

## Findings

| source | as written | input that shows it | evidently intended | confidence | as-written member | corrected member |
|---|---|---|---|---|---|---|
| sources/CommonConnectionPool.cpp:316-317 | the reaper loops while `_connectionCnt > _initSize` and calls `_connectionQue.front()` without checking that the queue holds anything | initSize 1, maxSize 2; the producer adds a second handle, then two borrows lend out both: count 2, queue empty, so `front()` is called on an empty `std::queue` (undefined behaviour) | stop the pass when the idle queue is empty, since lent-out handles cannot be reaped | high, not executed | Pool.ReapAsWritten | Pool.ConnectionPool.ReaperPass |
