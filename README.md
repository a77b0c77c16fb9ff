# shinobu-go, modelled in Dafny

shinobu-go is a small Linux daemon. It holds a systemd-logind "sleep:shutdown"
inhibitor lock while the machine moves network traffic. Once a second it reads
`/proc/net/dev`, parses the table into one record per interface, and sums how
many bytes each interface received and sent since the previous reading. When
that sum exceeds `threshold` KB it takes an inhibitor lease and restarts a
cooldown of `wait` ticks. When traffic stays low until the cooldown has run out,
it releases the lease.

This project models that core:

- `wrappers.dfy` (`Wrappers`): `Option` and `Result`.
- `uint64.dfy` (`UInt64`): Go's `uint64`, with `+` and `*` wrapping modulo 2^64.
- `netdev.dfy` (`NetDev`): the `netStat` record and the `netstat()` parser.
  - It covers `strconv.ParseUint` (base 10), `strings.Fields` (with Go's
    `unicode.IsSpace` set), `bufio.Reader.ReadString('\n')` over the text read,
    and the parse loop that fills the map.
  - `ReadNetDev` is that loop as a method. It is proved equal to the
    specification `Table(DataLines(content))`.
- `sampler.dfy` (`Sampler`): `diff`, the per-tick sum of byte deltas, and the
  threshold test.
  - The sum is the Go `for ... range` loop as a method, `Aggregate`. It picks
    the next name arbitrarily, so it is proved for every map iteration order.
  - Its specification `SumDeltas` is a wrapping sum over a set of names.
- `hysteresis.dfy` (`Hysteresis`): the cooldown/lease decision of one tick
  (`Decide`), plus runs of many ticks and their properties.
- `daemon.dfy` (`Daemon`): the state `main` keeps across ticks, as a class.
  - Fields: `prevStats`, `counter`, whether the lease handle is open, the
    notifications sent to systemd, and counts of leases acquired and closed.
  - Methods: one tick, the signal path, and the deferred clean-up.
  - Each tick's reading of `/proc/net/dev` is a parameter. So is whether its
    lease call succeeds.

Two behaviours of the code differ from what a wraparound-aware difference and
a `wait`-tick cooldown suggest. The model follows the code:

- **`diff` on a wrapped counter.** For `a < b`, `diff(a, b)` is
  `MaxUint64 - b + a`. That is one less than the modular difference. So a
  counter that went from MaxUint64 to 5 measures 5, not 6, and one that went
  from 100 to 50 measures 2^64 − 51, not 2^64 − 50 (`Sampler.DiffWrapExamples`,
  `Sampler.DiffOfAdvance`).
- **When the lease is released.** The cooldown counts down to 0 first. The
  release only happens on a low tick that already finds it at 0. So after a
  high tick the lease is released on the (wait+1)-th low tick. With wait = 3
  and ticks high, low, low, low, the lease is still held after tick 4 and is
  released on tick 5 (`Hysteresis.ReleaseOnTickAfterWait`,
  `Hysteresis.WaitThreeExample`).

A third point follows from the code:

- **A failed release is closed twice.** If `inhibit.Close()` fails, `inhibit`
  stays non-nil. The deferred closure then calls `Close` on it again.
  `Daemon.Daemon.Valid` accounts for this: closes plus the open lease equal
  leases acquired, plus one after a failed release.

## Model

| member | source | states |
|---|---|---|
| UInt64.Add | main.go:77-78 | uint64 `+`: the exact sum when it fits in 64 bits, else the sum less 2^64 (it wraps exactly once) |
| UInt64.Mul | main.go:82 | uint64 `*`: the exact product when it fits, and always congruent to the product modulo 2^64 |
| UInt64.AddSwap | main.go:75-80 | wrapping addition is commutative and associative, so the order of the terms of a sum does not matter |
| NetDev.FromCounters | netstat.go:10-27 | the record built from 16 values has the i-th value as its i-th counter in declaration order; RxBytes is the first value and TxBytes the ninth |
| NetDev.ParseUint | netstat.go:29-36 | accepts exactly the non-empty all-ASCII-digit strings whose decimal value fits in 64 bits, and returns that value; anything else is the panic |
| NetDev.Scan | netstat.go:30 | the digit loop: the same acceptance and value as ParseUint, starting from a correctly parsed prefix; it rejects a number as soon as it leaves 64 bits |
| NetDev.FormatUint | netstat.go:29-36 | the decimal text of a number: non-empty, digits only (the reference definition paired with ParseUint) |
| NetDev.ParseFormatRoundTrip | netstat.go:29-36 | ParseUint inverts FormatUint on every uint64 value and rejects every larger value |
| NetDev.WordLength | netstat.go:57 | the leading word of a text stops at a space character or at the end of the text, and is non-empty when the text starts with a non-space |
| NetDev.WordLengthRun | netstat.go:57 | the leading word holds no space character; with WordLength, the word ends exactly at the first space |
| NetDev.Fields | netstat.go:57 | definition of strings.Fields: the maximal runs of non-space characters, in order; its properties are the Fields lemmas below |
| NetDev.FieldsAreWords | netstat.go:57 | every field strings.Fields returns is a non-empty run of non-space characters |
| NetDev.FieldsSplitAtSpace | netstat.go:57 | a space separates fields: the fields of a + space + b are the fields of a followed by the fields of b |
| NetDev.FieldsOfWord | netstat.go:57 | a single word is a single field |
| NetDev.FieldsOfJoin | netstat.go:57 | strings.Fields recovers the words of a space-joined list of words (its inverse) |
| NetDev.LineLength | netstat.go:52 | ReadString stops right after a newline, or reads the whole text when there is none; it always consumes something from non-empty text |
| NetDev.ReadString | netstat.go:46-47 | one ReadString('\n') call: the line plus the unread rest is the text; a complete line ends with '\n'; an incomplete one takes everything that is left |
| NetDev.ReadStringFindsFirstNewline | netstat.go:52-55 | the read is complete exactly when the text has a newline, and then the line holds exactly one newline, at its end |
| NetDev.Lines | netstat.go:51-55 | definition of the lines the loop hands to the parser: complete lines up to the last newline; its properties are the lemmas on either side |
| NetDev.ReadLineFirst | netstat.go:52 | a complete line followed by anything is read back as exactly that line, with the rest left unread |
| NetDev.LinesOfConcat | netstat.go:51-55 | the loop's lines of concatenated complete lines followed by text without a newline are exactly those lines |
| NetDev.UnterminatedTailIgnored | netstat.go:51-55 | a last line without a newline is not parsed: appending it changes nothing |
| NetDev.ParseCounters | netstat.go:59-76 | columns i..16 read left to right: success iff each exists and parses, with the values in column order; otherwise the first failing column, which is MissingField exactly when it is out of range |
| NetDev.TrimColon | netstat.go:78 | strings.TrimSuffix(s, ":"): removes one trailing colon, or leaves s as it is when it has none |
| NetDev.ParseRow | netstat.go:59-78 | a row parses iff it has at least 17 fields and fields 1..16 are uint64s; field i is counter i; the key is field 0 less one trailing colon; otherwise the failure names the first bad column |
| NetDev.ParseLine | netstat.go:57-78 | definition: a line is parsed as the row of its fields; its properties are ParseRow's contract |
| NetDev.ParseAll | netstat.go:51-78 | one parse result per line, in order: the i-th result is the parse of the i-th line |
| NetDev.Collect | netstat.go:49-79 | definition of the map the loop builds, row by row, stopping at the first failing row; its properties are CollectAppend, LaterRowWins and CollectFails |
| NetDev.Table | netstat.go:49-81 | definition of the table of a list of data lines; its properties are ReadNetDev and TableFails |
| NetDev.DataLines | netstat.go:46-55 | definition of the data lines of a file: its lines after the two header lines; its properties are HeadersDiscarded and LinesAfterRead |
| NetDev.LinesAfterRead | netstat.go:46-47 | after one ReadString call, the remaining lines are the previous ones less the first |
| NetDev.ReadNetDev | netstat.go:45-81 | the read loop returns exactly Table(DataLines(content)): the map of rows 3 onwards, or the first row's failure |
| NetDev.HeadersDiscarded | netstat.go:46-47 | the first two lines are skipped whatever they contain; the data lines are exactly the complete lines after them |
| NetDev.CollectAppend | netstat.go:78 | storing one more row: the table fails if the row fails, otherwise the row's record is stored under its key |
| NetDev.LaterRowWins | netstat.go:78 | when a later line has the same key as an earlier one, the later line's record is the one kept |
| NetDev.FirstErr | netstat.go:51-78 | the position of the first failed row: every row before it parsed, and it failed |
| NetDev.CollectFails | netstat.go:51-78 | collecting fails exactly when a row failed, with the first failed row's failure |
| NetDev.TableFails | netstat.go:57-78 | the table fails iff some line fails to parse, and then with the failure of a line before which every line parsed |
| Sampler.Diff | main.go:16-22 | without wrap, b advanced by the result is a, and the result is at most a; with wrap, the result is below MaxUint64 and b advanced by the result falls one short of a |
| Sampler.DiffOfAdvance | main.go:16-22 | a counter advanced by k is measured as k without wrap and as k − 1 when it wrapped |
| Sampler.DiffWrapExamples | main.go:17-18 | diff(5, MaxUint64) = 5, diff(50, 100) = 2^64 − 51, diff(100, 50) = 50 |
| Sampler.SumDeltasPick | main.go:75-80 | the sum over a set of names may take any name first: it does not depend on map iteration order |
| Sampler.SumDeltasUnmatched | main.go:76 | names missing from either snapshot add nothing: the sum is the sum over names in both snapshots |
| Sampler.SumDeltasAgree | main.go:75-80 | two snapshot pairs with the same per-name deltas have the same sum |
| Sampler.NewInterfaceIgnored | main.go:76 | an interface with no previous record does not change the tick's traffic |
| Sampler.VanishedInterfaceIgnored | main.go:75-76 | an interface missing from the current snapshot does not change the tick's traffic |
| Sampler.SumDeltasSplit | main.go:77-82 | summing rx and tx separately and adding at the end is the per-interface sum of rx + tx |
| Sampler.Traffic | main.go:73-82 | definition of a tick's traffic, the wrapping sum of rx plus tx diffs over the names in both snapshots; its properties are Aggregate, NewInterfaceIgnored and VanishedInterfaceIgnored |
| Sampler.Aggregate | main.go:73-80 | the range loop, for any iteration order, returns the wrapping sums of rx and tx diffs over the names in both snapshots |
| Sampler.Exceeds | main.go:82 | when threshold*1024 does not wrap, the test holds iff the traffic is strictly greater than threshold*1024 |
| Sampler.ThresholdIsStrict | main.go:82 | traffic exactly at threshold*1024 does not trigger; one byte more does |
| Sampler.ThresholdWraps | main.go:82 | a threshold of 2^54 wraps threshold*1024 to 0, so a single byte of traffic triggers |
| Sampler.TrafficExample | main.go:73-80 | a new interface with 1000 bytes each way and no baseline adds nothing; only the 10 bytes of the known interface count |
| Hysteresis.Decide | main.go:82-105 | acquire iff high and no lease; release iff low, counter 0 and lease held; a high tick sets counter to wait; a low tick decrements a positive counter, else drops to counter 0 with no lease; "no lease implies counter 0" is preserved |
| Hysteresis.Run | main.go:64-107 | definition of the state after a sequence of ticks; its properties are RunKeepsInv, RunSplit, Cooldown and the lemmas after them |
| Hysteresis.Actions | main.go:64-107 | a run of ticks issues exactly one lease action per tick |
| Hysteresis.RunKeepsInv | main.go:83-105 | from a state where no lease means counter 0, this still holds after any sequence of ticks |
| Hysteresis.RunSplit | main.go:64-107 | running two stretches of ticks one after the other equals running them together, actions included |
| Hysteresis.LeaseBalance | main.go:85-103 | acquires plus a lease held at the start equal releases plus a lease held at the end |
| Hysteresis.LeaseAlternates | main.go:85-103 | from the initial state, releases never outnumber acquires, and acquires exceed releases by at most one (the lease held) |
| Hysteresis.Cooldown | main.go:94-95 | each low tick with a positive counter lowers it by exactly one and leaves the lease alone |
| Hysteresis.ReleaseOnTickAfterWait | main.go:83-105 | after a high tick the lease is still held after wait low ticks, is released on the (wait+1)-th, and the state is back to initial |
| Hysteresis.BusyWhileHeld | main.go:83-85 | further high ticks while a lease is held issue no acquire, and keep the counter at wait |
| Hysteresis.QuietWhenIdle | main.go:94-96 | an idle daemon stays idle on low ticks and never releases |
| Hysteresis.WaitThreeExample | main.go:83-105 | with wait 3, ticks high, low, low, low leave the lease held; a fifth, low tick releases it |
| Daemon.Sample | netstat.go:38-81 | a reading that could not be opened is a read failure; otherwise it yields a snapshot iff every data line parses, that snapshot being the parsed table, and on failure the error of a failing data line before which every line parses |
| Daemon.Daemon.constructor | main.go:31-62 | start-up: counter 0, no lease, the first snapshot kept, Ready then Uninhibited sent |
| Daemon.Daemon.Exit | main.go:44-60 | the deferred calls: Stopping is sent, and an open lease handle is closed |
| Daemon.Daemon.Shutdown | main.go:109-110 | on SIGINT/SIGTERM the loop ends cleanly, with every lease acquired closed |
| Daemon.Daemon.Transition | main.go:82-105 | the counter and lease follow Decide, with the status notice for a lease change; a failed Inhibit ends the loop with counter wait and no lease; a failed Close ends it with the handle closed twice; on either failure the only notice sent is Stopping |
| Daemon.Daemon.Apply | main.go:73-107 | the decision is Decide applied to the threshold test of Traffic(prevStats, cur); prevStats becomes cur only when no lease call failed; a failed lease call ends the loop as in Transition, with only Stopping sent |
| Daemon.Daemon.Tick | main.go:67-107 | a read error or malformed table ends the loop with prevStats and counter unchanged, any open lease closed and only Stopping sent; otherwise as Apply, on the parsed snapshot |
| Daemon.Start | main.go:31-62 | the first reading must succeed and parse, or the daemon never starts; otherwise it starts running from that snapshot: no fault, counter 0, no lease, Ready then Uninhibited sent, no lease calls yet |

## Left out

- Flag parsing (main.go:25-27): `threshold` and `wait` are constructor parameters, with no defaults.
- journal logging (main.go:29, 33, 41, 69, 88, 99): not modelled. SdNotify (main.go:59-62, 92, 104) is only a log of notices.
- The login1 D-Bus client (main.go:39-44) is not part of this model. Its creation is assumed to succeed, and its deferred `Close` and the ticker's `Stop` are not tracked.
- The inhibitor `*os.File` (main.go:46-51, 86, 97) is a boolean "handle open". Each Inhibit or Close call is a `leaseOk` parameter: whether it succeeds.
- Timing, the ticker, the signal channel and `select` (main.go:53-57, 64-66, 109-110): a tick is a call to `Tick`, and a signal is a call to `Shutdown`.
- `os.Open` and `bufio` (netstat.go:39-45): a reading is `None` when the file cannot be opened, else the text that was read. An I/O error mid-file ends the loop exactly like end of file. The text is then whatever was read before it.
- Strings are sequences of code points, not UTF-8 bytes. Invalid UTF-8, which `strings.Fields` treats as non-space, is not modelled.
- The panic's message and the process exit status are not modelled. A panic while parsing becomes a `Malformed` fault, and the deferred calls still run.
- NetDev.ParseCounters: the failure it reports assumes the 16 counter expressions are evaluated left to right. Go leaves the order between an index expression and a call unspecified. So a bad number followed by a missing column may panic with "index out of range" rather than with the parse error. Either way the row fails.
