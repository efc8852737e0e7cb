# selpg page selector, modelled in Dafny

selpg is a command-line filter. It copies a range of pages from its input to
standard output, and optionally to a printer spooler. A page is either a group
of `pageLength` lines (default 72) or, with `-f`, a chunk that ends in a form
feed. The user names the first page to print (`--s`) and the first page not
to print (`--e`).

The model covers the two parts of `selpg.go` that decide what is printed.

- **Validation** (`processArgs`). This is module `Options`.
  - `ProcessArgs` is a function returning `Result<SelpgArgs, ArgError>`. Each
    `panic` in the two `switch` statements becomes one `ArgError`, tried in
    the same order.
  - `FindL` is a method with the loop of the `findL` closure.
- **Scanning** (`processInput`, lines 87-121). This is module `Selector`.
  - `SelectByFormFeed` and `SelectByLines` are the two scanning loops, as
    `while` methods. The buffered reader is a position in the input byte
    sequence.
  - `ReadString` (module `Bytes`) returns the bytes up to and including the
    delimiter. When no delimiter remains, it returns the rest of the input,
    possibly empty, together with EOF.

## The scan as functions

`Units(input, d)` is the list of units that successive `ReadString(d)` calls
return. `UnitsConcat` and `UnitsShape` prove the list is a partition of the
input: every unit but the last ends in `d`, and the last holds no `d`. An
input that ends in `d` therefore has a final empty unit.

One idea covers both modes. A form-feed chunk is a page of its own, so the
form-feed loop behaves like the line loop with one unit per page and `'\f'`
for `'\n'`.

- **What is output.** `PageOf(i, perPage)` is the page of unit `i`, which is
  `i / perPage + 1`. A unit is kept when `start <= PageOf(i) < end`, and
  `Gather` concatenates the kept units.
- **Each loop against Gather.** Each loop method is proved to output
  exactly `Gather` of the units. Its invariants tie `pageCounter` and
  `lineCounter` to the number of units read.
- **Where the scan stops.** Each loop method is also proved to read exactly
  the first `StopCount` units.
  - When `end >= 2`, `StopCount` is the last unit of page `end - 1`, or the
    end of input if that comes first.
  - When `start == end == 1`, the page counter starts at the end page. The
    loop then stops after one unit if a page has more than one unit, and
    otherwise reads the whole input.

For end >= 2 the loop exits right after the last unit of page `end - 1`: no unit of page
`end` is read (`StopTest`, `SelectionEndsConsumed`).

A page counts as present when it holds bytes. `PageCount` ignores the empty
unit that `ReadString` returns at end of input, so a file of five
form-feed-terminated chunks has five pages (`FormFeedFixtureHasFivePages`). The output
is empty exactly when `start == end` or the start page is past the last page
present (`SelectionEmptyExactly`).

Module `Fixtures` models the two files `test/genTestFile.go` writes. It
proves what selpg selects from them for the page ranges used with those
files.

## Model

| member | source | states |
|---|---|---|
| Options.FindL | selpg.go:26-33 | returns true exactly when some raw argument token equals the literal "--l" |
| Options.ProcessArgs | selpg.go:24-63 | every accepted request has 1 <= start <= end, a positive page length, and (with -f) the default length 72 |
| Options.ProcessArgsReportsFirstViolation | selpg.go:43-62 | the reported error is exactly the first violated guard in switch order; validation succeeds exactly when no guard is violated |
| Options.ProcessArgsKeepsFields | selpg.go:56-62 | on success there is at most one positional argument; it becomes inputFile; every other field is unchanged |
| Options.EqualStartAndEndAccepted | selpg.go:48-53 | start == end is accepted, with or without -f (as long as -f comes with length 72 and no "--l"); only end < start is refused |
| Options.FormFeedConflict | selpg.go:52-53 | with -f, validation fails on the delimiter conflict exactly when the length is not 72 or the token "--l" is present, even with the value 72 |
| Options.StartPageZeroRejected | selpg.go:44-45 | start 0 with end 5 is refused as an invalid start page |
| Options.EndBeforeStartRejected | selpg.go:48-49 | start 3 with end 2 is refused as end before start |
| Bytes.ReadString | selpg.go:90-93 | the returned unit is the input from the read position to the new position; EOF exactly when it holds no delimiter, and then the input is exhausted; otherwise it ends in its only delimiter |
| Bytes.ReadStringUnits | selpg.go:105-108 | one ReadString call returns the first remaining unit, reports EOF exactly on the last one, and leaves the rest splitting into the remaining units |
| Bytes.UnitsConcat | selpg.go:104-105 | the units ReadString returns concatenate back to the whole input |
| Bytes.UnitsShape | selpg.go:89-90 | every unit but the last ends in the delimiter with no other delimiter; the last unit holds no delimiter |
| Bytes.UnitsOfTerminated | selpg.go:104-105 | input made of complete delimiter-terminated pieces splits into exactly those pieces, plus an empty final unit |
| Selector.PageOfDiv | selpg.go:112-116 | unit i lies on page i / perPage + 1 |
| Selector.KeptRange | selpg.go:109-111 | a unit is kept exactly when its 0-based index lies in [(start-1)*perPage, (end-1)*perPage) |
| Selector.GatherRange | selpg.go:102-120 | the kept units form the single run from the first unit of page start to the last unit of page end-1, cut off at the end of the input |
| Selector.StopCount | selpg.go:98-100 | the scan reads at least one unit and never more than the input holds |
| Selector.StopTest | selpg.go:117-119 | the exit test first holds after exactly StopCount units |
| Selector.GatherUpToStop | selpg.go:117-119 | no unit after the stop point would have been output, so stopping early loses nothing |
| Selector.LineStep | selpg.go:112-116 | the line counter wraps to 1 and the page counter advances exactly when a page's last line is read |
| Selector.SelectByFormFeed | selpg.go:87-101 | the form-feed loop outputs exactly the chunks on pages [start, end) and reads exactly the first StopCount chunks |
| Selector.SelectByLines | selpg.go:102-120 | the line loop keeps 1 <= lineCounter <= pageLength, outputs exactly the lines on pages [start, end) and reads exactly the first StopCount lines |
| Selector.ProcessInput | selpg.go:87-121 | the scan outputs Selection and consumes exactly Consumed, in either mode |
| Selector.Run | selpg.go:177-178 | a validation error is passed through and no page is output; otherwise the output is Selection of the validated request |
| Selector.SelectionPages | selpg.go:94-96 | the output is the concatenation of the units with index in [(start-1)*perPage, (end-1)*perPage), clipped to the input |
| Selector.SelectionIsSlice | selpg.go:94-96 | the output is one contiguous slice of the input |
| Selector.SelectionEndsConsumed | selpg.go:98-100 | the output is a suffix of what the scan read: the scan stops right after the last selected unit |
| Selector.EmptyRangeSelectsNothing | selpg.go:109-111 | start == end outputs nothing |
| Selector.FilledUnitsShape | selpg.go:89-90 | the units that hold bytes are exactly those before FilledUnits; only a final unit can be empty |
| Selector.PageCountBounds | selpg.go:112-116 | PageCount is the least number of pages that holds every unit with bytes |
| Selector.PageCountOfUnits | selpg.go:104-105 | input of complete pieces has as many filled units as pieces, and the matching number of pages |
| Selector.StartPastLastPageSelectsNothing | selpg.go:109-111 | a start page beyond the last page that holds bytes outputs nothing, and no error is raised |
| Selector.StartOnFilledPageSelectsSomething | selpg.go:109-111 | a non-empty range whose start page holds bytes outputs something |
| Selector.SelectionEmptyExactly | selpg.go:109-111 | the output is empty exactly when start == end or the start page is past the last page that holds bytes |
| Selector.SelectionOfUnits | selpg.go:102-120 | when the input splits into pieces plus an empty last unit, the output is the run of pieces on pages [start, end) |
| Selector.SelectionOfTerminated | selpg.go:102-120 | for input made of complete lines (or chunks), the output is the run of those lines (or chunks) on pages [start, end) |
| Fixtures.Decimal | test/genTestFile.go:17 | strconv.Itoa of a natural number is a non-empty string of ASCII digits with no leading zero |
| Fixtures.DecimalValue | test/genTestFile.go:17 | reading the digits of Decimal(n) back gives n |
| Fixtures.NumberedUnits | test/genTestFile.go:15-25 | the generated files read back as their numbered lines (or chunks), plus an empty final unit |
| Fixtures.LinePage | selpg.go:102-120 | at 72 lines a page, page p of complete lines is lines 72(p-1)+1 .. 72p |
| Fixtures.ChunkPages | selpg.go:88-101 | with -f, pages [start, end) of complete chunks are chunks start .. end-1 |
| Fixtures.FirstPageOfLines | test/genTestFile.go:15-19 | selpg --s 1 --e 2 on test-pageLength outputs the lines "1" .. "72" |
| Fixtures.SecondPageOfLines | test/genTestFile.go:15-19 | selpg --s 2 --e 3 on test-pageLength outputs the lines "73" .. "144" |
| Fixtures.FormFeedFixtureHasFivePages | test/genTestFile.go:21-25 | test-formFeed holds five pages, and selpg --s 6 -f on it outputs nothing |
| Fixtures.FormFeedPagesTwoAndThree | test/genTestFile.go:21-25 | selpg --s 2 --e 4 -f on test-formFeed outputs "2\f3\f" |

## Left out

- Flag parsing with pflag, the defaults it supplies, and `Usage` (selpg.go:155-175) are not modelled. The parsed `SelpgArgs`, the positional arguments and the raw tokens are parameters.
- `panic`, `recover` and `os.Exit(1)` (selpg.go:35-40, 67-70) are not modelled. Each panic is an `ArgError` value, and its message text is not modelled.
- On a validation error the source prints the panic message to standard output with `fmt.Println` (selpg.go:37), not to standard error. `Run` returns the error value instead, so this printed message is not modelled.
- Opening the input (selpg.go:72-85) is not modelled: the input is a byte-sequence parameter. Choosing between standard input and the file named by `inputFile` is left out, and so is a failed `os.Open`.
- Read errors other than EOF (selpg.go:91-93, 106-108) are left out: the modelled reader never fails.
- The loop that drains standard input after the scan (selpg.go:123-133) is left out. It only discards bytes. `ProcessInput` returns how many bytes the scan itself consumed.
- Writing to standard output (selpg.go:136) is not modelled. `Run` returns the buffer instead.
- The `lp` spooler branch (selpg.go:138-152) is not modelled. It is external process I/O, so `destination` is carried but never used. In the source, its error tests at selpg.go:142 and 148 are inverted: they exit when the call succeeds.
- Go's 64-bit `int` is modelled as unbounded `int`. The flags are only compared, and the page counter never exceeds the number of units read plus 1, so it cannot wrap for any real input.
- Writing the fixture files to disk (test/genTestFile.go:27-28) is not modelled. Their contents are modelled as values.
