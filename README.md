# python-binary-editor: the hex grid of `bedit.py`

`bedit.py` reads a file, turns its bytes into a list of integers (each `ord`
of a byte, so 0..255) and draws them in a curses window as a grid of
hexadecimal cells. Byte `line * width + i` goes to screen row `line`, column
`3 * i`, as its two upper-case hex digits followed by a space (`rep_data`).
Only complete rows are drawn, and at most 40 of them. The program then
waits for the key `q`.

This project models that grid in Dafny:

- `hex.dfy`, module `Hex`: `rep_data`, that is `"%02X" % v`, as `RepData`.
  It is built from the shortest upper-case hex numeral (`HexDigits`),
  zero-padded to two characters. `ParseHex` reads hex text back to a number
  and serves as the inverse in a round-trip law.
- `display.dfy`, module `Display`:
  - The curses window is a `Screen` object. Its only state is the log of
    `addstr(row, col, text)` calls made on it, held as `Draw` records.
  - `display_bytes` is the method `DisplayBytes`. It keeps the source's outer
    `while` loop over `line`, its inner loop over `i` (the method
    `DisplayRow`) and its guard.
  - `DisplayBytes` is proved to append exactly `Layout(data, width)` to the
    log. `Layout` is a closed-form description of the grid: the draw for byte
    `k` is at row `k / width`, column `3 * (k % width)`, and there are
    `width * min(len / width, 40)` draws for a positive width (none for a
    negative one), in index order.
  - The lemmas about `Layout` state the grid's properties. They cover the
    number of rows and draws, the trailing partial row, bounds, which cell
    each byte gets, that no two cells overlap, row-major order, that cells on
    a row touch, and that the drawn text decodes back to the data.
- The data list is a `seq<Byte>`, where `Byte` is a natural number below 256
  (bedit.py:35). A Dafny sequence is a value, so `display_bytes` cannot
  modify it.
- Python 2's `/` on integers rounds toward minus infinity. It is written out
  as `FloorDiv`, because Dafny's `/` rounds differently for a negative
  divisor.
- The row width is any non-zero integer. A negative width draws nothing,
  just as in Python. A zero width makes `len(data) / width` raise
  `ZeroDivisionError` before anything is drawn, so `DisplayBytes` requires
  `width != 0`.

`bedit.py` has no cursor, grouping, endianness, editing or saving, so only
the grid and the hex formatting are modelled.

## Model

| member | source | states |
|---|---|---|
| `Hex.HexChar` | bedit.py:13 | the upper-case hex digit of a value below 16; `DigitValue` reads that digit back as the same value |
| `Hex.HexDigits` | bedit.py:13 | the `%X` numeral has at least one character, only hex digits, exactly one digit iff the value is below 16, and no leading zero for a positive value |
| `Hex.RepData` | bedit.py:12-13 | `rep_data(v)` has at least two characters, all upper-case hex digits |
| `Hex.RepDataByte` | bedit.py:12-13 | for a byte value `v` the text is exactly the digit of `v / 16` followed by the digit of `v % 16`, zero-padded |
| `Hex.RepDataLength` | bedit.py:12-13 | `rep_data(v)` is two characters long if and only if `v < 256` |
| `Hex.RepDataRoundTrip` | bedit.py:12-13 | reading the text of `rep_data(v)` as hex gives back `v`, for every non-negative `v` |
| `Hex.RepDataInjective` | bedit.py:12-13 | two values have the same text if and only if they are equal |
| `Display.Screen.AddStr` | bedit.py:22 | `scr.addstr(row, col, text)` appends exactly that one draw to the screen's log |
| `Display.FloorDiv` | bedit.py:18 | Python 2 integer `/`: the quotient rounded toward minus infinity, for either sign of divisor |
| `Display.DrawnRowsValue` | bedit.py:18 | the outer loop runs `min(len / width, 40)` times for a positive width, and never for a negative one |
| `Display.DisplayBytes` | bedit.py:15-23 | `display_bytes` appends exactly `Layout(data, width)` to the log and changes nothing else on the screen |
| `Display.DisplayRow` | bedit.py:19-22 | one pass of the `for i` loop appends exactly the row's `width` cells to the log, column i showing byte `line * width + i` at column `3 * i`, whatever the log held before |
| `Display.DisplayFile` | bedit.py:39 | `bedit_main` draws the data sixteen bytes to a row |
| `Display.GuardHolds` | bedit.py:18-21 | on every drawn row the guard `line * width + i < len(data)` is true for every column, so every index read is in bounds |
| `Display.LayoutShape` | bedit.py:18-19 | the number of draws is `width * min(len / width, 40)`, none for a negative width, and every drawn row is between 0 and 39 |
| `Display.LayoutFullRowsOnly` | bedit.py:18 | at most `len - len % width` bytes are drawn, and exactly that many when there are no more than 40 full rows |
| `Display.PartialRowNeverDrawn` | bedit.py:18-20 | nothing is drawn on the row of any byte of the trailing partial row |
| `Display.LayoutCellAt` | bedit.py:19-22 | byte `line * width + i` of a drawn row is drawn at row `line`, column `3 * i`, with text `rep_data(byte) + ' '` |
| `Display.LayoutAddress` | bedit.py:19-22 | a draw's row and column give back its byte index: `row * width + col / 3`, with `col` a multiple of 3 below `3 * width` |
| `Display.LayoutCellsDistinct` | bedit.py:19-22 | two different byte indices never share a (row, column) cell |
| `Display.LayoutOrdered` | bedit.py:16-23 | draws come in row-major order of increasing byte index, and on one row an earlier cell's text ends at or before a later cell's column |
| `Display.LayoutContiguous` | bedit.py:19-22 | each row starts at column 0, and a cell's three characters end exactly where the next cell on the same row begins |
| `Display.LayoutFitsGrid` | bedit.py:18-22 | every draw lies within rows 0..39 and columns 0..`3 * width - 1` |
| `Display.LayoutDecodes` | bedit.py:22 | the k-th draw's text is three characters: two hex digits that read back as `data[k]`, then a space |

## Left out

- `read_file` (bedit.py:6-10) is not modelled, because it is file I/O. The data arrives as a parameter that is already a sequence of bytes.
- The `sys.argv` handling in `bedit_main` (bedit.py:31-33) is not modelled, because it is process plumbing. That includes the failure on the undefined `data` when no argument is given, and the `read file:` status line.
- curses setup and teardown are not modelled, because they are terminal plumbing that changes no modelled state. This covers `curses.wrapper`, `scr.clear`, `scr.refresh` and `scr.getkey` (bedit.py:29, 41-53). The key loop only waits for `q` and draws an empty string at (0, 0).
- The debug `print` statements (bedit.py:17, 21) are not modelled, because they are console output with no effect on the grid.
- `Display.Screen.AddStr` accepts any position. A real curses window raises an error when text falls outside it, and that is not modelled.
- `Hex.RepData` takes only non-negative values, because every element comes from `ord`. The `-` sign that `%02X` gives a negative number is not modelled.
- `Display.DisplayRow` is the inner `for` loop of `display_bytes` written as a method of its own. The loop, its guard and its draws are unchanged.
- `Display.DisplayBytes` requires `width != 0`, so the `ZeroDivisionError` that bedit.py:18 raises for a zero width is not modelled as an error path; nothing is drawn before that error in the source.
