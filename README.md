# drawtable — a Dafny model of the table generator's core

drawtable.js turns an N×N form of text fields and a title field into a
picture of a table. `generateTableHTML` sizes the cells from the viewport.
It splits the title into one paragraph per line and emits N rows of N cells
in row-major order. Each cell gets a font size from `calculateFontSize`.
`generateRandomTable` collects the trimmed field values row by row and
shuffles them in place with Fisher–Yates (`shuffleArray`). It then writes
them back, in document order, into the cells of a table whose sizes were
computed from the unshuffled values.

The model has five modules:

- `Text`: JavaScript's `length` in UTF-16 code units, `trim()` over the
  ECMAScript WhiteSpace and LineTerminator set, and `split('\n')` with its
  inverse `join('\n')`.
- `Grid`: square grids and their row-major reading.
- `Sizing`: cell size, table size, base font size and `calculateFontSize`,
  all on exact reals. `Math.sqrt` is a parameter, assumed positive on
  positive arguments. Monotonicity additionally assumes it increasing.
- `Shuffle`: the in-place Fisher–Yates loop on an `array<string>`. The
  random draws are an input `js`, with `js[i] <= i`. It is specified by the
  function `ShuffleState`, the contents when the loop index is `i`.
- `DrawTable`: the title block, the two nested loops of `generateTableHTML`,
  the collecting loop, the `forEach` that writes the shuffled values back,
  and `generateRandomTable`.

The form fields are an explicit `seq<seq<string>>`, the title field a
string, and the viewport a width and a height. The output is a `Table`
value: the sizes, the title paragraphs, and rows of cells. Each cell holds
its content and its font size, not the HTML/CSS text.

## Model

| member | source | states |
|---|---|---|
| Text.Utf16Length | drawtable.js:4 | `length` counts one or two code units per character: between \|s\| and 2·\|s\|, and exactly \|s\| when no character is above U+FFFF |
| Text.Utf16Char | drawtable.js:4 | a single character above U+FFFF counts two code units, any other counts one |
| Text.Utf16Append | drawtable.js:4 | the length of a concatenation is the sum of the lengths, so with Utf16Char it is fixed for every string |
| Sizing.FontSizeForLength | drawtable.js:1-10 | up to 16 code units the base font size is returned unchanged; above 16 the result is `Math.max(base / sqrt(len·1.2/16), 10)`: at least both, and equal to one of them |
| Sizing.CalculateFontSize | drawtable.js:1-10 | the same two cases, stated on the content's UTF-16 length |
| Sizing.FontSizeDependsOnLength | drawtable.js:1-10 | contents of equal length get equal font sizes, whatever the (unused) cellSize argument |
| Sizing.FontSizeMonotone | drawtable.js:8-9 | above 16 code units the size never grows with the length; it strictly shrinks while above the 10 px floor, and stays at the floor once there |
| Sizing.CellSize | drawtable.js:18-19 | the cell size is the largest whole number c with c·N ≤ 0.7·min(w, h) |
| Sizing.ComputeLayout | drawtable.js:18-24 | width = height = cellSize·N, which fits 0.7·min(w, h) and misses it by less than N; base font = cellSize / 5 |
| Sizing.WorkedExample | drawtable.js:18-24 | w = 1000, h = 800, N = 3 gives cell size 186, table side 558 and base font 37.2, which a one-character cell keeps |
| Text.Split | drawtable.js:27 | `split('\n')` yields one more piece than there are '\n' characters, and no piece contains '\n' |
| Text.JoinSplit | drawtable.js:27-29 | joining the pieces with '\n' gives back the title text |
| Text.SplitJoin | drawtable.js:27-29 | splitting '\n'-free lines joined with '\n' gives back exactly those lines |
| DrawTable.TitleBlock | drawtable.js:27-29 | one paragraph per line, in order: newline count + 1 paragraphs, none containing '\n', whose texts join back to the title |
| DrawTable.TitleBlockOfLines | drawtable.js:27-29 | a title built from '\n'-free lines yields exactly those lines as paragraphs |
| DrawTable.GenerateTableHTML | drawtable.js:12-89 | sizes as ComputeLayout, title as TitleBlock, exactly N rows of exactly N cells, and cell (i, j) holds field (i, j) with its calculateFontSize size |
| Grid.RowMajor | drawtable.js:76-86 | the row-major reading of a square grid has N·N entries |
| Grid.RowMajorEntry | drawtable.js:76-86 | entry (i, j) sits at index i·N + j of the row-major reading |
| Grid.RowMajorAt | drawtable.js:213-216 | index k of the row-major reading holds entry (k / N, k % N) |
| DrawTable.EmissionOrder | drawtable.js:76-86 | the k-th cell emitted holds field (k / N, k % N) with that field's font size |
| Text.TrimStart | drawtable.js:197 | leading trim drops a whitespace prefix and leaves a suffix starting with non-whitespace, or nothing |
| Text.TrimEnd | drawtable.js:197 | trailing trim drops a whitespace suffix and leaves a prefix ending with non-whitespace, or nothing |
| Text.Trim | drawtable.js:197 | `trim()` is empty exactly when the value is all whitespace; otherwise it neither starts nor ends with whitespace |
| Text.TrimStartDrops | drawtable.js:197 | leading trim removes exactly a maximal whitespace prefix |
| Text.TrimEndDrops | drawtable.js:197 | trailing trim removes exactly a maximal whitespace suffix |
| Text.TrimIsCore | drawtable.js:197 | `trim()` returns exactly the part between a whitespace prefix and a whitespace suffix when that part has non-whitespace ends |
| DrawTable.CellText | drawtable.js:197-198 | a collected entry is never empty; it is " " exactly when the value is all whitespace, and the trimmed value otherwise |
| DrawTable.CollectedCells | drawtable.js:192-200 | the collected list has N·N entries, none empty |
| DrawTable.CollectedCellAt | drawtable.js:194-200 | field (i, j) is collected at index i·N + j, as its trimmed value or " " |
| DrawTable.CollectCells | drawtable.js:192-200 | the nested push loop builds exactly CollectedCells |
| Shuffle.Swap | drawtable.js:186 | the swap exchanges the entries at i and j and leaves every other entry unchanged |
| Shuffle.SwapPermutes | drawtable.js:186 | a swap keeps the multiset of entries |
| Shuffle.ShuffleStepLocal | drawtable.js:184-187 | one iteration at index p exchanges positions p and js[p] ≤ p and changes nothing else |
| Shuffle.ShuffleStatePermutes | drawtable.js:184-187 | every intermediate state of the loop is a permutation of the input |
| Shuffle.ShuffledPermutes | drawtable.js:183-188 | the result has the input's length and multiset of entries |
| Shuffle.ShuffleSettles | drawtable.js:184-187 | once the iteration at index k is over, position k is never written again |
| Shuffle.ShuffledSettled | drawtable.js:184-187 | the final entry at k ≥ 1 is the one iteration k left there |
| Shuffle.ShortUnchanged | drawtable.js:184 | an array of length at most one is left as it is |
| Shuffle.UniformUnchanged | drawtable.js:184-187 | shuffling an array whose entries are all equal leaves it as it is |
| Shuffle.ShuffleArray | drawtable.js:183-188 | the in-place loop leaves exactly Shuffled(old contents, js), a permutation of the old contents, and leaves length ≤ 1 arrays unchanged |
| DrawTable.Refill | drawtable.js:213-216 | after the `forEach` the k-th div shows cells[k] and keeps its font size |
| DrawTable.GenerateRandomTable | drawtable.js:190-216 | the table is laid out from the unshuffled fields; the shown cells, in document order, carry the shuffled collected list and a permutation of it, with the layout's font sizes |
| DrawTable.ShownFontAt | drawtable.js:202-216 | the div showing shuffled entry i·N + j keeps the font size computed for field (i, j), whatever text it now shows |

## Left out

- DOM access (`getElementById`, `innerHTML`, `querySelectorAll`, creating and removing elements) becomes explicit parameters and return values. The viewport size `window.innerWidth`/`innerHeight` becomes the parameters w and h.
- `generateImageFromTable` is not part of this model. It relies on canvas, the foreign `html2canvas` library, an asynchronous promise, the device pixel ratio and layout measurements.
- `generateForm` is not part of this model; it only builds the input form.
- `Math.random` becomes the caller-supplied choices `js`. The uniformity of the shuffle is a probabilistic claim and is not stated.
- The title font size and line height (lines 60 and 66) are not modelled. They use fractional powers (`**0.33`, `**0.5`) of the title row count in floating point.
- Number-to-string formatting of `px` values and the literal CSS and HTML text are not modelled; the output is the table's structure.
- The HTML interpretation of user content written through `innerHTML` is not modelled. Contents are plain strings.
- Validation of N is not modelled. `parseInt` can yield NaN or 0 and the code does not check it, so the operations that divide by N or build the table require N ≥ 1: `CellSize`, `ComputeLayout`, `GenerateTableHTML` and `GenerateRandomTable` (and the lemmas about them).
- The `cells` argument passed to `generateTableHTML` at line 203 is not modelled, because the function takes one parameter and ignores it. The model passes the raw field values, as the function itself reads them.
- Sizes are exact reals, not IEEE doubles. `0.7 * min / N` and the font-size division are computed exactly, so a floating-point rounding of `0.7·min(w, h)/N` just below a whole number is not modelled.
- Sizing.FontSizeForLength: `Math.sqrt` is an abstract parameter positive on positive arguments, so the exact scaled value is stated only as base / sqrt(len·1.2/16).
- Sizing.FontSizeMonotone: requires the square-root parameter to be increasing on positive arguments, which `Math.sqrt` is but the model does not derive.
- Text.Utf16Length: strings are sequences of Unicode scalar values, so lone surrogates in a JavaScript string are not representable.
- `generateRandomTable` reads N from the form once; the model takes N as a parameter shared by both passes.
