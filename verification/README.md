# Jeopardy board — a verified model

This project models the core of a browser trivia game, `app.js`. The game draws
six categories from a trivia web service and five clues for each. It lays them
out as a table of "?" cells. Clicking a cell first reveals the clue's question,
then its answer, and any further click is ignored. A restart draws a fresh board.

The model has one Dafny module per concern:

- `Wrappers`: the `Option` type.
- `Sampling`: `_.sampleSize`, modelled by the positions it draws.
- `CellIds`: the cell id format `${catIdx}-${clueIdx}`, its parsing with `split("-")`, and the array-key lookup.
- `Board`: the data (`Category`, `Clue`, the `showing` state), `getCategoryIds`, `getCategory`, and the board gathered by `setupAndStart`'s loop.
- `Reveal`: the `handleClick` state machine, on one clue and on the whole board.
- `Table`: the table body as rows of cells (`id`, `text`), and `$("#id").html(msg)`.
- `Game`: the class `GameState`, holding the module-level board `categories` and the page's table. Its methods `FillTable`, `HandleClick` and `SetupAndStart` update them in place. A `Shows` predicate states that the page displays the board: a successful `SetupAndStart` establishes it and `HandleClick` preserves it.

Inputs that come from outside the program are passed in as parameters:

- The listing of `categories?count=100` is an `Option`, where `None` means the request failed.
- The answers to the `category?id=` requests are a sequence with one entry per request, in the order the loop sends them. Each entry maps a category id to the response that request would get, and an id missing from it makes that request fail. So two requests for the same id can get different clue draws, or one can fail while the other succeeds. A request past the end of the sequence fails.
- Each `_.sampleSize` call is represented by the positions it drew. `ValidPicks` states what lodash promises about them: `min(k, n)` distinct, in-range positions.

Three behaviours of the code that the model reproduces as written, although a reader might expect an all-or-nothing setup:

- A failed category request aborts `setupAndStart` after `categories = []`. The board is left holding the categories fetched so far (not reset to empty, and not the old board), and the old table stays on the page.
- Getting fewer clues than `NUM_CLUES_PER_CAT` is not an error. The category is simply shorter. `fillTable` still draws five rows of "?", and clicking a cell with no clue throws and changes nothing.
- With fewer than `NUM_CATEGORIES` ids, `fillTable` throws while reading the missing title. At that point it has already emptied the header, and the previous body stays on the page.

## Model

| member | source | states |
|---|---|---|
| `Sampling.SampleSize` | app.js:55 | The sample has one element per drawn position: the pool's element at that position, in the order drawn. |
| `Sampling.SampleOfPool` | app.js:74 | A valid draw has `min(k, pool size)` elements, exactly `k` when the pool is large enough. Every element comes from the pool, and there are no repeats when the pool has none. |
| `CellIds.NatToString` | app.js:106 | The numeral written into a cell id is canonical: non-empty, all digits, and with no leading zero. It starts with '0' exactly when the number is 0. |
| `CellIds.DigitsValueOfNatToString` | app.js:106 | The digits of an index's numeral denote that index. |
| `CellIds.NatToStringOfDigitsValue` | app.js:123 | A canonical numeral is exactly the numeral of the number it denotes. |
| `CellIds.ParseIndex` | app.js:123 | A key addresses an element if and only if it is a canonical numeral, so "01", "" or "x" address nothing. When it does, the key is exactly the numeral of the index it addresses. |
| `CellIds.NatToStringInjective` | app.js:106 | Two indices have the same numeral if and only if they are equal. |
| `CellIds.ParseIndexOfNatToString` | app.js:123 | Reading an index's numeral back as an array key yields that index. |
| `CellIds.Split` | app.js:122 | `split` with a one-character separator gives at least one piece. No piece contains the separator, and joining the pieces with it gives back the string. |
| `CellIds.SplitJoin` | app.js:122 | Splitting undoes joining pieces that are free of the separator. |
| `CellIds.CellId` | app.js:106 | The id of cell `(c, q)` has a "-" right after the numeral of `c`. How it splits and decodes is stated by `SplitCellId`, `CellIdRoundTrip` and `CellIdInjective`. |
| `CellIds.DecodeCell` | app.js:122-123 | An id decodes if and only if its first two pieces on "-" are both canonical numerals. It then decodes to the indices those pieces are the numerals of. Any further pieces are ignored. |
| `CellIds.SplitCellId` | app.js:122 | Splitting the id of cell `(c, q)` on "-" gives exactly the two numerals `[c, q]`. |
| `CellIds.CellIdRoundTrip` | app.js:106 | Decoding the id `fillTable` gives cell `(c, q)` yields `(c, q)`. |
| `CellIds.CellIdInjective` | app.js:103-107 | Two cell ids are equal if and only if their coordinates are equal. |
| `CellIds.DecodeCellSound` | app.js:138 | When an id decodes to `(c, q)`, the selector `${catId}-${clueId}` rebuilt from its pieces is the id of cell `(c, q)`. An id of exactly two pieces is that id itself. |
| `Board.NormaliseAll` | app.js:75-79 | The clues are mapped one-to-one and in order, with the same question and answer and `showing` null. |
| `Board.GetCategory` | app.js:70-82 | The category keeps the response's title. It has one clue per drawn position, the `i`-th being the drawn clue's question and answer, hidden. |
| `Board.GetCategoryShape` | app.js:74-81 | With a valid draw, a category has `min(5, clues available)` clues, exactly 5 when the service has at least 5. Every clue comes from the response. |
| `Board.Ids` | app.js:54 | The listing's ids, one per entry, in order. |
| `Board.CategoryIds` | app.js:51-56 | The `i`-th id is the id of the listing entry at the `i`-th drawn position. |
| `Board.CategoryIdsShape` | app.js:55 | With a valid draw, there are `min(6, listing size)` ids, all from the listing, and pairwise distinct when the listing's ids are. |
| `Board.Gather` | app.js:163-167 | The board the loop builds has at most one category per id and per request answered. |
| `Board.GatherFrom` | app.js:165-167 | From the `i`-th request on, the loop first pushes the category that request returns for `ids[i]`, or stops the board there when that request fails. |
| `Board.GatherComplete` | app.js:163-167 | The rebuilt board is complete if and only if every request succeeded. Every clue on it is hidden, whatever the previous board was. |
| `Board.GatherShape` | app.js:163-167 | The `i`-th category of the rebuilt board is the `i`-th request's response for the `i`-th id. |
| `Board.SetupShape` | app.js:160-167 | With a listing of at least 6 entries, a valid sampler, and each of the 6 requests answering the id drawn for it with at least 5 clues, the board has 6 categories for the 6 drawn ids. They are in draw order, each is titled by its own request's response, and each has 5 hidden clues. The ids are distinct when the listing's are. |
| `Reveal.Click` | app.js:126-135 | A click leaves the question and answer alone. It writes text if and only if the clue was not on its answer. When it writes, the state moves exactly one step forward and the text is what the new state shows. When it does not, the clue is unchanged. |
| `Reveal.ClicksAdvance` | app.js:126-135 | After `n` clicks a clue's state rank is `min(2, rank + n)` and its texts are unchanged, so the state never moves back. |
| `Reveal.RevealSequence` | app.js:112-135 | From null, the first click shows the question, the second the answer, and every later click is ignored while the clue stays on its answer. |
| `Reveal.UpdateClue` | app.js:123-131 | Only the addressed clue changes. Every other clue, every title and every category's size stay the same. |
| `Reveal.CellText` | app.js:126-135 | A hidden clue's cell shows "?" (as `fillTable` writes it); a revealed clue's cell shows its question or its answer. `ClickCell` and `RevealSequence` state which text each click shows. |
| `Reveal.Locate` | app.js:122-123 | The lookup finds a clue if and only if the id decodes to the coordinates of a clue on the board, and then it finds exactly that clue. |
| `Reveal.LocateCellId` | app.js:122-123 | The id of cell `(c, q)` finds clue `(c, q)` exactly when the board has it, and nothing otherwise. |
| `Reveal.ClickBoard` | app.js:120-135 | After a click the board has advanced: same shape, titles and texts, and no state moved back. Every clue other than the one the id finds is unchanged, and an id that finds no clue leaves the board unchanged. |
| `Reveal.ClickLocated` | app.js:122-138 | For any id that finds clue `(c, q)`, including ids with further pieces such as "0-0-x": null becomes "question" and the question is written to the element `CellId(c, q)`. "question" becomes "answer" and the answer is written. "answer" is a no-op. |
| `Reveal.ClickOutcome` | app.js:120-138 | A click fails (throws) if and only if the id finds no clue. |
| `Reveal.ClickCell` | app.js:126-138 | Clicking cell `(c, q)`: null becomes "question" and the question is written to that cell. "question" becomes "answer" and the answer is written. "answer" is a no-op, and a cell with no clue fails with no change. |
| `Reveal.ClicksNeverRegress` | app.js:126-135 | No sequence of clicks moves any clue's state back or alters a title, question or answer. |
| `Table.SetTextInRow` | app.js:138 | Only the first cell carrying the id gets the text. A row without that id is unchanged. |
| `Table.SetText` | app.js:138 | Only the first cell carrying the id, searching rows in order, gets the text. If no cell has the id, nothing changes. |
| `Table.GridIdsDistinct` | app.js:103-107 | Every cell of the laid-out grid has a distinct id. |
| `Table.SetTextOnGrid` | app.js:138 | On the laid-out grid, writing to the id of cell `(c, q)` changes exactly row `q`, column `c`. The id of a cell outside the grid changes nothing. |
| `Game.PlaceholdersShowHiddenBoard` | app.js:96-107 | A fresh grid of "?" under the right titles shows a board whose clues are all hidden. |
| `Game.ClickKeepsShowing` | app.js:120-138 | When the page shows the board, it still does after a click. The written cell is the clicked clue's own cell, and the text is what its new state shows. |
| `Game.RevealKeepsShowing` | app.js:126-138 | Revealing clue `(c, q)` and writing the revealed text into the cell of `(c, q)` keeps the page showing the board. |
| `Game.GameState.constructor` | app.js:43 | The game starts with an empty board and an empty table. |
| `Game.GameState.FillTable` | app.js:92-110 | Succeeds if and only if there are at least 6 categories. The header then holds the first 6 titles, and the body holds 5 rows of 6 "?" cells with ids `${c}-${q}`, which show an all-hidden board. On failure the header is empty and the old body is kept. The board is never touched. |
| `Game.GameState.FindClue` | app.js:121-126 | The lookup of `categories[catId].clues[clueId]` gives exactly `Locate`: no clue whenever a piece names no element, which is where the source throws. |
| `Game.GameState.HandleClick` | app.js:120-139 | The new board is `ClickBoard` of the old one and the outcome is `ClickOutcome`. The element with the rebuilt id gets the written text. The header is unchanged, no clue moves back, and a page that showed the board still does. |
| `Game.GameState.FetchCategories` | app.js:163-167 | The loop empties the board and ends with it equal to `Gather` of the ids. It runs to the end if and only if every request succeeds, and it leaves the table alone. |
| `Game.GameState.SetupAndStart` | app.js:160-170 | A failed listing changes nothing. Otherwise the board is replaced by the gathered board, whose clues are all hidden. A failed category request keeps the old table. With all categories fetched, the game starts and the page shows the board if there are at least 6, and otherwise `fillTable` fails. |
| `Game.ScenarioBoard` | app.js:51-82 | Drawing positions 6, 0, 1, 2, 3, 4 from a listing with ids 1 to 7 gives 6 distinct ids. Every request succeeds, and the board gets 6 categories of 5 clues, the first being the hidden clue "2+2". |
| `Game.SetupScenario` | app.js:160-170 | From a listing of seven categories, the game starts with 6 categories of 5 clues each. The page shows the board, and the first cell holds the hidden clue "2+2". |
| `Game.ClickScenario` | app.js:120-139 | Clicking that cell three times shows "2+2", then "4", then is ignored, and the clue ends on its answer. |

## Left out

- HTTP through `axios.get` (app.js:53, 71) is not modelled. Each request is reduced to "answered with this body" or "failed", and the reasons for failure are not distinguished.
- Malformed response bodies are not modelled. For example, a body without `clues` makes `_.sampleSize` return `[]`. The model takes well-formed bodies.
- The randomness of `_.sampleSize` (app.js:55, 74) is not modelled. Its drawn positions are an input, and its promise (`ValidPicks`) is assumed only by the lemmas that need it.
- jQuery and the DOM are not modelled. The header is a sequence of titles and the body is rows of (id, text) cells. `.html(msg)` is treated as writing plain text, so markup inside a question or answer is not interpreted.
- Event wiring is not modelled: the restart button and the document-ready handler (app.js:174-182). Page load is the constructor followed by `SetupAndStart`. A restart is another `SetupAndStart`, and a click on a cell is `HandleClick` with that cell's id.
- Asynchrony is not modelled. Clicks or restarts that interleave with a `setupAndStart` still waiting on the network (app.js:160-170) are not covered: each method runs to completion. The unhandled rejection of the un-awaited `fillTable` call is reported as the `TableFailed` result.
- The commented-out loading-view functions (app.js:144-151) are not modelled, because they have no code.
- `Game.GameState.HandleClick`: it treats every key that is not the numeral of an existing index as a failed lookup. In JavaScript, a clue key naming an inherited property (such as "length" or "map") does not throw. "length" leaves the board and page unchanged. "map" also writes a `showing` property onto a built-in function. No id produced by `fillTable` has such a piece.
- Array keys at or above 2^32 - 1 are not modelled. They name plain properties rather than elements, and lie far beyond the 6 × 5 grid.
