# dune_ledger_bot core, modelled in Dafny

This project models the bookkeeping core of `dune_ledger_bot`, a Discord bot
that a Dune: Awakening guild uses to track crafting materials in Google
Sheets. The modelled parts are:

- **`/request`** (`commands/request.rs`). A member opens a crafting request
  with `start`. They paste a resource list with `bulk_add`: it is sanitised
  and scanned for `<amount> <name>` pairs, and water is converted into corpses
  (45 000 water per corpse, rounded down). `update` compares the request with
  the inventory. `finish` writes the request to the request sheet, one row
  per line. Open requests live in `IN_FLIGHT`, a registry keyed by user.
- **`utils/sheets.rs`**. It builds resource lookup keys
  (`normalize_resource_key`). It folds the inventory and request sheets into
  maps. It settles a request in `complete_request`: an all-or-nothing stock
  check, a debit of the stock, and marking the request's rows completed.
- **`/submit`** (`commands/submit.rs`). It merges a donation into the ledger
  sheet.

The project has these modules:

- `Text`: Rust string and number behaviour. This covers Unicode whitespace,
  `trim`, `trim_matches`, `replace`, ASCII lower-casing, `u64`/`i32`
  formatting and parsing.
- `Cells`: sheet cells as `serde_json::Value`, and their `to_string` with
  JSON escaping.
- `Sheets`, `Resources`, `Reconcile`, `InFlight` and `Submit`: one module per
  part of the core.
- `Partition`: the one-pass split that `compute_completed_remaining` performs,
  written once for any element type.
- `Maps`: one fact about map updates that the registry proofs use.

Sheets and Discord calls are not modelled. Each operation takes the rows a
read would return, and the ids Discord or `Uuid` would supply, as
parameters. It returns what would be written or replied.

The sanitiser turns `" x "` into a single space, not into nothing, so
that `50 x Iron Ore` reads as `50 Iron Ore` and still matches the pattern.

The model follows the code, including four behaviours that look
unintended. Each item gives what the code does and then what a reader
would expect:

- `normalize_resource_key` strips every leading and trailing quote. The
  expected behaviour is to strip one layer of quotes.
- The key function is not idempotent (`Sheets.NormalizeNotIdempotent`).
  Keying a key should leave it unchanged.
- Settling a request twice debits the stock twice, because the status cell
  is never read (`Sheets.MarkingKeepsRequest`). A completed request should
  not be settled again.
- The product name loaded back from the request sheet is the JSON rendering
  of the cell, quotes included (`InFlight.FinishRowsProduct`). It should be
  the name as written.

## Model

| member | source | states |
|---|---|---|
| Sheets.Normalize | dune_ledger_bot/src/utils/sheets.rs:118-124 | the key has no whitespace at either end and is never longer than the name |
| Sheets.NormalizeShape | dune_ledger_bot/src/utils/sheets.rs:118-124 | a key holds no non-breaking space and no upper-case ASCII letter |
| Sheets.NormalizeFixedPoint | dune_ledger_bot/src/utils/sheets.rs:118-124 | a string is its own key exactly when it is trimmed, lower-case, has no non-breaking space and no quote at either end (both directions) |
| Sheets.UnquoteQuoted | dune_ledger_bot/src/utils/sheets.rs:119 | a name wrapped in one pair of quotes has the same key as the bare name |
| Sheets.NormalizeNotIdempotent | dune_ledger_bot/src/utils/sheets.rs:118-124 | `" \"Water\" "` keys to `"water"` with its quotes, which keys again to `water`: normalizing twice differs from once |
| Sheets.NormalizeTwice | dune_ledger_bot/src/utils/sheets.rs:118-124 | normalizing a key again changes nothing exactly when the key neither starts nor ends with a quote |
| Sheets.AmountOf | dune_ledger_bot/src/utils/sheets.rs:50-55 | a non-string cell, or text that is not a `u64` after trimming, reads as 0 |
| Sheets.AmountOfRoundTrip | dune_ledger_bot/src/utils/sheets.rs:105-110 | an amount written with `to_string` reads back as itself |
| Sheets.CellKey | dune_ledger_bot/src/utils/sheets.rs:49 | the key of a cell's `to_string` rendering is trimmed |
| Sheets.LoadedKeyNotFixed | dune_ledger_bot/src/utils/sheets.rs:103-104 | the cell text `x" ` loads under the key `x\"`, which is not its own key: the debit's second normalization looks up `x\` |
| Sheets.LoadInventory | dune_ledger_bot/src/utils/sheets.rs:42-58 | the loop builds exactly the inventory fold: rows shorter than two cells are skipped, each other row stores the key of cell 0 and the amount of cell 1 |
| Sheets.InventoryOfKeys | dune_ledger_bot/src/utils/sheets.rs:44-57 | a key is in the inventory exactly when some row of two or more cells names it |
| Sheets.InventoryOfLastWins | dune_ledger_bot/src/utils/sheets.rs:44-57 | a key's stock is the amount in the last row naming it |
| Sheets.LoadRequest | dune_ledger_bot/src/utils/sheets.rs:90-115 | the loop builds exactly the request fold: rows with fewer than five cells or another id are skipped, the product is taken once, each line stores key and amount |
| Sheets.RequestOfNone | dune_ledger_bot/src/utils/sheets.rs:94-97 | with no row of the id, the product is empty and no line is loaded |
| Sheets.RequestOfProduct | dune_ledger_bot/src/utils/sheets.rs:99-101 | the product is the rendering of cell 1 of the first row of the id |
| Sheets.RequestOfKeys | dune_ledger_bot/src/utils/sheets.rs:94-113 | a key is requested exactly when some row of the id names it |
| Sheets.RequestOfLastWins | dune_ledger_bot/src/utils/sheets.rs:103-112 | duplicate names are not summed: the last row naming a key gives its amount |
| Sheets.Stock | dune_ledger_bot/src/utils/sheets.rs:160 | the stock of a missing key is 0, otherwise the stored amount |
| Sheets.AllSatisfied | dune_ledger_bot/src/utils/sheets.rs:159-161 | the guard passes for an empty request (an id with no rows settles without debiting anything); when it fails, some requested key has less stock than asked |
| Sheets.Debit | dune_ledger_bot/src/utils/sheets.rs:169-174 | when the guard holds and the requested keys are their own keys, nothing underflows, no key is added, and each requested key drops by exactly its amount while every other key is unchanged |
| Sheets.MarkRow | dune_ledger_bot/src/utils/sheets.rs:196-198 | a row of the id gets status "completed" in cell 4; every other cell and every other row is unchanged |
| Sheets.MarkCompleted | dune_ledger_bot/src/utils/sheets.rs:193-200 | the loop marks every row as `MarkRow` says, keeping all rows |
| Sheets.MarkedAt | dune_ledger_bot/src/utils/sheets.rs:193-200 | marking keeps the row count and order, row by row |
| Sheets.MarkedIdempotent | dune_ledger_bot/src/utils/sheets.rs:195-198 | marking twice is marking once |
| Sheets.MarkingKeepsRequest | dune_ledger_bot/src/utils/sheets.rs:94-97 | after marking, the same id loads the same product and lines, so a second settlement debits again |
| Sheets.CompleteRequest | dune_ledger_bot/src/utils/sheets.rs:155-200 | it refuses exactly when some requested amount exceeds its stock; under the key condition of `Debit` it succeeds with the loaded product, the debited inventory and the marked rows |
| Text.ParseU64RoundTrip | dune_ledger_bot/src/utils/sheets.rs:50-55 | `u64` `to_string` then `parse` gives the number back |
| Text.ParseI32RoundTrip | dune_ledger_bot/src/commands/submit.rs:70-77 | `i32` `to_string` then `parse` gives the number back |
| Cells.Render | dune_ledger_bot/src/utils/sheets.rs:49 | a string cell renders between two quotes |
| Cells.RenderPlain | dune_ledger_bot/src/utils/sheets.rs:103 | text without characters JSON escapes renders as itself in quotes |
| Resources.Sanitize | dune_ledger_bot/src/commands/request.rs:99-104 | the sanitised list holds no comma, hyphen, bullet or colon |
| Resources.SanitizeClean | dune_ledger_bot/src/commands/request.rs:99-104 | text with none of the four characters and no `" x "` passes through unchanged |
| Resources.SanitizeKeeps | dune_ledger_bot/src/commands/request.rs:99-104 | when no `" x "` is left once the commas are gone, every character other than the four deleted ones occurs in the output as often as in the input |
| Resources.SanitizeDropsComma | dune_ledger_bot/src/commands/request.rs:100 | a comma between two pieces of clean text just vanishes, as the thousands separator in `45,000` does |
| Resources.TimesOnce | dune_ledger_bot/src/commands/request.rs:101 | a `" x "` after text with no `x` becomes one space, and the rewrite goes on after it |
| Resources.TimesTwice | dune_ledger_bot/src/commands/request.rs:101 | two `" x "` separators between pieces with no `x` both become single spaces |
| Resources.SanitizeExample | dune_ledger_bot/src/commands/request.rs:99-104 | `"100 Iron Ore, 45000 Water"` sanitises to `"100 Iron Ore 45000 Water"` |
| Resources.TimesExample | dune_ledger_bot/src/commands/request.rs:99-104 | `"50 x Iron Ore\n2 x Spice Residue"` sanitises to `"50 Iron Ore\n2 Spice Residue"` |
| Text.DeleteCharAppend | dune_ledger_bot/src/commands/request.rs:100 | deleting a character works piece by piece: it distributes over concatenation |
| Text.ReplaceAllAbsent | dune_ledger_bot/src/commands/request.rs:101 | text in which the pattern occurs nowhere comes back unchanged |
| Text.ReplaceAllHit | dune_ledger_bot/src/commands/request.rs:101 | text starting with the pattern gets the replacement, then the rest is rewritten |
| Text.ReplaceOnce | dune_ledger_bot/src/commands/request.rs:101 | the first occurrence of the pattern is replaced, what comes before it is kept, and the rewrite resumes after it |
| Resources.MatchAt | dune_ledger_bot/src/commands/request.rs:96 | a match found at a position is a digit run, whitespace, then a letter-led run of letters and whitespace; its three groups spell out the text from that position to the match's end, and the words run stops only at the end of the text or at a character that is neither letter nor whitespace |
| Resources.MatchAtComplete | dune_ledger_bot/src/commands/request.rs:96 | wherever the text holds digits, then whitespace, then a letter, a match starts there; its groups are those digits, that whitespace and the longest run of letters and whitespace from the letter on |
| Resources.MatchOfPieces | dune_ledger_bot/src/commands/request.rs:96 | a well-formed capture spelled out in the text at a position, followed by neither a letter nor whitespace, is exactly the match found there |
| Resources.Captures | dune_ledger_bot/src/commands/request.rs:108 | every capture the scan yields has the shape of the pattern |
| Resources.SkipNoMatch | dune_ledger_bot/src/commands/request.rs:108 | positions where no match starts contribute nothing: the scan from there equals the scan from the first later position |
| Resources.FirstCapture | dune_ledger_bot/src/commands/request.rs:108 | the first capture is the leftmost match, and the scan resumes where that match ends, so matches never overlap |
| Resources.CapturesSound | dune_ledger_bot/src/commands/request.rs:108 | every capture is the match at some position of the text |
| Resources.CapturesExample | dune_ledger_bot/src/commands/request.rs:96-108 | `"100 Iron Ore 45000 Water"` yields exactly two captures: `100` with name `" Iron Ore "` and `45000` with name `" Water"` |
| Resources.ParseExample | dune_ledger_bot/src/commands/request.rs:96-130 | `"100 Iron Ore, 45000 Water"` parses to 100 `iron ore` and 45000 water, which converts to one corpse |
| Resources.NoDigitNoCapture | dune_ledger_bot/src/commands/request.rs:96 | text without a digit yields no capture |
| Resources.ParsedNameShape | dune_ledger_bot/src/commands/request.rs:110 | a parsed name is non-empty, trimmed, lower-case ASCII letters with inner whitespace only |
| Resources.ParseResources | dune_ledger_bot/src/commands/request.rs:107-112 | the loop gives exactly the parse fold of the captures of the sanitised text |
| Resources.ParseDigits | dune_ledger_bot/src/commands/request.rs:109 | a digit run parses as a `u64` exactly when its value fits |
| Resources.ParseItemsFailureSticks | dune_ledger_bot/src/commands/request.rs:109 | the first overflowing amount ends the parse; later captures change nothing |
| Resources.ParseItemsSuccess | dune_ledger_bot/src/commands/request.rs:107-112 | when every amount fits, there is one line per capture, in order, carrying the digit value and the parsed name |
| Resources.ParseItemsOverflow | dune_ledger_bot/src/commands/request.rs:109 | otherwise the parse fails naming the first digit run that does not fit |
| Resources.ParsedItemsShape | dune_ledger_bot/src/commands/request.rs:110 | every parsed line has an item name |
| Resources.ConvertLine | dune_ledger_bot/src/commands/request.rs:118-129 | water becomes `amount / 45000` corpses (at least one) or vanishes below 45000; other lines pass unchanged |
| Resources.ConvertWater | dune_ledger_bot/src/commands/request.rs:115-130 | the converted list is no longer than the parsed one and holds no water |
| Resources.ConvertWaterAppend | dune_ledger_bot/src/commands/request.rs:116-130 | conversion works line by line: it distributes over concatenation |
| Resources.ConvertWaterNoWater | dune_ledger_bot/src/commands/request.rs:126-128 | a list without water passes through unchanged |
| Resources.ConvertWaterKeepsNames | dune_ledger_bot/src/commands/request.rs:119-128 | conversion keeps every name an item name |
| Resources.Preview | dune_ledger_bot/src/commands/request.rs:142-151 | the preview has one line per parsed line, in order, water included |
| Resources.PreviewMatchesStored | dune_ledger_bot/src/commands/request.rs:115-151 | what the preview lines stand for is exactly the stored, converted list; water worth no corpse is shown but stores nothing |
| Resources.RenderPreviewLine | dune_ledger_bot/src/commands/request.rs:145-150 | every preview line renders as non-empty text |
| Resources.PreviewTrimIsNoop | dune_ledger_bot/src/commands/request.rs:152-155 | trimming trailing commas never changes a preview whose names do not end in a comma |
| Resources.PreviewText | dune_ledger_bot/src/commands/request.rs:142-155 | the preview `bulk_add` replies with is a prefix of the rendered lines joined by newlines, never ends in a comma, and is empty for an empty list |
| Reconcile.Shortfall | dune_ledger_bot/src/commands/request.rs:85-88 | a covered line is short by nothing; an uncovered one by more than nothing and at most its amount, so the subtraction never underflows |
| Reconcile.ComputeCompletedRemaining | dune_ledger_bot/src/commands/request.rs:76-92 | the loop returns exactly the covered lines and the shortfall lines, and their counts add up to the input's |
| Reconcile.PartitionLength | dune_ledger_bot/src/commands/request.rs:80-91 | every line lands in exactly one of the two lists |
| Reconcile.CompletedAt | dune_ledger_bot/src/commands/request.rs:85-86 | a covered line sits, unchanged, right after the completed lines before it (input order kept) |
| Reconcile.RemainingAt | dune_ledger_bot/src/commands/request.rs:87-88 | an uncovered line sits, with its shortfall, right after the remaining lines before it |
| Reconcile.CompletedCovered | dune_ledger_bot/src/commands/request.rs:85-86 | every completed line is a requested line that the stock covers |
| Reconcile.RemainingShort | dune_ledger_bot/src/commands/request.rs:87-88 | every remaining line names an uncovered requested line and asks for its shortfall, between 1 and the requested amount |
| Reconcile.GuardMatchesReport | dune_ledger_bot/src/utils/sheets.rs:159-161 | when the loaded request holds exactly the lines' names (each its own key) and amounts, the settlement guard passes exactly when `update` reports nothing remaining (both directions) |
| InFlight.FinishRow | dune_ledger_bot/src/commands/request.rs:308-315 | a written row has six cells, starting with the request id and with status "in_progress" in cell 4 |
| InFlight.FinishRows | dune_ledger_bot/src/commands/request.rs:306-316 | one row per stored line, in order |
| InFlight.Registry.constructor | dune_ledger_bot/src/commands/request.rs:29 | the registry starts empty |
| InFlight.Registry.Start | dune_ledger_bot/src/commands/request.rs:179-205 | with an open request, it refuses and changes nothing; otherwise it opens one for the product with no lines and the confirmation's message id |
| InFlight.Registry.BulkAdd | dune_ledger_bot/src/commands/request.rs:95-157 | an unparsable list fails first, then a missing request; otherwise the user's lines are replaced by the converted list, nothing else changes, and the preview text is returned |
| InFlight.Registry.SetResources | dune_ledger_bot/src/commands/request.rs:133-139 | the entry is taken out and put back with its lines replaced; other users' entries are untouched |
| InFlight.Registry.Update | dune_ledger_bot/src/commands/request.rs:236-242 | without an open request it fails; otherwise it reports the product with the completed and remaining lines against the loaded inventory, changing nothing |
| InFlight.Registry.Finish | dune_ledger_bot/src/commands/request.rs:274-316 | without an open request it fails; otherwise it removes the entry and returns one request-sheet row per line, each name cell holding an item name other than water |
| InFlight.StoredAfterConversion | dune_ledger_bot/src/commands/request.rs:108-130 | every stored line has an item name other than water |
| InFlight.PlainNameIsKey | dune_ledger_bot/src/utils/sheets.rs:118-124 | a name of lower-case letters and plain spaces is its own key and needs no JSON escaping |
| InFlight.PlainNameReloads | dune_ledger_bot/src/utils/sheets.rs:103-104 | such a name, written as a string cell and read back, keys to itself |
| InFlight.FinishRowsOf | dune_ledger_bot/src/commands/request.rs:307-315 | every row `finish` writes belongs to the request and carries the line's name and amount |
| InFlight.FinishRowsKeys | dune_ledger_bot/src/commands/request.rs:311 | with plain names, each written row loads under the line's name |
| InFlight.FinishRowsReload | dune_ledger_bot/src/commands/request.rs:306-316 | loading the written rows gives each line's name with the amount of the last line of that name |
| InFlight.FinishRowsProduct | dune_ledger_bot/src/commands/request.rs:310 | the product loads back as its JSON rendering, quotes included |
| InFlight.Open | dune_ledger_bot/src/commands/request.rs:179-220 | `start` then a parsing `bulk_add` leave the user with an entry holding the converted list |
| InFlight.Session | dune_ledger_bot/src/commands/request.rs:179-316 | after start, bulk_add and finish the rows are those of the converted list, a second finish returns the no-open-request failure, and the registry is as before |
| Submit.CurrentOf | dune_ledger_bot/src/commands/submit.rs:70-74 | a missing or non-string amount cell counts as 0 |
| Submit.SubmitToLedger | dune_ledger_bot/src/commands/submit.rs:60-91 | the loop panics (`None`) exactly when some matching row's total leaves the `i32` range; otherwise it returns the merged ledger, plus a new row when nothing matched |
| Submit.MergedStep | dune_ledger_bot/src/commands/submit.rs:66-84 | one row adds to the merge as the loop does: dropped without a string name, bumped when it matches, copied otherwise |
| Submit.NoOverflowExtend | dune_ledger_bot/src/commands/submit.rs:75 | a row that does not overflow extends a prefix that does not |
| Submit.MergedAt | dune_ledger_bot/src/commands/submit.rs:66-84 | named row `i` lands at the position after the named rows before it, bumped when it matches and unchanged otherwise |
| Submit.MergedLength | dune_ledger_bot/src/commands/submit.rs:66-84 | the merge keeps exactly the named rows |
| Submit.SubmittedLength | dune_ledger_bot/src/commands/submit.rs:60-91 | the new ledger has one row per named row, plus one only when nothing matched |
| Submit.BumpedReads | dune_ledger_bot/src/commands/submit.rs:70-77 | a bumped row still matches the resource and reads current plus amount |
| Submit.NewRowReads | dune_ledger_bot/src/commands/submit.rs:86-90 | the appended row matches the resource and reads the amount |
| Submit.SubmittedFinds | dune_ledger_bot/src/commands/submit.rs:60-91 | after a submission the ledger always has a row for the resource |

## Left out

- Sheets API and Discord calls are not modelled: authentication, the range
  strings, replies, embeds, threads and buttons. Their inputs are parameters
  and their outputs are results.
- `build_update_embed` and the text of every reply are not modelled.
  `update` returns the reconciliation the embed would show.
- Concurrency is not modelled. `IN_FLIGHT` is a `DashMap` shared by
  concurrent commands, and the model runs one command at a time.
- `bulk_add` re-checks the entry with `get` after parsing. The model omits
  this check, because run alone it always succeeds.
- `finish` fails before it touches the registry when `REQUESTS_CHANNEL_ID`
  is missing or not a `u64`, and then keeps the entry. The model has no
  such failure: the channel id is not modelled. The calls from posting the
  request on (`send_message`, `create_thread_from_message`, the
  `SPREADSHEET_ID_REQUEST` lookup, `values_append` and the two thread
  messages) run after the entry is removed, so in the source their failure
  loses it. The model only covers their success. The request id
  (`Uuid::new_v4`) and thread id are parameters.
- Lower-casing is ASCII only. Rust's `to_lowercase` is full Unicode. For
  parsed names this makes no difference, since they are ASCII letters and
  whitespace. For sheet keys and submit names the model differs on
  non-ASCII letters.
- The debit walks a `HashMap` in an unspecified order, so the model picks
  keys in an arbitrary order.
- The inventory is written back by `values_update` in `HashMap` order. That
  order, and the stale rows a shorter write leaves behind, are not modelled.
  `CompleteRequest` returns the debited map. The same holds for the ledger
  write of `/submit`: `SubmitToLedger` drops rows without a string name, so
  its result can be shorter than the sheet, and the old rows left below it
  are not modelled.
- `complete_request` reads the request sheet a second time before marking.
  The model uses the same rows for both reads.
- Sheets.Debit: the full postcondition is proved only when every requested key
  is its own key (`KeysNormalized`). The debit normalizes keys a second time,
  and a loaded key need not survive that (`Sheets.LoadedKeyNotFixed`). Then
  the debit may touch another key or skip one. The `u64` subtraction
  `*stock -= *amt` is modelled as the underflow panic of a debug build
  (`None`). A release build wraps around instead, and that is not modelled.
- Sheets.CompleteRequest: the success half carries the same key condition as
  `Debit`.
- Submit.SubmitToLedger: `current + amount` is modelled as the overflow panic
  of a debug build. A release build wraps around instead, and that is not
  modelled.
