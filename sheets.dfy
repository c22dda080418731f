/** The spreadsheet side of the bot (utils/sheets.rs): the lookup key of a
    resource name, the folds that turn the inventory and request sheets into
    maps, and the settlement of a request (stock check, debit, status
    marking). The Sheets API calls themselves are left out: every operation
    here takes the rows a read returned and gives back what would be
    written. */
module Sheets {
  import opened Text
  import opened Cells

  const NBSP: char := '\U{A0}'

  // ---------------------------------------------------------------------
  // normalize_resource_key

  /** The lookup key of a resource name: quotes stripped from the raw ends,
      non-breaking spaces turned into spaces, lower-cased, trimmed. */
  function Normalize(s: string): (r: string)
    ensures IsTrimmed(r)
    ensures |r| <= |s|
  {
    Trim(LowerAscii(ReplaceChar(TrimMatches(s, '"'), NBSP, ' ')))
  }

  /** A normalized key has no non-breaking space and no upper-case letter;
      with the trimming that `Normalize` promises, that is every way a
      lookup key is canonical, except for quotes (see `NormalizeTwice`). */
  lemma NormalizeShape(s: string)
    ensures NBSP !in Normalize(s)
    ensures forall c :: c in Normalize(s) ==> !IsAsciiUpper(c)
  {
    var spaced := ReplaceChar(TrimMatches(s, '"'), NBSP, ' ');
    var lowered := LowerAscii(spaced);
    assert NBSP !in lowered by {
      forall i | 0 <= i < |lowered| ensures lowered[i] != NBSP {
        assert spaced[i] != NBSP;
      }
    }
    LowerAsciiHasNoUpper(spaced);
    TrimKeepsChars(lowered);
  }

  /** A string that `Normalize` leaves as it is. */
  predicate IsKey(k: string) {
    && NBSP !in k
    && IsTrimmed(k)
    && (forall c :: c in k ==> !IsAsciiUpper(c))
    && (k == [] || (k[0] != '"' && k[|k| - 1] != '"'))
  }

  /** The fixed points of `Normalize` are exactly the keys: no
      non-breaking space, no upper case, no whitespace and no quote at
      either end. */
  lemma NormalizeFixedPoint(k: string)
    ensures Normalize(k) == k <==> IsKey(k)
  {
    var unquoted := TrimMatches(k, '"');
    var spaced := ReplaceChar(unquoted, NBSP, ' ');
    var lowered := LowerAscii(spaced);
    assert Normalize(k) == Trim(lowered);
    NormalizeShape(k);
    if IsKey(k) {
      assert unquoted == k;
      assert spaced == k;
      assert lowered == k;
    }
  }

  /** Quotes around a name are what `Normalize` strips first: a quoted
      name normalizes like the bare one. */
  lemma UnquoteQuoted(t: string)
    requires t == [] || (t[0] != '"' && t[|t| - 1] != '"')
    ensures Normalize("\"" + t + "\"") == Normalize(t)
  {
    var q := "\"" + t + "\"";
    assert q[1..] == t + "\"";
    if t == [] {
      assert TrimStartMatches(q, '"') == [];
    } else {
      assert TrimStartMatches(q, '"') == t + "\"";
      assert (t + "\"")[..|t|] == t;
    }
    assert TrimMatches(q, '"') == t == TrimMatches(t, '"');
  }

  /** `Normalize` is not idempotent: quotes are stripped before the
      whitespace around them is trimmed, so a quoted name padded with
      spaces keeps its quotes for one more round. */
  lemma NormalizeNotIdempotent()
    ensures Normalize(" \"Water\" ") == "\"water\""
    ensures Normalize("\"water\"") == "water"
    ensures Normalize(Normalize(" \"Water\" ")) != Normalize(" \"Water\" ")
  {
    PaddedQuotedName();
    QuotedName();
  }

  lemma PaddedQuotedName()
    ensures Normalize(" \"Water\" ") == "\"water\""
  {
    var s := " \"Water\" ";
    assert TrimMatches(s, '"') == s;
    var lowered := " \"water\" ";
    assert ReplaceChar(s, NBSP, ' ') == s;
    assert LowerAscii(s) == lowered;
    assert lowered[1..] == "\"water\" ";
    assert TrimStart(lowered) == "\"water\" ";
    assert "\"water\" "[..7] == "\"water\"";
    assert TrimEnd("\"water\" ") == "\"water\"";
  }

  lemma QuotedName()
    ensures Normalize("\"water\"") == "water"
  {
    var q := "\"water\"";
    assert q[1..] == "water\"";
    assert TrimStartMatches(q, '"') == "water\"";
    assert "water\""[..5] == "water";
    assert TrimEndMatches("water\"", '"') == "water";
    assert ReplaceChar("water", NBSP, ' ') == "water";
    assert LowerAscii("water") == "water";
  }

  /** Normalizing a second time changes nothing exactly when the first
      result neither starts nor ends with a quote. */
  lemma NormalizeTwice(s: string)
    ensures var r := Normalize(s);
      Normalize(r) == r <==> (r == [] || (r[0] != '"' && r[|r| - 1] != '"'))
  {
    var r := Normalize(s);
    NormalizeShape(s);
    NormalizeFixedPoint(r);
    assert IsKey(r) <==> (r == [] || (r[0] != '"' && r[|r| - 1] != '"'));
  }

  // ---------------------------------------------------------------------
  // Cell coercions

  /** An amount cell: `as_str().unwrap_or("0").trim().parse::<u64>().unwrap_or(0)`.
      A non-string cell or text that is not a `u64` reads as 0. */
  function AmountOf(c: Cell): (r: u64)
    ensures !c.Str? ==> r == 0
    ensures c.Str? && ParseU64(Trim(c.text)).None? ==> r == 0
  {
    var text := if c.Str? then c.text else "0";
    match ParseU64(Trim(text))
    case Some(n) => n
    case None => 0
  }

  /** An amount written with `u64::to_string` reads back as itself. */
  lemma AmountOfRoundTrip(n: u64)
    ensures AmountOf(Str(NatToString(n))) == n
  {
    ParseU64RoundTrip(n);
    var s := NatToString(n);
    assert !IsWhitespace(s[0]) && !IsWhitespace(s[|s| - 1]);
  }

  /** The key a name cell stands for: `normalize_resource_key(&cell.to_string())`. */
  function CellKey(c: Cell): (r: string)
    ensures IsTrimmed(r)
  {
    Normalize(Render(c))
  }

  lemma EscapeSample()
    ensures Render(Str("x\" ")) == "\"x\\\" \""
  {
    assert "x\" "[1..] == "\" ";
    assert "\" "[1..] == " ";
    assert " "[1..] == "";
    assert JsonEscape(" ") == " ";
    assert JsonEscape("\" ") == "\\\" ";
    assert JsonEscape("x\" ") == "x\\\" ";
  }

  lemma KeySample()
    ensures CellKey(Str("x\" ")) == "x\\\""
  {
    EscapeSample();
    var r := "\"x\\\" \"";
    assert r[1..] == "x\\\" \"";
    assert TrimStartMatches(r, '"') == "x\\\" \"";
    assert "x\\\" \""[..4] == "x\\\" ";
    assert TrimEndMatches("x\\\" \"", '"') == "x\\\" ";
    assert ReplaceChar("x\\\" ", NBSP, ' ') == "x\\\" ";
    assert LowerAscii("x\\\" ") == "x\\\" ";
    assert TrimStart("x\\\" ") == "x\\\" ";
    assert "x\\\" "[..3] == "x\\\"";
    assert TrimEnd("x\\\" ") == "x\\\"";
  }

  lemma RenormalizedSample()
    ensures Normalize("x\\\"") == "x\\"
  {
    var k := "x\\\"";
    assert k[..2] == "x\\";
    assert TrimEndMatches(k, '"') == "x\\";
    assert ReplaceChar("x\\", NBSP, ' ') == "x\\";
    assert LowerAscii("x\\") == "x\\";
  }

  /** A key read from a sheet need not be a fixed point of `Normalize`:
      the cell text `x" ` renders as `"x\" "`, whose key `x\"` loses its
      last quote when normalized again, as the debit does. */
  lemma LoadedKeyNotFixed()
    ensures CellKey(Str("x\" ")) == "x\\\""
    ensures Normalize(CellKey(Str("x\" "))) != CellKey(Str("x\" "))
    ensures !IsKey(CellKey(Str("x\" ")))
  {
    KeySample();
    RenormalizedSample();
    NormalizeFixedPoint("x\\\"");
  }

  // ---------------------------------------------------------------------
  // load_inventory_from_sheets

  predicate IsInventoryRow(row: Row) { |row| >= 2 }

  /** The inventory map the rows of the inventory sheet fold into: each row
      of two or more cells maps the key of cell 0 to the amount in cell 1,
      a later row overwriting an earlier one with the same key. */
  function InventoryOf(rows: seq<Row>): map<string, u64> {
    if rows == [] then map[]
    else
      var inv := InventoryOf(rows[..|rows| - 1]);
      var row := rows[|rows| - 1];
      if IsInventoryRow(row) then inv[CellKey(row[0]) := AmountOf(row[1])] else inv
  }

  method LoadInventory(rows: seq<Row>) returns (inventory: map<string, u64>)
    ensures inventory == InventoryOf(rows)
  {
    inventory := map[];
    for i := 0 to |rows|
      invariant inventory == InventoryOf(rows[..i])
    {
      assert rows[..i + 1][..i] == rows[..i];
      var row := rows[i];
      if |row| < 2 {
        continue;
      }
      var name := CellKey(row[0]);
      var amount := AmountOf(row[1]);
      inventory := inventory[name := amount];
    }
    assert rows[..|rows|] == rows;
  }

  /** A key is in the inventory exactly when some row of two or more cells
      names it. */
  lemma {:induction false} InventoryOfKeys(rows: seq<Row>, k: string)
    ensures k in InventoryOf(rows) <==>
      exists i :: 0 <= i < |rows| && IsInventoryRow(rows[i]) && CellKey(rows[i][0]) == k
  {
    if rows != [] {
      var prefix := rows[..|rows| - 1];
      InventoryOfKeys(prefix, k);
      if k in InventoryOf(prefix) {
        var i :| 0 <= i < |prefix| && IsInventoryRow(prefix[i]) && CellKey(prefix[i][0]) == k;
        assert rows[i] == prefix[i];
      }
      if exists i :: 0 <= i < |rows| && IsInventoryRow(rows[i]) && CellKey(rows[i][0]) == k {
        var i :| 0 <= i < |rows| && IsInventoryRow(rows[i]) && CellKey(rows[i][0]) == k;
        if i < |rows| - 1 {
          assert prefix[i] == rows[i];
        }
      }
    }
  }

  /** The amount of a key is the one in the last row that names it. */
  lemma {:induction false} InventoryOfLastWins(rows: seq<Row>, i: nat)
    requires i < |rows| && IsInventoryRow(rows[i])
    requires forall j :: i < j < |rows| && IsInventoryRow(rows[j]) ==> CellKey(rows[j][0]) != CellKey(rows[i][0])
    ensures CellKey(rows[i][0]) in InventoryOf(rows)
    ensures InventoryOf(rows)[CellKey(rows[i][0])] == AmountOf(rows[i][1])
  {
    if i < |rows| - 1 {
      var prefix := rows[..|rows| - 1];
      assert prefix[i] == rows[i];
      forall j | i < j < |prefix| && IsInventoryRow(prefix[j])
        ensures CellKey(prefix[j][0]) != CellKey(prefix[i][0])
      {
        assert prefix[j] == rows[j];
      }
      InventoryOfLastWins(prefix, i);
    }
  }

  // ---------------------------------------------------------------------
  // load_request_from_sheets

  datatype LoadedRequest = LoadedRequest(product: string, resources: map<string, u64>)

  /** A row of the request sheet that belongs to `id`: five or more cells,
      the first of them the string `id`. */
  predicate IsRowOf(id: string, row: Row) {
    |row| >= 5 && row[0] == Str(id)
  }

  /** What the request sheet folds into for `id`: the product is the
      rendering of cell 1 of the first row of `id`, and each row of `id`
      maps the key of cell 2 to the amount in cell 3, a later row
      overwriting an earlier one with the same key. The status cell is not
      read. */
  function RequestOf(id: string, rows: seq<Row>): LoadedRequest {
    if rows == [] then LoadedRequest("", map[])
    else
      var acc := RequestOf(id, rows[..|rows| - 1]);
      var row := rows[|rows| - 1];
      if !IsRowOf(id, row) then acc
      else LoadedRequest(
        if acc.product == "" then Render(row[1]) else acc.product,
        acc.resources[CellKey(row[2]) := AmountOf(row[3])])
  }

  method LoadRequest(id: string, rows: seq<Row>) returns (product: string, resources: map<string, u64>)
    ensures LoadedRequest(product, resources) == RequestOf(id, rows)
  {
    product := "";
    resources := map[];
    for i := 0 to |rows|
      invariant LoadedRequest(product, resources) == RequestOf(id, rows[..i])
    {
      assert rows[..i + 1][..i] == rows[..i];
      var row := rows[i];
      if |row| < 5 || row[0] != Str(id) {
        continue;
      }
      if product == "" {
        product := Render(row[1]);
      }
      var normalized := CellKey(row[2]);
      var amount := AmountOf(row[3]);
      resources := resources[normalized := amount];
    }
    assert rows[..|rows|] == rows;
  }

  /** With no row of `id`, nothing is loaded. */
  lemma {:induction false} RequestOfNone(id: string, rows: seq<Row>)
    requires forall j :: 0 <= j < |rows| ==> !IsRowOf(id, rows[j])
    ensures RequestOf(id, rows) == LoadedRequest("", map[])
  {
    if rows != [] {
      var prefix := rows[..|rows| - 1];
      assert forall j :: 0 <= j < |prefix| ==> prefix[j] == rows[j];
      RequestOfNone(id, prefix);
    }
  }

  /** The product comes from the first row of `id`. */
  lemma {:induction false} RequestOfProduct(id: string, rows: seq<Row>, i: nat)
    requires i < |rows| && IsRowOf(id, rows[i])
    requires forall j :: 0 <= j < i ==> !IsRowOf(id, rows[j])
    ensures RequestOf(id, rows).product == Render(rows[i][1])
  {
    var prefix := rows[..|rows| - 1];
    if i == |rows| - 1 {
      assert forall j :: 0 <= j < |prefix| ==> prefix[j] == rows[j];
      RequestOfNone(id, prefix);
    } else {
      assert prefix[i] == rows[i];
      assert forall j :: 0 <= j < i ==> prefix[j] == rows[j];
      RequestOfProduct(id, prefix, i);
    }
  }

  /** A key is requested exactly when some row of `id` names it. */
  lemma {:induction false} RequestOfKeys(id: string, rows: seq<Row>, k: string)
    ensures k in RequestOf(id, rows).resources <==>
      exists i :: 0 <= i < |rows| && IsRowOf(id, rows[i]) && CellKey(rows[i][2]) == k
  {
    if rows != [] {
      var prefix := rows[..|rows| - 1];
      RequestOfKeys(id, prefix, k);
      if k in RequestOf(id, prefix).resources {
        var i :| 0 <= i < |prefix| && IsRowOf(id, prefix[i]) && CellKey(prefix[i][2]) == k;
        assert rows[i] == prefix[i];
      }
      if exists i :: 0 <= i < |rows| && IsRowOf(id, rows[i]) && CellKey(rows[i][2]) == k {
        var i :| 0 <= i < |rows| && IsRowOf(id, rows[i]) && CellKey(rows[i][2]) == k;
        if i < |rows| - 1 {
          assert prefix[i] == rows[i];
        }
      }
    }
  }

  /** Duplicate names are not summed: the last row of `id` naming a key
      gives its amount. */
  lemma {:induction false} RequestOfLastWins(id: string, rows: seq<Row>, i: nat)
    requires i < |rows| && IsRowOf(id, rows[i])
    requires forall j :: i < j < |rows| && IsRowOf(id, rows[j]) ==> CellKey(rows[j][2]) != CellKey(rows[i][2])
    ensures CellKey(rows[i][2]) in RequestOf(id, rows).resources
    ensures RequestOf(id, rows).resources[CellKey(rows[i][2])] == AmountOf(rows[i][3])
  {
    if i < |rows| - 1 {
      var prefix := rows[..|rows| - 1];
      assert prefix[i] == rows[i];
      forall j | i < j < |prefix| && IsRowOf(id, prefix[j])
        ensures CellKey(prefix[j][2]) != CellKey(prefix[i][2])
      {
        assert prefix[j] == rows[j];
      }
      RequestOfLastWins(id, prefix, i);
    }
  }

  // ---------------------------------------------------------------------
  // complete_request: stock check

  /** Stock on hand for a key, 0 when absent. */
  function Stock(inventory: map<string, u64>, key: string): (r: u64)
    ensures key !in inventory ==> r == 0
    ensures key in inventory ==> r == inventory[key]
  {
    if key in inventory then inventory[key] else 0
  }

  /** The all-or-nothing guard: every requested amount is covered by the
      stock at the same key. An empty request always passes. */
  predicate AllSatisfied(inventory: map<string, u64>, request: map<string, u64>): (b: bool)
    ensures request == map[] ==> b
    ensures !b ==> exists name :: name in request && Stock(inventory, name) < request[name]
  {
    forall name :: name in request ==> Stock(inventory, name) >= request[name]
  }

  /** Every requested key is a fixed point of `Normalize` (see
      `NormalizeFixedPoint`), so the debit looks up the same key the guard
      checked. */
  predicate KeysNormalized(request: map<string, u64>) {
    forall name :: name in request ==> IsKey(name)
  }

  // ---------------------------------------------------------------------
  // complete_request: debit

  /** Subtracts each requested amount from the stock at the normalized key,
      skipping keys the inventory lacks, in the map's (unspecified)
      iteration order. `None` stands for the `u64` underflow panic. Once
      the guard has passed and the requested keys are normalized, nothing
      underflows and each requested key drops by exactly its amount. */
  method Debit(inventory: map<string, u64>, request: map<string, u64>) returns (r: Option<map<string, u64>>)
    ensures AllSatisfied(inventory, request) && KeysNormalized(request) ==>
      && r.Some?
      && r.value.Keys == inventory.Keys
      && forall k :: k in inventory ==>
           r.value[k] == if k in request then inventory[k] - request[k] else inventory[k]
  {
    var stock := inventory;
    var todo := request.Keys;
    ghost var guarded := AllSatisfied(inventory, request) && KeysNormalized(request);
    while todo != {}
      invariant todo <= request.Keys
      invariant stock.Keys == inventory.Keys
      invariant guarded ==> forall k :: k in inventory ==>
        stock[k] == if k in request && k !in todo then inventory[k] - request[k] else inventory[k]
      decreases todo
    {
      var name :| name in todo;
      var normalized := Normalize(name);
      NormalizeFixedPoint(name);
      if normalized in stock {
        if stock[normalized] < request[name] {
          return None;
        }
        stock := stock[normalized := stock[normalized] - request[name]];
      }
      todo := todo - {name};
    }
    return Some(stock);
  }

  // ---------------------------------------------------------------------
  // complete_request: status marking

  const COMPLETED: string := "completed"

  /** One row after marking: a row of `id` gets cell 4 set to
      "completed"; every other cell, and every other row, is unchanged. */
  function MarkRow(id: string, row: Row): (r: Row)
    ensures |r| == |row|
    ensures forall j :: 0 <= j < |row| && j != 4 ==> r[j] == row[j]
    ensures IsRowOf(id, row) ==> r[4] == Str(COMPLETED)
    ensures !IsRowOf(id, row) ==> r == row
  {
    if IsRowOf(id, row) then row[4 := Str(COMPLETED)] else row
  }

  function Marked(id: string, rows: seq<Row>): seq<Row> {
    if rows == [] then [] else Marked(id, rows[..|rows| - 1]) + [MarkRow(id, rows[|rows| - 1])]
  }

  method MarkCompleted(id: string, rows: seq<Row>) returns (updated: seq<Row>)
    ensures updated == Marked(id, rows)
  {
    updated := [];
    for i := 0 to |rows|
      invariant updated == Marked(id, rows[..i])
    {
      assert rows[..i + 1][..i] == rows[..i];
      var row := rows[i];
      if |row| >= 5 && row[0] == Str(id) {
        row := row[4 := Str(COMPLETED)];
      }
      updated := updated + [row];
    }
    assert rows[..|rows|] == rows;
  }

  /** Marking keeps the row count and order and changes each row as
      `MarkRow` says. */
  lemma {:induction false} MarkedAt(id: string, rows: seq<Row>)
    ensures |Marked(id, rows)| == |rows|
    ensures forall i :: 0 <= i < |rows| ==> Marked(id, rows)[i] == MarkRow(id, rows[i])
  {
    if rows != [] {
      var prefix := rows[..|rows| - 1];
      MarkedAt(id, prefix);
      assert forall i :: 0 <= i < |prefix| ==> prefix[i] == rows[i];
    }
  }

  /** Marking twice is marking once. */
  lemma MarkedIdempotent(id: string, rows: seq<Row>)
    ensures Marked(id, Marked(id, rows)) == Marked(id, rows)
  {
    MarkedAt(id, rows);
    MarkedAt(id, Marked(id, rows));
    forall i | 0 <= i < |rows|
      ensures Marked(id, Marked(id, rows))[i] == Marked(id, rows)[i]
    {
      var row := rows[i];
      if IsRowOf(id, row) {
        assert MarkRow(id, row)[4 := Str(COMPLETED)] == MarkRow(id, row);
      }
    }
  }

  /** The status cell is never consulted when loading a request: after
      marking, the same id loads the same product and the same lines, so a
      second settlement of it debits the stock again whenever the stock
      allows. */
  lemma {:induction false} MarkingKeepsRequest(id: string, rows: seq<Row>)
    ensures RequestOf(id, Marked(id, rows)) == RequestOf(id, rows)
  {
    if rows != [] {
      var prefix := rows[..|rows| - 1];
      MarkingKeepsRequest(id, prefix);
      var marked := Marked(id, rows);
      assert marked[..|marked| - 1] == Marked(id, prefix);
      var row := rows[|rows| - 1];
      var m := MarkRow(id, row);
      assert IsRowOf(id, m) <==> IsRowOf(id, row);
    }
  }

  // ---------------------------------------------------------------------
  // complete_request

  datatype SettleError = InsufficientStock | Underflow

  datatype Settlement = Settlement(product: string, inventory: map<string, u64>, requestRows: seq<Row>)

  /** Settles request `id` against the rows of the inventory and request
      sheets: refuses, changing nothing, when any requested amount exceeds
      its stock; otherwise debits the stock and marks the request's rows
      completed. The result is what would be written back. */
  method CompleteRequest(inventoryRows: seq<Row>, requestRows: seq<Row>, id: string)
    returns (r: Result<Settlement, SettleError>)
    ensures var inventory := InventoryOf(inventoryRows);
      var request := RequestOf(id, requestRows);
      r == Failure(InsufficientStock) <==> !AllSatisfied(inventory, request.resources)
    ensures var inventory := InventoryOf(inventoryRows);
      var request := RequestOf(id, requestRows);
      AllSatisfied(inventory, request.resources) && KeysNormalized(request.resources) ==>
        && r.Success?
        && r.value.product == request.product
        && r.value.requestRows == Marked(id, requestRows)
        && r.value.inventory.Keys == inventory.Keys
        && forall k :: k in inventory ==>
             r.value.inventory[k] ==
               if k in request.resources then inventory[k] - request.resources[k] else inventory[k]
  {
    var inventory := LoadInventory(inventoryRows);
    var productName, requestResources := LoadRequest(id, requestRows);
    if !AllSatisfied(inventory, requestResources) {
      return Failure(InsufficientStock);
    }
    var debited := Debit(inventory, requestResources);
    if debited.None? {
      return Failure(Underflow);
    }
    var updatedRows := MarkCompleted(id, requestRows);
    return Success(Settlement(productName, debited.value, updatedRows));
  }
}
