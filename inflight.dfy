/** The `IN_FLIGHT` registry of commands/request.rs: at most one open
    request per user, driven by the `start`, `bulk_add`, `update` and
    `finish` subcommands. Discord replies, embeds and threads, and the
    Sheets calls, are left out; what they supply (a message id, a thread
    id, the inventory rows, a fresh request id) comes in as parameters, and
    what they would write comes back as results. */
module InFlight {
  import opened Text
  import opened Cells
  import opened Sheets
  import opened Resources
  import opened Reconcile
  import opened Maps

  type UserId = u64
  type MessageId = u64
  type ChannelId = u64

  /** The state kept for one user's open request. */
  datatype InProgressRequest = InProgressRequest(
    product: string,
    resources: seq<Line>,
    sheetRowIds: seq<string>,
    messageId: MessageId)

  datatype RegistryError = AlreadyOpen | NoOpenRequest | Unparsable(failure: ParseFailure)

  /** What `update` reports: the product and the two halves of the
      reconciliation. */
  datatype Report = Report(product: string, completed: seq<Line>, remaining: seq<Line>)

  /** A line `bulk_add` can store: a parsed item name, water already
      converted. */
  predicate IsStoredLine(l: Line) {
    l.name != WATER && IsItemName(l.name)
  }

  /** An entry as the subcommands leave it: only stored lines, and no sheet
      row ids (nothing ever fills them in). */
  predicate ValidEntry(e: InProgressRequest) {
    && e.sheetRowIds == []
    && forall k :: 0 <= k < |e.resources| ==> IsStoredLine(e.resources[k])
  }

  const IN_PROGRESS: string := "in_progress"

  /** The request-sheet row `finish` appends for one line: request id,
      product, name, amount, status "in_progress", thread id. */
  function FinishRow(requestId: string, product: string, l: Line, thread: ChannelId): (r: Row)
    ensures |r| == 6 && r[0] == Str(requestId) && r[4] == Str(IN_PROGRESS)
  {
    [Str(requestId), Str(product), Str(l.name), Str(NatToString(l.amount)),
     Str(IN_PROGRESS), Str(NatToString(thread))]
  }

  /** One row per line of the entry, in order. */
  function FinishRows(requestId: string, e: InProgressRequest, thread: ChannelId): (r: seq<Row>)
    ensures |r| == |e.resources|
    ensures forall k :: 0 <= k < |r| ==> r[k] == FinishRow(requestId, e.product, e.resources[k], thread)
  {
    seq(|e.resources|, k requires 0 <= k < |e.resources| =>
      FinishRow(requestId, e.product, e.resources[k], thread))
  }

  class Registry {
    var entries: map<UserId, InProgressRequest>

    ghost predicate Valid()
      reads this
    {
      forall u :: u in entries ==> ValidEntry(entries[u])
    }

    /** The registry starts empty. */
    constructor()
      ensures Valid()
      ensures entries == map[]
    {
      entries := map[];
    }

    /** `start`: refuses when the user already has an open request,
        leaving it untouched; otherwise opens one for `product` with no
        resources yet. `messageId` is the id of the confirmation reply. */
    method Start(user: UserId, product: string, messageId: MessageId) returns (r: Result<(), RegistryError>)
      requires Valid()
      modifies this
      ensures Valid()
      ensures user in old(entries) ==> r == Failure(AlreadyOpen) && entries == old(entries)
      ensures user !in old(entries) ==>
        && r == Success(())
        && entries == old(entries)[user := InProgressRequest(product, [], [], messageId)]
    {
      if user in entries {
        return Failure(AlreadyOpen);
      }
      entries := entries[user := InProgressRequest(product, [], [], messageId)];
      return Success(());
    }

    /** `bulk_add` (with `parse_resources`): a list that does not parse
        fails before the registry is looked at; a user with no open
        request fails next; otherwise that user's resources are replaced
        wholesale by the converted list, and the preview text is returned.
        Nothing else in the registry changes. */
    method BulkAdd(user: UserId, raw: string) returns (r: Result<string, RegistryError>)
      requires Valid()
      modifies this
      ensures Valid()
      ensures var parsed := Parsed(raw);
        parsed.Failure? ==> r == Failure(Unparsable(parsed.error)) && entries == old(entries)
      ensures var parsed := Parsed(raw);
        parsed.Success? && user !in old(entries) ==> r == Failure(NoOpenRequest) && entries == old(entries)
      ensures var parsed := Parsed(raw);
        parsed.Success? && user in old(entries) ==>
          && r == Success(PreviewText(parsed.value))
          && entries == old(entries)[user := old(entries)[user].(resources := ConvertWater(parsed.value))]
    {
      var parsed := ParseResources(raw);
      if parsed.Failure? {
        return Failure(Unparsable(parsed.error));
      }
      var items := parsed.value;
      var converted := ConvertWater(items);
      if user !in entries {
        return Failure(NoOpenRequest);
      }
      StoredAfterConversion(raw);
      SetResources(user, converted);
      return Success(PreviewText(items));
    }

    /** The stash step of `parse_resources`: the entry is taken out of the
        registry and put back with its resources replaced. */
    method SetResources(user: UserId, converted: seq<Line>)
      requires Valid() && user in entries
      requires forall k :: 0 <= k < |converted| ==> IsStoredLine(converted[k])
      modifies this
      ensures Valid()
      ensures entries == old(entries)[user := old(entries)[user].(resources := converted)]
    {
      var entry := entries[user];
      entries := entries - {user};
      entry := entry.(resources := converted);
      entries := entries[user := entry];
    }

    /** `update`: reads the user's entry, never changes the registry, and
        reconciles its lines against the inventory the rows fold into. */
    method Update(user: UserId, inventoryRows: seq<Row>) returns (r: Result<Report, RegistryError>)
      ensures user !in entries ==> r == Failure(NoOpenRequest)
      ensures user in entries ==>
        var e := entries[user];
        var inventory := InventoryOf(inventoryRows);
        r == Success(Report(e.product, Completed(inventory, e.resources), Remaining(inventory, e.resources)))
    {
      var inventory := LoadInventory(inventoryRows);
      if user !in entries {
        return Failure(NoOpenRequest);
      }
      var entry := entries[user];
      var completed, remaining := ComputeCompletedRemaining(entry.resources, inventory);
      return Success(Report(entry.product, completed, remaining));
    }

    /** `finish`: removes the user's entry (so a second `finish` fails)
        and returns the rows to append to the request sheet, one per line
        in order. `requestId` is the fresh id and `thread` the id of the
        thread opened for the request. */
    method Finish(user: UserId, requestId: string, thread: ChannelId) returns (r: Result<seq<Row>, RegistryError>)
      requires Valid()
      modifies this
      ensures Valid()
      ensures user !in old(entries) ==> r == Failure(NoOpenRequest) && entries == old(entries)
      ensures user in old(entries) ==>
        && entries == old(entries) - {user}
        && r == Success(FinishRows(requestId, old(entries)[user], thread))
      ensures r.Success? ==> forall k :: 0 <= k < |r.value| ==>
        r.value[k][2].Str? && r.value[k][2].text != WATER && IsItemName(r.value[k][2].text)
    {
      if user !in entries {
        return Failure(NoOpenRequest);
      }
      var entry := entries[user];
      entries := entries - {user};
      var values: seq<Row> := [];
      for i := 0 to |entry.resources|
        invariant |values| == i
        invariant forall k :: 0 <= k < i ==> values[k] == FinishRow(requestId, entry.product, entry.resources[k], thread)
      {
        var line := entry.resources[i];
        values := values + [[Str(requestId), Str(entry.product), Str(line.name),
                             Str(NatToString(line.amount)), Str(IN_PROGRESS), Str(NatToString(thread))]];
      }
      assert values == FinishRows(requestId, entry, thread);
      assert forall k :: 0 <= k < |values| ==> values[k][2] == Str(entry.resources[k].name);
      return Success(values);
    }
  }

  /** What `bulk_add` stores is made of stored lines. */
  lemma StoredAfterConversion(raw: string)
    ensures Parsed(raw).Success? ==>
      forall k :: 0 <= k < |ConvertWater(Parsed(raw).value)| ==>
        IsStoredLine(ConvertWater(Parsed(raw).value)[k])
  {
    ParsedItemsShape(Captures(Sanitize(raw)));
    if Parsed(raw).Success? {
      ConvertWaterKeepsNames(Parsed(raw).value);
    }
  }

  /** A name that survives a round trip through the request sheet: an item
      name whose only whitespace is the plain space. */
  predicate IsPlainName(n: string) {
    IsItemName(n) && forall j :: 0 <= j < |n| ==> n[j] == ' ' || IsAsciiLower(n[j])
  }

  lemma PlainNameIsKey(n: string)
    requires IsPlainName(n)
    ensures IsKey(n)
    ensures forall c :: c in n ==> IsPlainJsonChar(c)
  {
    forall c | c in n ensures IsPlainJsonChar(c) && c != NBSP && !IsAsciiUpper(c) {
      var j :| 0 <= j < |n| && n[j] == c;
    }
  }

  /** Written as a string cell and read back, a plain name is its own
      lookup key. */
  lemma PlainNameReloads(n: string)
    requires IsPlainName(n)
    ensures CellKey(Str(n)) == n
  {
    PlainNameIsKey(n);
    RenderPlain(n);
    UnquoteQuoted(n);
    NormalizeFixedPoint(n);
    assert Render(Str(n)) == "\"" + n + "\"";
    assert Normalize("\"" + n + "\"") == Normalize(n) == n;
  }

  /** Every row `finish` writes belongs to the request, with the line's
      name and amount in cells 2 and 3. */
  lemma FinishRowsOf(requestId: string, e: InProgressRequest, thread: ChannelId)
    ensures var rows := FinishRows(requestId, e, thread);
      forall k :: 0 <= k < |rows| ==>
        && IsRowOf(requestId, rows[k])
        && rows[k][2] == Str(e.resources[k].name)
        && rows[k][3] == Str(NatToString(e.resources[k].amount))
  {
  }

  /** With plain names, the key each written row loads under is the
      line's name. */
  lemma FinishRowsKeys(requestId: string, e: InProgressRequest, thread: ChannelId)
    requires forall k :: 0 <= k < |e.resources| ==> IsPlainName(e.resources[k].name)
    ensures var rows := FinishRows(requestId, e, thread);
      forall k :: 0 <= k < |rows| ==> CellKey(rows[k][2]) == e.resources[k].name
  {
    var rows := FinishRows(requestId, e, thread);
    forall k | 0 <= k < |rows| ensures CellKey(rows[k][2]) == e.resources[k].name {
      var n := e.resources[k].name;
      assert rows[k][2] == Str(n);
      PlainNameReloads(n);
    }
  }

  /** Loading the rows `finish` wrote gives back the entry's lines: each
      line's name is requested, with the amount of the last line of that
      name. */
  lemma FinishRowsReload(requestId: string, e: InProgressRequest, thread: ChannelId, i: nat)
    requires i < |e.resources|
    requires forall k :: 0 <= k < |e.resources| ==> IsPlainName(e.resources[k].name)
    requires forall k :: i < k < |e.resources| ==> e.resources[k].name != e.resources[i].name
    ensures var loaded := RequestOf(requestId, FinishRows(requestId, e, thread)).resources;
      e.resources[i].name in loaded && loaded[e.resources[i].name] == e.resources[i].amount
  {
    var rows := FinishRows(requestId, e, thread);
    FinishRowsOf(requestId, e, thread);
    FinishRowsKeys(requestId, e, thread);
    assert forall j :: i < j < |rows| ==> CellKey(rows[j][2]) != CellKey(rows[i][2]);
    RequestOfLastWins(requestId, rows, i);
    AmountOfRoundTrip(e.resources[i].amount);
  }

  /** ... and the product comes back as the JSON rendering of the name,
      quotes included. */
  lemma FinishRowsProduct(requestId: string, e: InProgressRequest, thread: ChannelId)
    requires |e.resources| > 0
    ensures RequestOf(requestId, FinishRows(requestId, e, thread)).product == Render(Str(e.product))
  {
    RequestOfProduct(requestId, FinishRows(requestId, e, thread), 0);
  }

  /** The first half of a session: `start`, then a `bulk_add` whose list
      parses, leave the user with an entry holding the converted list. */
  method Open(registry: Registry, user: UserId, product: string, raw: string, messageId: MessageId)
    requires registry.Valid() && user !in registry.entries
    requires Parsed(raw).Success?
    modifies registry
    ensures registry.Valid()
    ensures registry.entries ==
      old(registry.entries)[user := InProgressRequest(product, ConvertWater(Parsed(raw).value), [], messageId)]
  {
    ghost var before: map<UserId, InProgressRequest> := registry.entries;
    ghost var empty := InProgressRequest(product, [], [], messageId);
    ghost var filled := InProgressRequest(product, ConvertWater(Parsed(raw).value), [], messageId);
    var started := registry.Start(user, product, messageId);
    var preview := registry.BulkAdd(user, raw);
    assert empty.(resources := ConvertWater(Parsed(raw).value)) == filled;
    StoreTwice(before, user, empty, filled);
  }

  /** A whole session in the order the subcommands are meant to run:
      start, bulk_add, finish. The rows come from the converted list, a
      second finish then fails, and the registry is back where it
      started. */
  method Session(registry: Registry, user: UserId, product: string, raw: string,
                 messageId: MessageId, requestId: string, thread: ChannelId)
    returns (rows: Result<seq<Row>, RegistryError>, again: Result<seq<Row>, RegistryError>)
    requires registry.Valid() && user !in registry.entries
    requires Parsed(raw).Success?
    modifies registry
    ensures rows == Success(FinishRows(requestId,
      InProgressRequest(product, ConvertWater(Parsed(raw).value), [], messageId), thread))
    ensures again == Failure(NoOpenRequest)
    ensures registry.entries == old(registry.entries)
  {
    Open(registry, user, product, raw, messageId);
    rows := registry.Finish(user, requestId, thread);
    assert registry.entries == old(registry.entries);
    again := registry.Finish(user, requestId, thread);
  }
}
