/** The ledger merge of the `submit` command (commands/submit.rs): the
    ledger's rows are copied, the rows naming the submitted resource (case
    ignored) get the amount added, rows without a string name are dropped,
    and a new row is appended when nothing matched. The Sheets read and
    write around it are left out. */
module Submit {
  import opened Text
  import opened Cells

  /** A row with a string in its first cell; the loop drops every other row. */
  predicate IsNamed(row: Row) {
    |row| > 0 && row[0].Str?
  }

  /** A named row whose name equals `resource`, ASCII case ignored. */
  predicate Matches(row: Row, resource: string) {
    IsNamed(row) && LowerAscii(row[0].text) == LowerAscii(resource)
  }

  /** The amount a ledger row holds: cell 1 parsed as an `i32` (not
      trimmed), 0 when it is missing, not a string, or not a number. */
  function CurrentOf(row: Row): (r: i32)
    ensures (|row| < 2 || !row[1].Str?) ==> r == 0
  {
    if |row| >= 2 && row[1].Str? then
      match ParseI32(row[1].text)
      case Some(n) => n
      case None => 0
    else 0
  }

  /** `current + amount` stays in the `i32` range for every matching row.
      When it does not, the addition overflows and the command panics
      before anything is written. */
  predicate NoOverflow(rows: seq<Row>, resource: string, amount: i32) {
    forall k :: 0 <= k < |rows| && Matches(rows[k], resource) ==>
      I32_MIN <= CurrentOf(rows[k]) + amount <= I32_MAX
  }

  /** A matching row after the merge: the original name cell and the new
      total as a string. */
  function Bumped(row: Row, amount: i32): Row
    requires |row| > 0 && I32_MIN <= CurrentOf(row) + amount <= I32_MAX
  {
    [row[0], Str(IntToString(CurrentOf(row) + amount))]
  }

  /** A prefix of the ledger inherits the no-overflow demand. */
  lemma NoOverflowPrefix(rows: seq<Row>, resource: string, amount: i32, i: nat)
    requires NoOverflow(rows, resource, amount) && i <= |rows|
    ensures NoOverflow(rows[..i], resource, amount)
  {
    forall k | 0 <= k < i && Matches(rows[..i][k], resource)
      ensures I32_MIN <= CurrentOf(rows[..i][k]) + amount <= I32_MAX
    {
      assert rows[..i][k] == rows[k];
    }
  }

  /** The rows the loop pushes, in order. */
  function Merged(rows: seq<Row>, resource: string, amount: i32): seq<Row>
    requires NoOverflow(rows, resource, amount)
  {
    if rows == [] then []
    else
      var prefix := rows[..|rows| - 1];
      NoOverflowPrefix(rows, resource, amount, |rows| - 1);
      var row := rows[|rows| - 1];
      var acc := Merged(prefix, resource, amount);
      if !IsNamed(row) then acc
      else if Matches(row, resource) then acc + [Bumped(row, amount)]
      else acc + [row]
  }

  /** Whether some row matched. */
  predicate Found(rows: seq<Row>, resource: string) {
    exists k :: 0 <= k < |rows| && Matches(rows[k], resource)
  }

  /** The row appended when nothing matched: the lower-cased resource and
      the submitted amount. */
  function NewRow(resource: string, amount: i32): Row {
    [Str(LowerAscii(resource)), Str(IntToString(amount))]
  }

  /** The whole new ledger content. */
  function Submitted(rows: seq<Row>, resource: string, amount: i32): seq<Row>
    requires NoOverflow(rows, resource, amount)
  {
    Merged(rows, resource, amount) + (if Found(rows, resource) then [] else [NewRow(resource, amount)])
  }

  /** The merge loop of `submit`. `None` stands for the overflow panic of
      `current + amount`, which happens exactly when some matching row's
      total leaves the `i32` range; otherwise the result is the new ledger. */
  method SubmitToLedger(ledger: seq<Row>, resource: string, amount: i32) returns (updated: Option<seq<Row>>)
    ensures updated.None? <==> !NoOverflow(ledger, resource, amount)
    ensures NoOverflow(ledger, resource, amount) ==> updated == Some(Submitted(ledger, resource, amount))
  {
    var foundInLedger := false;
    var values: seq<Row> := [];
    for i := 0 to |ledger|
      invariant NoOverflow(ledger[..i], resource, amount)
      invariant values == Merged(ledger[..i], resource, amount)
      invariant foundInLedger <==> Found(ledger[..i], resource)
    {
      var row := ledger[i];
      if |row| > 0 {
        var nameVal := row[0];
        if nameVal.Str? {
          if LowerAscii(nameVal.text) == LowerAscii(resource) {
            var current: i32 := 0;
            if |row| >= 2 && row[1].Str? {
              var parsed := ParseI32(row[1].text);
              if parsed.Some? {
                current := parsed.value;
              }
            }
            assert current == CurrentOf(row);
            if !(I32_MIN <= current + amount <= I32_MAX) {
              return None;
            }
            var newValue := current + amount;
            values := values + [[nameVal, Str(IntToString(newValue))]];
            foundInLedger := true;
          } else {
            values := values + [row];
          }
        }
      }
      MergedStep(ledger, resource, amount, i);
    }
    assert ledger[..|ledger|] == ledger;
    assert NoOverflow(ledger, resource, amount);
    assert values == Merged(ledger, resource, amount);
    assert foundInLedger == Found(ledger, resource);
    if !foundInLedger {
      values := values + [[Str(LowerAscii(resource)), Str(IntToString(amount))]];
    }
    assert values == Submitted(ledger, resource, amount);
    return Some(values);
  }

  /** One step of the loop: when row `i` does not overflow, the prefix
      through it still does not, and row `i` adds to the merge and to the
      found flag as follows. */
  lemma MergedStep(rows: seq<Row>, resource: string, amount: i32, i: nat)
    requires i < |rows| && NoOverflow(rows[..i], resource, amount)
    requires Matches(rows[i], resource) ==> I32_MIN <= CurrentOf(rows[i]) + amount <= I32_MAX
    ensures NoOverflow(rows[..i + 1], resource, amount)
    ensures Merged(rows[..i + 1], resource, amount) ==
      if !IsNamed(rows[i]) then Merged(rows[..i], resource, amount)
      else if Matches(rows[i], resource) then Merged(rows[..i], resource, amount) + [Bumped(rows[i], amount)]
      else Merged(rows[..i], resource, amount) + [rows[i]]
    ensures Found(rows[..i + 1], resource) <==> Found(rows[..i], resource) || Matches(rows[i], resource)
  {
    assert rows[..i + 1][..i] == rows[..i];
    assert rows[..i + 1][i] == rows[i];
    NoOverflowExtend(rows, resource, amount, i);
    if Found(rows[..i + 1], resource) && !Matches(rows[i], resource) {
      var k :| 0 <= k < i + 1 && Matches(rows[..i + 1][k], resource);
      assert rows[..i][k] == rows[k];
    }
    if Found(rows[..i], resource) {
      var k :| 0 <= k < i && Matches(rows[..i][k], resource);
      assert rows[..i + 1][k] == rows[k];
    }
  }

  /** A row that does not overflow extends a prefix that does not. */
  lemma NoOverflowExtend(rows: seq<Row>, resource: string, amount: i32, i: nat)
    requires i < |rows| && NoOverflow(rows[..i], resource, amount)
    requires Matches(rows[i], resource) ==> I32_MIN <= CurrentOf(rows[i]) + amount <= I32_MAX
    ensures NoOverflow(rows[..i + 1], resource, amount)
  {
    var through := rows[..i + 1];
    forall k | 0 <= k < i + 1 && Matches(through[k], resource)
      ensures I32_MIN <= CurrentOf(through[k]) + amount <= I32_MAX
    {
      assert through[k] == rows[k];
      if k < i {
        assert rows[..i][k] == rows[k];
      }
    }
  }

  /** How many rows carry a string name. */
  function NamedCount(rows: seq<Row>): nat {
    if rows == [] then 0
    else NamedCount(rows[..|rows| - 1]) + if IsNamed(rows[|rows| - 1]) then 1 else 0
  }

  /** Named row `i` lands at position `NamedCount(rows[..i])`: bumped when
      it matches, copied unchanged otherwise. Positions grow with `i`, so
      order is kept; rows without a string name have no place at all. */
  lemma {:induction false} MergedAt(rows: seq<Row>, resource: string, amount: i32, i: nat)
    requires NoOverflow(rows, resource, amount)
    requires i < |rows| && IsNamed(rows[i])
    ensures var c := NamedCount(rows[..i]);
      && c < |Merged(rows, resource, amount)|
      && Merged(rows, resource, amount)[c] ==
           if Matches(rows[i], resource) then Bumped(rows[i], amount) else rows[i]
  {
    var prefix := rows[..|rows| - 1];
    NoOverflowPrefix(rows, resource, amount, |rows| - 1);
    if i < |rows| - 1 {
      assert prefix[..i] == rows[..i];
      assert prefix[i] == rows[i];
      MergedAt(prefix, resource, amount, i);
    } else {
      assert rows[..i] == prefix;
      MergedLength(prefix, resource, amount);
    }
  }

  /** The merge keeps exactly the named rows. */
  lemma {:induction false} MergedLength(rows: seq<Row>, resource: string, amount: i32)
    requires NoOverflow(rows, resource, amount)
    ensures |Merged(rows, resource, amount)| == NamedCount(rows)
  {
    if rows != [] {
      var prefix := rows[..|rows| - 1];
      NoOverflowPrefix(rows, resource, amount, |rows| - 1);
      MergedLength(prefix, resource, amount);
    }
  }

  /** The new ledger has one row per named row, plus one only when nothing
      matched. */
  lemma SubmittedLength(rows: seq<Row>, resource: string, amount: i32)
    requires NoOverflow(rows, resource, amount)
    ensures |Submitted(rows, resource, amount)| ==
      NamedCount(rows) + if Found(rows, resource) then 0 else 1
  {
    MergedLength(rows, resource, amount);
  }

  /** A bumped row still names the resource and now reads `current +
      amount`. */
  lemma BumpedReads(row: Row, resource: string, amount: i32)
    requires Matches(row, resource) && I32_MIN <= CurrentOf(row) + amount <= I32_MAX
    ensures Matches(Bumped(row, amount), resource)
    ensures CurrentOf(Bumped(row, amount)) == CurrentOf(row) + amount
  {
    ParseI32RoundTrip(CurrentOf(row) + amount);
  }

  /** The appended row names the resource and reads the amount. */
  lemma NewRowReads(resource: string, amount: i32)
    ensures Matches(NewRow(resource, amount), resource)
    ensures CurrentOf(NewRow(resource, amount)) == amount
  {
    LowerAsciiIdempotent(resource);
    ParseI32RoundTrip(amount);
  }

  /** After a submission the ledger always has a row for the resource. */
  lemma SubmittedFinds(rows: seq<Row>, resource: string, amount: i32)
    requires NoOverflow(rows, resource, amount)
    ensures Found(Submitted(rows, resource, amount), resource)
  {
    var out := Submitted(rows, resource, amount);
    if Found(rows, resource) {
      var i :| 0 <= i < |rows| && Matches(rows[i], resource);
      MergedAt(rows, resource, amount, i);
      BumpedReads(rows[i], resource, amount);
      var c := NamedCount(rows[..i]);
      assert out[c] == Bumped(rows[i], amount);
    } else {
      NewRowReads(resource, amount);
      assert out[|out| - 1] == NewRow(resource, amount);
    }
  }
}
