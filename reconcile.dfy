/** `compute_completed_remaining` (commands/request.rs): the requested
    lines of an open request are split into those the inventory already
    covers and those still short, with the shortfall. */
module Reconcile {
  import opened Text
  import opened Sheets
  import opened Resources
  import opened Partition

  /** The stock a line is checked against: the inventory at the line's
      normalized name, 0 when absent. */
  function StockFor(inventory: map<string, u64>, l: Line): u64 {
    Stock(inventory, Normalize(l.name))
  }

  /** A line is covered when the stock reaches the requested amount;
      equality counts. */
  predicate Covered(inventory: map<string, u64>, l: Line) {
    StockFor(inventory, l) >= l.amount
  }

  /** What is still missing of a line: nothing when it is covered, and
      otherwise more than nothing and no more than was requested, so the
      subtraction never underflows. */
  function Shortfall(inventory: map<string, u64>, l: Line): (r: u64)
    ensures Covered(inventory, l) ==> r == 0
    ensures !Covered(inventory, l) ==> 0 < r <= l.amount
  {
    if Covered(inventory, l) then 0 else l.amount - StockFor(inventory, l)
  }

  /** `Covered` and the shortfall line, as the values the split takes. */
  function CoveredBy(inventory: map<string, u64>): Line -> bool {
    l => Covered(inventory, l)
  }

  function ShortLine(inventory: map<string, u64>): Line -> Line {
    l => Line(Shortfall(inventory, l), l.name)
  }

  /** The covered lines, in input order, with their requested amounts. */
  function Completed(inventory: map<string, u64>, rs: seq<Line>): seq<Line> {
    Kept(rs, CoveredBy(inventory))
  }

  /** The uncovered lines, in input order, each with its shortfall in place
      of the requested amount. */
  function Remaining(inventory: map<string, u64>, rs: seq<Line>): seq<Line> {
    Rest(rs, CoveredBy(inventory), ShortLine(inventory))
  }

  /** The loop over the requested lines, pushing each onto one of two
      lists. The inventory is only read. */
  method ComputeCompletedRemaining(resources: seq<Line>, inventory: map<string, u64>)
    returns (completed: seq<Line>, remaining: seq<Line>)
    ensures completed == Completed(inventory, resources)
    ensures remaining == Remaining(inventory, resources)
    ensures |completed| + |remaining| == |resources|
  {
    completed := [];
    remaining := [];
    for i := 0 to |resources|
      invariant completed == Completed(inventory, resources[..i])
      invariant remaining == Remaining(inventory, resources[..i])
    {
      SplitStep(resources, CoveredBy(inventory), ShortLine(inventory), i);
      var l := resources[i];
      var key := Normalize(l.name);
      var stock := Stock(inventory, key);
      Classified(inventory, l);
      if stock >= l.amount {
        completed := completed + [Line(l.amount, l.name)];
      } else {
        remaining := remaining + [Line(l.amount - stock, l.name)];
      }
    }
    assert resources[..|resources|] == resources;
    SplitLength(resources, CoveredBy(inventory), ShortLine(inventory));
  }

  /** The two predicates the loop decides, applied to one line. */
  lemma Classified(inventory: map<string, u64>, l: Line)
    ensures CoveredBy(inventory)(l) <==> Stock(inventory, Normalize(l.name)) >= l.amount
    ensures !CoveredBy(inventory)(l) ==>
      ShortLine(inventory)(l) == Line(l.amount - Stock(inventory, Normalize(l.name)), l.name)
  {
  }

  /** Every line lands in exactly one of the two lists. */
  lemma PartitionLength(inventory: map<string, u64>, rs: seq<Line>)
    ensures |Completed(inventory, rs)| + |Remaining(inventory, rs)| == |rs|
  {
    SplitLength(rs, CoveredBy(inventory), ShortLine(inventory));
  }

  /** A covered line `i` is the completed entry right after those of the
      lines before it, unchanged. As that position grows with `i`, the
      completed lines keep the input order. */
  lemma CompletedAt(inventory: map<string, u64>, rs: seq<Line>, i: nat)
    requires i < |rs| && Covered(inventory, rs[i])
    ensures var c := |Completed(inventory, rs[..i])|;
      c < |Completed(inventory, rs)| && Completed(inventory, rs)[c] == rs[i]
  {
    KeptAt(rs, CoveredBy(inventory), i);
  }

  /** An uncovered line `i` is the remaining entry right after those of
      the lines before it, carrying its shortfall; again in input order. */
  lemma RemainingAt(inventory: map<string, u64>, rs: seq<Line>, i: nat)
    requires i < |rs| && !Covered(inventory, rs[i])
    ensures var m := |Remaining(inventory, rs[..i])|;
      m < |Remaining(inventory, rs)|
      && Remaining(inventory, rs)[m] == Line(Shortfall(inventory, rs[i]), rs[i].name)
  {
    RestAt(rs, CoveredBy(inventory), ShortLine(inventory), i);
  }

  /** Only requested lines are reported complete, and each is covered. */
  lemma CompletedCovered(inventory: map<string, u64>, rs: seq<Line>)
    ensures forall l :: l in Completed(inventory, rs) ==> l in rs && Covered(inventory, l)
  {
    KeptSound(rs, CoveredBy(inventory));
  }

  /** Each remaining entry names an uncovered requested line and asks for
      more than nothing and no more than that line did. */
  lemma RemainingShort(inventory: map<string, u64>, rs: seq<Line>)
    ensures forall l :: l in Remaining(inventory, rs) ==>
      exists x :: x in rs && !Covered(inventory, x) && l.name == x.name
        && l.amount == Shortfall(inventory, x) && 0 < l.amount <= x.amount
  {
    RestSound(rs, CoveredBy(inventory), ShortLine(inventory));
  }

  /** The settlement guard and the reconciliation agree. When the loaded
      request holds exactly the lines' names, each its own key, with their
      amounts, every requested amount is in stock exactly when `update`
      reports nothing remaining. */
  lemma GuardMatchesReport(inventory: map<string, u64>, request: map<string, u64>, rs: seq<Line>)
    requires forall k :: 0 <= k < |rs| ==>
      IsKey(rs[k].name) && rs[k].name in request && request[rs[k].name] == rs[k].amount
    requires forall name :: name in request ==> exists k :: 0 <= k < |rs| && rs[k].name == name
    ensures AllSatisfied(inventory, request) <==> Remaining(inventory, rs) == []
  {
    RestEmpty(rs, CoveredBy(inventory), ShortLine(inventory));
    forall k | 0 <= k < |rs| ensures Normalize(rs[k].name) == rs[k].name {
      NormalizeFixedPoint(rs[k].name);
    }
    if !AllSatisfied(inventory, request) {
      var name :| name in request && Stock(inventory, name) < request[name];
      var k :| 0 <= k < |rs| && rs[k].name == name;
      assert !CoveredBy(inventory)(rs[k]);
    }
  }
}
