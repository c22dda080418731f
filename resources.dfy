/** The parsing half of `parse_resources` (commands/request.rs): the pasted
    list is sanitised, scanned for `<digits> <words>` matches of the
    pattern `(?<amount>[0-9]+)(?<name>\s+([A-Za-z]+\s*)+)`, turned into
    `(amount, name)` lines, and water is converted into corpses. The
    registry update that follows lives in module InFlight. */
module Resources {
  import opened Text

  /** One requested line: `(u64, String)` in the source. */
  datatype Line = Line(amount: u64, name: string)

  const BULLET: char := '\U{2022}'
  const ARROW: char := '\U{2192}'

  // ---------------------------------------------------------------------
  // Sanitising

  /** Deletes every `,`, turns every " x " into a single space, then
      deletes every `-`, bullet and `:`, in that order. */
  function Sanitize(input: string): (r: string)
    ensures ',' !in r && '-' !in r && BULLET !in r && ':' !in r
  {
    var noCommas := DeleteChar(input, ',');
    var noTimes := ReplaceAll(noCommas, " x ", " ");
    DeleteChar(DeleteChar(DeleteChar(noTimes, '-'), BULLET), ':')
  }

  /** Text the sanitiser has nothing to do on: none of the four deleted
      characters, and no " x ". */
  predicate IsClean(s: string) {
    && ',' !in s && '-' !in s && BULLET !in s && ':' !in s
    && forall k :: 0 <= k <= |s| ==> !OccursAt(s, " x ", k)
  }

  /** Clean text passes through the sanitiser unchanged. */
  lemma SanitizeClean(s: string)
    requires IsClean(s)
    ensures Sanitize(s) == s
  {
    ReplaceAllAbsent(s, " x ", " ");
  }

  /** Text without an `x` holds no " x ". */
  lemma NoTimesWithoutX(s: string)
    requires 'x' !in s
    ensures forall k :: 0 <= k <= |s| ==> !OccursAt(s, " x ", k)
  {
    forall k | 0 <= k <= |s| ensures !OccursAt(s, " x ", k) {
      if k + 3 <= |s| {
        assert s[k..k + 3][1] == s[k + 1];
      }
    }
  }

  /** No " x " starts before `n` when no `x` sits at positions 1 to `n`. */
  lemma NoTimesBefore(s: string, n: nat)
    requires forall k :: 1 <= k <= n && k < |s| ==> s[k] != 'x'
    ensures forall k :: 0 <= k < n ==> !OccursAt(s, " x ", k)
  {
    forall k | 0 <= k < n ensures !OccursAt(s, " x ", k) {
      if k + 3 <= |s| {
        assert s[k..k + 3][1] == s[k + 1];
      }
    }
  }

  /** A comma between two pieces of clean text just vanishes, as the
      thousands separator in "45,000" does. */
  lemma SanitizeDropsComma(a: string, b: string)
    requires IsClean(a + b)
    ensures Sanitize(a + "," + b) == a + b
  {
    var c := a + b;
    assert ',' !in a && ',' !in b by {
      assert forall x :: x in a || x in b ==> x in c;
    }
    CommaDropped(a, b);
    SanitizeClean(c);
  }

  /** Deleting commas removes just the one between two comma-free
      pieces. */
  lemma CommaDropped(a: string, b: string)
    requires ',' !in a && ',' !in b
    ensures DeleteChar(a + "," + b, ',') == a + b
  {
    DeleteCharAppend(a + ",", b, ',');
    DeleteCharAppend(a, ",", ',');
    var da, dc, db := DeleteChar(a, ','), DeleteChar(",", ','), DeleteChar(b, ',');
    assert da == a && db == b;
    assert dc == [];
    assert DeleteChar(a + ",", ',') == a;
  }

  /** Apart from the " x " rewrite, the sanitiser only deletes: with no
      " x " left once commas are gone, each other character is kept as
      often as it occurs. */
  lemma SanitizeKeeps(s: string)
    requires forall k :: 0 <= k <= |DeleteChar(s, ',')| ==> !OccursAt(DeleteChar(s, ','), " x ", k)
    ensures forall x :: x != ',' && x != '-' && x != BULLET && x != ':' ==>
      multiset(Sanitize(s))[x] == multiset(s)[x]
  {
    ReplaceAllAbsent(DeleteChar(s, ','), " x ", " ");
  }

  // ---------------------------------------------------------------------
  // The scanner standing for the regular expression

  predicate IsWordChar(c: char) { IsAsciiLetter(c) || IsWhitespace(c) }

  /** End of the maximal run of ASCII digits starting at `i`. */
  function DigitRunEnd(s: string, i: nat): (j: nat)
    requires i <= |s|
    ensures i <= j <= |s|
    ensures forall k :: i <= k < j ==> IsDigit(s[k])
    ensures j == |s| || !IsDigit(s[j])
    decreases |s| - i
  {
    if i < |s| && IsDigit(s[i]) then DigitRunEnd(s, i + 1) else i
  }

  /** End of the maximal run of whitespace starting at `i`. */
  function SpaceRunEnd(s: string, i: nat): (j: nat)
    requires i <= |s|
    ensures i <= j <= |s|
    ensures forall k :: i <= k < j ==> IsWhitespace(s[k])
    ensures j == |s| || !IsWhitespace(s[j])
    decreases |s| - i
  {
    if i < |s| && IsWhitespace(s[i]) then SpaceRunEnd(s, i + 1) else i
  }

  /** End of the maximal run of letters and whitespace starting at `i`:
      what the greedy `([A-Za-z]+\s*)+` consumes from a letter. */
  function WordRunEnd(s: string, i: nat): (j: nat)
    requires i <= |s|
    ensures i <= j <= |s|
    ensures forall k :: i <= k < j ==> IsWordChar(s[k])
    ensures j == |s| || !IsWordChar(s[j])
    decreases |s| - i
  {
    if i < |s| && IsWordChar(s[i]) then WordRunEnd(s, i + 1) else i
  }

  /** The text of one match: the `amount` group, then the `name` group
      split into its leading whitespace and the words after it. */
  datatype Capture = Capture(digits: string, spaces: string, words: string)

  /** The text of the `amount` group: one or more ASCII digits. */
  predicate IsAmount(d: string) { |d| > 0 && AllDigits(d) }

  /** What a match of the pattern looks like. */
  predicate WellFormed(c: Capture) {
    && IsAmount(c.digits)
    && |c.spaces| > 0 && (forall k :: 0 <= k < |c.spaces| ==> IsWhitespace(c.spaces[k]))
    && |c.words| > 0 && IsAsciiLetter(c.words[0])
    && (forall k :: 0 <= k < |c.words| ==> IsWordChar(c.words[k]))
  }

  datatype Match = Match(capture: Capture, end: nat)

  /** The match starting at `i`, if any. The digit run is maximal (a
      shorter one would be followed by a digit, not whitespace), so is the
      whitespace run, and a letter must come next. */
  function MatchAt(s: string, i: nat): (r: Option<Match>)
    requires i <= |s|
    ensures r.Some? ==> WellFormed(r.value.capture) && i < r.value.end <= |s|
    ensures r.Some? ==> var c := r.value.capture;
      s[i..r.value.end] == c.digits + c.spaces + c.words
    ensures r.Some? ==> r.value.end == |s| || !IsWordChar(s[r.value.end])
  {
    if i < |s| && IsDigit(s[i]) then
      var d := DigitRunEnd(s, i);
      var w := SpaceRunEnd(s, d);
      if d < w < |s| && IsAsciiLetter(s[w]) then
        var e := WordRunEnd(s, w);
        RunsWellFormed(s, i, d, w, e);
        Some(Match(Capture(s[i..d], s[d..w], s[w..e]), e))
      else None
    else None
  }

  /** Three adjacent runs of the right kinds make a well-formed capture
      that spells out the text they cover. */
  lemma RunsWellFormed(s: string, i: nat, d: nat, w: nat, e: nat)
    requires i < d < w < e <= |s|
    requires forall k :: i <= k < d ==> IsDigit(s[k])
    requires forall k :: d <= k < w ==> IsWhitespace(s[k])
    requires IsAsciiLetter(s[w])
    requires forall k :: w <= k < e ==> IsWordChar(s[k])
    ensures WellFormed(Capture(s[i..d], s[d..w], s[w..e]))
    ensures s[i..e] == s[i..d] + s[d..w] + s[w..e]
  {
    var c := Capture(s[i..d], s[d..w], s[w..e]);
    assert forall k :: 0 <= k < |c.digits| ==> c.digits[k] == s[i + k];
    assert forall k :: 0 <= k < |c.spaces| ==> c.spaces[k] == s[d + k];
    assert forall k :: 0 <= k < |c.words| ==> c.words[k] == s[w + k];
    SliceSplit(s, i, d, e);
    SliceSplit(s, d, w, e);
  }

  /** A match starts at `i` whenever the text there has the pattern's
      shape: digits, then whitespace, then a letter. */
  lemma MatchAtComplete(s: string, i: nat, d: nat, w: nat)
    requires i < d < w < |s|
    requires forall k :: i <= k < d ==> IsDigit(s[k])
    requires forall k :: d <= k < w ==> IsWhitespace(s[k])
    requires IsAsciiLetter(s[w])
    ensures MatchAt(s, i) == Some(Match(Capture(s[i..d], s[d..w], s[w..WordRunEnd(s, w)]), WordRunEnd(s, w)))
  {
    DigitRunEndAt(s, i, d);
    SpaceRunEndAt(s, d, w);
  }

  /** The same, with the end of the words run and the capture given. */
  lemma MatchAtEnd(s: string, i: nat, d: nat, w: nat, e: nat, c: Capture)
    requires i < d < w < e <= |s|
    requires forall k :: i <= k < d ==> IsDigit(s[k])
    requires forall k :: d <= k < w ==> IsWhitespace(s[k])
    requires IsAsciiLetter(s[w])
    requires forall k :: w <= k < e ==> IsWordChar(s[k])
    requires e == |s| || !IsWordChar(s[e])
    requires c == Capture(s[i..d], s[d..w], s[w..e])
    ensures MatchAt(s, i) == Some(Match(c, e))
  {
    WordRunEndAt(s, w, e);
    MatchAtComplete(s, i, d, w);
  }

  /** The digit run from `i` ends at the first non-digit. */
  lemma {:induction false} DigitRunEndAt(s: string, i: nat, d: nat)
    requires i <= d <= |s|
    requires forall k :: i <= k < d ==> IsDigit(s[k])
    requires d == |s| || !IsDigit(s[d])
    ensures DigitRunEnd(s, i) == d
    decreases d - i
  {
    if i < d {
      DigitRunEndAt(s, i + 1, d);
    }
  }

  /** The run of letters and whitespace from `i` ends at the first other
      character. */
  lemma {:induction false} WordRunEndAt(s: string, i: nat, e: nat)
    requires i <= e <= |s|
    requires forall k :: i <= k < e ==> IsWordChar(s[k])
    requires e == |s| || !IsWordChar(s[e])
    ensures WordRunEnd(s, i) == e
    decreases e - i
  {
    if i < e {
      WordRunEndAt(s, i + 1, e);
    }
  }

  /** The whitespace run from `i` ends at the first non-whitespace. */
  lemma {:induction false} SpaceRunEndAt(s: string, i: nat, w: nat)
    requires i <= w <= |s|
    requires forall k :: i <= k < w ==> IsWhitespace(s[k])
    requires w == |s| || !IsWhitespace(s[w])
    ensures SpaceRunEnd(s, i) == w
    decreases w - i
  {
    if i < w {
      SpaceRunEndAt(s, i + 1, w);
    }
  }

  /** `captures_iter` from position `i`: the leftmost match, then the
      matches after its end. */
  function CapturesFrom(s: string, i: nat): (r: seq<Capture>)
    requires i <= |s|
    ensures forall k :: 0 <= k < |r| ==> WellFormed(r[k])
    decreases |s| - i
  {
    if i == |s| then []
    else match MatchAt(s, i)
      case Some(m) => [m.capture] + CapturesFrom(s, m.end)
      case None => CapturesFrom(s, i + 1)
  }

  function Captures(s: string): (r: seq<Capture>)
    ensures forall k :: 0 <= k < |r| ==> WellFormed(r[k])
  {
    CapturesFrom(s, 0)
  }

  /** A well-formed capture found in the text at `i`, followed by neither
      a letter nor whitespace, is the match found at `i`. */
  lemma MatchOfPieces(s: string, i: nat, c: Capture)
    requires WellFormed(c)
    requires i + |c.digits| + |c.spaces| + |c.words| <= |s|
    requires s[i..i + |c.digits|] == c.digits
    requires s[i + |c.digits|..i + |c.digits| + |c.spaces|] == c.spaces
    requires s[i + |c.digits| + |c.spaces|..i + |c.digits| + |c.spaces| + |c.words|] == c.words
    requires var e := i + |c.digits| + |c.spaces| + |c.words|; e == |s| || !IsWordChar(s[e])
    ensures MatchAt(s, i) == Some(Match(c, i + |c.digits| + |c.spaces| + |c.words|))
  {
    PiecesRuns(s, i, c);
    MatchAtEnd(s, i, i + |c.digits|, i + |c.digits| + |c.spaces|, i + |c.digits| + |c.spaces| + |c.words|, c);
  }

  /** The pieces of a well-formed capture found at `i` are runs of the
      kinds the scanner looks for. */
  lemma PiecesRuns(s: string, i: nat, c: Capture)
    requires WellFormed(c)
    requires i + |c.digits| + |c.spaces| + |c.words| <= |s|
    requires s[i..i + |c.digits|] == c.digits
    requires s[i + |c.digits|..i + |c.digits| + |c.spaces|] == c.spaces
    requires s[i + |c.digits| + |c.spaces|..i + |c.digits| + |c.spaces| + |c.words|] == c.words
    ensures forall k :: i <= k < i + |c.digits| ==> IsDigit(s[k])
    ensures forall k :: i + |c.digits| <= k < i + |c.digits| + |c.spaces| ==> IsWhitespace(s[k])
    ensures IsAsciiLetter(s[i + |c.digits| + |c.spaces|])
    ensures forall k :: i + |c.digits| + |c.spaces| <= k < i + |c.digits| + |c.spaces| + |c.words| ==> IsWordChar(s[k])
  {
    var d := i + |c.digits|;
    var w := d + |c.spaces|;
    PieceChars(s, i, c.digits, IsDigit);
    PieceChars(s, d, c.spaces, IsWhitespace);
    PieceChars(s, w, c.words, IsWordChar);
    SliceIs(s, w, c.words);
    assert s[w + 0] == c.words[0];
  }

  /** Each character of a piece found at `i` sits in the text at `i` on. */
  lemma PieceChars(s: string, i: nat, t: string, p: char -> bool)
    requires i + |t| <= |s| && s[i..i + |t|] == t
    requires forall k :: 0 <= k < |t| ==> p(t[k])
    ensures forall k :: i <= k < i + |t| ==> p(s[k])
  {
    SliceIs(s, i, t);
    forall k | i <= k < i + |t| ensures p(s[k]) {
      assert s[i + (k - i)] == t[k - i];
    }
  }

  /** Positions where no match starts are skipped: the scan goes on from
      the first position that has one. */
  lemma {:induction false} SkipNoMatch(s: string, i: nat, j: nat)
    requires i <= j <= |s|
    requires forall k :: i <= k < j ==> MatchAt(s, k).None?
    ensures CapturesFrom(s, i) == CapturesFrom(s, j)
    decreases j - i
  {
    if i < j {
      SkipNoMatch(s, i + 1, j);
    }
  }

  /** The first capture from `i` is the leftmost match at or after `i`,
      and the scan resumes where that match ends, so captures never
      overlap. */
  lemma FirstCapture(s: string, i: nat, j: nat)
    requires i <= j < |s|
    requires forall k :: i <= k < j ==> MatchAt(s, k).None?
    requires MatchAt(s, j).Some?
    ensures var m := MatchAt(s, j).value;
      CapturesFrom(s, i) == [m.capture] + CapturesFrom(s, m.end)
  {
    SkipNoMatch(s, i, j);
  }

  /** Every capture is the match at some position of the text. */
  lemma {:induction false} CapturesSound(s: string, i: nat)
    requires i <= |s|
    ensures forall c :: c in CapturesFrom(s, i) ==>
      exists k :: i <= k < |s| && MatchAt(s, k).Some? && MatchAt(s, k).value.capture == c
    decreases |s| - i
  {
    if i < |s| {
      match MatchAt(s, i)
      case Some(m) =>
        CapturesSound(s, m.end);
      case None =>
        CapturesSound(s, i + 1);
    }
  }

  /** Text without a digit has no match. */
  lemma {:induction false} NoDigitNoCapture(s: string, i: nat)
    requires i <= |s|
    requires forall k :: i <= k < |s| ==> !IsDigit(s[k])
    ensures CapturesFrom(s, i) == []
    decreases |s| - i
  {
    if i < |s| {
      NoDigitNoCapture(s, i + 1);
    }
  }

  // ---------------------------------------------------------------------
  // From captures to lines

  /** The name of a match: `trim().to_lowercase()` of the `name` group.
      The group holds only ASCII letters and whitespace, so ASCII
      lower-casing is exact here. */
  function ParsedName(c: Capture): string {
    LowerAscii(Trim(c.spaces + c.words))
  }

  /** A non-empty name of lower-case ASCII letters and inner whitespace,
      beginning and ending with a letter. */
  predicate IsItemName(n: string) {
    && |n| > 0 && IsAsciiLower(n[0]) && IsAsciiLower(n[|n| - 1])
    && forall k :: 0 <= k < |n| ==> IsAsciiLower(n[k]) || IsWhitespace(n[k])
  }

  lemma {:induction false} TrimStartSkipsSpaces(spaces: string, rest: string)
    requires forall k :: 0 <= k < |spaces| ==> IsWhitespace(spaces[k])
    requires rest == [] || !IsWhitespace(rest[0])
    ensures TrimStart(spaces + rest) == rest
  {
    if spaces == [] {
      assert spaces + rest == rest;
    } else {
      assert (spaces + rest)[1..] == spaces[1..] + rest;
      TrimStartSkipsSpaces(spaces[1..], rest);
    }
  }

  lemma {:induction false} TrimEndNonEmpty(s: string)
    requires s != [] && !IsWhitespace(s[0])
    ensures TrimEnd(s) != []
  {
    if IsWhitespace(s[|s| - 1]) {
      TrimEndNonEmpty(s[..|s| - 1]);
    }
  }

  /** Lower-casing a trimmed run of words gives an item name. */
  lemma LowerWords(t: string)
    requires |t| > 0 && IsAsciiLetter(t[0]) && !IsWhitespace(t[|t| - 1])
    requires forall k :: 0 <= k < |t| ==> IsWordChar(t[k])
    ensures IsItemName(LowerAscii(t))
  {
    var n := LowerAscii(t);
    assert IsAsciiLetter(t[|t| - 1]);
    forall k | 0 <= k < |n| ensures IsAsciiLower(n[k]) || IsWhitespace(n[k]) {
      assert n[k] == LowerChar(t[k]);
    }
  }

  /** Trimming the `name` group leaves its words without trailing
      whitespace. */
  lemma TrimmedGroup(c: Capture)
    requires WellFormed(c)
    ensures var t := Trim(c.spaces + c.words);
      && |t| > 0 && IsAsciiLetter(t[0]) && !IsWhitespace(t[|t| - 1])
      && forall k :: 0 <= k < |t| ==> IsWordChar(t[k])
  {
    TrimStartSkipsSpaces(c.spaces, c.words);
    var t := TrimEnd(c.words);
    assert Trim(c.spaces + c.words) == t;
    TrimEndNonEmpty(c.words);
    TrimEndKeepsChars(c.words);
    forall k | 0 <= k < |t| ensures IsWordChar(t[k]) {
      assert t[k] in t;
      var j :| 0 <= j < |c.words| && c.words[j] == t[k];
    }
  }

  /** Every parsed name is trimmed, lower-case, non-empty and made of ASCII
      letters and whitespace only. */
  lemma ParsedNameShape(c: Capture)
    requires WellFormed(c)
    ensures IsItemName(ParsedName(c))
    ensures IsTrimmed(ParsedName(c))
  {
    TrimmedGroup(c);
    LowerWords(Trim(c.spaces + c.words));
  }

  /** Why parsing failed: the `amount` text of the first match whose value
      does not fit in a `u64`. */
  datatype ParseFailure = AmountOverflow(digits: string)

  /** The lines the matches give, or the first amount that overflows. */
  function ParseItems(caps: seq<Capture>): Result<seq<Line>, ParseFailure> {
    if caps == [] then Success([])
    else match ParseItems(caps[..|caps| - 1])
      case Failure(e) => Failure(e)
      case Success(lines) =>
        var c := caps[|caps| - 1];
        match ParseU64(c.digits)
        case None => Failure(AmountOverflow(c.digits))
        case Some(n) => Success(lines + [Line(n, ParsedName(c))])
  }

  /** What a pasted list parses into: the lines of the matches in the
      sanitised text, or the first amount that overflows. */
  function Parsed(input: string): Result<seq<Line>, ParseFailure> {
    ParseItems(Captures(Sanitize(input)))
  }

  /** The scan-and-parse loop: one line per match, in order; the first
      amount that overflows a `u64` is an error. */
  method ParseResources(input: string) returns (r: Result<seq<Line>, ParseFailure>)
    ensures r == Parsed(input)
  {
    var caps := Captures(Sanitize(input));
    var parsed: seq<Line> := [];
    for i := 0 to |caps|
      invariant ParseItems(caps[..i]) == Success(parsed)
    {
      assert caps[..i + 1][..i] == caps[..i];
      var amount := ParseU64(caps[i].digits);
      if amount.None? {
        ParseItemsFailureSticks(caps, i + 1);
        return Failure(AmountOverflow(caps[i].digits));
      }
      var name := LowerAscii(Trim(caps[i].spaces + caps[i].words));
      parsed := parsed + [Line(amount.value, name)];
    }
    assert caps[..|caps|] == caps;
    return Success(parsed);
  }

  /** A digit run parses exactly when its value fits in a `u64`. */
  lemma ParseDigits(d: string)
    requires IsAmount(d)
    ensures DigitsValue(d) <= U64_MAX ==> ParseU64(d) == Some(DigitsValue(d))
    ensures DigitsValue(d) > U64_MAX ==> ParseU64(d) == None
  {
    assert IsDigit(d[0]);
  }

  predicate Fits(d: string)
    requires IsAmount(d)
  {
    DigitsValue(d) <= U64_MAX
  }

  /** The line a match whose amount fits stands for. */
  function LineOf(c: Capture): (l: Line)
    requires IsAmount(c.digits) && Fits(c.digits)
  {
    Line(DigitsValue(c.digits), ParsedName(c))
  }

  /** Once parsing has failed on a prefix, later matches change nothing. */
  lemma {:induction false} ParseItemsFailureSticks(caps: seq<Capture>, i: nat)
    requires i <= |caps| && ParseItems(caps[..i]).Failure?
    ensures ParseItems(caps) == ParseItems(caps[..i])
  {
    if i < |caps| {
      var prefix := caps[..|caps| - 1];
      assert prefix[..i] == caps[..i];
      ParseItemsFailureSticks(prefix, i);
    } else {
      assert caps[..i] == caps;
    }
  }

  /** A match whose amount fits extends a successful parse by its line. */
  lemma ParseItemsSnoc(caps: seq<Capture>)
    requires caps != [] && ParseItems(caps[..|caps| - 1]).Success?
    requires IsAmount(caps[|caps| - 1].digits) && Fits(caps[|caps| - 1].digits)
    ensures ParseItems(caps) == Success(ParseItems(caps[..|caps| - 1]).value + [LineOf(caps[|caps| - 1])])
  {
    ParseDigits(caps[|caps| - 1].digits);
  }

  /** When every amount fits, parsing succeeds with one line per match:
      the amount is the digit run's value and the name its parsed name. */
  lemma {:induction false} ParseItemsSuccess(caps: seq<Capture>)
    requires forall k :: 0 <= k < |caps| ==> IsAmount(caps[k].digits) && Fits(caps[k].digits)
    ensures ParseItems(caps).Success?
    ensures |ParseItems(caps).value| == |caps|
    ensures forall k :: 0 <= k < |caps| ==> ParseItems(caps).value[k] == LineOf(caps[k])
  {
    if caps != [] {
      var prefix := caps[..|caps| - 1];
      assert forall k :: 0 <= k < |prefix| ==> prefix[k] == caps[k];
      ParseItemsSuccess(prefix);
      ParseItemsSnoc(caps);
      var lines := ParseItems(prefix).value;
      var all := lines + [LineOf(caps[|caps| - 1])];
      forall k | 0 <= k < |caps| ensures all[k] == LineOf(caps[k]) {
        if k < |prefix| {
          assert all[k] == lines[k];
        }
      }
    }
  }

  /** Otherwise parsing fails, naming the first amount that overflows. */
  lemma {:induction false} ParseItemsOverflow(caps: seq<Capture>, j: nat)
    requires forall k :: 0 <= k < |caps| ==> IsAmount(caps[k].digits)
    requires j < |caps| && !Fits(caps[j].digits)
    requires forall k :: 0 <= k < j ==> Fits(caps[k].digits)
    ensures ParseItems(caps) == Failure(AmountOverflow(caps[j].digits))
  {
    var prefix := caps[..|caps| - 1];
    assert forall k :: 0 <= k < |prefix| ==> prefix[k] == caps[k];
    if j == |caps| - 1 {
      ParseItemsSuccess(prefix);
      ParseDigits(caps[j].digits);
    } else {
      ParseItemsOverflow(prefix, j);
    }
  }

  /** Every name that parsing yields is an item name. */
  lemma {:induction false} ParsedItemsShape(caps: seq<Capture>)
    requires forall k :: 0 <= k < |caps| ==> WellFormed(caps[k])
    ensures ParseItems(caps).Success? ==>
      forall k :: 0 <= k < |ParseItems(caps).value| ==> IsItemName(ParseItems(caps).value[k].name)
  {
    if caps != [] {
      var prefix := caps[..|caps| - 1];
      assert forall k :: 0 <= k < |prefix| ==> prefix[k] == caps[k];
      ParsedItemsShape(prefix);
      ParsedNameShape(caps[|caps| - 1]);
    }
  }

  // ---------------------------------------------------------------------
  // Water to corpses

  const WATER_PER_CORPSE: nat := 45000
  const WATER: string := "water"
  const CORPSE: string := "corpse"

  /** The `filter_map` step: water becomes whole corpses (the fraction is
      dropped, and so is a line worth no corpse); anything else passes. */
  function ConvertLine(l: Line): (r: seq<Line>)
    ensures l.name != WATER ==> r == [l]
    ensures l.name == WATER && l.amount < WATER_PER_CORPSE ==> r == []
    ensures l.name == WATER && l.amount >= WATER_PER_CORPSE ==>
      r == [Line(l.amount / WATER_PER_CORPSE, CORPSE)] && r[0].amount >= 1
  {
    if l.name == WATER then
      var corpses := l.amount / WATER_PER_CORPSE;
      if corpses > 0 then [Line(corpses, CORPSE)] else []
    else [l]
  }

  /** The converted list that the registry stores. */
  function ConvertWater(items: seq<Line>): (r: seq<Line>)
    ensures |r| <= |items|
    ensures forall k :: 0 <= k < |r| ==> r[k].name != WATER
  {
    if items == [] then [] else ConvertLine(items[0]) + ConvertWater(items[1..])
  }

  /** Conversion works line by line: it distributes over concatenation. */
  lemma {:induction false} ConvertWaterAppend(a: seq<Line>, b: seq<Line>)
    ensures ConvertWater(a + b) == ConvertWater(a) + ConvertWater(b)
  {
    if a == [] {
      assert a + b == b;
    } else {
      assert (a + b)[1..] == a[1..] + b;
      ConvertWaterAppend(a[1..], b);
    }
  }

  /** A list without water passes through unchanged. */
  lemma {:induction false} ConvertWaterNoWater(items: seq<Line>)
    requires forall k :: 0 <= k < |items| ==> items[k].name != WATER
    ensures ConvertWater(items) == items
  {
    if items != [] {
      ConvertWaterNoWater(items[1..]);
    }
  }

  /** Conversion keeps every name an item name: the names it lets through
      unchanged, and "corpse". */
  lemma {:induction false} ConvertWaterKeepsNames(items: seq<Line>)
    requires forall k :: 0 <= k < |items| ==> IsItemName(items[k].name)
    ensures forall k :: 0 <= k < |ConvertWater(items)| ==> IsItemName(ConvertWater(items)[k].name)
  {
    if items != [] {
      ConvertWaterKeepsNames(items[1..]);
      assert IsItemName(CORPSE) by {
        assert forall k :: 0 <= k < |CORPSE| ==> IsAsciiLower(CORPSE[k]);
      }
    }
  }

  // ---------------------------------------------------------------------
  // The preview

  /** One preview line, built from the list before conversion. */
  datatype PreviewLine = Converted(water: u64, corpses: nat) | Listed(amount: u64, name: string)

  function PreviewOf(l: Line): PreviewLine {
    if l.name == WATER then Converted(l.amount, l.amount / WATER_PER_CORPSE) else Listed(l.amount, l.name)
  }

  /** The preview has one line per parsed line, water included, even
      water worth no corpse. */
  function Preview(items: seq<Line>): (r: seq<PreviewLine>)
    ensures |r| == |items|
    ensures forall k :: 0 <= k < |items| ==> r[k] == PreviewOf(items[k])
  {
    seq(|items|, k requires 0 <= k < |items| => PreviewOf(items[k]))
  }

  /** What a preview line stands for in the stored list. */
  function Committed(p: PreviewLine): seq<Line> {
    match p
    case Converted(_, corpses) =>
      if corpses > 0 && corpses <= U64_MAX then [Line(corpses, CORPSE)] else []
    case Listed(amount, name) => [Line(amount, name)]
  }

  function CommittedAll(ps: seq<PreviewLine>): seq<Line> {
    if ps == [] then [] else Committed(ps[0]) + CommittedAll(ps[1..])
  }

  /** The preview agrees with what is stored: reading each preview line as
      what it commits gives exactly the converted list. A water line worth
      no corpse is shown but commits nothing. */
  lemma {:induction false} PreviewMatchesStored(items: seq<Line>)
    ensures CommittedAll(Preview(items)) == ConvertWater(items)
  {
    if items != [] {
      PreviewMatchesStored(items[1..]);
      assert Preview(items)[1..] == Preview(items[1..]);
    }
  }

  /** `join(sep)`. */
  function Join(parts: seq<string>, sep: string): string {
    if parts == [] then ""
    else if |parts| == 1 then parts[0]
    else parts[0] + sep + Join(parts[1..], sep)
  }

  lemma {:induction false} JoinLast(parts: seq<string>, sep: string)
    requires |parts| > 0 && |parts[|parts| - 1]| > 0
    ensures var j := Join(parts, sep);
      |j| > 0 && j[|j| - 1] == parts[|parts| - 1][|parts[|parts| - 1]| - 1]
  {
    if |parts| > 1 {
      JoinLast(parts[1..], sep);
    }
  }

  /** The text of one preview line. */
  function RenderPreviewLine(p: PreviewLine): (r: string)
    ensures |r| > 0
  {
    match p
    case Converted(water, corpses) =>
      [BULLET] + " Converted: " + NatToString(water) + " x water " + [ARROW] + " "
        + NatToString(corpses) + " x corpse"
    case Listed(amount, name) => [BULLET] + " " + NatToString(amount) + " x " + name
  }

  function RenderAll(ps: seq<PreviewLine>): (r: seq<string>)
    ensures |r| == |ps|
    ensures forall k :: 0 <= k < |ps| ==> r[k] == RenderPreviewLine(ps[k])
  {
    seq(|ps|, k requires 0 <= k < |ps| => RenderPreviewLine(ps[k]))
  }

  /** The preview text: the rendered lines joined by newlines, with
      trailing commas trimmed. It is what the join starts with, never ends
      in a comma, and is empty for an empty list. */
  function PreviewText(items: seq<Line>): (r: string)
    ensures r <= Join(RenderAll(Preview(items)), "\n")
    ensures r == [] || r[|r| - 1] != ','
    ensures items == [] ==> r == []
  {
    TrimEndMatches(Join(RenderAll(Preview(items)), "\n"), ',')
  }

  /** Trimming trailing commas never changes the preview: a name that does
      not end in a comma (and no parsed name does) leaves none at the end. */
  lemma PreviewTrimIsNoop(items: seq<Line>)
    requires forall k :: 0 <= k < |items| ==> items[k].name == [] || items[k].name[|items[k].name| - 1] != ','
    ensures PreviewText(items) == Join(RenderAll(Preview(items)), "\n")
  {
    var parts := RenderAll(Preview(items));
    if parts != [] {
      JoinLast(parts, "\n");
    }
  }

  // ---------------------------------------------------------------------
  // A worked example

  /** The sanitised example is made of letters, digits and spaces, and
      has no `x`. */
  lemma ExampleChars(clean: string)
    requires clean == "100 Iron Ore 45000 Water"
    ensures ',' !in clean && '-' !in clean && BULLET !in clean && ':' !in clean && 'x' !in clean
  {
    assert forall k :: 0 <= k < |clean| ==> clean[k] != 'x' && (clean[k] == ' ' || '0' <= clean[k] <= '9' || 'A' <= clean[k] <= 'z');
  }

  /** So it has nothing left for the sanitiser to do. */
  lemma CleanExample(clean: string)
    requires clean == "100 Iron Ore 45000 Water"
    ensures IsClean(clean)
  {
    ExampleChars(clean);
    NoTimesWithoutX(clean);
  }

  /** The commas go; nothing else changes. */
  lemma SanitizeExample(input: string)
    requires input == "100 Iron Ore, 45000 Water"
    ensures Sanitize(input) == "100 Iron Ore 45000 Water"
  {
    var a, b := input[..12], input[13..];
    CommaAt(input, a, b);
    CleanExample(a + b);
    SanitizeDropsComma(a, b);
  }

  /** The paste is the clean text with one comma put back. */
  lemma CommaAt(input: string, a: string, b: string)
    requires input == "100 Iron Ore, 45000 Water"
    requires a == input[..12] && b == input[13..]
    ensures input == a + "," + b && a + b == "100 Iron Ore 45000 Water"
  {
    SliceMatches(input, 0, "100 Iron Ore");
    SliceMatches(input, 13, " 45000 Water");
    assert input == input[..12] + [input[12]] + input[13..];
    CommaPieces(a, b);
  }

  /** The two halves around the comma, joined. */
  lemma CommaPieces(a: string, b: string)
    requires a == "100 Iron Ore" && b == " 45000 Water"
    ensures a + b == "100 Iron Ore 45000 Water"
  {
  }

  /** Where the groups of the two matches sit in the sanitised text. */
  lemma ExampleGroups(s: string)
    requires s == "100 Iron Ore 45000 Water"
    ensures s[0..3] == "100" && s[3..4] == " " && s[4..13] == "Iron Ore " && s[13] == '4'
    ensures s[13..18] == "45000" && s[18..19] == " " && s[19..24] == "Water" && |s| == 24
  {
    SliceMatches(s, 0, "100");
    SliceMatches(s, 3, " ");
    SliceMatches(s, 4, "Iron Ore ");
    SliceMatches(s, 13, "45000");
    SliceMatches(s, 18, " ");
    SliceMatches(s, 19, "Water");
  }

  /** The scan finds exactly two matches. */
  lemma CapturesExample(s: string)
    requires s == "100 Iron Ore 45000 Water"
    ensures Captures(s) == [Capture("100", " ", "Iron Ore "), Capture("45000", " ", "Water")]
  {
    var c1, c2 := Capture("100", " ", "Iron Ore "), Capture("45000", " ", "Water");
    assert WellFormed(c1) && WellFormed(c2);
    ExampleGroups(s);
    MatchOfPieces(s, 0, c1);
    FirstCapture(s, 0, 0);
    MatchOfPieces(s, 13, c2);
    FirstCapture(s, 13, 13);
  }

  /** The first match's name, trimmed and lower-cased. */
  lemma IronOreName(c: Capture)
    requires c == Capture("100", " ", "Iron Ore ")
    ensures ParsedName(c) == "iron ore"
  {
    TrimStartSkipsSpaces(c.spaces, c.words);
    assert TrimEnd(c.words) == "Iron Ore";
    assert LowerAscii("Iron Ore") == "iron ore";
  }

  /** The second match's name. */
  lemma WaterName(c: Capture)
    requires c == Capture("45000", " ", "Water")
    ensures ParsedName(c) == WATER
  {
    TrimStartSkipsSpaces(c.spaces, c.words);
    assert LowerAscii("Water") == WATER;
  }

  /** Both amounts are digit runs that fit in a `u64`. */
  lemma AmountsExample()
    ensures IsAmount("100") && DigitsValue("100") == 100 && Fits("100")
    ensures IsAmount("45000") && DigitsValue("45000") == 45000 && Fits("45000")
  {
    assert "10"[..1] == "1" && "100"[..2] == "10";
    assert "45"[..1] == "4" && "450"[..2] == "45" && "4500"[..3] == "450" && "45000"[..4] == "4500";
  }

  /** Two matches whose amounts fit give their two lines. */
  lemma ParseTwo(c0: Capture, c1: Capture)
    requires IsAmount(c0.digits) && Fits(c0.digits) && IsAmount(c1.digits) && Fits(c1.digits)
    ensures ParseItems([c0, c1]) == Success([LineOf(c0), LineOf(c1)])
  {
    var caps := [c0, c1];
    ParseItemsSuccess(caps);
    var lines := ParseItems(caps).value;
    assert lines[0] == LineOf(c0) && lines[1] == LineOf(c1);
    assert lines == [LineOf(c0), LineOf(c1)];
  }

  /** Both amounts fit, so the two matches give two lines. */
  lemma ParseItemsExample(caps: seq<Capture>)
    requires caps == [Capture("100", " ", "Iron Ore "), Capture("45000", " ", "Water")]
    ensures ParseItems(caps) == Success([Line(100, "iron ore"), Line(45000, WATER)])
  {
    IronOreName(caps[0]);
    WaterName(caps[1]);
    AmountsExample();
    ParseTwo(caps[0], caps[1]);
    assert caps == [caps[0], caps[1]];
  }

  /** 45000 water is exactly one corpse. */
  lemma ConvertExample(lines: seq<Line>)
    requires lines == [Line(100, "iron ore"), Line(45000, WATER)]
    ensures ConvertWater(lines) == [Line(100, "iron ore"), Line(1, CORPSE)]
  {
    assert lines[1..] == [lines[1]];
    assert lines[1..][1..] == [];
  }

  /** `"100 Iron Ore, 45000 Water"` parses into 100 iron ore and 45000
      water, and stores 100 iron ore and one corpse. */
  lemma ParseExample(input: string)
    requires input == "100 Iron Ore, 45000 Water"
    ensures Parsed(input) == Success([Line(100, "iron ore"), Line(45000, WATER)])
    ensures ConvertWater(Parsed(input).value) == [Line(100, "iron ore"), Line(1, CORPSE)]
  {
    SanitizeExample(input);
    CapturesExample(Sanitize(input));
    ParseItemsExample(Captures(Sanitize(input)));
    ConvertExample(Parsed(input).value);
  }

  /** A " x " after text without an `x` becomes a single space, and the
      rewriting goes on after it. */
  lemma TimesOnce(a: string, b: string)
    requires 'x' !in a
    ensures ReplaceAll(a + " x " + b, " x ", " ") == a + " " + ReplaceAll(b, " x ", " ")
  {
    var s := a + " x " + b;
    forall k | 1 <= k <= |a| && k < |s| ensures s[k] != 'x' {
      if k < |a| {
        assert s[k] == a[k];
      }
    }
    NoTimesBefore(s, |a|);
    ReplaceOnce(a, b, " x ", " ");
  }

  /** Both " x " separators of `"50 x Iron Ore\n2 x Spice Residue"`
      become single spaces. */
  lemma TimesReplacedExample(input: string)
    requires input == "50 x Iron Ore\n2 x Spice Residue"
    ensures ReplaceAll(input, " x ", " ") == "50 Iron Ore\n2 Spice Residue"
  {
    TimesSplit(input);
    var a, b, c := input[..2], input[5..15], input[18..];
    TimesPiecesNoX(a, b, c);
    TimesTwice(a, b, c);
    TimesPieces(a, b, c);
  }

  /** Two separators with no `x` around them are both replaced. */
  lemma TimesTwice(a: string, b: string, c: string)
    requires 'x' !in a && 'x' !in b && 'x' !in c
    ensures ReplaceAll(a + " x " + b + " x " + c, " x ", " ") == a + " " + b + " " + c
  {
    var tail := b + " x " + c;
    assert a + " x " + b + " x " + c == a + " x " + tail;
    TimesOnce(a, tail);
    TimesOnce(b, c);
    NoTimesWithoutX(c);
    ReplaceAllAbsent(c, " x ", " ");
    assert a + " " + (b + " " + c) == a + " " + b + " " + c;
  }

  /** The example is its three pieces joined by " x ". */
  lemma TimesSplit(input: string)
    requires input == "50 x Iron Ore\n2 x Spice Residue"
    ensures input == input[..2] + " x " + input[5..15] + " x " + input[18..]
    ensures input[..2] == "50" && input[5..15] == "Iron Ore\n2" && input[18..] == "Spice Residue"
  {
    TimesSlices(input);
    SliceSplit(input, 0, 2, 5);
    SliceSplit(input, 0, 5, 15);
    SliceSplit(input, 0, 15, 18);
    SliceSplit(input, 0, 18, |input|);
  }

  /** Where the pieces of the example sit. */
  lemma TimesSlices(input: string)
    requires input == "50 x Iron Ore\n2 x Spice Residue"
    ensures input[2..5] == " x " && input[15..18] == " x "
    ensures input[..2] == "50"
    ensures input[5..15] == "Iron Ore\n2"
    ensures input[18..] == "Spice Residue"
  {
    SliceMatches(input, 0, "50");
    SliceMatches(input, 2, " x ");
    SliceMatches(input, 5, "Iron Ore\n2");
    SliceMatches(input, 15, " x ");
    SliceMatches(input, 18, "Spice Residue");
  }

  /** None of the example's pieces holds an `x`. */
  lemma TimesPiecesNoX(a: string, b: string, c: string)
    requires a == "50" && b == "Iron Ore\n2" && c == "Spice Residue"
    ensures 'x' !in a && 'x' !in b && 'x' !in c
  {
    assert forall k :: 0 <= k < |a| ==> a[k] != 'x';
    assert forall k :: 0 <= k < |b| ==> b[k] != 'x';
    assert forall k :: 0 <= k < |c| ==> c[k] != 'x';
  }

  /** The pieces joined by single spaces. */
  lemma TimesPieces(a: string, b: string, c: string)
    requires a == "50" && b == "Iron Ore\n2" && c == "Spice Residue"
    ensures a + " " + b + " " + c == "50 Iron Ore\n2 Spice Residue"
  {
  }

  /** So the paste sanitises to `"50 Iron Ore\n2 Spice Residue"`. */
  lemma TimesExample(input: string)
    requires input == "50 x Iron Ore\n2 x Spice Residue"
    ensures Sanitize(input) == "50 Iron Ore\n2 Spice Residue"
  {
    assert forall k :: 0 <= k < |input| ==> input[k] != ',';
    TimesReplacedExample(input);
    TimesOutputClean(ReplaceAll(input, " x ", " "));
  }

  /** The rewritten example holds none of the three later deleted
      characters. */
  lemma TimesOutputClean(out: string)
    requires out == "50 Iron Ore\n2 Spice Residue"
    ensures '-' !in out && BULLET !in out && ':' !in out
  {
    assert forall k :: 0 <= k < |out| ==> out[k] != '-' && out[k] != BULLET && out[k] != ':';
  }
}
