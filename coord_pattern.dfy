/** The bracketed-coordinate regular expressions of the reply parsers.

    Three spellings occur:
      `\[(\d+),\s*(\d+)\]`              (Unbounded)
      `\[(\d{1,2}),\s*(\d{1,2})\]`      (Narrow)
      `\[\(?(\d{1,2}),\s*(\d{1,2})\)?\]` (NarrowParens)

    None of them ever needs backtracking: every greedy part is followed by a
    character that cannot belong to it, so a match at a position is decided by
    one left-to-right reading, which is what `MatchAt` does. */
module CoordPattern {
  import opened Wrappers
  import opened Chars

  /** `parens`: the optional `(` after `[` and `)` before `]`;
      `narrow`: each number has one or two digits instead of any number. */
  datatype Pattern = Pattern(parens: bool, narrow: bool)

  const Unbounded := Pattern(false, false)
  const Narrow := Pattern(false, true)
  const NarrowParens := Pattern(true, true)

  type Coord = (nat, nat)

  /** A match: the two numbers and the position just after its `]`. */
  datatype Hit = Hit(row: nat, col: nat, end: nat) {
    function Coords(): Coord { (row, col) }
  }

  /** How far the reading of a match has got after its `[`; a number being
      read is held as its value so far and its count of digits. */
  datatype Phase =
    | Start(parenAllowed: bool)                 // before the first number
    | First(value: nat, count: nat)             // inside the first number
    | Gap(row: nat)                             // after the comma
    | Second(row: nat, value: nat, count: nat)  // inside the second number
    | Close(row: nat, col: nat)                 // after `)`, before `]`

  /** What one character does to a reading. */
  datatype Step = Fail | Accept(row: nat, col: nat) | Continue(next: Phase)

  /** Whether a number of `count` digits so far may take another digit. */
  predicate Room(pat: Pattern, count: nat) {
    !pat.narrow || count < 2
  }

  /** The effect of reading character `c` in phase `ph`. Every greedy part of
      the patterns is followed by a character it cannot contain, so no choice
      is ever revisited. */
  function Next(pat: Pattern, ph: Phase, c: char): Step {
    match ph
    case Start(parenAllowed) =>
      if parenAllowed && pat.parens && c == '(' then Continue(Start(false))
      else if IsDigit(c) then Continue(First(DigitValue(c), 1))
      else Fail
    case First(v, n) =>
      if IsDigit(c) then (if Room(pat, n) then Continue(First(10 * v + DigitValue(c), n + 1)) else Fail)
      else if c == ',' then Continue(Gap(v))
      else Fail
    case Gap(row) =>
      if IsSpace(c) then Continue(Gap(row))
      else if IsDigit(c) then Continue(Second(row, DigitValue(c), 1))
      else Fail
    case Second(row, v, n) =>
      if IsDigit(c) then (if Room(pat, n) then Continue(Second(row, 10 * v + DigitValue(c), n + 1)) else Fail)
      else if pat.parens && c == ')' then Continue(Close(row, v))
      else if c == ']' then Accept(row, v)
      else Fail
    case Close(row, col) =>
      if c == ']' then Accept(row, col) else Fail
  }

  /** The rest of a match read from position `i` of `s` on in phase `ph`;
      the hit's `end` is the position just after the closing `]`. */
  function Read(pat: Pattern, ph: Phase, s: string, i: nat): Option<Hit>
    decreases |s| - i
  {
    if i >= |s| then None
    else match Next(pat, ph, s[i])
      case Fail => None
      case Accept(row, col) => Some(Hit(row, col, i + 1))
      case Continue(ph') => Read(pat, ph', s, i + 1)
  }

  /** Only a `]` completes a reading, and no reading passes over a `[`. */
  lemma NextFacts(pat: Pattern, ph: Phase, c: char)
    ensures !Next(pat, ph, c).Fail? ==> c != '['
    ensures Next(pat, ph, c).Accept? ==> c == ']'
  {
  }

  /** A successful reading ends on a `]` within the text. */
  lemma {:induction false} ReadEnd(pat: Pattern, ph: Phase, s: string, i: nat)
    ensures Read(pat, ph, s, i).Some? ==> i < Read(pat, ph, s, i).value.end <= |s| && s[Read(pat, ph, s, i).value.end - 1] == ']'
    decreases |s| - i
  {
    if i < |s| {
      NextFacts(pat, ph, s[i]);
      match Next(pat, ph, s[i]) {
        case Continue(ph') => ReadEnd(pat, ph', s, i + 1);
        case _ =>
      }
    }
  }

  /** A reading never passes over a `[`. */
  lemma {:induction false} ReadNoOpen(pat: Pattern, ph: Phase, s: string, i: nat, k: nat)
    requires Read(pat, ph, s, i).Some? && i <= k < Read(pat, ph, s, i).value.end
    ensures k < |s| && s[k] != '['
    decreases |s| - i
  {
    ReadEnd(pat, ph, s, i);
    NextFacts(pat, ph, s[i]);
    if k > i {
      match Next(pat, ph, s[i]) {
        case Continue(ph') => ReadNoOpen(pat, ph', s, i + 1, k);
        case _ =>
      }
    }
  }

  /** The match of `pat` that starts at position `i` of `s`, if any. */
  function MatchAt(pat: Pattern, s: string, i: nat): Option<Hit> {
    if i < |s| && s[i] == '[' then Read(pat, Start(true), s, i + 1) else None
  }

  /** A match starts with `[` and ends with `]` within the text. */
  lemma MatchBounds(pat: Pattern, s: string, i: nat)
    ensures MatchAt(pat, s, i).Some? ==>
      i < MatchAt(pat, s, i).value.end <= |s| && s[i] == '[' && s[MatchAt(pat, s, i).value.end - 1] == ']'
  {
    if i < |s| && s[i] == '[' {
      ReadEnd(pat, Start(true), s, i + 1);
    }
  }

  /** The phases a narrow reading can be in: numbers of at most two digits. */
  predicate Narrowed(ph: Phase) {
    match ph
    case Start(_) => true
    case First(v, n) => (n == 1 && v < 10) || (n == 2 && v < 100)
    case Gap(row) => row < 100
    case Second(row, v, n) => row < 100 && ((n == 1 && v < 10) || (n == 2 && v < 100))
    case Close(row, col) => row < 100 && col < 100
  }

  /** A narrow reading keeps to numbers of at most two digits. */
  lemma NextNarrow(pat: Pattern, ph: Phase, c: char)
    requires pat.narrow && Narrowed(ph)
    ensures Next(pat, ph, c).Continue? ==> Narrowed(Next(pat, ph, c).next)
    ensures Next(pat, ph, c).Accept? ==> Next(pat, ph, c).row < 100 && Next(pat, ph, c).col < 100
  {
    if IsDigit(c) {
      var d := DigitValue(c);
      match ph {
        case First(v, n) => assert Room(pat, n) ==> 10 * v + d < 100;
        case Second(_, v, n) => assert Room(pat, n) ==> 10 * v + d < 100;
        case _ =>
      }
    }
  }

  lemma {:induction false} ReadNarrow(pat: Pattern, ph: Phase, s: string, i: nat)
    requires pat.narrow && Narrowed(ph)
    ensures Read(pat, ph, s, i).Some? ==> Read(pat, ph, s, i).value.row < 100 && Read(pat, ph, s, i).value.col < 100
    decreases |s| - i
  {
    if i < |s| {
      NextNarrow(pat, ph, s[i]);
      match Next(pat, ph, s[i]) {
        case Continue(ph') => ReadNarrow(pat, ph', s, i + 1);
        case _ =>
      }
    }
  }

  /** With the `\d{1,2}` spelling both numbers are below 100. */
  lemma NarrowBound(pat: Pattern, s: string, i: nat)
    requires pat.narrow && MatchAt(pat, s, i).Some?
    ensures MatchAt(pat, s, i).value.row < 100 && MatchAt(pat, s, i).value.col < 100
  {
    ReadNarrow(pat, Start(true), s, i + 1);
  }

  ghost predicate NoMatchIn(pat: Pattern, s: string, lo: int, hi: int) {
    forall k :: lo <= k < hi && 0 <= k ==> MatchAt(pat, s, k).None?
  }

  /** A match starts at `j` and none starts earlier. */
  ghost predicate FirstAt(pat: Pattern, s: string, j: nat) {
    MatchAt(pat, s, j).Some? && NoMatchIn(pat, s, 0, j)
  }

  /** A match starts at `j` and none starts later. */
  ghost predicate LastAt(pat: Pattern, s: string, j: nat) {
    MatchAt(pat, s, j).Some? && NoMatchIn(pat, s, j + 1, |s|)
  }

  // ---------------------------------------------------------------------
  // re.search: the leftmost match

  function SearchFrom(pat: Pattern, s: string, i: nat): (r: Option<Coord>)
    decreases |s| - i
    ensures r.None? <==> NoMatchIn(pat, s, i, |s|)
    ensures r.Some? ==> exists j :: i <= j < |s| && MatchAt(pat, s, j).Some? && NoMatchIn(pat, s, i, j)
                                    && r.value == MatchAt(pat, s, j).value.Coords()
  {
    if i >= |s| then None
    else match MatchAt(pat, s, i)
      case Some(h) => Some(h.Coords())
      case None => SearchFrom(pat, s, i + 1)
  }

  /** `re.search(pattern, s)` followed by `int` of both groups. */
  function FirstMatch(pat: Pattern, s: string): (r: Option<Coord>)
    ensures r.None? <==> NoMatchIn(pat, s, 0, |s|)
    ensures r.Some? ==> exists j :: 0 <= j < |s| && FirstAt(pat, s, j) && r.value == MatchAt(pat, s, j).value.Coords()
  {
    SearchFrom(pat, s, 0)
  }

  // ---------------------------------------------------------------------
  // re.findall(...)[-1]: the last of the non-overlapping matches

  /** `re.findall` from position `i`: scan left to right, resume after each match. */
  function FindAll(pat: Pattern, s: string, i: nat): seq<Hit>
    decreases |s| - i
  {
    if i >= |s| then []
    else match MatchAt(pat, s, i)
      case Some(h) => MatchBounds(pat, s, i); [h] + FindAll(pat, s, h.end)
      case None => FindAll(pat, s, i + 1)
  }

  /** `matches = re.findall(pattern, s)`, then `matches[-1]` if any. */
  function LastMatch(pat: Pattern, s: string): (r: Option<Coord>)
    ensures r.None? <==> NoMatchIn(pat, s, 0, |s|)
    ensures r.Some? ==> exists j :: 0 <= j < |s| && LastAt(pat, s, j) && r.value == MatchAt(pat, s, j).value.Coords()
  {
    var hits := FindAll(pat, s, 0);
    FindAllLast(pat, s, 0);
    if |hits| > 0 then Some(hits[|hits| - 1].Coords()) else None
  }

  /** Inside a match only its first character is a `[`. */
  lemma NoOpenInside(pat: Pattern, s: string, i: nat, k: nat)
    requires MatchAt(pat, s, i).Some? && i < k < MatchAt(pat, s, i).value.end
    ensures k < |s| && s[k] != '['
  {
    ReadNoOpen(pat, Start(true), s, i + 1, k);
  }

  /** So no match starts strictly inside another one. */
  lemma NoMatchInside(pat: Pattern, s: string, i: nat)
    requires MatchAt(pat, s, i).Some?
    ensures NoMatchIn(pat, s, i + 1, MatchAt(pat, s, i).value.end)
  {
    forall k | i + 1 <= k < MatchAt(pat, s, i).value.end
      ensures MatchAt(pat, s, k).None?
    {
      NoOpenInside(pat, s, i, k);
    }
  }

  /** `findall` skips no match: its list is empty exactly when nothing
      matches from `i` on, and its last element is the last match. */
  lemma {:induction false} FindAllLast(pat: Pattern, s: string, i: nat)
    decreases |s| - i
    ensures FindAll(pat, s, i) == [] <==> NoMatchIn(pat, s, i, |s|)
    ensures FindAll(pat, s, i) != [] ==>
      exists j :: i <= j < |s| && LastAt(pat, s, j) && FindAll(pat, s, i)[|FindAll(pat, s, i)| - 1] == MatchAt(pat, s, j).value
  {
    if i < |s| {
      match MatchAt(pat, s, i)
      case Some(h) =>
        MatchBounds(pat, s, i);
        NoMatchInside(pat, s, i);
        FindAllLast(pat, s, h.end);
        if FindAll(pat, s, h.end) == [] {
          assert LastAt(pat, s, i);
        }
      case None =>
        FindAllLast(pat, s, i + 1);
    }
  }

  // ---------------------------------------------------------------------
  // A match depends only on the characters it covers

  /** A match result moved `n` characters to the right. */
  function Shift(r: Option<Hit>, n: nat): Option<Hit> {
    match r
    case None => None
    case Some(h) => Some(Hit(h.row, h.col, h.end + n))
  }

  /** A reading that succeeds on `s` reads the same on `s + t`, and one that
      succeeds on `s + t` without leaving `s` reads the same on `s`. */
  lemma {:induction false} ReadExtend(pat: Pattern, ph: Phase, s: string, t: string, i: nat)
    ensures Read(pat, ph, s, i).Some? ==> Read(pat, ph, s + t, i) == Read(pat, ph, s, i)
    ensures Read(pat, ph, s + t, i).Some? && Read(pat, ph, s + t, i).value.end <= |s| ==> Read(pat, ph, s, i) == Read(pat, ph, s + t, i)
    decreases |s| - i
  {
    if i < |s| {
      assert (s + t)[i] == s[i];
      match Next(pat, ph, s[i]) {
        case Continue(ph') => ReadExtend(pat, ph', s, t, i + 1);
        case _ =>
      }
    } else {
      ReadEnd(pat, ph, s + t, i);
    }
  }

  /** A reading of `t` is the same reading of `s + t`, `|s|` further right. */
  lemma {:induction false} ReadShift(pat: Pattern, ph: Phase, s: string, t: string, k: nat)
    ensures Read(pat, ph, s + t, |s| + k) == Shift(Read(pat, ph, t, k), |s|)
    decreases |t| - k
  {
    if k < |t| {
      assert (s + t)[|s| + k] == t[k];
      match Next(pat, ph, t[k]) {
        case Continue(ph') => ReadShift(pat, ph', s, t, k + 1);
        case _ =>
      }
    }
  }

  /** Shifting: a match in `t` is a match in `s + t`, and back. */
  lemma MatchShift(pat: Pattern, s: string, t: string, k: nat)
    ensures MatchAt(pat, s + t, |s| + k) == Shift(MatchAt(pat, t, k), |s|)
  {
    if k < |t| {
      assert (s + t)[|s| + k] == t[k];
      ReadShift(pat, Start(true), s, t, k + 1);
    }
  }

  /** A match in `s` stays a match in `s + t`; a match in `s + t` that ends
      within `s` is a match in `s`. */
  lemma MatchExtend(pat: Pattern, s: string, t: string, k: nat)
    ensures MatchAt(pat, s, k).Some? ==> MatchAt(pat, s + t, k) == MatchAt(pat, s, k)
    ensures MatchAt(pat, s + t, k).Some? && MatchAt(pat, s + t, k).value.end <= |s| ==> MatchAt(pat, s, k) == MatchAt(pat, s + t, k)
  {
    if k < |s| {
      assert (s + t)[k] == s[k];
      ReadExtend(pat, Start(true), s, t, k + 1);
    } else {
      MatchBounds(pat, s + t, k);
    }
  }

  // ---------------------------------------------------------------------
  // Properties of the two search disciplines

  /** `re.search` returns the match that starts leftmost. */
  lemma FirstMatchAt(pat: Pattern, s: string, j: nat)
    requires FirstAt(pat, s, j)
    ensures FirstMatch(pat, s) == Some(MatchAt(pat, s, j).value.Coords())
  {
    MatchBounds(pat, s, j);
    var j' :| 0 <= j' < |s| && FirstAt(pat, s, j') && FirstMatch(pat, s).value == MatchAt(pat, s, j').value.Coords();
    assert FirstAt(pat, s, j');
  }

  /** `findall(...)[-1]` returns the match that starts rightmost. */
  lemma LastMatchAt(pat: Pattern, s: string, j: nat)
    requires LastAt(pat, s, j)
    ensures LastMatch(pat, s) == Some(MatchAt(pat, s, j).value.Coords())
  {
    MatchBounds(pat, s, j);
    var j' :| 0 <= j' < |s| && LastAt(pat, s, j') && LastMatch(pat, s).value == MatchAt(pat, s, j').value.Coords();
    assert LastAt(pat, s, j');
  }

  /** With `re.search`, whatever follows the first match is never read. */
  lemma FirstMatchIgnoresSuffix(pat: Pattern, s: string, t: string)
    requires FirstMatch(pat, s).Some?
    ensures FirstMatch(pat, s + t) == FirstMatch(pat, s)
  {
    var j :| 0 <= j < |s| && FirstAt(pat, s, j) && FirstMatch(pat, s).value == MatchAt(pat, s, j).value.Coords();
    MatchBounds(pat, s, j);
    MatchExtend(pat, s, t, j);
    assert (s + t)[j] == '[';
    forall k | 0 <= k < j
      ensures MatchAt(pat, s + t, k).None?
    {
      MatchExtend(pat, s, t, k);
      if MatchAt(pat, s + t, k).Some? && MatchAt(pat, s + t, k).value.end > j {
        NoOpenInside(pat, s + t, k, j);
      }
    }
    FirstMatchAt(pat, s + t, j);
  }

  /** With `findall(...)[-1]`, a match in the appended text overrides all earlier text. */
  lemma LastMatchOfSuffix(pat: Pattern, s: string, t: string)
    requires LastMatch(pat, t).Some?
    ensures LastMatch(pat, s + t) == LastMatch(pat, t)
  {
    var j :| 0 <= j < |t| && LastAt(pat, t, j) && LastMatch(pat, t).value == MatchAt(pat, t, j).value.Coords();
    MatchShift(pat, s, t, j);
    forall k | |s| + j + 1 <= k < |s + t|
      ensures MatchAt(pat, s + t, k).None?
    {
      MatchShift(pat, s, t, k - |s|);
    }
    LastMatchAt(pat, s + t, |s| + j);
  }

  /** A prefix without `[` cannot contribute a match. */
  lemma LastMatchAfterPlainPrefix(pat: Pattern, s: string, t: string)
    requires forall k :: 0 <= k < |s| ==> s[k] != '['
    ensures LastMatch(pat, s + t) == LastMatch(pat, t)
  {
    if LastMatch(pat, t).Some? {
      LastMatchOfSuffix(pat, s, t);
    } else {
      forall k | 0 <= k < |s + t|
        ensures MatchAt(pat, s + t, k).None?
      {
        if k >= |s| {
          MatchShift(pat, s, t, k - |s|);
        }
      }
    }
  }

  /** Where `t` has no `]`, the matches of `s + t` are those of `s`. */
  lemma MatchUnclosedTail(pat: Pattern, s: string, t: string, k: nat)
    requires forall m :: 0 <= m < |t| ==> t[m] != ']'
    ensures MatchAt(pat, s + t, k) == if k < |s| then MatchAt(pat, s, k) else None
  {
    MatchBounds(pat, s + t, k);
    forall m | |s| <= m < |s + t|
      ensures (s + t)[m] != ']'
    {
      assert (s + t)[m] == t[m - |s|];
    }
    MatchExtend(pat, s, t, k);
  }

  /** Appending text with no `]` cannot complete a match, so the last match is kept. */
  lemma LastMatchIgnoresUnclosedTail(pat: Pattern, s: string, t: string)
    requires forall k :: 0 <= k < |t| ==> t[k] != ']'
    ensures LastMatch(pat, s + t) == LastMatch(pat, s)
  {
    forall k | 0 <= k < |s + t|
      ensures MatchAt(pat, s + t, k) == if k < |s| then MatchAt(pat, s, k) else None
    {
      MatchUnclosedTail(pat, s, t, k);
    }
    if LastMatch(pat, s).Some? {
      var j :| 0 <= j < |s| && LastAt(pat, s, j) && LastMatch(pat, s).value == MatchAt(pat, s, j).value.Coords();
      LastMatchAt(pat, s + t, j);
    }
  }

  // ---------------------------------------------------------------------
  // What the pattern reads: a move written in the format the prompts ask for

  /** A numeral the pattern accepts as one component: one or more digits,
      at most two with the `\d{1,2}` spelling. */
  predicate Numeral(pat: Pattern, ds: string) {
    AllDigits(ds) && ds != [] && (pat.narrow ==> |ds| <= 2)
  }

  /** `[dr,dc]` with `gap` after the comma, with a `(` after the `[` when
      `open` and a `)` before the `]` when `close`. */
  function Spell(dr: string, dc: string, gap: string, open: bool, close: bool): string {
    "[" + (Paren(open, "(") + (dr + ("," + (gap + (dc + (Paren(close, ")") + "]"))))))
  }

  function Paren(present: bool, p: string): string {
    if present then p else ""
  }

  /** The value of digits `ds` read after a number whose value so far is `v`. */
  function Accumulate(v: nat, ds: string): nat
    requires AllDigits(ds)
    decreases |ds|
  {
    if ds == [] then v else Accumulate(10 * v + DigitValue(ds[0]), ds[1..])
  }

  lemma {:induction false} AccumulateSnoc(v: nat, ds: string, c: char)
    requires AllDigits(ds) && IsDigit(c)
    ensures AllDigits(ds + [c]) && Accumulate(v, ds + [c]) == 10 * Accumulate(v, ds) + DigitValue(c)
    decreases |ds|
  {
    if ds != [] {
      assert (ds + [c])[1..] == ds[1..] + [c];
      AccumulateSnoc(10 * v + DigitValue(ds[0]), ds[1..], c);
    }
  }

  /** Reading digits left to right gives their decimal value. */
  lemma {:induction false} AccumulateValue(ds: string)
    requires AllDigits(ds)
    ensures Accumulate(0, ds) == Value(ds)
  {
    if ds != [] {
      var init := ds[..|ds| - 1];
      assert ds == init + [ds[|ds| - 1]];
      AccumulateValue(init);
      AccumulateSnoc(0, init, ds[|ds| - 1]);
    }
  }

  /** Reading one character at the front of `t`. */
  lemma ReadCons(pat: Pattern, ph: Phase, c: char, t: string)
    ensures Next(pat, ph, c).Continue? ==> Read(pat, ph, [c] + t, 0) == Shift(Read(pat, Next(pat, ph, c).next, t, 0), 1)
    ensures Next(pat, ph, c).Accept? ==> Read(pat, ph, [c] + t, 0) == Some(Hit(Next(pat, ph, c).row, Next(pat, ph, c).col, 1))
  {
    assert ([c] + t)[0] == c;
    if Next(pat, ph, c).Continue? {
      ReadShift(pat, Next(pat, ph, c).next, [c], t, 0);
    }
  }

  /** A number being read: the first one (`second` false) or the second one. */
  function Number(second: bool, row: nat, v: nat, n: nat): Phase {
    if second then Second(row, v, n) else First(v, n)
  }

  lemma ShiftShift(r: Option<Hit>, a: nat, b: nat)
    ensures Shift(Shift(r, a), b) == Shift(r, a + b)
  {
  }

  /** A run of digits extends the number being read. */
  lemma {:induction false} ReadDigits(pat: Pattern, second: bool, row: nat, v: nat, n: nat, ds: string, t: string)
    requires AllDigits(ds) && (pat.narrow ==> n + |ds| <= 2)
    ensures Read(pat, Number(second, row, v, n), ds + t, 0)
         == Shift(Read(pat, Number(second, row, Accumulate(v, ds), n + |ds|), t, 0), |ds|)
    decreases |ds|
  {
    if ds == [] {
      assert ds + t == t;
    } else {
      var c, rest := ds[0], ds[1..];
      var v' := 10 * v + DigitValue(c);
      assert IsDigit(c) && AllDigits(rest);
      assert ds + t == [c] + (rest + t);
      assert Next(pat, Number(second, row, v, n), c) == Continue(Number(second, row, v', n + 1));
      ReadCons(pat, Number(second, row, v, n), c, rest + t);
      ReadDigits(pat, second, row, v', n + 1, rest, t);
      assert Accumulate(v, ds) == Accumulate(v', rest);
      ShiftShift(Read(pat, Number(second, row, Accumulate(v', rest), n + 1 + |rest|), t, 0), |rest|, 1);
    }
  }

  /** The whitespace after the comma is skipped. */
  lemma {:induction false} ReadGap(pat: Pattern, row: nat, g: string, t: string)
    requires AllSpace(g)
    ensures Read(pat, Gap(row), g + t, 0) == Shift(Read(pat, Gap(row), t, 0), |g|)
    decreases |g|
  {
    if g == [] {
      assert g + t == t;
    } else {
      assert g + t == [g[0]] + (g[1..] + t);
      ReadCons(pat, Gap(row), g[0], g[1..] + t);
      ReadGap(pat, row, g[1..], t);
    }
  }

  /** The first digit starts a number like a digit appended to an empty one. */
  lemma ReadNumberStart(pat: Pattern, second: bool, parenAllowed: bool, row: nat, ds: string, t: string)
    requires AllDigits(ds) && ds != []
    ensures Read(pat, if second then Gap(row) else Start(parenAllowed), ds + t, 0) == Read(pat, Number(second, row, 0, 0), ds + t, 0)
  {
    assert (ds + t)[0] == ds[0];
  }

  /** Reading a whole numeral `ds` in front of `t`. */
  lemma ReadNumeral(pat: Pattern, second: bool, parenAllowed: bool, row: nat, ds: string, t: string)
    requires Numeral(pat, ds)
    ensures Read(pat, if second then Gap(row) else Start(parenAllowed), ds + t, 0)
         == Shift(Read(pat, Number(second, row, Value(ds), |ds|), t, 0), |ds|)
  {
    ReadNumberStart(pat, second, parenAllowed, row, ds, t);
    ReadDigits(pat, second, row, 0, 0, ds, t);
    AccumulateValue(ds);
  }

  /** The optional `)` of a spelled pair: empty, or `)` when the pattern allows it. */
  predicate CloseFor(pat: Pattern, close: string) {
    close == "" || (close == ")" && pat.parens)
  }

  /** The optional `)` and the `]` after the second number. */
  lemma ReadClosing(pat: Pattern, r: nat, c: nat, m: nat, close: string, rest: string, y: string)
    requires CloseFor(pat, close) && y == close + ("]" + rest)
    ensures Read(pat, Second(r, c, m), y, 0) == Some(Hit(r, c, |close| + 1))
  {
    if close == ")" {
      assert y == [')'] + ("]" + rest);
      ReadCons(pat, Close(r, c), ']', rest);
      ReadCons(pat, Second(r, c, m), ')', "]" + rest);
    } else {
      assert y == [']'] + rest;
      ReadCons(pat, Second(r, c, m), ']', rest);
    }
  }

  /** The second number, then the rest `y` of a spelled pair. */
  lemma ReadSecondToEnd(pat: Pattern, r: nat, dc: string, y: string, h: Hit)
    requires Numeral(pat, dc)
    requires Read(pat, Second(r, Value(dc), |dc|), y, 0) == Some(h)
    ensures Read(pat, Gap(r), dc + y, 0) == Some(Hit(h.row, h.col, |dc| + h.end))
  {
    ReadNumeral(pat, true, true, r, dc, y);
  }

  /** The comma and the whitespace before the rest `t` of a spelled pair. */
  lemma ReadComma(pat: Pattern, v: nat, n: nat, gap: string, t: string, x: string, h: Hit)
    requires AllSpace(gap) && x == "," + (gap + t)
    requires Read(pat, Gap(v), t, 0) == Some(h)
    ensures Read(pat, First(v, n), x, 0) == Some(Hit(h.row, h.col, 1 + |gap| + h.end))
  {
    ReadGap(pat, v, gap, t);
    assert x == [','] + (gap + t);
    ReadCons(pat, First(v, n), ',', gap + t);
  }

  /** The first number, then the rest `x` of a spelled pair. */
  lemma ReadFirstToEnd(pat: Pattern, dr: string, parenAllowed: bool, x: string, h: Hit)
    requires Numeral(pat, dr)
    requires Read(pat, First(Value(dr), |dr|), x, 0) == Some(h)
    ensures Read(pat, Start(parenAllowed), dr + x, 0) == Some(Hit(h.row, h.col, |dr| + h.end))
  {
    ReadNumeral(pat, false, parenAllowed, 0, dr, x);
  }

  /** The optional `(` before the first number. */
  lemma ReadOpening(pat: Pattern, open: bool, body: string, h: Hit)
    requires open ==> pat.parens
    requires Read(pat, Start(!open), body, 0) == Some(h)
    ensures Read(pat, Start(true), Paren(open, "(") + body, 0) == Some(Hit(h.row, h.col, |Paren(open, "(")| + h.end))
  {
    if open {
      assert "(" + body == ['('] + body;
      ReadCons(pat, Start(true), '(', body);
    } else {
      assert "" + body == body;
    }
  }

  /** A match at the front: `[` followed by a reading of `x`. */
  lemma MatchFront(pat: Pattern, x: string, h: Hit)
    requires Read(pat, Start(true), x, 0) == Some(h)
    ensures MatchAt(pat, "[" + x, 0) == Some(Hit(h.row, h.col, 1 + h.end))
  {
    ReadShift(pat, Start(true), "[", x, 0);
  }

  /** The parts of a spelled pair followed by `rest`. */
  lemma SpellParts(dr: string, dc: string, gap: string, open: bool, close: bool, rest: string)
    ensures Spell(dr, dc, gap, open, close) + rest
         == "[" + (Paren(open, "(") + (dr + ("," + (gap + (dc + (Paren(close, ")") + ("]" + rest)))))))
  {
    var y := Paren(close, ")") + "]";
    assert y + rest == Paren(close, ")") + ("]" + rest);
    var x := dc + y;
    assert x + rest == dc + (y + rest);
    var w := gap + x;
    assert w + rest == gap + (x + rest);
    var v := "," + w;
    assert v + rest == "," + (w + rest);
    var u := dr + v;
    assert u + rest == dr + (v + rest);
    var z := Paren(open, "(") + u;
    assert z + rest == Paren(open, "(") + (u + rest);
    assert ("[" + z) + rest == "[" + (z + rest);
  }

  /** The pattern reads back exactly the pair that was spelled, whatever follows. */
  lemma SpelledPairMatches(pat: Pattern, dr: string, dc: string, gap: string, open: bool, close: bool, rest: string)
    requires Numeral(pat, dr) && Numeral(pat, dc) && AllSpace(gap)
    requires (open || close) ==> pat.parens
    ensures MatchAt(pat, Spell(dr, dc, gap, open, close) + rest, 0)
         == Some(Hit(Value(dr), Value(dc), |Spell(dr, dc, gap, open, close)|))
  {
    var r, c := Value(dr), Value(dc);
    var cl := Paren(close, ")");
    var y := cl + ("]" + rest);
    ReadClosing(pat, r, c, |dc|, cl, rest, y);
    var h1 := Hit(r, c, |cl| + 1);
    ReadSecondToEnd(pat, r, dc, y, h1);
    var t := dc + y;
    var h2 := Hit(r, c, |dc| + h1.end);
    var x1 := "," + (gap + t);
    ReadComma(pat, r, |dr|, gap, t, x1, h2);
    var h25 := Hit(r, c, 1 + |gap| + h2.end);
    ReadFirstToEnd(pat, dr, !open, x1, h25);
    var body := dr + x1;
    var h3 := Hit(r, c, |dr| + h25.end);
    ReadOpening(pat, open, body, h3);
    var x := Paren(open, "(") + body;
    var n := 1 + |Paren(open, "(")| + h3.end;
    MatchFront(pat, x, Hit(r, c, |Paren(open, "(")| + h3.end));
    assert Spell(dr, dc, gap, open, close) + rest == "[" + x by {
      SpellParts(dr, dc, gap, open, close, rest);
    }
    assert |Spell(dr, dc, gap, open, close)| == n;
  }

  /** `re.search` on text that begins with a spelled pair finds that pair. */
  lemma FirstMatchOfSpelledPair(pat: Pattern, dr: string, dc: string, gap: string, open: bool, close: bool, rest: string)
    requires Numeral(pat, dr) && Numeral(pat, dc) && AllSpace(gap)
    requires (open || close) ==> pat.parens
    ensures FirstMatch(pat, Spell(dr, dc, gap, open, close) + rest) == Some((Value(dr), Value(dc)))
  {
    SpelledPairMatches(pat, dr, dc, gap, open, close, rest);
    FirstMatchAt(pat, Spell(dr, dc, gap, open, close) + rest, 0);
  }

  /** `findall(...)[-1]` on text that ends with a spelled pair finds that pair,
      whatever precedes it. */
  lemma LastMatchOfAppendedPair(pat: Pattern, s: string, dr: string, dc: string, gap: string, open: bool, close: bool)
    requires Numeral(pat, dr) && Numeral(pat, dc) && AllSpace(gap)
    requires (open || close) ==> pat.parens
    ensures LastMatch(pat, s + Spell(dr, dc, gap, open, close)) == Some((Value(dr), Value(dc)))
  {
    var sp := Spell(dr, dc, gap, open, close);
    SpelledPairMatches(pat, dr, dc, gap, open, close, "");
    assert sp + "" == sp;
    NoMatchInside(pat, sp, 0);
    LastMatchAt(pat, sp, 0);
    LastMatchOfSuffix(pat, s, sp);
  }

  // ---------------------------------------------------------------------
  // Every match is a spelled pair

  /** A slice of `s` ending at `e` is its first character followed by
      `t`, when the slice after that character is `t`. */
  lemma SliceCons(s: string, i: nat, e: nat, t: string)
    requires i < e <= |s| && s[i + 1..e] == t
    ensures s[i..e] == [s[i]] + t
  {
    assert s[i..e] == [s[i]] + s[i + 1..e];
  }

  /** Regrouping a character in front of a concatenation. */
  lemma ConsAssoc(c: char, a: string, b: string)
    ensures [c] + (a + b) == ([c] + a) + b
  {
  }

  /** What is left of a match once the second number has begun: more
      digits, the optional `)`, then the `]`. */
  lemma {:induction false} SecondBack(pat: Pattern, r: nat, v: nat, n: nat, s: string, i: nat) returns (ds: string, close: bool)
    requires pat.narrow ==> n <= 2
    requires Read(pat, Second(r, v, n), s, i).Some?
    ensures var h := Read(pat, Second(r, v, n), s, i).value;
      AllDigits(ds) && (pat.narrow ==> n + |ds| <= 2) && (close ==> pat.parens)
      && i < h.end <= |s| && s[i..h.end] == ds + (Paren(close, ")") + "]")
      && h.row == r && h.col == Accumulate(v, ds)
    decreases |s| - i
  {
    var h := Read(pat, Second(r, v, n), s, i).value;
    ReadEnd(pat, Second(r, v, n), s, i);
    var c := s[i];
    if IsDigit(c) {
      var v' := 10 * v + DigitValue(c);
      assert Next(pat, Second(r, v, n), c) == Continue(Second(r, v', n + 1));
      assert Read(pat, Second(r, v, n), s, i) == Read(pat, Second(r, v', n + 1), s, i + 1);
      var rest, cl := SecondBack(pat, r, v', n + 1, s, i + 1);
      var tail := Paren(cl, ")") + "]";
      ds, close := [c] + rest, cl;
      assert ds[0] == c && ds[1..] == rest;
      assert Accumulate(v, ds) == Accumulate(v', rest);
      SliceCons(s, i, h.end, rest + tail);
      ConsAssoc(c, rest, tail);
    } else if pat.parens && c == ')' {
      ds, close := "", true;
      assert Read(pat, Close(r, v), s, i + 1) == Some(h);
      assert s[i + 1] == ']' && h == Hit(r, v, i + 2);
      assert s[i..h.end] == [')', ']'];
    } else {
      ds, close := "", false;
      assert c == ']' && h == Hit(r, v, i + 1);
      assert s[i..h.end] == [']'];
    }
  }

  /** What is left of a match after its comma: whitespace, the second
      number, the optional `)`, the `]`. */
  lemma {:induction false} GapBack(pat: Pattern, r: nat, s: string, i: nat) returns (gap: string, dc: string, close: bool)
    requires Read(pat, Gap(r), s, i).Some?
    ensures var h := Read(pat, Gap(r), s, i).value;
      AllSpace(gap) && Numeral(pat, dc) && (close ==> pat.parens)
      && i < h.end <= |s| && s[i..h.end] == gap + (dc + (Paren(close, ")") + "]"))
      && h.row == r && h.col == Value(dc)
    decreases |s| - i
  {
    var h := Read(pat, Gap(r), s, i).value;
    ReadEnd(pat, Gap(r), s, i);
    var c := s[i];
    if IsSpace(c) {
      assert Read(pat, Gap(r), s, i) == Read(pat, Gap(r), s, i + 1);
      var g, d, cl := GapBack(pat, r, s, i + 1);
      var tail := d + (Paren(cl, ")") + "]");
      gap, dc, close := [c] + g, d, cl;
      SliceCons(s, i, h.end, g + tail);
      ConsAssoc(c, g, tail);
    } else {
      var d := DigitValue(c);
      assert IsDigit(c) && Read(pat, Gap(r), s, i) == Read(pat, Second(r, d, 1), s, i + 1);
      var ds, cl := SecondBack(pat, r, d, 1, s, i + 1);
      var tail := Paren(cl, ")") + "]";
      gap, dc, close := "", [c] + ds, cl;
      assert dc[0] == c && dc[1..] == ds;
      assert Accumulate(0, dc) == Accumulate(d, ds);
      AccumulateValue(dc);
      SliceCons(s, i, h.end, ds + tail);
      ConsAssoc(c, ds, tail);
      assert gap + (dc + tail) == dc + tail;
    }
  }

  /** What is left of a match once the first number has begun: more
      digits, the comma, and the rest after it. */
  lemma {:induction false} FirstBack(pat: Pattern, v: nat, n: nat, s: string, i: nat) returns (ds: string, gap: string, dc: string, close: bool)
    requires pat.narrow ==> n <= 2
    requires Read(pat, First(v, n), s, i).Some?
    ensures var h := Read(pat, First(v, n), s, i).value;
      AllDigits(ds) && (pat.narrow ==> n + |ds| <= 2)
      && AllSpace(gap) && Numeral(pat, dc) && (close ==> pat.parens)
      && i < h.end <= |s| && s[i..h.end] == ds + ("," + (gap + (dc + (Paren(close, ")") + "]"))))
      && h.row == Accumulate(v, ds) && h.col == Value(dc)
    decreases |s| - i
  {
    var h := Read(pat, First(v, n), s, i).value;
    ReadEnd(pat, First(v, n), s, i);
    var c := s[i];
    if IsDigit(c) {
      var v' := 10 * v + DigitValue(c);
      assert Next(pat, First(v, n), c) == Continue(First(v', n + 1));
      assert Read(pat, First(v, n), s, i) == Read(pat, First(v', n + 1), s, i + 1);
      var rest, g, d, cl := FirstBack(pat, v', n + 1, s, i + 1);
      var tail := "," + (g + (d + (Paren(cl, ")") + "]")));
      ds, gap, dc, close := [c] + rest, g, d, cl;
      assert ds[0] == c && ds[1..] == rest;
      assert Accumulate(v, ds) == Accumulate(v', rest);
      SliceCons(s, i, h.end, rest + tail);
      ConsAssoc(c, rest, tail);
    } else {
      assert c == ',' && Next(pat, First(v, n), c) == Continue(Gap(v));
      assert Read(pat, First(v, n), s, i) == Read(pat, Gap(v), s, i + 1);
      var g, d, cl := GapBack(pat, v, s, i + 1);
      var tail := g + (d + (Paren(cl, ")") + "]"));
      ds, gap, dc, close := "", g, d, cl;
      SliceCons(s, i, h.end, tail);
      assert ds + ("," + tail) == [','] + tail;
    }
  }

  /** A match read from just after its `[`: the optional `(`, the first
      number, and the rest after it. */
  lemma StartBack(pat: Pattern, parenAllowed: bool, s: string, i: nat)
    returns (open: bool, dr: string, gap: string, dc: string, close: bool)
    requires Read(pat, Start(parenAllowed), s, i).Some?
    ensures var h := Read(pat, Start(parenAllowed), s, i).value;
      (open ==> parenAllowed && pat.parens) && Numeral(pat, dr)
      && AllSpace(gap) && Numeral(pat, dc) && (close ==> pat.parens)
      && i < h.end <= |s|
      && s[i..h.end] == Paren(open, "(") + (dr + ("," + (gap + (dc + (Paren(close, ")") + "]")))))
      && h.row == Value(dr) && h.col == Value(dc)
    decreases |s| - i
  {
    var h := Read(pat, Start(parenAllowed), s, i).value;
    ReadEnd(pat, Start(parenAllowed), s, i);
    var c := s[i];
    if parenAllowed && pat.parens && c == '(' {
      assert Read(pat, Start(parenAllowed), s, i) == Read(pat, Start(false), s, i + 1);
      var o, r, g, d, cl := StartBack(pat, false, s, i + 1);
      var tail := r + ("," + (g + (d + (Paren(cl, ")") + "]"))));
      open, dr, gap, dc, close := true, r, g, d, cl;
      assert !o && Paren(o, "(") + tail == tail;
      SliceCons(s, i, h.end, tail);
    } else {
      var d := DigitValue(c);
      assert IsDigit(c) && Read(pat, Start(parenAllowed), s, i) == Read(pat, First(d, 1), s, i + 1);
      var ds, g, dc', cl := FirstBack(pat, d, 1, s, i + 1);
      var tail := "," + (g + (dc' + (Paren(cl, ")") + "]")));
      open, dr, gap, dc, close := false, [c] + ds, g, dc', cl;
      assert dr[0] == c && dr[1..] == ds;
      assert Accumulate(0, dr) == Accumulate(d, ds);
      AccumulateValue(dr);
      SliceCons(s, i, h.end, ds + tail);
      ConsAssoc(c, ds, tail);
      assert Paren(open, "(") + (dr + tail) == dr + tail;
    }
  }

  /** The parts a match is spelled from, read back from it. */
  lemma MatchParts(pat: Pattern, s: string, i: nat) returns (dr: string, dc: string, gap: string, open: bool, close: bool)
    requires MatchAt(pat, s, i).Some?
    ensures var h := MatchAt(pat, s, i).value;
      Numeral(pat, dr) && Numeral(pat, dc) && AllSpace(gap) && ((open || close) ==> pat.parens)
      && i < h.end <= |s| && s[h.end - 1] == ']'
      && s[i..h.end] == Spell(dr, dc, gap, open, close) && h.Coords() == (Value(dr), Value(dc))
  {
    var h := MatchAt(pat, s, i).value;
    assert s[i] == '[' && Read(pat, Start(true), s, i + 1) == Some(h);
    ReadEnd(pat, Start(true), s, i + 1);
    open, dr, gap, dc, close := StartBack(pat, true, s, i + 1);
    var tail := Paren(open, "(") + (dr + ("," + (gap + (dc + (Paren(close, ")") + "]")))));
    SliceCons(s, i, h.end, tail);
  }

  /** The converse of `SpelledPairMatches`: every match is `[dr,<spaces>dc]`,
      with the optional `(` and `)` only where the pattern allows them, and it
      reads back the values of `dr` and `dc`. So each pattern matches exactly
      the spelled pairs. */
  lemma MatchIsSpelledPair(pat: Pattern, s: string, i: nat)
    requires MatchAt(pat, s, i).Some?
    ensures exists dr, dc, gap, open, close ::
      Numeral(pat, dr) && Numeral(pat, dc) && AllSpace(gap) && ((open || close) ==> pat.parens)
      && i < MatchAt(pat, s, i).value.end <= |s|
      && s[i..MatchAt(pat, s, i).value.end] == Spell(dr, dc, gap, open, close)
      && MatchAt(pat, s, i).value.Coords() == (Value(dr), Value(dc))
  {
    var dr, dc, gap, open, close := MatchParts(pat, s, i);
  }


  // ---------------------------------------------------------------------
  // What the pattern refuses

  /** Within a reading, a whitespace character is preceded by a run of
      whitespace that starts in the phase after the comma or right after a comma. */
  lemma {:induction false} ReadSpace(pat: Pattern, ph: Phase, s: string, i: nat, k: nat)
    requires Read(pat, ph, s, i).Some? && i <= k < Read(pat, ph, s, i).value.end && k < |s| && IsSpace(s[k])
    ensures (ph.Gap? && forall m :: i <= m < k ==> IsSpace(s[m]))
         || exists j :: i <= j < k && s[j] == ',' && forall m :: j < m < k ==> IsSpace(s[m])
    decreases |s| - i
  {
    ReadEnd(pat, ph, s, i);
    match Next(pat, ph, s[i]) {
      case Continue(ph') =>
        if k > i {
          ReadSpace(pat, ph', s, i + 1, k);
          if ph'.Gap? && forall m :: i + 1 <= m < k ==> IsSpace(s[m]) {
            if s[i] == ',' {
              assert i <= i < k && s[i] == ',' && forall m :: i < m < k ==> IsSpace(s[m]);
            }
          }
        }
      case _ =>
    }
  }

  /** Whitespace is accepted only after the comma: inside a match every
      whitespace character belongs to a run that starts right after the comma. */
  lemma WhitespaceFollowsComma(pat: Pattern, s: string, i: nat, k: nat)
    requires MatchAt(pat, s, i).Some? && i < k < MatchAt(pat, s, i).value.end && k < |s| && IsSpace(s[k])
    ensures exists j :: i < j < k && s[j] == ',' && forall m :: j < m < k ==> IsSpace(s[m])
  {
    ReadSpace(pat, Start(true), s, i + 1, k);
  }

  /** Without the parenthesised spelling, `[(` never starts a match. */
  lemma ParenRejected(pat: Pattern, s: string, i: nat)
    requires !pat.parens && i + 1 < |s| && s[i + 1] == '('
    ensures MatchAt(pat, s, i).None?
  {
    assert Next(pat, Start(true), s[i + 1]).Fail?;
  }

  /** In a spelled pair the digits are those of its two numerals: the one
      starting after the `[` and the optional `(`, and the one starting after
      the comma and the whitespace. */
  lemma SpellDigitAt(dr: string, dc: string, gap: string, open: bool, close: bool, k: nat)
    requires AllSpace(gap) && k < |Spell(dr, dc, gap, open, close)|
    ensures var a := 1 + |Paren(open, "(")|; var b := a + |dr| + 1 + |gap|;
      IsDigit(Spell(dr, dc, gap, open, close)[k]) ==> (a <= k < a + |dr|) || (b <= k < b + |dc|)
  {
    var p, c := Paren(open, "("), Paren(close, ")");
    var t5 := dc + (c + "]");
    var t4 := gap + t5;
    var t2 := dr + ("," + t4);
    var t := Spell(dr, dc, gap, open, close);
    assert t == "[" + (p + t2);
    var a := 1 + |p|;
    if k >= a + |dr| + 1 {
      var j := k - a - |dr| - 1;
      assert t[k] == t4[j];
      if j < |gap| {
        assert IsSpace(gap[j]);
      }
    }
  }

  /** No three digits in a row in a pair spelled with numerals of at most
      two digits. */
  lemma SpellNoThreeDigits(dr: string, dc: string, gap: string, open: bool, close: bool, k: nat)
    requires |dr| <= 2 && |dc| <= 2 && AllSpace(gap) && k + 2 < |Spell(dr, dc, gap, open, close)|
    ensures var t := Spell(dr, dc, gap, open, close);
      !(IsDigit(t[k]) && IsDigit(t[k + 1]) && IsDigit(t[k + 2]))
  {
    var t := Spell(dr, dc, gap, open, close);
    if IsDigit(t[k]) && IsDigit(t[k + 1]) && IsDigit(t[k + 2]) {
      SpellDigitAt(dr, dc, gap, open, close, k);
      SpellDigitAt(dr, dc, gap, open, close, k + 1);
      SpellDigitAt(dr, dc, gap, open, close, k + 2);
    }
  }

  /** With the `\d{1,2}` spelling a run of three digits never lies inside a
      match: a match starting at `i` is refused when three digits follow
      before any `]`. */
  lemma LongNumberRejected(pat: Pattern, s: string, i: nat, m: nat)
    requires pat.narrow && i < m && m + 2 < |s|
    requires IsDigit(s[m]) && IsDigit(s[m + 1]) && IsDigit(s[m + 2])
    requires forall k :: i < k < m ==> s[k] != ']'
    ensures MatchAt(pat, s, i).None?
  {
    if MatchAt(pat, s, i).Some? {
      var e := MatchAt(pat, s, i).value.end;
      var dr, dc, gap, open, close := MatchParts(pat, s, i);
      var t := Spell(dr, dc, gap, open, close);
      assert m + 2 < e by {
        assert i + 1 < e by {
          assert s[i] == '[';
        }
      }
      assert t[m - i] == s[m] && t[m - i + 1] == s[m + 1] && t[m - i + 2] == s[m + 2];
      SpellNoThreeDigits(dr, dc, gap, open, close, m - i);
    }
  }

  /** With the `\d{1,2}` spelling a first number of three digits is refused,
      with or without the `(` before it. */
  lemma LongFirstRejected(pat: Pattern, s: string, i: nat, open: bool)
    requires pat.narrow && i + 3 + (if open then 1 else 0) < |s|
    requires open ==> s[i + 1] == '('
    requires var m := i + 1 + (if open then 1 else 0);
      IsDigit(s[m]) && IsDigit(s[m + 1]) && IsDigit(s[m + 2])
    ensures MatchAt(pat, s, i).None?
  {
    LongNumberRejected(pat, s, i, i + 1 + (if open then 1 else 0));
  }

  /** With the `\d{1,2}` spelling a second number of three digits is refused,
      whatever comes between the `[` and the comma and however much
      whitespace follows the comma. */
  lemma LongSecondRejected(pat: Pattern, s: string, i: nat, k: nat, m: nat)
    requires pat.narrow && i < k < m && m + 2 < |s|
    requires s[k] == ',' && (forall j :: i < j < k ==> s[j] != ']') && (forall j :: k < j < m ==> IsSpace(s[j]))
    requires IsDigit(s[m]) && IsDigit(s[m + 1]) && IsDigit(s[m + 2])
    ensures MatchAt(pat, s, i).None?
  {
    LongNumberRejected(pat, s, i, m);
  }

}
