/** `parse_response` of the three providers that take the FIRST bracketed pair
    with unbounded numbers: `GeminiLLM` (gemini.py), `DeepSeekBlackLLM`
    (deepseek_black.py) and `QWQBlackLLM` (QWQ_black.py). Their code is
    identical: `re.search(r"\[(\d+),\s*(\d+)\]", text)` and `int` of both groups. */
module SearchParser {
  import opened Wrappers
  import opened Chars
  import opened CoordPattern

  /** The move read from a reply, or `None` when no pair matches. */
  function ParseResponse(text: string): (r: Option<Coord>)
    ensures r.None? <==> NoMatchIn(Unbounded, text, 0, |text|)
    ensures r.Some? ==> exists j :: 0 <= j < |text| && FirstAt(Unbounded, text, j)
                                    && r.value == MatchAt(Unbounded, text, j).value.Coords()
  {
    FirstMatch(Unbounded, text)
  }

  /** A reply that starts with `[dr,dc]` (any number of digits each, any
      whitespace after the comma) yields `(int(dr), int(dc))`: numbers are not
      range-checked here and leading zeros are dropped. */
  lemma ParseWrittenPair(dr: string, dc: string, gap: string, rest: string)
    requires Numeral(Unbounded, dr) && Numeral(Unbounded, dc) && AllSpace(gap)
    ensures ParseResponse(Spell(dr, dc, gap, false, false) + rest) == Some((Value(dr), Value(dc)))
  {
    FirstMatchOfSpelledPair(Unbounded, dr, dc, gap, false, false, rest);
  }

  /** `str(r)` and `str(c)` in brackets read back as `(r, c)`, however large. */
  lemma {:induction false} ParseAnyPair(r: nat, c: nat, rest: string)
    ensures ParseResponse(Spell(Digits(r), Digits(c), "", false, false) + rest) == Some((r, c))
  {
    ParseWrittenPair(Digits(r), Digits(c), "", rest);
    ValueOfDigits(r);
    ValueOfDigits(c);
  }

  /** Whatever follows the first match never changes the result. */
  lemma ParseIgnoresSuffix(text: string, t: string)
    requires ParseResponse(text).Some?
    ensures ParseResponse(text + t) == ParseResponse(text)
  {
    FirstMatchIgnoresSuffix(Unbounded, text, t);
  }
}
