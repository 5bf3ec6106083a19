/** `GeminiBlackLLM.parse_response` (gemini_black.py): the LAST bracketed pair
    of `re.findall(r"\[(\d{1,2}),\s*(\d{1,2})\]", text)`, `int` of both groups. */
module GeminiBlack {
  import opened Wrappers
  import opened Chars
  import opened CoordPattern

  /** The move read from a reply, or `None` when no pair matches. */
  function ParseResponse(text: string): (r: Option<Coord>)
    ensures r.None? <==> NoMatchIn(Narrow, text, 0, |text|)
    ensures r.Some? ==> exists j :: 0 <= j < |text| && LastAt(Narrow, text, j)
                                    && r.value == MatchAt(Narrow, text, j).value.Coords()
  {
    LastMatch(Narrow, text)
  }

  /** Both numbers of a result are below 100. */
  lemma ParseBound(text: string)
    requires ParseResponse(text).Some?
    ensures ParseResponse(text).value.0 < 100 && ParseResponse(text).value.1 < 100
  {
    var j :| 0 <= j < |text| && LastAt(Narrow, text, j)
             && ParseResponse(text).value == MatchAt(Narrow, text, j).value.Coords();
    NarrowBound(Narrow, text, j);
  }

  /** A reply that ends with `[dr,dc]` of one or two digits each yields that
      pair, whatever came before it. */
  lemma ParseAppendedPair(text: string, dr: string, dc: string, gap: string)
    requires Numeral(Narrow, dr) && Numeral(Narrow, dc) && AllSpace(gap)
    ensures ParseResponse(text + Spell(dr, dc, gap, false, false)) == Some((Value(dr), Value(dc)))
  {
    LastMatchOfAppendedPair(Narrow, text, dr, dc, gap, false, false);
  }

  /** Appended text without a `]` cannot complete a match, so it never changes the result. */
  lemma ParseIgnoresUnclosedTail(text: string, t: string)
    requires forall k :: 0 <= k < |t| ==> t[k] != ']'
    ensures ParseResponse(text + t) == ParseResponse(text)
  {
    LastMatchIgnoresUnclosedTail(Narrow, text, t);
  }

  /** Appended text can complete a pair begun in the text before it: neither
      `"[1,"` nor `"2]"` holds a match, yet their concatenation does. So
      "appended text without a match keeps the result" holds only in the
      weaker form of `ParseIgnoresUnclosedTail`. */
  lemma AppendedTextCompletesPair()
    ensures ParseResponse("[1,").None? && ParseResponse("2]").None?
    ensures ParseResponse("[1," + "2]") == Some((1, 2))
  {
    assert MatchAt(Narrow, "[1,", 0).None?;
    var one := "1";
    var two := "2";
    assert Value(one) == 1 && Value(two) == 2;
    ParseAppendedPair("", one, two, "");
    assert "" + Spell(one, two, "", false, false) == "[1," + "2]";
  }
}
