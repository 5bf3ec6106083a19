# Gomoku engine and reply parsers, modelled in Dafny

This project models the core of LLMAIVSGomoku, a 15×15 five-in-a-row game.
A person, a random player or a language model can play either colour. There
are two parts.

**The game engine.** This is the `Gomoku` class of `gomoku.py`. Its state is:
- the board, as an `array2<int>` holding 0 (empty), 1 (black) or 2 (white);
- the player to move;
- `game_over`;
- `llm_retry_count`;
- the game mode and the colour the model plays.

The class `GomokuGame.Gomoku` keeps these as fields. Its methods update them in
place, as the Python methods do:
- `check_win`, with its bounded loops;
- the accept/apply/switch-player block that `on_click`, `ai_move`, `llm_move` and
  `aivai_move` share;
- the retry and forfeit bookkeeping of the two model turns;
- `ai_move`, with `random.choice` as a nondeterministic pick;
- `restart_game`, `start_aivai_game` and the two settings handlers;
- `get_board_state`, which builds its text row by row.

A ghost field `cells` mirrors the array as a value. The pure specification in
`board.dfy` works on that value: five in a row and stone counts. The pure
specification in `board_text.dfy` does the same for the text layout.

**The reply parsers.** These turn a model's reply text into a move. There are
three spellings of the bracketed-pair regular expression. All three are one
deterministic reader, `CoordPattern.MatchAt`, because no part of any pattern
ever needs backtracking. On top of that reader:
- `re.search` becomes `FirstMatch`;
- `re.findall(...)[-1]` becomes `LastMatch`.

One module per behaviour:
- `SearchParser` covers `gemini.py`, `deepseek_black.py` and `QWQ_black.py`. Their
  `parse_response` bodies are identical: gemini.py:50-60,
  deepseek_black.py:67-77 and QWQ_black.py:60-70.
- `GeminiBlack` covers gemini_black.py:51-64.
- `DeepSeek` covers the marker cut and last-match parser of deepseek.py:61-77. It
  also covers the generator deepseek.py:50-59, which yields reasoning, a banner
  and answer text from a stream of (reasoning, answer) chunks. That generator
  is a `method` with a loop. It is proved equal to a function of the chunks, and
  the stream-then-parse round trip is proved over that function.

Behaviour worth knowing:
- **The marker cut is a `split`, not "the text after the last occurrence".** The
  two differ when occurrences of `=== Final Answer ===` overlap, as `SplitAtOverlap`
  shows. The model follows `str.split`.
- **Appended text can complete a match.** Text with no match of its own, appended
  after text with no match, can still complete a pair begun before it
  (`AppendedTextCompletesPair`). What holds is the weaker
  `ParseIgnoresUnclosedTail`.
- **The retry counter is shared by both colours in AI-vs-AI play.** The comment at
  gomoku.py:210 says the counts should be separate. The model follows the code.
  Because a failure never passes the turn and an accepted move resets the
  counter, the count is always the current mover's streak of failures.
- **Draws.** The code declares a draw only in `ai_move`, when no empty cell is left
  at the start of the move. A full board after a person's or a model's stone is
  not declared a draw.
- **A forfeit after the third failure** happens at the start of the next model
  turn, when the count is found at 3 or more. It does not happen at the moment
  of the failure.

## Model

| member | source | states |
|---|---|---|
| Chars.IsDigit | gemini.py:51 | `\d` in the model: the ASCII digits `0`-`9` |
| Chars.IsSpace | gemini.py:51 | `\s` in the model: space, tab, line feed, carriage return, vertical tab and form feed |
| Chars.Value | gemini.py:55-56 | `int` of a digit string: the decimal value, read left to right |
| Chars.Concat | gomoku.py:463-467 | the reply text after the loop: the chunks appended in order |
| Chars.Contains | deepseek.py:63 | `marker in response_text`: the marker occurs at some position |
| Chars.DigitChar | gomoku.py:508 | the digit character for d < 10 is a digit whose value is d |
| Chars.Digits | gomoku.py:508-509 | `str(n)` is a non-empty digit string; one character exactly when n < 10, at most two when n < 100 |
| Chars.ValueOfDigits | gemini.py:55-56 | `int(str(n)) == n` |
| Chars.TwoDigitsBelowHundred | gemini_black.py:52 | a numeral of one or two digits denotes a number below 100 |
| Chars.LeadingZero | QWQ_black.py:65-66 | `int` drops leading zeros: `"0" + s` has the value of `s` |
| Chars.ConcatAppend | gomoku.py:237 | the text of chunks appended in two batches is the first batch's text followed by the second's |
| CoordPattern.Next | deepseek.py:68 | one character of the regex after `[`: the optional `(`, the digits of the first number (at most two with `\d{1,2}`), the comma, whitespace, the second number, the optional `)`, the `]` |
| CoordPattern.Read | deepseek.py:68 | the regex matched from a position, one character at a time by `Next`, ending at the accepting `]` |
| CoordPattern.MatchAt | gemini.py:51 | a match of `[\d+,\s*\d+]`, `[\d{1,2},\s*\d{1,2}]` or `[\(?\d{1,2},\s*\d{1,2}\)?]` that starts at i: an opening `[`, then `Read` |
| CoordPattern.MatchBounds | gemini.py:51 | a match starts with `[` and ends with `]`, inside the text |
| CoordPattern.NarrowBound | gemini_black.py:52 | with `\d{1,2}` both numbers of a match are below 100 |
| CoordPattern.SearchFrom | gemini.py:52 | the search from i fails exactly when no match starts at or after i; otherwise it is the match at the leftmost such position |
| CoordPattern.FirstMatch | gemini.py:52 | `re.search`: `None` exactly when nothing matches; otherwise the coordinates of the leftmost match |
| CoordPattern.NoMatchInside | gemini_black.py:53 | no match starts strictly inside another match, so `findall` never skips one |
| CoordPattern.FindAll | gemini_black.py:53 | `re.findall`: scanning from left to right, each match found, the scan going on after its end, otherwise one character later |
| CoordPattern.FindAllLast | gemini_black.py:53 | the `findall` list is empty exactly when nothing matches; its last element is the match that starts rightmost |
| CoordPattern.LastMatch | gemini_black.py:53-58 | `findall(...)[-1]`: `None` exactly when nothing matches; otherwise the coordinates of the rightmost match |
| CoordPattern.FirstMatchAt | gemini.py:52 | when a match starts at j and none starts before j, `re.search` returns it |
| CoordPattern.LastMatchAt | gemini_black.py:58 | when a match starts at j and none starts after j, `findall(...)[-1]` returns it |
| CoordPattern.ReadExtend | gemini.py:52 | a successful reading is unchanged by appended text; a reading of `s + t` that ends within `s` is the reading of `s` |
| CoordPattern.ReadShift | gemini.py:52 | a reading after a prefix is the reading of the suffix, shifted by the prefix's length |
| CoordPattern.MatchShift | gemini_black.py:53 | the match (or its absence) at position k of `t` is the same at position `|s| + k` of `s + t`, its end shifted by `|s|` |
| CoordPattern.MatchExtend | gemini.py:52 | a match in `s` is the same match in `s + t`; a match of `s + t` that ends inside `s` is a match of `s` |
| CoordPattern.FirstMatchIgnoresSuffix | gemini.py:52 | with `re.search`, text after the first match never changes the result |
| CoordPattern.LastMatchOfSuffix | gemini_black.py:53-58 | with `findall(...)[-1]`, a match in appended text overrides everything before it |
| CoordPattern.LastMatchAfterPlainPrefix | gemini_black.py:53-58 | a prefix without `[` cannot change the last match |
| CoordPattern.MatchUnclosedTail | gemini_black.py:52 | where the appended text has no `]`, the matches of `s + t` are exactly those of `s` |
| CoordPattern.LastMatchIgnoresUnclosedTail | gemini_black.py:53-58 | appending text without `]` keeps the last match |
| CoordPattern.ReadDigits | gemini.py:51 | reading a run of digits accumulates their decimal value, then reading continues after them |
| CoordPattern.SpelledPairMatches | deepseek.py:68 | `[dr,<spaces>dc]`, with the optional `(` and `)` where the pattern allows them, matches at its start with the values of `dr` and `dc`, and the match ends at its `]` |
| CoordPattern.FirstMatchOfSpelledPair | gemini.py:52 | `re.search` on text that begins with such a pair returns that pair |
| CoordPattern.LastMatchOfAppendedPair | gemini_black.py:53-58 | `findall(...)[-1]` on text that ends with such a pair returns that pair, whatever precedes it |
| CoordPattern.WhitespaceFollowsComma | gemini.py:51 | every whitespace character inside a match belongs to a run that starts right after the comma |
| CoordPattern.ParenRejected | gemini.py:51 | without the parenthesised spelling, `[(` never starts a match |
| CoordPattern.MatchParts | deepseek.py:68 | reads a match back into the parts it is spelled from: numerals the pattern allows, whitespace, the optional `(` and `)`, with the match's numbers their values |
| CoordPattern.MatchIsSpelledPair | deepseek.py:68 | the converse of `SpelledPairMatches`: every match is `[dr,<spaces>dc]` of digit strings the pattern allows (at most two digits each with `\d{1,2}`), with `(` and `)` only where the pattern allows them, and it reads the values of `dr` and `dc` |
| CoordPattern.SpellNoThreeDigits | gemini_black.py:52 | a pair spelled with numerals of at most two digits holds no three digits in a row |
| CoordPattern.LongNumberRejected | gemini_black.py:52 | with `\d{1,2}`, no match starting at i takes in three digits in a row that come before any `]` after i |
| CoordPattern.LongFirstRejected | gemini_black.py:52 | with `\d{1,2}`, a first number of three or more digits is refused, with or without `(` before it |
| CoordPattern.LongSecondRejected | gemini_black.py:52 | with `\d{1,2}`, a second number of three or more digits is refused, whatever the first number and the whitespace after the comma |
| SearchParser.ParseResponse | gemini.py:50-60 | `None` exactly when no `[\d+,\s*\d+]` matches; otherwise the numbers of the first match |
| SearchParser.ParseWrittenPair | QWQ_black.py:61-67 | a reply starting with `[dr,<spaces>dc]` yields `(int(dr), int(dc))`; the numbers are not checked against the board and leading zeros are dropped |
| SearchParser.ParseAnyPair | deepseek_black.py:68-74 | `[str(r),str(c)]` reads back as `(r, c)`, with no bound on r and c |
| SearchParser.ParseIgnoresSuffix | deepseek_black.py:69 | text after the first match never changes the result |
| GeminiBlack.ParseResponse | gemini_black.py:51-64 | `None` exactly when no `[\d{1,2},\s*\d{1,2}]` matches; otherwise the numbers of the last match |
| GeminiBlack.ParseBound | gemini_black.py:52 | both numbers of a result are below 100 |
| GeminiBlack.ParseAppendedPair | gemini_black.py:53-61 | a reply ending with `[dr,<spaces>dc]` of one or two digits each yields that pair, whatever precedes it |
| GeminiBlack.ParseIgnoresUnclosedTail | gemini_black.py:53-58 | appended text without `]` never changes the result |
| GeminiBlack.AppendedTextCompletesPair | gemini_black.py:53-58 | `"[1,"` and `"2]"` each parse to `None`, yet their concatenation parses to `(1, 2)` |
| DeepSeek.SplitTail | deepseek.py:64 | `split(m)[-1]`: the text from where the last piece of the split starts |
| DeepSeek.CutAfter | deepseek.py:63-66 | the last piece of the split when the marker occurs, else the whole text |
| DeepSeek.FinalText | deepseek.py:62-66 | `final_text` for `=== Final Answer ===` |
| DeepSeek.IndexFrom | deepseek.py:63-64 | `find(m, i)`: the first occurrence at or after i, or none at all from i on |
| DeepSeek.TailStart | deepseek.py:64 | where `split(m)[-1]` starts: right after an occurrence of m (or at the start), with no occurrence from there on |
| DeepSeek.OccursInSuffix | deepseek.py:64 | an occurrence in a suffix is an occurrence in the whole text, shifted |
| DeepSeek.NoneInSuffix | deepseek.py:64 | a suffix past the last start of m holds no m |
| DeepSeek.OccursBefore | deepseek.py:64 | every occurrence starts before the point past which none starts |
| DeepSeek.CutAfterLast | deepseek.py:63-66 | without m the text is kept whole; with m the kept text follows an occurrence of m and holds none |
| DeepSeek.FinalTextAfterMarker | deepseek.py:62-66 | the same for `=== Final Answer ===`: the searched text follows a marker and holds none, or is the whole text when there is no marker |
| DeepSeek.SplitAtOverlap | deepseek.py:64 | for overlapping markers, `split` cuts at the first one, so the searched text still ends with a complete marker |
| DeepSeek.ParseResponse | deepseek.py:61-77 | `None` exactly when the searched text has no match of `[\(?\d{1,2},\s*\d{1,2}\)?]`; otherwise the numbers of its last match |
| DeepSeek.ParseBound | deepseek.py:68 | both numbers of a result are below 100 |
| DeepSeek.ParseAppendedPair | deepseek.py:68-74 | a marker-free reply ending with `[dr,dc]`, `[(dr,dc)]`, `[(dr,dc]` or `[dr,dc)]` yields that pair |
| DeepSeek.Pieces | deepseek.py:50-59 | the generator's yields for a chunk sequence: the reasoning when there is any, else the banner once before the first answer, then the answer; a chunk with neither yields nothing |
| DeepSeek.PiecesStep | deepseek.py:50-59 | one chunk yields its reasoning if there is any; else the banner (if still due) and its answer; else nothing; the banner is due until an answer has been yielded |
| DeepSeek.Stream | deepseek.py:50-59 | the generator loop yields exactly the strings of the chunk-by-chunk specification, in order |
| DeepSeek.PiecesAppend | deepseek.py:50-59 | yielding two batches of chunks: the second starts with the banner already out when the first yielded an answer |
| DeepSeek.OnlyThoughts | deepseek.py:53-54 | without an answer chunk only reasoning is yielded |
| DeepSeek.NoSecondBanner | deepseek.py:56-58 | once `done_reasoning` is set the banner never appears again |
| DeepSeek.BannerBeforeFirstAnswer | deepseek.py:50-59 | the banner appears exactly once, right before the answer of the first chunk that answers and after reasoning only |
| DeepSeek.FirstAnswerSplit | deepseek.py:55-59 | cutting the stream at the first answer: earlier pieces, banner, answer, later pieces without banner |
| DeepSeek.FirstAnswerPieces | deepseek.py:55-59 | a first chunk that answers yields the banner, then its answer |
| DeepSeek.NoAnswerNoBanner | deepseek.py:55-58 | with no answer chunk the banner never appears |
| DeepSeek.Transcript | deepseek.py:50-59 | when reasoning never follows an answer, the concatenated output is all reasoning, then the banner if an answer came, then all answers |
| DeepSeek.FinalTextAfterBanner | deepseek.py:57 | when the answer holds no marker, the text searched in `R + banner + A` is a line break followed by A, whatever the reasoning holds |
| DeepSeek.TailStartPast | deepseek.py:63-66 | when every occurrence before the one at p ends by some n <= p and none starts after it, the cut from any point up to p stops right after the occurrence at p |
| DeepSeek.MarkersBeforeBannerInReasoning | deepseek.py:57 | an occurrence of the marker that starts before the banner's marker lies wholly inside the reasoning, so it cannot run into the banner |
| DeepSeek.BannerLayout | deepseek.py:57 | where the reasoning, the banner's marker and the answer lie in `R + banner + A` |
| DeepSeek.NoMarkerAfterBanner | deepseek.py:57 | no marker starts in the answer after the banner |
| DeepSeek.StreamRoundTrip | deepseek.py:50-66 | parsing the concatenated stream gives the last pair of the answer text; pairs and markers in the reasoning are ignored |
| DeepSeek.StreamWithoutAnswer | deepseek.py:50-66 | with no answer chunk and no marker in the concatenated reasoning, the reasoning itself is searched |
| Board.EmptyGrid | gomoku.py:334 | the new board is 15×15 and every cell is empty |
| Board.Put | gomoku.py:403 | `board[x][y] = v` sets exactly that cell and no other |
| Board.Run | gomoku.py:533-537 | one `check_win` loop: the steps 1 to 4 tried in turn, counting until the first that is off the board or not the player's stone |
| Board.AxisCount | gomoku.py:532-542 | `count` on one axis: 1 plus the forward and the backward loop |
| Board.CountsFive | gomoku.py:530-591 | `check_win` as a predicate: some axis of the four counts 5 or more |
| Board.RunHolds | gomoku.py:533-537 | a `check_win` loop counts at most 4 steps, and every step it counts is on the board and holds the player's stone |
| Board.RunAtLeast | gomoku.py:533-537 | a `check_win` loop counts at least as many steps as hold in a row |
| Board.CountGivesWindow | gomoku.py:532-543 | a count of 5 or more on an axis leaves five stones in a row on that axis, through the cell |
| Board.WindowGivesCount | gomoku.py:532-543 | five stones in a row on an axis, through the cell, make that axis count 5 or more |
| Board.CountsFiveIffFive | gomoku.py:530-591 | with the player's stone on (x, y), `check_win` is true exactly when that stone is one of five or more of the player's stones in a row on one of the four axes |
| Board.OverlineWins | gomoku.py:530-591 | six in a row also wins: there is no overline rule |
| Board.RowCountSet | gomoku.py:403 | setting one cell of a row changes its count of v by what left and what came |
| Board.CountRowsSet | gomoku.py:403 | setting one cell changes the count of v only in its own row |
| Board.PutCount | gomoku.py:403 | a stone of p on an empty cell adds one to p's count and leaves the other colour's count alone |
| Board.PlaceKeepsBalance | gomoku.py:403-408 | a stone by the player to move, then `3 - player`, keeps "Black has one stone more exactly when White is to move" |
| Board.TurnParity | gomoku.py:408 | under that balance, Black is to move exactly when an even number of stones is down |
| Board.EmptyBalanced | gomoku.py:334-335 | the empty board holds no stones, and with Black to move it is balanced |
| BoardText.Glyph | gomoku.py:512 | `piece_map`: 0, 1 and 2 to 空, 黑 and 白 |
| BoardText.Join | gomoku.py:508-509 | `sep.join(parts)` |
| BoardText.Widen | gomoku.py:510 | `replace(" ", "  ")`: every space doubled, every other character kept |
| BoardText.HeaderOf | gomoku.py:508-510 | the two header lines for n columns: three spaces, the labels joined by spaces, a line break, each; then spaces doubled |
| BoardText.Rows | gomoku.py:513-519 | the row lines of the first n rows, in order: two label characters, two spaces, a glyph and a space per cell, a line break |
| BoardText.Render | gomoku.py:507-520 | the text `get_board_state` returns: the header followed by the 15 row lines |
| BoardText.CellOf | gomoku.py:512 | a character read back as a cell is the glyph of that cell in `piece_map` |
| BoardText.TensLabels | gomoku.py:508 | the first header line's labels: `str(i)` for i < 10, else its first digit |
| BoardText.UnitsLabels | gomoku.py:509 | the second header line's labels: the second digit for i ≥ 10, else a space |
| BoardText.HeaderLengthOf | gomoku.py:508-510 | the two header lines for n columns, with spaces doubled, are `6n + 10 + min(n, 10)` characters long |
| BoardText.HeaderSize | gomoku.py:508-510 | for 15 columns the header is 110 characters long |
| BoardText.CellsStep | gomoku.py:517-518 | each cell appends its glyph and a space |
| BoardText.RowsStep | gomoku.py:519 | each row appends its line |
| BoardText.RowLineLayout | gomoku.py:514-519 | a row line is 35 characters long and holds one line break |
| BoardText.RowLineGlyph | gomoku.py:514-518 | in a row line, cell c's glyph is at column `4 + 2c` |
| BoardText.CellsLayout | gomoku.py:517-518 | the cells part is two characters per cell: the glyph, then a space |
| BoardText.RowsShape | gomoku.py:513-519 | n row lines are 35n characters long and hold n line breaks |
| BoardText.RowsGlyph | gomoku.py:513-519 | cell (r, c)'s glyph sits at offset `35r + 4 + 2c` of the row lines |
| BoardText.HeaderBreaks | gomoku.py:508-510 | the header holds two line breaks |
| BoardText.LineCount | gomoku.py:507-520 | `get_board_state` has two header lines and one line per row: 17 line breaks |
| BoardText.RenderLength | gomoku.py:507-520 | the text is 110 + 35 · 15 characters long |
| BoardText.GlyphAt | gomoku.py:507-520 | every cell's glyph, in board order, sits at its own fixed place in the text |
| BoardText.Decode | gomoku.py:512 | whatever board is read back from a text has 15×15 cells, each 0, 1 or 2 |
| BoardText.Read | gomoku.py:512-518 | every cell read is the cell whose glyph is at that cell's place |
| BoardText.ReadRow | gomoku.py:513-518 | a row read has 15 cells, each the one whose glyph is at its place |
| BoardText.GlyphCell | gomoku.py:512 | `piece_map` is one-to-one: a glyph reads back as its cell |
| BoardText.RoundTrip | gomoku.py:507-520 | the board can be read back from `get_board_state`'s text: decoding the rendering gives the board |
| GomokuGame.Acceptable | gomoku.py:480 | a parsed move the model turns apply: present, on the board, on an empty cell |
| GomokuGame.ClickBlocked | gomoku.py:385-394 | `on_click` returns at once when the game is over, in AI-vs-AI mode, or when a Black model is to move against a person |
| GomokuGame.AfterClick | gomoku.py:412-417 | whom `on_click` schedules after a stone that does not win: the random player for White against a person, the model when it is the model's colour to move, otherwise nobody |
| GomokuGame.CollectReply | gomoku.py:231-237 | the reply text is the chunks appended in order of arrival |
| GomokuGame.ParseReply | gomoku.py:47-58 | the model playing a colour reads its reply with its own class's `parse_response`; the two `\d{1,2}` readers give numbers below 100 |
| GomokuGame.BarePairReadByEveryModel | gomoku.py:47-58 | every model reads a reply that is exactly `[r,c]`, r and c below 100, as the move (r, c) |
| GomokuGame.NewBoard | gomoku.py:31 | a fresh 15×15 array with every cell 0 |
| GomokuGame.Gomoku.constructor | gomoku.py:25-37 | the empty board with Black to move, the game on, no failures, person against person, the model playing White; the balance holds |
| GomokuGame.Gomoku.Steps | gomoku.py:533-537 | the loop's count is the run of the player's stones from step 1, at most 4, reading only cells on the board |
| GomokuGame.Gomoku.CountLine | gomoku.py:532-542 | `count` for one axis: 1 plus the forward and backward runs |
| GomokuGame.Gomoku.CheckWin | gomoku.py:530-591 | the result is true exactly when some axis counts 5; with the player's stone on (x, y), exactly when it is part of five in a row; the board is not changed |
| GomokuGame.Gomoku.Place | gomoku.py:402-410 | exactly the cell (x, y) becomes the player's; a win ends the game with the winner still to move; otherwise the turn passes with `3 - player`; the balance is kept |
| GomokuGame.Gomoku.OnClick | gomoku.py:384-417 | a click is ignored when the game is over, in AI-vs-AI mode, on the Black model's turn, off the board or on a stone; otherwise the move is applied and the random player or the model is scheduled as the mode says |
| GomokuGame.Gomoku.EmptyCells | gomoku.py:420-424 | `possible_moves` lists exactly the empty cells, once each, in row-major order; it is non-empty exactly when the board has an empty cell |
| GomokuGame.Gomoku.AiMove | gomoku.py:419-438 | a stone on a cell that was empty; a draw that ends the game exactly when no cell was empty, with the board unchanged |
| GomokuGame.Gomoku.Answer | gomoku.py:475-503 | an acceptable move (on the board, on an empty cell) is applied and, unless it wins, resets the failure count; anything else leaves board and player alone and adds exactly one failure |
| GomokuGame.Gomoku.LlmMove | gomoku.py:440-505 | with 3 or more failures, or a failed stream, the game ends with the board untouched; else the move is answered and a useless one is asked for again |
| GomokuGame.Gomoku.LlmTurn | gomoku.py:456-505 | a whole model turn after a complete stream: the non-empty chunks are collected, the model's parser reads them, and the move read is applied, or counted as one more failure and asked for again; at 3 failures the game ends |
| GomokuGame.Gomoku.AiVsAiMove | gomoku.py:198-278 | nothing once the game is over; forfeit at 3 failures (counted across both colours) or on a failed stream; else the move is answered and the next turn follows unless the game ended |
| GomokuGame.Gomoku.RestartGame | gomoku.py:333-343 | every cell 0, Black to move, the game on, no failures; a Black model is scheduled to move first |
| GomokuGame.Gomoku.StartAiVsAi | gomoku.py:190-196 | AI-vs-AI mode on a fresh board, then the first model turn |
| GomokuGame.Gomoku.SetMode | gomoku.py:305-307 | the mode changes and nothing else |
| GomokuGame.Gomoku.SetModelSide | gomoku.py:315-318 | the model's colour changes and nothing else |
| GomokuGame.Gomoku.RowText | gomoku.py:513-519 | one row's text: its two label characters, two spaces, each glyph and a space, a line break |
| GomokuGame.Gomoku.GetBoardState | gomoku.py:507-520 | the text is the two header lines followed by one line per row of the current board |

## Left out

- The Tkinter interface is not modelled: drawing the board and the stones, the reply panel, the log files and the widget setup. It is presentation and I/O.
- The pixel-to-cell conversion in `on_click` (gomoku.py:396-397) uses float division and rounding. `OnClick` takes the cell directly.
- Threading and scheduling are not modelled. The reply stream runs on a background thread, and `master.after` schedules the next handler. A handler's return value (`Follow`) names the handler it would schedule. The race in which a late reply lands after the game has ended is concurrency and is not modelled.
- The network calls of every provider are not modelled. They are replaced by `Reply`: either the stream raised an exception, or the whole reply arrived and `parse_response` read it. The one exception is the DeepSeek generator, which is modelled over an abstract sequence of (reasoning, answer) chunks. `GomokuGame.CollectReply` models the concatenation of the chunks.
- `create_prompt` in every provider and the configuration and API-key loading are not modelled. The `llm_models` table is modelled only as `Model`, which names the parser each entry uses (`QWQ` is left out, see below); `update_llm_api_type` and the choice of which entry is current are not modelled, so `LlmTurn` takes the model as a parameter. None of them changes the engine's state.
- `llm_interface.py` holds only abstract declarations.
- QWQ.py is not part of this model.
- `start_game_llm` (gomoku.py:324-331) is not bound to any widget, so it is never called. It is left out.
- `\d` and `\s` are ASCII only: the digits 0-9, and space, tab, line feed, carriage return, vertical tab and form feed. Python's `\s` on text also matches the ASCII separators `\x1c`, `\x1d`, `\x1e` and `\x1f`, which the model does not treat as whitespace; Python's Unicode digit and whitespace classes are not modelled either. The `ValueError` branches of the `\d{1,2}` parsers (gemini_black.py:62-63, deepseek.py:75-76) are unreachable, since `int` accepts every numeral of one or two ASCII digits.
- SearchParser.ParseResponse: does not model the `ValueError` branch of gemini.py:58-59, deepseek_black.py:75-76 and QWQ_black.py:68-69. On Python 3.11 and later, `int` refuses a numeral of more than 4300 digits, so for such a pair the source returns `None` where the model returns the pair. Both results end the model's turn as a failure, since no board cell has such a coordinate.
- SearchParser.ParseWrittenPair: holds as stated only for numerals of at most 4300 digits on Python 3.11 and later, for the same reason.
- SearchParser.ParseAnyPair: holds as stated only for numbers of at most 4300 digits on Python 3.11 and later, for the same reason.
- `random.choice` is modelled as a nondeterministic choice among the empty cells. Its distribution is not modelled.
- `GomokuGame.Gomoku.GetBoardState` uses the header as a constant. It does not rebuild it with its own loop.
- `GomokuGame.Gomoku.CheckWin` tests each step with a full bounds check. The source tests only the bounds a step can cross. For a cell on the board the two tests agree.
- `GeminiBlack.ParseIgnoresUnclosedTail` is weaker than "appending text that holds no match never changes the result". That stronger statement is false: `GeminiBlack.AppendedTextCompletesPair` is a counterexample.
- `DeepSeek.FinalTextAfterMarker` does not state that the searched text follows the LAST occurrence of the marker. When occurrences overlap that is not what `split` gives: `DeepSeek.SplitAtOverlap` shows the case. It states instead that the text follows some occurrence and holds none.
- `DeepSeek.StreamRoundTrip` assumes the reasoning never follows an answer chunk. It also assumes the marker does not occur in the concatenated answer text; markers in the reasoning are allowed. The marker can straddle two chunks, so a condition on each chunk alone would not be enough.
- `DeepSeek.StreamWithoutAnswer` assumes the marker does not occur in the concatenated reasoning. When it does, the source searches only the text after the split, as `DeepSeek.FinalTextAfterMarker` describes for any text.
- The balance between the two stone counts is proved only while a game goes on. It says that Black has one stone more exactly when White is to move. Every move operation keeps it or ends the game, and `RestartGame` and the constructor establish it. A winning move leaves the winner to move, so the balance does not hold after a win.
