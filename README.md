# Mixtour engine model

This project models the game engine of a Mixtour player written in
JavaScript, and proves properties of the model. Mixtour is a stacking game.
A field holds a stack of pieces. A move either places a new piece on an
empty field or lifts the top pieces of one stack onto another. The stacks
must be as far apart as the destination is high, along a line with nothing
in between. A stack that reaches the winning height is removed, and the
owner of its top piece scores it.

The modules follow the source files:

- `Wrappers`: `Option` and `Result`. `Result` stands for a thrown error.
- `Util` (util.js): `createConfig` builds the board configuration. It numbers
  the playable cells of a padded grid and precomputes, for every field and
  height, the templates of moves onto it. A template is a source field plus
  the fields in between. `Util` also has the coordinate conversions and the
  small array helpers.
- `Moves`: the two move encodings. gamestate.js writes a move as
  `[src, cnt, dst]`, with `src == -1` for a placement. State.js writes it as
  `[cnt, src, dst]`, with a placement written `[1, dst, dst]`. A pass is `[]`
  in both.
- `Rules`: what a move does to a state, and how an undo record restores it.
  Both engine classes share these rules.
- `MoveGen`: the loops of `generateMoves` as functions, and the rules of a
  legal move stated without loops.
- `Evaluation`: the static evaluation. gamestate.js calls it
  `evaluateImmediately` and State.js calls it `evaluate`. This module also
  has the winning/neutral/losing triage the Monte Carlo player uses.
- `GameState` (gamestate.js): the class `State`, whose fields `doMove` and
  `undoMove` update in place. The free functions beside it are here too.
- `LegacyState` (State.js): the older closure-based state object, modelled
  as the class `StateImpl`.
- `Minimax` (minimax.js): negamax with fail-soft alpha-beta pruning over
  gamestate.js's `State`.
- `MonteCarlo` (montecarlo.js): playout scoring over State.js's `StateImpl`.
- `Formatting` and `Parsing` (formatting.js, parsing.js): the move notation,
  such as `3c2e4` or `pass`.

Each imperative method is proved against a function of the inputs or of
the old state. The lemmas then state what the engine promises about those
functions:
- generated moves are exactly the legal ones;
- undo restores the state;
- pieces are conserved;
- the search returns the negamax value inside its window;
- the triage partitions the moves;
- parsing a formatted move gives it back.

The two engine classes handle a pass differently. gamestate.js hands the
turn to the previous player. State.js's `doMove` ignores a pass altogether,
while its `undoMove` still hands the turn back. Both are modelled as
written, and the lemma `LegacyState.LPassUndo` states the mismatch.

## Model

| member | source | states |
|---|---|---|
| Moves.Encode | src/gamestate.js:134-137 | a move is encoded as the empty array exactly when it is a pass, and as a triple otherwise |
| Moves.Decode | src/gamestate.js:134-137 | an array is decoded only when it is the encoding of the move it is decoded to |
| Moves.DecodeEncode | src/gamestate.js:134-137 | decoding the encoding of any move gives the move back |
| Moves.EncodeInjective | src/gamestate.js:134-137 | two moves have the same array exactly when they are the same move |
| Moves.LEncode | src/State.js:154-155 | in the `[cnt, src, dst]` order, a move is the empty array exactly when it is a pass |
| Moves.LDecode | src/State.js:154-155 | a legacy array is decoded only when it is the encoding of the move it is decoded to |
| Moves.LDecodeEncode | src/State.js:154-155 | decoding the legacy encoding of any move gives the move back |
| Moves.LEncodeInjective | src/State.js:154-155 | two legacy moves have the same array exactly when they are the same move |
| Moves.ToLegacy | src/State.js:154-155 | translating a move to the legacy order keeps a pass a pass, and nothing else becomes a pass |
| Moves.FromLegacy | src/State.js:154-155 | translating a legacy move back keeps a pass a pass, and nothing else becomes a pass |
| Moves.FromToLegacy | src/State.js:154-155 | translating to the legacy order and back is the identity exactly on proper moves: a placement, or a shift between two different fields |
| Moves.ToFromLegacy | src/State.js:154-155 | translating a legacy move back and forth is the identity exactly when a move with equal ends counts one piece, which is how State.js writes a placement |
| Moves.ToLegacyInjective | src/State.js:154-155 | distinct proper moves have distinct legacy forms |
| LegacyState.MapLegacyMember | src/State.js:173-185 | for a list of proper moves, a move written in the older form is in the translated list exactly when the move it stands for is in the original list and translates back to it; the list State.js pushes is the newer list rewritten move by move |
| Rules.Winner | src/gamestate.js:35-37 | the winner is the first player with no towers left to win; the result is -1 exactly when every player still needs a tower |
| Rules.IncPlayer | src/gamestate.js:39-42 | the next player is again a valid player number |
| Rules.DecPlayer | src/gamestate.js:44-47 | the previous player is again a valid player number |
| Rules.IncDecPlayer | src/gamestate.js:39-47 | moving the turn on and moving it back are inverse to each other |
| Rules.TwoPlayersTurn | src/gamestate.js:54-56 | with two players, moving the turn back and moving it on both give the turn to the other player |
| Rules.Toggle | src/gamestate.js:67 | flipping field f of the occupied set changes the membership of f and of no other field |
| Rules.OccupiedUpdate | src/gamestate.js:67-78 | after one field's stack is replaced, the set of non-empty fields is the old set with that field flipped exactly when its emptiness changed, so each flip the engine does keeps `occupied` exact |
| Rules.DebitCredit | src/gamestate.js:120 | taking back the pieces a capture returned gives every player's count back |
| Rules.CreditStep | src/gamestate.js:79 | returning one more piece adds one to its owner's count and changes no other |
| Rules.DebitStep | src/gamestate.js:120 | taking back one more piece subtracts one from its owner's count and changes no other |
| Rules.ShiftPieces | src/gamestate.js:69-80 | a stack is removed exactly when the stack built on the destination reaches the winning height, and the removed pieces are then that whole stack |
| Rules.RestoreFields | src/gamestate.js:126-129 | lifting the moved pieces back from the destination restores every field |
| Rules.RestoreCaptured | src/gamestate.js:123-129 | after a capture, putting the removed stack back and lifting the moved pieces off it restores every field |
| Rules.UnshiftShift | src/gamestate.js:116-130 | undoing a shift with the stack it removed, if any, restores the state exactly |
| Rules.UnshiftPlain | src/gamestate.js:126-129 | a shift without capture is undone exactly by lifting the pieces back |
| Rules.UnshiftCapture | src/gamestate.js:119-129 | a capturing shift is undone exactly by returning the stack, the score and the pieces, then lifting the pieces back |
| Rules.UncaptureRestores | src/gamestate.js:119-125 | putting a captured stack back restores the fields, pieces, scores, turn and last move |
| Rules.CapturedUndone | src/gamestate.js:74-80 | a capture empties the destination, lowers the capturing player's towers left by one, returns every piece of the stack to its owner and leaves the turn and last move alone |
| Rules.UncaptureState | src/gamestate.js:119-125 | undoing a capture takes the pieces back, raises the capturing player's towers left by one and rebuilds both stacks |
| Rules.ShiftLeaves | src/gamestate.js:69-80 | after a shift of cnt pieces, the destination holds more than cnt pieces, or it is empty and the removed stack holds more than cnt pieces of known players; undo's splice depends on this |
| Rules.UndoApply | src/gamestate.js:96-132 | undoing any move, pass included, with the record `doMove` returned restores the state exactly |
| Rules.UndoPlace | src/gamestate.js:112-115 | undoing a placement restores the state exactly |
| Rules.UndoShift | src/gamestate.js:116-130 | undoing a shift restores the state exactly |
| Rules.ApplyWf | src/gamestate.js:49-86 | every move keeps the state well formed: stacks below the winning height, pieces of known players, one count per player |
| Rules.ApplyConserves | src/gamestate.js:59-80 | every move keeps each player's pieces, on the board plus left to place, the same |
| Rules.ShiftConserves | src/gamestate.js:69-80 | a shift, capturing or not, keeps each player's pieces the same |
| Rules.ShiftScores | src/gamestate.js:74-77 | a shift lowers the towers left of the owner of the captured top piece by one, and changes no other score |
| Rules.Apply | src/gamestate.js:49-86 | the reference definition of `_doMoveInternal`: a pass steps the turn back, a placement and a shift advance it and record the move; `ApplyWf`, `ApplyConserves` and `UndoApply` state its properties |
| Rules.Undo | src/gamestate.js:100-132 | the reference definition of `undoMove`; `UndoApply` states that it inverts `Apply` for every move |
| MoveGen.CountMovesSpec | src/gamestate.js:165-169 | the count loop yields exactly the shifts from src to d of 1 up to the source height pieces, less the forbidden reversal |
| MoveGen.TemplateMovesStep | src/gamestate.js:161-170 | one more template adds its count loop exactly when its source holds pieces and no field between is occupied |
| MoveGen.TemplateMovesSpec | src/gamestate.js:160-171 | the moves onto an occupied field are exactly the shifts onto it, from the source of an open template, of 1 up to the source height pieces, less the forbidden reversal |
| MoveGen.FieldMovesSpec | src/gamestate.js:154-172 | the moves generated for field d are exactly the legal moves onto d |
| MoveGen.AllFieldMovesSpec | src/gamestate.js:153-173 | the field loop up to n yields exactly the legal moves onto the first n fields |
| MoveGen.GenMovesSpec | src/gamestate.js:142-176 | a won game has no moves; otherwise the list is non-empty, holds exactly the legal moves, and holds a pass only as its single entry |
| MoveGen.GenMoves | src/gamestate.js:142-176 | the reference definition of `generateMoves`, in the engine's field order, with the reverting move passed in as `forbid`; `GenMovesSpec` characterises it |
| MoveGen.PassSpec | src/gamestate.js:174 | in a game not yet won, the only move is a pass exactly when no legal move exists |
| MoveGen.LegalApplicable | src/gamestate.js:88-92 | every legal move meets the precondition of `doMove` and is proper |
| MoveGen.GenApplicable | src/gamestate.js:142-176 | every generated move meets the precondition of `doMove` |
| MoveGen.NoImmediateRevert | src/gamestate.js:166-167 | after a shift, moving the same pieces straight back is never generated |
| MoveGen.NewMoves | src/gamestate.js:142-152 | the moves of gamestate.js: `GenMoves` with the reverse of the last shift forbidden, as `lastSrc`/`lastCnt`/`lastDst` are read; `NoImmediateRevert` states the exclusion |
| Evaluation.OptionsValid | src/gamestate.js:160-163 | the templates of an occupied field exist at its height and name other fields of the board, so the engine's lookups stay in range |
| Evaluation.EvalWon | src/gamestate.js:214-217 | a won game scores one billion for the player to move if they are the winner, and minus one billion otherwise |
| Evaluation.Eval | src/gamestate.js:213-257 | the reference definition of the static evaluation; `EvalWon` and `StackScoreBound` state its values |
| Evaluation.StackScoreBound | src/gamestate.js:246-253 | the piece reward of a stack of height n lies between -n(n+1)/2 and n(n+1)/2, and is the maximum when every piece belongs to the player |
| Evaluation.SelectMembers | src/gamestate.js:261-280 | a move lands in class k exactly when it is in the list and is classified k |
| Evaluation.SelectPartition | src/gamestate.js:261-280 | the winning, neutral and losing lists together hold every input move exactly as often as the input does |
| Evaluation.GenTriageable | src/gamestate.js:268-270 | every generated move can be classified: the fields the triage reads exist |
| Evaluation.ClassifyOutcome | src/gamestate.js:268-274 | a move is neutral exactly when `doMove` captures nothing; otherwise it is winning exactly when the captured top piece is the mover's |
| GameState.State.constructor | src/gamestate.js:13-28 | the new object holds exactly the given configuration, fields, turn, last move, counts and occupied set |
| GameState.State.GetWinner | src/gamestate.js:35-37 | the first player with no towers left to win, or -1 exactly when there is none |
| GameState.State.IncNextPlayer | src/gamestate.js:39-42 | the turn moves on to the next player, wrapping to 0; nothing else changes |
| GameState.State.DecNextPlayer | src/gamestate.js:44-47 | the turn moves back to the previous player, wrapping to the last; nothing else changes |
| GameState.State.ReturnPieces | src/gamestate.js:79 | each removed piece goes back to its owner's count; nothing else changes |
| GameState.State.TakePieces | src/gamestate.js:120 | each returned piece is taken from its owner's count again; nothing else changes |
| GameState.State.StackOnto | src/gamestate.js:69-73 | the top cnt pieces of the source go, in order, on top of the destination, and `occupied` stays exact |
| GameState.State.Capture | src/gamestate.js:74-80 | the destination stack is removed, its top piece's owner needs one tower fewer, and its pieces return to their owners |
| GameState.State.ShiftInternal | src/gamestate.js:69-80 | the object ends in the state `ShiftPieces` gives, with the removed stack it gives |
| GameState.State.DoMoveInternal | src/gamestate.js:49-86 | the object ends in the state `Apply` gives and returns the removed stack, keeping the object valid |
| GameState.State.DoMove | src/gamestate.js:92-94 | the move is made, and the returned record is the previous last move with the removed stack |
| GameState.State.UnshiftInternal | src/gamestate.js:116-130 | the pieces of a shift are put back as `UnshiftPieces` says, and `occupied` stays exact |
| GameState.State.PutBack | src/gamestate.js:119-125 | a captured stack returns to the empty destination with its score and pieces taken back |
| GameState.State.LiftBack | src/gamestate.js:126-129 | the top cnt pieces of the destination go back on top of the source |
| GameState.State.UndoPlace | src/gamestate.js:112-115 | the placed piece is lifted off and given back to the previous player, whose turn it is again |
| GameState.State.UndoShift | src/gamestate.js:106-130 | the shift is undone, the turn moves back and the last move is the recorded one |
| GameState.State.UndoMove | src/gamestate.js:100-132 | undoing the last move with its record brings the object back to the state before that move |
| GameState.State.RevertTest | src/gamestate.js:147-167 | the engine's test on `lastSrc`, `lastCnt` and `lastDst` skips exactly the move that reverts the last shift (a placement forbids nothing) |
| GameState.State.CountLoop | src/gamestate.js:165-169 | the count loop builds exactly the count moves of the specification |
| GameState.State.TemplateLoop | src/gamestate.js:160-171 | the template loop builds exactly the template moves of the specification |
| GameState.State.FieldLoop | src/gamestate.js:154-172 | the body for one field builds exactly its moves in the specification |
| GameState.State.BoardLoop | src/gamestate.js:153-173 | the loop over the fields builds exactly the moves of all fields, in field order |
| GameState.State.GenerateMoves | src/gamestate.js:142-176 | the method returns exactly the move list `NewMoves` specifies, whose properties `GenMovesSpec` states |
| GameState.State.ToJson | src/gamestate.js:181-189 | the JSON form is a well-formed snapshot holding all five parts of the state: fields, next player, last move, pieces left and towers left |
| GameState.State.Clone | src/gamestate.js:191-202 | the copy is a fresh object equal to the original, with every score set to `winningScore` when given |
| GameState.ThreatLoop | src/gamestate.js:225-239 | the threat loop adds 1000 for each open template that lets the player to move complete a tower and subtracts 100 for each one that serves the opponent |
| GameState.StackLoop | src/gamestate.js:247-253 | the piece loop adds 1+i for each piece at height i that the player owns and subtracts it otherwise |
| GameState.EvaluateImmediately | src/gamestate.js:213-257 | the method returns `Eval`, whose won-game value `EvalWon` and piece bounds `StackScoreBound` state |
| GameState.TriageMoves | src/gamestate.js:261-280 | the three lists are the moves of each class in input order, and they partition the input (`SelectPartition`) |
| GameState.PlayRandomMove | src/gamestate.js:287-298 | fails exactly when there are no moves; otherwise plays one of them: a winning move if any, else a neutral one if any, else a losing one |
| GameState.RandomPlayout | src/gamestate.js:300-310 | returns the number of moves played: the ghost trace of those moves has exactly `steps` entries and leads from the old state to the new one (`Played`: each move is generated in the position before it, no generated move there is of a better triage class, nobody has won before it, and it is played as `doMove` plays it); at most maxSteps moves, fewer only when the game ends won, and a game already won is left untouched with 0 steps |
| GameState.CreateStateFromJson | src/gamestate.js:319-327 | the new object holds exactly the given snapshot, with `occupied` recomputed from the fields |
| GameState.JsonRoundTrip | src/gamestate.js:319-327 | reading back the JSON form of a state with `createStateFromJson` gives an equal state, the recomputed `occupied` included |
| GameState.CreateInitialState | src/gamestate.js:340-350 | an empty board, player 0 to move, no last move, and the given or default counts: 20 or 15 pieces, 1 tower |
| LegacyState.LUndoApply | src/State.js:67-100 | undoing any move other than a pass with its record restores the state exactly |
| LegacyState.LUndoPlace | src/State.js:81-84 | undoing a placement restores the state exactly |
| LegacyState.LUndoShift | src/State.js:85-98 | undoing a shift restores the state exactly |
| LegacyState.LPassUndo | src/State.js:71-74 | `doMove` leaves the state unchanged on a pass, while `undoMove` moves the turn back, so with two or more players undoing a pass does not restore the state |
| LegacyState.LApplyWf | src/State.js:27-57 | every move keeps the state well formed |
| LegacyState.LApplyConserves | src/State.js:33-50 | every move keeps each player's pieces, on the board plus left to place, the same |
| LegacyState.LApply | src/State.js:27-57 | the reference definition of State.js `doMoveInternal`: a pass leaves the state alone; `LApplyWf`, `LApplyConserves` and `LUndoApply` state its properties |
| LegacyState.LUndo | src/State.js:71-100 | the reference definition of State.js `undoMove`, which always steps the turn back; `LUndoApply` and `LPassUndo` state when it inverts `LApply` |
| LegacyState.LegacyMovesSpec | src/State.js:160-193 | no moves once won; otherwise non-empty, pass alone or not at all, and a non-pass move is generated exactly when its translation is legal (a placement counting one piece) |
| LegacyState.LNoImmediateRevert | src/State.js:183-184 | after a shift, moving the same pieces straight back is never generated |
| LegacyState.LegacyMovesApplicable | src/State.js:160-193 | every generated move meets the precondition of `doMove` |
| LegacyState.MoveWinnerOutcome | src/State.js:197-203 | `getMoveWinner` is -1 exactly when `doMove` captures nothing, and otherwise the owner of the captured top piece |
| LegacyState.MoveWinner | src/State.js:197-203 | the reference definition of `getMoveWinner`; `MoveWinnerOutcome` states that it names the owner of the tower that `doMove` captures, and -1 when nothing is captured |
| LegacyState.LClassifyAgrees | src/State.js:207-223 | State.js puts a move in the same class as gamestate.js puts its translation |
| LegacyState.LSelectMembers | src/State.js:207-223 | a move lands in class k exactly when it is in the list and is classified k |
| LegacyState.LSelectPartition | src/State.js:207-223 | the three lists together hold every input move exactly as often as the input does |
| LegacyState.LegacyMovesTriageable | src/State.js:197-200 | every generated move can be classified |
| LegacyState.FromJson | src/State.js:349-360 | a state rebuilt from a well-formed JSON form is well formed |
| LegacyState.FromJsonOf | src/State.js:349-360 | rebuilding from `toJson` gives the state back whenever each player owns the configured number of pieces, which every move keeps |
| LegacyState.StateImpl.constructor | src/State.js:16 | the new object holds exactly the given configuration, fields, turn, last move, counts and occupied set |
| LegacyState.StateImpl.GetWinner | src/State.js:23-25 | the first player with no towers left to win, or -1 exactly when there is none |
| LegacyState.StateImpl.ReturnPieces | src/State.js:49 | each removed piece goes back to its owner's count; nothing else changes |
| LegacyState.StateImpl.TakePieces | src/State.js:88 | each returned piece is taken from its owner's count again; nothing else changes |
| LegacyState.StateImpl.StackOnto | src/State.js:40-43 | the top cnt pieces of the source go, in order, on top of the destination, and `occupied` stays exact |
| LegacyState.StateImpl.Capture | src/State.js:44-50 | the destination stack is removed, its top piece's owner needs one tower fewer, and its pieces return to their owners |
| LegacyState.StateImpl.ShiftInternal | src/State.js:39-50 | the object ends in the state `ShiftPieces` gives, with the removed stack it gives |
| LegacyState.StateImpl.PlaceInternal | src/State.js:35-38 | the player to move places one piece on the empty field |
| LegacyState.StateImpl.DoMoveInternal | src/State.js:27-57 | the object ends in the state `LApply` gives and returns the removed stack, keeping the object valid |
| LegacyState.StateImpl.EndTurn | src/State.js:52-54 | the turn moves on and the move becomes the last move; nothing else changes |
| LegacyState.StateImpl.DoMove | src/State.js:63-65 | the move is made, and the returned record is the previous last move with the removed stack |
| LegacyState.StateImpl.UnshiftInternal | src/State.js:85-97 | the pieces of a shift are put back as `UnshiftPieces` says |
| LegacyState.StateImpl.PutBack | src/State.js:87-93 | a captured stack returns to the empty destination with its score and pieces taken back |
| LegacyState.StateImpl.LiftBack | src/State.js:94-97 | the top cnt pieces of the destination go back on top of the source |
| LegacyState.StateImpl.UndoPlace | src/State.js:81-84 | the placed piece is lifted off and given back to the player whose turn it is again |
| LegacyState.StateImpl.HandBack | src/State.js:72-74 | the turn moves back and the recorded last move returns; nothing else changes |
| LegacyState.StateImpl.UndoMove | src/State.js:71-100 | undoing a move other than a pass restores the state before it, and undoing a pass moves the turn back one player |
| LegacyState.StateImpl.ThreatLoop | src/State.js:117-132 | the threat loop adds 1000 for each open template that completes a tower for the player to move and subtracts 100 for the opponent's |
| LegacyState.StateImpl.StackLoop | src/State.js:140-146 | the piece loop adds 1+i for each piece at height i that the player owns and subtracts it otherwise |
| LegacyState.StateImpl.Evaluate | src/State.js:108-150 | the same score as gamestate.js's `evaluateImmediately`: the function `Eval` |
| LegacyState.StateImpl.RevertTest | src/State.js:164-184 | the engine's test on `lastCnt`, `lastSrc` and `lastDst` skips exactly the move that reverts the last shift |
| LegacyState.StateImpl.CountLoop | src/State.js:182-186 | the count loop builds the specified count moves in the legacy order |
| LegacyState.StateImpl.TemplateLoop | src/State.js:177-188 | the template loop builds the specified template moves in the legacy order |
| LegacyState.StateImpl.FieldLoop | src/State.js:171-189 | the body for one field builds its specified moves in the legacy order |
| LegacyState.StateImpl.BoardLoop | src/State.js:170-190 | the loop over the fields builds the moves of all fields in the legacy order |
| LegacyState.StateImpl.GenerateMoves | src/State.js:160-193 | the method returns exactly `LegacyMoves`, whose properties `LegacyMovesSpec` states |
| LegacyState.StateImpl.TriageMoves | src/State.js:207-223 | the three lists are the moves of each class in input order, and they partition the input (`LSelectPartition`) |
| LegacyState.StateImpl.PlayRandomMove | src/State.js:230-242 | fails exactly when the game is won; otherwise plays a generated move, winning if any, else neutral if any, else losing |
| LegacyState.StateImpl.RandomPlayout | src/State.js:244-255 | the ghost trace of the moves played has `steps` entries and leads from the old state to the new one (`LPlayed`: each move is generated by State.js in the position before it, no generated move there is of a better triage class, nobody has won before it, and it is played as State.js `doMove` plays it); at most maxSteps moves, fewer only when the game ends won, and a won game is left untouched |
| LegacyState.StateImpl.ToJson | src/State.js:302-304 | the JSON form is the fields, turn, last move and scores, and it is well formed |
| LegacyState.StateImpl.Clone | src/State.js:306-309 | the copy is a fresh object equal to the original |
| LegacyState.LegacyMovesBuilt | src/State.js:191-192 | the list of a game not yet won is the field loop's moves, or a single pass when the loop found none |
| LegacyState.Recount | src/State.js:350-359 | the recomputed occupied set holds exactly the non-empty fields, and each player has the configured pieces less those on the board left to place |
| LegacyState.TakeField | src/State.js:357 | each player's count drops by the number of their pieces on the field |
| LegacyState.NewState | src/State.js:328-362 | without JSON, an empty board with the configured pieces and towers per player; with JSON, exactly the state `FromJson` rebuilds |
| Minimax.FailSoftNeg | src/minimax.js:43 | a fail-soft result for the window (-beta, -alpha), negated, is a fail-soft result for (alpha, beta) |
| Minimax.Adjust | src/minimax.js:33-37 | a finished game is worth depthLeft more when won and depthLeft less when lost, so sooner wins score higher; a draw stays 0 |
| Minimax.BestPrefix | src/minimax.js:39-50 | the best value of the first i moves is minus infinity exactly when i is 0, and never plus infinity |
| Minimax.BestPrefixSpec | src/minimax.js:39-51 | the best value of the first i moves is the value of one of them and at least the value of each |
| Minimax.BestPrefixGrows | src/minimax.js:45-46 | the best value so far never decreases as more moves are tried |
| Minimax.TiesSpec | src/minimax.js:61-67 | the tie list holds exactly the moves among the first i whose value is v |
| Minimax.TiesAbove | src/minimax.js:61-64 | no move ties with a value above the best so far, so the list is empty when a new best is found |
| Minimax.BestMovesExist | src/minimax.js:54-69 | the best moves are non-empty exactly when the move list is |
| Minimax.NegamaxWon | src/minimax.js:31-37 | a won position is worth one billion plus depthLeft to the winner, and its negation to the loser |
| Minimax.Negamax | src/minimax.js:27-52 | the independent reference value of the search: the best negated child value, the adjusted evaluation of a finished game, the evaluation at the horizon; `Search` and `RootValue` are proved against it |
| Minimax.WinningMoveValue | src/minimax.js:56-59 | a root move that wins at once is worth one billion plus three |
| Minimax.NegamaxBound | src/minimax.js:28-38 | when no unfinished position within d plies evaluates beyond plus or minus one billion (`Calm`), the value d plies deep lies within one billion plus d either way: the depth adjustment of a finished game is the largest that can be added |
| Minimax.LosingMoveValue | test/minimax_test.js:44-48 | a root move after which the opponent has a generated reply that wins at once is worth exactly minus one billion and two, given a calm horizon after the move |
| Minimax.RootValue | src/minimax.js:54-69 | the best value over the generated root moves is the negamax value of the position |
| Minimax.EvaluateState | src/minimax.js:20-22 | the static evaluation of the position |
| Minimax.Search | src/minimax.js:27-52 | the state is restored, and the result is the negamax value when it lies inside (alpha, beta), an upper bound at or below alpha, and a lower bound at or above beta; at the horizon and at a finished game it is exactly the negamax value whatever the window (the evaluation, adjusted by the plies left when the game is over, src/minimax.js:28-38) |
| Minimax.SearchLoop | src/minimax.js:39-51 | the move loop returns a fail-soft value of the best move for the window and restores the state |
| Minimax.SearchTurn | src/minimax.js:41-49 | one iteration either cuts off with a value at or above beta that bounds the best so far, or keeps the window invariant for one more move |
| Minimax.WindowStep | src/minimax.js:45-48 | the update of bestValue and alpha keeps the window invariant, and a cutoff value bounds the true best from below |
| Minimax.SearchMove | src/minimax.js:42-44 | making a move, searching the reply with the negated window and undoing the move gives a fail-soft value of the move and the original state |
| Minimax.FindBestMoves | src/minimax.js:25-70 | the state is restored, the value is the best move value at the search depth, and the list holds exactly the moves of that value in input order |
| Minimax.RootTurn | src/minimax.js:57-67 | one root iteration keeps the best value and the list of moves reaching it exact |
| Minimax.RootStep | src/minimax.js:61-67 | a larger value starts a new list, an equal value joins the list, a smaller one leaves both unchanged |
| Minimax.RootMove | src/minimax.js:58-60 | the reply search with window (-infinity, -best+1) gives the exact value whenever the move is at least as good as the best so far, and otherwise proves it worse |
| MonteCarlo.SimulationsPerMove | src/montecarlo.js:62 | max(10, floor(4000 / n)): never below 10; above 10 exactly the largest share r with r·n ≤ 4000; 10 only when another share of 11 would not fit (4000 < 11·n) |
| MonteCarlo.PlayoutAverageBounds | src/montecarlo.js:32-41 | a playout average lies between 0 and 1 |
| MonteCarlo.AverageExtremes | src/montecarlo.js:38-40 | all losses average to 0 and all wins to 1 |
| MonteCarlo.EvaluateWithRandomPlayouts | src/montecarlo.js:32-41 | the result is an average of playout results, in half points; a game already won scores 1 for its winner and 0 for the others |
| MonteCarlo.MaxValueSpec | src/montecarlo.js:64-73 | the best value, starting from 0, is at least every score, and is one of them when there are scores and none is negative |
| MonteCarlo.TiedSpec | src/montecarlo.js:70-76 | the tie list holds exactly the moves whose score is v |
| MonteCarlo.TiedAbove | src/montecarlo.js:70-73 | nothing ties with a value above every score |
| MonteCarlo.BestMovesExist | src/montecarlo.js:63-78 | with neutral moves to score, the best moves are never empty |
| MonteCarlo.TriageOutcome | src/montecarlo.js:45-54 | the class of a move (winning, neutral, losing) is what `doMove` would capture for the mover |
| MonteCarlo.FindBestMoves | src/montecarlo.js:44-79 | winning moves are returned with 1; only losing moves are returned with 0; otherwise each neutral move gets a playout average and the result is the best average with exactly the neutral moves that reach it |
| MonteCarlo.ScoreMoves | src/montecarlo.js:63-78 | every neutral move gets a playout average, and the moves whose average is the largest are returned |
| MonteCarlo.PlayoutMove | src/montecarlo.js:66-69 | the move is made, scored by playouts and undone, leaving the board as it was and every move still applicable |
| Formatting.Digits | src/formatting.js:7 | the decimal digits of n are non-empty, and a single digit exactly when n is below 10 |
| Formatting.DigitsValueOf | src/formatting.js:7 | the digits read back as n and have no leading zero |
| Formatting.Decimal | src/formatting.js:7 | `String(n)` is the digits of n, with a minus sign first when n is negative |
| Formatting.FormatRow | src/formatting.js:6-8 | rows 0 to 8 are written as the single digits 1 to 9, and any row from 0 up as digits only |
| Formatting.FormatCol | src/formatting.js:10-12 | a column is one code unit, the letter `a` plus the column while that stays below 0x10000 |
| Formatting.DecodeField | src/formatting.js:16-20 | a field index becomes the row and column with row × cols + column equal to the index and the column below cols |
| Formatting.DecodeFieldInjective | src/formatting.js:16-20 | distinct field indices give distinct squares |
| Formatting.FormatMoveParts | src/formatting.js:14-26 | a move is written as its count when that is not 1, the source square, and the destination square when it is another field |
| Formatting.FormatMoveNoSpace | src/formatting.js:14-26 | a formatted move contains no space |
| Formatting.FormatMove | src/formatting.js:14-26 | the reference definition of `formatMove`; `FormatMoveParts`, `FormatMoveNoSpace` and `Parsing.ParseFormat` state its parts and that parsing reads it back |
| Formatting.FormatMoves | src/formatting.js:28-35 | the method returns the formatted moves joined by single spaces |
| Formatting.SplitJoined | src/formatting.js:28-35 | splitting the joined text at its spaces gives back each formatted move, in order |
| Parsing.ReadDefaults | src/parsing.js:24-29 | the count defaults to 1 for even lengths, and the destination defaults to the source for lengths up to 3 |
| Parsing.Read | src/parsing.js:24-29 | the cursor walk that reads count, source and destination; `ReadDefaults` states its defaults |
| Parsing.ParseMove | src/parsing.js:21-37 | `pass` parses to a pass; lengths outside 2..5 fail; otherwise a move is returned exactly when the count is below the winning height, the source lies on the board and both squares are fields, and then it names those fields |
| Parsing.ParseMoveAsWritten | src/parsing.js:21-37 | `parseMove` as written, destination lookup without a column check; `ParseAsWrittenWraps` exhibits the wrap and `AsWrittenAgreesInGrid` the agreement with `ParseMove` inside the grid |
| Parsing.AsWrittenAgreesInGrid | src/parsing.js:30-36 | the parser as written and the corrected one agree whenever the destination lies inside the padded grid |
| Parsing.ParseAsWrittenWraps | src/parsing.js:30-36 | on a two-row, one-column board, `a1b1` parses as written to a move onto `a2`, which is formatted `a1a2`; the corrected parser rejects it |
| Parsing.ParseFormat | src/parsing.js:21-37 | on a rectangular board of at most 9 rows and winning height at most 10, parsing a formatted move gives the move back |
| Util.NumberingAt | src/util.js:19-32 | a playable cell gets the number of playable cells before it, and any other cell gets -1 |
| Util.PositionsNumbering | src/util.js:19-32 | `apiToFieldIndex` and `fieldIndexToApi` are inverse between fields and playable cells, and every cell that is not playable maps to -1 |
| Util.PositionsIncreasing | src/util.js:19-32 | fields are numbered in row-major order of their cells |
| Util.NumberCells | src/util.js:19-32 | the numbering loop builds exactly the specified numbering, positions and field count |
| Util.ProbeCell | src/util.js:54-58 | the ray stops exactly at a cell off the grid or not playable, and otherwise yields that cell's field |
| Util.WalkRay | src/util.js:51-63 | walking one direction adds, at each height h, the template whose source is h steps back, with the fields between as its mask, while every cell up to it is playable |
| Util.CellTemplates | src/util.js:43-64 | the templates of a field are, for each height, the rays of the eight directions that reach that far |
| Util.BuildMoves | src/util.js:38-65 | the move table holds the templates of every playable cell in field order |
| Util.CreateConfig | src/util.js:11-80 | the result is the configuration `BuildConfig` describes, or the error it throws |
| Util.BuildConfig | src/util.js:11-80 | the reference definition of what `createConfig` returns or throws; `BuildConfigValid` states when it fails and that its configuration is valid |
| Util.ConfigOfValid | src/util.js:36-63 | a layout of at most 30 fields yields a valid configuration: the tables are consistent and every template names another field, with neither end in its mask |
| Util.TableGeometry | src/util.js:51-63 | the table `createConfig` builds has one entry per field; field k sits at a playable cell (r, c) in row-major position; its entry has winningHeight heights with no templates at height 0, and every template of height h names the field h steps from (r, c) along one of the eight directions, with every cell on the way playable and the fields strictly between as its mask |
| Util.BuildConfigValid | src/util.js:11-80 | `createConfig` fails exactly when the layout length is wrong or there are more than 30 fields, and with towers of at least two pieces and at least one player its configuration is valid |
| Util.FieldIndexToRowCol | src/util.js:84-91 | the row and column of a field lie in the padded grid and point back at the field's cell |
| Util.RowColToFieldIndexAsWritten | src/util.js:95-100 | as written, a lookup that returns a field names the cell at the flat index the coordinates compute |
| Util.RowColToFieldIndex | src/util.js:95-100 | the lookup returns the field at exactly those coordinates, or -1 exactly when no field has them |
| Util.OutsideNoField | src/util.js:93-94 | no field has coordinates outside the padded grid |
| Util.RowColRoundTrip | src/util.js:84-100 | looking up the coordinates of any field gives the field back |
| Util.AsWrittenAgreesInside | src/util.js:95-100 | the lookup as written and the corrected one agree inside the padded grid |
| Util.AsWrittenWraps | src/util.js:95-100 | on a two-row, one-column board, the off-board coordinates (0, 1) find field 1, which sits at (1, 0) |
| Util.ArrayOfValues | src/util.js:102-106 | an array of the given length holding the value everywhere |
| Util.ArrayOfObjects | src/util.js:108-112 | an array of the given length holding a made object everywhere |
| Util.ArrayEquals | src/util.js:114-118 | true exactly when the arrays have equal length and equal elements |
| Util.IndexOfMove | src/util.js:120-125 | the first index holding the move, or -1 exactly when it is absent |
| Util.RandomChoice | src/util.js:127-129 | an element of the array, present exactly when the array is not empty |

## Left out

- The bit masks `occupied` and template masks are sets of field indices. The 30-field limit that makes them fit in a 32-bit integer is kept as a check in `createConfig` and in `ValidConfig`.
- `log`, `debugPrint` and the `WARNING: maxSteps exceeded!` message are output only, so they are not modelled.
- `Math.random`, behind `randomChoice`, is a nondeterministic choice: `Util.RandomChoice` returns some element. The playouts are therefore not fixed, and only what every run returns is proved.
- MonteCarlo.EvaluateWithRandomPlayouts: the average is an exact rational (half points over the playouts), not a floating-point double. The model states that the value is some such average, not which one.
- MonteCarlo.FindBestMoves: `cfg.piecesPerPlayer` and `cfg.winningScore`, which State.js reads from the configuration, are explicit parameters. The configuration record here holds only what `createConfig` builds.
- Minimax.FindBestMoves: the search runs over gamestate.js's `State`, and `state.evaluate()` is stood in for by `evaluateImmediately`, which computes the same score (`Eval`) as State.js's `evaluate`. As written, src/minimax.js:21, 29 and 34 call `state.evaluate()`, but gamestate.js's `State` (src/gamestate.js:11-203) has no `evaluate` method, and test/minimax_test.js:5,12 passes exactly such a state; on it the code as written would fail with a TypeError when it reaches a horizon or a finished game. The model does not reproduce that failure. The only state with `evaluate` is State.js's, and over that state the search would not restore itself after a pass: State.js's `doMove` leaves the state alone on a pass while `undoMove` still steps the turn back (src/State.js:29, 71-74; `LegacyState.LPassUndo`). The clauses of Minimax.Search and Minimax.FindBestMoves that the state is restored therefore rest on gamestate.js's `undoMove`, which undoes a pass exactly (`Rules.UndoApply`). The unused first parameter of `findBestMoves` is dropped.
- Minimax.LosingMoveValue: the value of exactly minus one billion and two carries the explicit hypothesis `Calm`: no unfinished position within the three plies after the move evaluates beyond plus or minus one billion. In the model the scores left and the board are unbounded, so the heuristic term 10000 times the score difference (src/State.js:108-150; `Evaluation.Eval`) can exceed the score of a won game, and then a deeper non-winning line could outvalue the immediate win. The standard configuration's positions stay far below that, but the model does not prove it for the test's concrete position.
- Minimax.FindBestMoves: the test expectation that from the initial position of the standard board every move ties at value 0 (test/minimax_test.js:14-20) is not proved. It is a four-ply search over the whole board, a concrete computation rather than a property of the model, and the model proves only the general contract (the value is the negamax maximum and the moves are exactly the ties).
- Minimax.SearchLoop: the `break` on a beta cutoff is modelled as returning from the loop.
- Minimax.MoveValue is total: a move that cannot be played is worth 0, a value the search never asks for.
- Aliasing of the JSON forms is not modelled. `toJson` shares the object's arrays, and `createStateFromJson` takes ownership of its input. The model copies values.
- Strings are sequences of UTF-16 code units, as in JavaScript. `charCodeAt` then yields the code unit itself.
- MonteCarlo.EvaluateWithRandomPlayouts requires at least one playout, so the division by `simulations` is defined. `findBestMoves` always passes at least 10.
- Formatting.FormatMove requires `cfg.cols > 0`, since the column is a remainder by `cols`.
- Util.ProbeCell merges the two `break` tests of the ray walk (off the grid, or not playable) into one result.
- The configuration invariant `ValidConfig` requires towers of at least two pieces and at most 30 fields, which the engine assumes of every configuration it plays on.
- The command-line drivers and CPU-player glue are outside the core and are not modelled. This covers cli.js, cpu-player.js, MinimaxCPU.js, MonteCarloCPU.js and the two `*-cli.js` files.

## Findings

| source | as written | input that shows it | evidently intended | confidence | as-written member | corrected member |
|---|---|---|---|---|---|---|
| src/util.js:95-100 (used by src/parsing.js:30-36) | `rowColToFieldIndex` indexes the flat padded layout without checking the column, so a column past the right edge wraps into the next row | a board of two rows and one column without padding: `a1b1` names the off-board square b1, yet `parseMove` returns the move from field 0 to field 1, which is `a1a2` | coordinates outside the padded grid are not part of the board and give -1, so `parseMove` returns undefined | not executed | Util.RowColToFieldIndexAsWritten, Parsing.ParseMoveAsWritten (shown by Util.AsWrittenWraps and Parsing.ParseAsWrittenWraps) | Util.RowColToFieldIndex, Parsing.ParseMove |
