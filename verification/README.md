# Mastermind and disconnect: a Dafny model

The repository contains two pieces of coursework built on the z3 solver.

- **Mastermind.** The computer is the code breaker. It keeps one Boolean
  placement variable e_i_j for every position i and colour j, and a base
  formula that says every position holds exactly one colour. Each response
  from the first player adds a red constraint and a white constraint. The
  next guess is decoded from a model of the accumulated formula.
  - There are three versions of the guess engine. When the formula has no
    model, one hard-resets, one attempts (and breaks) a rollback, and one
    raises.
  - An older script hard-codes a 4 x 8 board with one hand-written formula
    per red count.
  - Two scorers count red and white pegs: the greedy matcher of the harness
    and the sentinel-overwriting scorer of `play_once`.
- **Disconnect.** A backtracking depth-first search records every simple
  path from s to t. `find_minimal` turns each path into the clause "some edge
  of this path is deleted" and asks the solver for a model. Two of the three
  versions run the search on the raw edge list instead of an adjacency list.

The solver is an oracle, passed in as a parameter. For the Mastermind engines
it is `answer: Option<Assignment>`, constrained by `Formula.Answers`: `Some`
carries a satisfying assignment and `None` means no assignment of the right
shape satisfies the formula. For the cut formula it is
`solve: seq<seq<EdgeVar>> -> Option<set<EdgeVar>>`, constrained by
`CutClauses.CnfAnswers`. Python exceptions become `Outcome.Result` values:
`IndexError`, `UnboundLocalError`, `Failed`, `BadInput`, `Unsat` and
`AssertionError`. Module globals and instance fields become the fields of a
class, and array-manipulating code keeps its arrays.

Modules: `Outcome`, `Formula`, `Scoring` (the meaning of red and white),
`Placement` (the shared encoding), `HardResetEngine`, `RollbackEngine`,
`RaisingEngine`, `LegacyEncoding`, `HarnessScoring`, `SentinelScoring`,
`PathSearch`, `CutClauses`, `Disconnect`, `EdgeListDisconnect`.

## Model

| member | source | states |
|---|---|---|
| Placement.SumToOneMeaning | 190100036_190100044_190100055/mastermind.py:16-21 | `sum_to_one(ls)` holds exactly when exactly one literal of `ls` is true |
| Placement.AtMostOneMeaning | 190100036_190100044_190100055/mastermind.py:18-20 | the pairwise `Or(Not a, Not b)` clauses hold exactly when at most one literal is true |
| Placement.BaseMeaning | 190100036_190100044_190100055/mastermind.py:29-34 | the base formula of `initialize` holds on a k x n matrix exactly when every row is one-hot (one colour per position) |
| Placement.EncodeSatisfiesBase | 190100036_190100044_190100055/mastermind.py:29-34 | the matrix of any guess with colours below n satisfies the base formula |
| Placement.RedCondExact | 190100036_190100044_190100055/mastermind.py:43 | on the matrix of a secret, the red `PbEq` holds exactly when the guess agrees with the secret in `red` positions |
| Placement.PresenceEncoded | 190100036_190100044_190100055/mastermind.py:86-90 | the disjunction over rows for colour c holds on a secret's matrix exactly when c occurs in the secret |
| Placement.WhiteCondExact | 190100036_190100044_190100055/mastermind.py:83-93 | on a secret's matrix, `white_cons` holds exactly when at least `whites` guess positions carry a colour present in the secret |
| Placement.WhiteMonotone | 190100036_190100044_190100055/mastermind.py:92 | the white constraint is only a lower bound: turning more variables true never falsifies it |
| Placement.WhiteTrivial | 190100036_190100044_190100055/mastermind.py:92 | with `whites <= 0` the white constraint holds under every assignment |
| Placement.TruthfulFeedbackKeepsSecret | 190100036_190100044_190100055/mastermind.py:41-46 | the constraint added for a truthful response (red = agreements, white = matches minus red) is satisfied by the secret |
| Placement.TruthfulPlayKeepsSecret | 190100036_190100044_190100055/mastermind.py:34-46 | after any sequence of truthful responses the accumulated formula is satisfied by the secret, so it stays satisfiable |
| Placement.Decode | 190100036_190100044_190100055/mastermind.py:65-73 | the nested loop keeps for each row the last true colour; with n > 0 the guess has k entries, each below n |
| Placement.DecodeEncode | 190100036_190100044_190100055/mastermind.py:65-73 | decoding the matrix of a well-formed guess gives back the guess |
| Placement.EncodeDecode | 190100036_190100044_190100055/mastermind.py:65-73 | on a matrix with one-hot rows, encoding the decoded guess gives back the matrix |
| Placement.DecodedIsWitness | 190100036_190100044_190100055/mastermind.py:65-73 | the decoded guess of a model of the accumulated formula is itself a witness of that formula |
| Placement.WitnessAvoidsWrongMoves | 190100036_190100044_190100055/mastermind.py:43 | a witness of the accumulated formula differs from every earlier move that scored fewer than k reds |
| Scoring.AgreeAtMostMatches | src/mastermind-harness.py:46-60 | the red count never exceeds the multiset-intersection count, so white is never negative |
| Scoring.MatchesAtMostLength | src/mastermind-harness.py:50-60 | the red-plus-white count is at most the number of pegs |
| Scoring.AgreeAllIffEqual | src/mastermind-harness.py:88 | all pegs are red exactly when the guess equals the code |
| Scoring.ScoreOfSecret | src/mastermind-harness.py:46-65 | scoring the code against itself gives k reds and k matches, that is (k, 0) |
| HardResetEngine.Engine.Initialize | 190100036_190100044_190100055/mastermind.py:25-34 | the solver holds exactly the base formula; no guesses, responses or moves yet |
| HardResetEngine.Engine.PutFirstPlayerResponse | 190100036_190100044_190100055/mastermind.py:38-46 | appends `(red, white)` to `response_list` and the red and white constraints on `move` to the solver; the invariant (solver = base + one constraint per logged response) is kept |
| HardResetEngine.Engine.GetASolution | 190100036_190100044_190100055/mastermind.py:63-79 | a model gives its decoding, a witness of the solver, state unchanged; no model resets the solver to the base formula, empties both lists and returns all zeros; the result is always a well-formed guess |
| HardResetEngine.Engine.GetSecondPlayerMove | 190100036_190100044_190100055/mastermind.py:50-59 | first move all zeros; later moves are solver witnesses; the move is appended to `guess_list`; after a reset `guess_list == [[0]*k]` |
| RollbackEngine.Engine.Initialize | src/mastermind_new.py:25-35 | `list_cons` holds the base formula and the solver holds exactly `list_cons` |
| RollbackEngine.Engine.PutFirstPlayerResponse | src/mastermind_new.py:38-47 | one entry appended to each of `response_list` and `list_cons`, the solver still equal to `list_cons` |
| RollbackEngine.Engine.Replay | src/mastermind_new.py:77-79 | reset and re-adding every element of `list_cons` leaves the solver equal to `list_cons` |
| RollbackEngine.Engine.GetASolution | src/mastermind_new.py:62-85 | a model gives a witness with state unchanged; without one the rebuilt formula is the same and still unsatisfiable, one guess and one response are popped, and the call fails with `IndexError` on an empty list and `UnboundLocalError` otherwise |
| RollbackEngine.Engine.GetSecondPlayerMove | src/mastermind_new.py:50-59 | first move all zeros; later moves are solver witnesses; a produced move is appended to `guess_list`; without a model the last guess and the last response are popped and the call fails with `IndexError` (no response to pop) or `UnboundLocalError`, `move` unchanged |
| RaisingEngine.Engine.Initialize | src/mastermind.py:21-29 | the solver holds exactly the base formula |
| RaisingEngine.Engine.AddAGuessSolution | src/mastermind.py:68-75 | appends the red `PbEq` and the white `PbGe` for the given guess to the solver |
| RaisingEngine.Engine.PutFirstPlayerResponse | src/mastermind.py:32-33 | is `add_a_guess_solution` on the current `move` |
| RaisingEngine.Engine.GetASolution | src/mastermind.py:48-65 | a model gives its decoding, stored in `move` and a witness of the solver; no model fails with `Failed` and nothing changes |
| RaisingEngine.Engine.GetSecondPlayerMove | src/mastermind.py:36-45 | first move all zeros, later moves solver witnesses, appended to `guess_list`; `Failed` propagates |
| LegacyEncoding.CorrectPos0And4Exact | src/test_mastermind_1.py:51-55 | `correct_pos_0` holds exactly when no guess literal is true, `correct_pos_4` (lines 104-108) exactly when all four are |
| LegacyEncoding.CorrectPos2Exact | src/test_mastermind_1.py:74-87 | `correct_pos_2` holds exactly when two of the four guess literals are true |
| LegacyEncoding.CorrectPos3Exact | src/test_mastermind_1.py:90-101 | `correct_pos_3` holds exactly when three of the four guess literals are true |
| LegacyEncoding.CorrectPos1AsWrittenImplied | src/test_mastermind_1.py:58-71 | exactly one true literal implies `correct_pos_1` as written |
| LegacyEncoding.CorrectPos1AsWrittenAdmitsThreeReds | src/test_mastermind_1.py:69 | `correct_pos_1` as written also holds with three red pegs: guess [0,1,2,3] against secret [0,5,2,3] |
| LegacyEncoding.CorrectPos1ExactMeaning | src/test_mastermind_1.py:58-68 | the first four disjuncts alone hold exactly when one guess literal is true |
| LegacyEncoding.RedConsAsWritten | src/test_mastermind_1.py:125-134 | a red constraint exists exactly for reds 0..4; for 0, 2, 3 and 4 reds it means the same as the general `PbEq`; for one red it is only implied by it (strictly weaker, see the findings) |
| LegacyEncoding.RedConsIntendedExact | src/test_mastermind_1.py:125-134 | with the intended `correct_pos_1` the chain means the general `PbEq` for every count 0..4 |
| LegacyEncoding.AsWrittenGameAdmitsThreeReds | src/test_mastermind_1.py:123-138 | after [0,1,2,3] is answered with (1, 0), which `get_response` accepts, the added constraint still holds at [0,5,2,3], which has three reds against it |
| LegacyEncoding.TruthfulResponseAccepted | src/test_mastermind_1.py:173-178 | a truthful score never has `red + white > k`, so `get_response` accepts it |
| LegacyEncoding.Game.constructor | src/test_mastermind_1.py:199-203 | the solver holds one `sum_to_one` per row of the 4 x 8 matrix, which establishes the invariant "base constraint first" |
| LegacyEncoding.Game.AddAGuessSolution | src/test_mastermind_1.py:123-138 | succeeds exactly for reds 0..4 and then appends `And(white_cond, cons)` with the chain as written; otherwise fails with `UnboundLocalError` and the solver is unchanged; keeps the invariant |
| LegacyEncoding.Game.GetASolution | src/test_mastermind_1.py:153-170 | fails with `Failed` exactly when there is no model; otherwise returns the last true colour of each row of the model, a well-formed guess that is a witness of the solver |
| HarnessScoring.GreedyIsMaximal | src/mastermind-harness.py:50-60 | the greedy claims are distinct code positions, and there are exactly as many as the colour-wise minimum of the two multisets |
| HarnessScoring.FirstUnclaimed | src/mastermind-harness.py:54-60 | the inner loop stops at the first unclaimed code position of colour c, or at k |
| HarnessScoring.MatchPegs | src/mastermind-harness.py:50-60 | `matched_idxs` is the greedy claim list and `whites_and_reds` its length |
| HarnessScoring.GetAutoResponse | src/mastermind-harness.py:45-65 | fails the `assert` exactly on a move of the wrong length; otherwise red is the number of agreeing positions, red + white is the multiset-intersection count, white >= 0 and red + white <= k |
| HarnessScoring.RoundsExtend | src/mastermind-harness.py:88-106 | a truthfully scored, new, non-winning round extends the record of the game |
| HarnessScoring.ModelMoveIsNew | src/mastermind-harness.py:93-106 | a move satisfying the accumulated formula of truthfully scored rounds, each with fewer than k reds, is none of the guesses already played |
| HarnessScoring.PlayRound | src/mastermind-harness.py:93-106 | one move, its score and the response: under truthful scoring the engine never resets, and the move is new |
| HarnessScoring.ResultOfPlay | src/mastermind-harness.py:88 | the loop condition `red < k` fails exactly when the last guess equals the code, and no earlier guess did |
| HarnessScoring.PlayGame | src/mastermind-harness.py:76-107 | strict alternation of move and response; the game is solved exactly when the last guess equals the code; no earlier guess equals it and no guess repeats; with n^k rounds allowed the game is always solved |
| GuessCount.RankBound | src/mastermind-harness.py:76-107 | a guess of k pegs below n, read as a base-n numeral, is below n^k |
| GuessCount.RankInjective | src/mastermind-harness.py:76-107 | two guesses of the same length with the same numeral are the same guess |
| GuessCount.RanksCount | src/mastermind-harness.py:76-107 | distinct guesses have as many numerals as there are guesses |
| GuessCount.RanksFresh | src/mastermind-harness.py:76-107 | the numerals of the guesses played are below n^k and differ from the numerals of the code and of every later guess |
| GuessCount.DistinctGuessesBound | src/mastermind-harness.py:76-107 | fewer than n^k distinct well-formed guesses avoid the code, which bounds the rounds of `play_game` under truthful scoring |

| SentinelScoring.RedPhase | src/test_mastermind_2.py:252-265 | the intersection count equals the reds plus the whites counted on the masked copies |
| SentinelScoring.ConsumeReds | src/test_mastermind_2.py:252-256 | `red_pegs` is the number of agreeing positions; agreeing pegs become 0 in the guess copy and -1 in the secret copy |
| SentinelScoring.FirstEqual | src/test_mastermind_2.py:260-265 | the inner loop stops at the first secret position holding the guess colour, or at the end |
| SentinelScoring.ConsumeWhites | src/test_mastermind_2.py:259-265 | `white_pegs` is the intersection count of the live pegs of the two copies, and the secret copy keeps exactly its live pegs that no guess peg consumed |
| SentinelScoring.Score | src/test_mastermind_2.py:248-267 | red is the number of agreeing positions, red + white the multiset-intersection count, at most the number of pegs; the board row and the secret are not modified |
| SentinelScoring.PlayOnce | src/test_mastermind_2.py:90-287 | returns 0 exactly when no move equals the secret, otherwise the 1-based turn of the first move equal to it; one score per turn played, each the true (red, white) |
| SentinelScoring.RedCombinationExact | src/test_mastermind_2.py:293-297 | a red combination's tests pass exactly when the combination is the set of agreeing positions |
| SentinelScoring.AgreementSize | src/test_mastermind_2.py:293-297 | the set of agreeing positions has as many elements as there are red pegs |
| SentinelScoring.RedCombinationsMeaning | src/test_mastermind_2.py:293-297 | some combination of `red_pegs` positions passes exactly when the candidate solution agrees with the row in exactly `red_pegs` positions |
| PathSearch.MarkDecreases | src/disconnect.py:25 | marking an unvisited vertex lowers the count of unvisited vertices by one, which bounds the recursion |
| PathSearch.ExtendSound | src/disconnect.py:22-41 | every path the search records starts at u, ends at d, follows adjacency, repeats no vertex and uses only unvisited in-range vertices |
| PathSearch.BranchesSound | src/disconnect.py:35-37 | every path recorded from the neighbour loop starts at one of the neighbours and is simple |
| PathSearch.ExtendComplete | src/disconnect.py:22-41 | every simple path from u to d through unvisited vertices is recorded |
| PathSearch.BranchesComplete | src/disconnect.py:35-37 | every simple path starting at an unvisited neighbour is recorded by the loop |
| PathSearch.BranchesErrPersists | src/disconnect.py:35-37 | an `IndexError` in one neighbour aborts the whole loop |
| PathSearch.ExtendTotal | src/disconnect.py:22-41 | when every neighbour index is below the size of `visited`, the search raises no `IndexError` |
| PathSearch.Search.constructor | src/disconnect.py:48-52 | `visited` all false, `path` and `beta` empty |
| PathSearch.Search.Util | src/disconnect.py:22-41 | `printAllPathsUtil` fails exactly when the search hits an out-of-range index; on success `visited` and `path` are as on entry and `beta` gains the current path followed by each path of the search, in order |
| PathSearch.AllPaths | src/disconnect.py:45-56 | `printAllPaths` succeeds exactly when s is a valid index (given in-range neighbours), and then returns exactly the simple paths from s to d whose vertices are below the size |
| CutClauses.Sort | src/disconnect.py:10 | `sorted(v)` is increasing, has the elements of v, and has as many entries as v |
| CutClauses.CollectVertices | src/disconnect.py:5-10 | `vertices` is the increasing list of distinct edge endpoints, empty exactly when there are no edges |
| CutClauses.LastIsLargest | src/disconnect.py:13 | `vertices[-1]` bounds every endpoint, so the adjacency list is large enough |
| CutClauses.EdgeName | src/disconnect.py:65-67 | the variable of an edge is (min, max) of its endpoints |
| CutClauses.EdgeNameUndirected | src/disconnect.py:65-67 | both directions of an edge name the same variable |
| CutClauses.BuildClauses | src/disconnect.py:61-69 | one clause per path, listing that path's edge variables |
| CutClauses.ClausesMeaning | src/disconnect.py:69-70 | a set of true variables satisfies the formula exactly when it deletes an edge of every path |
| CutClauses.SatisfiableIffNoEmptyClause | src/disconnect.py:69-75 | the formula has a model exactly when no clause is empty |
| CutClauses.EmptyClauseIffSingleVertex | src/disconnect.py:64-69 | a path's clause is empty exactly when the path is the single vertex |
| CutClauses.SatisfiableIffDistinctEnds | src/disconnect.py:70-84 | for the recorded paths from s to t the formula has a model exactly when s != t |
| CutClauses.SolveCut | src/disconnect.py:72-84 | the solver reports unsat exactly when s == t; a model deletes an edge of every path |
| Disconnect.NeighboursMeaning | src/disconnect.py:13-16 | b is a neighbour of a exactly when an input edge joins them, and the relation is symmetric |
| Disconnect.BuildAdjacency | src/disconnect.py:13-16 | `graph[v]` is exactly the set of vertices joined to v by an input edge |
| Disconnect.Enumerate | src/disconnect.py:35 | iterating a set visits each element once |
| Disconnect.Listing | src/disconnect.py:35 | each neighbour set listed without repetition |
| Disconnect.ListingSetPath | src/disconnect.py:35-37 | a path through the listed neighbours is exactly a path through the neighbour sets |
| Disconnect.DisconnectTry.constructor | src/disconnect.py:4-16 | `vertices` is the set of endpoints and `graph[v]` the neighbour set of v |
| Disconnect.Create | src/disconnect.py:4-16 | `disconnect_try(graph)` raises `IndexError` exactly on an empty edge list |
| Disconnect.DisconnectTry.PrintAllPaths | src/disconnect.py:45-56 | fails exactly when s is not a vertex index; otherwise returns exactly the simple paths from s to d over the neighbour sets |
| Disconnect.PathsOf | src/disconnect.py:58-60 | `IndexError` exactly when there are no edges or every endpoint is below s; otherwise exactly the simple paths from s to t along input edges |
| Disconnect.PathsOfGraph | src/disconnect.py:45-56 | the paths of the adjacency search are exactly the simple paths along input edges |
| Disconnect.SetEdgePath | src/disconnect.py:13-16 | a path through the in-range neighbour sets is exactly a path along input edges |
| Disconnect.FindMinimal | src/disconnect.py:58-84 | `IndexError` exactly as above; "unsat" exactly when s == t; a count is the size of an edge set that breaks every simple s-t path |
| EdgeListDisconnect.EdgePaths | 190100036_190100044_190100055/disconnect.py:30-41 | `IndexError` on empty `vertices`, or when the search over the edge rows reaches an index it cannot read; when every row up to `vertices[-1]` exists and stays in range, it fails exactly when s > `vertices[-1]`; on success, exactly the simple paths from s to d through the edge rows |
| EdgeListDisconnect.CutSize | 190100036_190100044_190100055/disconnect.py:52-74 | faults are `IndexError` (exactly when the search fails) or `Unsat`, `Unsat` exactly when s == t is in range; a count is the size of an edge set that breaks every recorded path |
| EdgeListDisconnect.EdgeRowsInRange | 190100036_190100044_190100055/disconnect.py:20 | when the edge list has an entry for every vertex up to the largest endpoint, the edge rows never lead out of range |
| EdgeListDisconnect.StoreAndCut | 190100036_190100044_190100055/disconnect.py:44-74 | `vertices` becomes the increasing list of distinct endpoints; `IndexError` exactly when the search fails, and with an edge for every index up to the largest endpoint exactly when s exceeds it; `Unsat` exactly when s == t is in range; a count is the size of an edge set that breaks every recorded path |
| EdgeListDisconnect.Disconnect.constructor | 190100036_190100044_190100055/disconnect.py:3-4 | `graph` and `vertices` start empty |
| EdgeListDisconnect.Disconnect.PrintAllPaths | src/test_disconnect.py:31-42 | the search over the stored edge rows: fails exactly when the search cannot read an index (on the stored rows, exactly when s is out of range if every row is in range); otherwise exactly the simple paths |
| EdgeListDisconnect.Disconnect.FindMinimal | src/test_disconnect.py:44-73 | stores the edge list and its sorted endpoints, then behaves as `CutSize`; with an edge for every index up to the largest endpoint, `IndexError` exactly when s exceeds it |
| EdgeListDisconnect.Ends | 190100036_190100044_190100055/disconnect.py:15-16 | every recorded path starts at s and ends at t, and `[s]` is recorded when s == t |
| EdgeListDisconnect.EdgeRowsMisreadsGraph | src/test_disconnect.py:76 | on the example graph the edge-row search walks 2, 4, 5, 6 (2 and 4 are not joined) and cannot walk the real path 2, 5, 6: the search from 2 to 6 with seven unvisited entries succeeds, records 2, 4, 5, 6 and does not record 2, 5, 6 |

## Left out

- The z3 solver is not modelled: `check`/`model` are an oracle parameter, and which model it picks is unconstrained.
- Disconnect.FindMinimal: the returned number counts the true variables of whatever model the solver returns. The model states only that it is the size of some edge set that breaks every path, not that it is minimal; the source does not make it minimal either.
- EdgeListDisconnect.CutSize: same as above, and the iteration over the entries of the z3 model becomes the size of the true set.
- Console I/O (`input`, `print`, `print_move`, `display_board`, `display_constraints`) is left out. `get_response` and `get_human_response` are modelled from the point where both counts are read.
- Randomness is left out: the random code, random n and k, and the random replacement of the move by `[0]*k` in src/mastermind-harness.py:41-44. HarnessScoring.GetAutoResponse scores the move it is given.
- The module-level script runs (`play_game()` at import, the example graphs) are not modelled as programs; the example graph appears only as a constant in a lemma.
- The symmetry-breaking constraints (src/test_mastermind_2.py:137-212) and the white and blank enumeration of `generate_constraint` (src/test_mastermind_2.py:298-339) are left out; only the red combinations are modelled. The solver's choice of each turn's move in `play_once` becomes the parameter `moves` of SentinelScoring.PlayOnce.
- HarnessScoring.PlayGame: the source loop has no round limit. The model takes the number of rounds as a parameter `fuel` and proves that n^k rounds always end the game; it does not bound the rounds more tightly than that.
- HarnessScoring.PlayRound and HarnessScoring.PlayGame drive HardResetEngine, while src/mastermind-harness.py:9 imports `mastermind`, whose src copy (src/mastermind.py) is the raising engine. Under truthful scoring the formula always keeps the code as a model, so no engine ever meets an unsatisfiable formula, and the three engines play the same game.
- HardResetEngine.Engine.Initialize, RollbackEngine.Engine.Initialize and RaisingEngine.Engine.Initialize model a freshly loaded module. The source's `initialize` only adds the base formula to the existing solver `s` and never resets `move` or the guess and response lists, so a second call in the same process keeps the old contents; that is not modelled.
- The interactive `play_game` of src/test_mastermind_1.py is left out; its steps are `Game.AddAGuessSolution`, `Game.GetASolution` and `GetResponse`.
- LegacyEncoding.GetResponse: like the source, it checks only `red + white > k`, so negative counts pass.
- The iteration order of Python sets is not modelled: Disconnect.Enumerate lists a set in some order, so the order of the recorded paths in `src/disconnect.py` is left open (the set of paths is exact).
- Vertex numbers are `nat`: negative vertices, which Python would index from the end, are not modelled.
- Disconnect.DisconnectTry.constructor requires a non-empty edge list; the `IndexError` the source raises otherwise is modelled by Disconnect.Create.
- The class of src/test_disconnect.py defines `__init` rather than `__init__`, so a fresh `disconnect()` has no `graph` or `vertices` attribute and `printAllPaths` before `find_minimal` raises `AttributeError`. EdgeListDisconnect.Disconnect.constructor models both as empty lists, as in the module globals of 190100036_190100044_190100055/disconnect.py:3-4, so that call gives `IndexError` instead.
- HardResetEngine.Engine.Initialize, RollbackEngine.Engine.Initialize and RaisingEngine.Engine.Initialize require at least one colour (n > 0), and each engine's invariant keeps it. With n = 0 the source builds an unsatisfiable base and fails later with `IndexError` at `vs[i][move[i]]`; that run is not modelled.
- HardResetEngine.Engine.PutFirstPlayerResponse, RollbackEngine.Engine.PutFirstPlayerResponse and RaisingEngine.Engine.PutFirstPlayerResponse require a current move of k colours below n. A response before any move (`move == []`) makes the source fail with `IndexError` at `move[i]`; the harness always asks for a move first, and that run is not modelled.
- An empty `Or` is false and an empty `And` is true, matching the solver.
- `src/test_mastermind_2.py:227` writes `==` where an assignment was probably meant, so the fallback move is never filled in. That line belongs to the solver's choice of the move, which is a parameter here.
- The `PbEq`/`PbGe` constraints are modelled as counts of true literals, which is their meaning with all weights 1.

## Findings

| source | as written | input that shows it | evidently intended | confidence | as-written member | corrected member |
|---|---|---|---|---|---|---|
| src/test_mastermind_1.py:58-71 | `correct_pos_1` adds the disjuncts `a and not b` and `b and not a`, so it also holds with two or three red pegs; `add_a_guess_solution` uses it for one red | guess [0,1,2,3] answered with one red and no white: the constraint added still holds at [0,5,2,3], which has three reds against that guess | exactly one of the four guess literals is true | not executed | LegacyEncoding.AsWrittenGameAdmitsThreeReds | LegacyEncoding.RedConsIntendedExact |
| 190100036_190100044_190100055/disconnect.py:20 | the search reads `graph[u]`, the u-th edge of the edge list, as the neighbours of u (also src/test_disconnect.py:21) | the example graph [(2,5),(2,3),(3,4),(4,5),(3,5),(5,6),(3,6)] with s = 2, t = 6: the path 2, 4, 5, 6 is recorded though no edge joins 2 and 4, and the path 2, 5, 6 is missed | search the adjacency of the undirected graph, as src/disconnect.py does | not executed | EdgeListDisconnect.EdgeRowsMisreadsGraph | Disconnect.FindMinimal |
