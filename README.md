# Crossword generator and tic-tac-toe player, modelled in Dafny

This project models two small search programs.

The first is the crossword generator. Its `CrosswordCreator` fills every slot of a crossword grid with a word from a word list. Crossing slots must agree on their shared letter, and no word may be used twice. It works in four stages:

- it starts each slot with the whole word list;
- it removes the words of the wrong length (node consistency);
- it runs AC-3 on the crossings (arc consistency);
- it runs a backtracking search. The search picks a slot by minimum remaining values, then by degree, and tries its words in least-constraining order.

The second is the tic-tac-toe player: the rules of the game (whose turn it is, the legal moves, playing a move, the eight winning lines, the end of the game and its utility) and the minimax search that chooses an optimal move.

Files:

- `wrappers.dfy`: the `Option` datatype used for Python's `None` results.
- `grid.dfy` (module `Grid`): the crossword grid that the generator is given. It has slots (`Variable`), the `overlaps` table and the word list. `Crossword.Valid` holds what the generator relies on:
  - an overlap joins two distinct slots and its indices lie inside both;
  - the overlap of `(y, x)` is the overlap of `(x, y)` with its indices swapped.
- `consistency.dfy` (module `Consistency`): specification functions and lemmas for node consistency, arc revision and AC-3. The AC-3 loop is proved to terminate on the set of (slot, word) pairs still in the domains.
- `search.dfy` (module `Search`): specification predicates and lemmas for the backtracking search:
  - complete and consistent assignments;
  - the least-constraining-value count and the ordering by it;
  - the minimum-remaining-values and degree choice.
- `generate.dfy` (module `Generate`): the generator as a class.
  - `CrosswordCreator` has a `domains` map that its methods update in place.
  - `Assignment` is the dictionary that `backtrack` fills in and unwinds.
  - Every loop of the source is a `while` or `for` loop here, with its invariants.
- `tictactoe.dfy` (module `TicTacToe`): the rules as functions, and the loops of `player`, `actions`, `max_value`, `min_value` and `minimax` as methods.
  - The methods are proved against the game-value functions `MaxValueOf` and `MinValueOf`.
  - Lemmas show that these values are the best a player can reach.

Set iteration order and `set.pop()` are arbitrary in Python. Here they are a nondeterministic choice (`var x :| x in rest`), so every proof holds whatever order the sets are visited in.

## Model

| member | source | states |
|---|---|---|
| Generate.CrosswordCreator.constructor | Optimization/crossword/generate.py:14-17 | every slot of the grid gets a domain, and every domain is the whole word list |
| Generate.WrongLength | Optimization/crossword/generate.py:104-107 | the words collected for removal are exactly those whose length differs from the slot's |
| Consistency.LengthFiltered | Optimization/crossword/generate.py:103-108 | the length filter keeps every slot, shrinks each domain to its words of the slot's length, and keeps all of those |
| Generate.CrosswordCreator.EnforceNodeConsistency | Optimization/crossword/generate.py:97-108 | afterwards every word has its slot's length, and the domains are the length-filtered old domains (no slot added or dropped) |
| Generate.LettersAt | Optimization/crossword/generate.py:122-124 | the collected letters are exactly the letters at position j of y's words |
| Consistency.Letters | Optimization/crossword/generate.py:122-124 | a letter is in the set exactly when some word has it at position j |
| Generate.Unsupported | Optimization/crossword/generate.py:126-129 | the words collected for removal are exactly those whose letter i is not among y's letters |
| Consistency.Revised | Optimization/crossword/generate.py:126-131 | the new domain of x is a subset of the old one; every kept word has a supporting word of y; every supported word is kept |
| Generate.CrosswordCreator.Revise | Optimization/crossword/generate.py:110-139 | without an overlap it returns false and changes nothing; otherwise only x's domain may change, and it becomes the revised domain; returns true iff x's domain changed |
| Consistency.ReviseMakesArcConsistent | Optimization/crossword/generate.py:119-137 | after revising (x, y), every word of x has a supporting word of y, and domains only shrink |
| Consistency.ReviseKeepsOtherArcs | Optimization/crossword/generate.py:119-137 | revising (x, y) leaves consistent every arc (a, b) whose target b is not x |
| Consistency.ReviseKeepsReverseArc | Optimization/crossword/generate.py:162 | revising (x, y) cannot break the arc (y, x), which is why it is not re-enqueued |
| Consistency.ReviseOnConsistentArc | Optimization/crossword/generate.py:133-137 | revising an arc that is already consistent changes no domain |
| Consistency.ShrinkRemovesPair | Optimization/crossword/generate.py:159-162 | a strict shrink of one domain removes a (slot, word) pair, the measure on which AC-3 terminates |
| Consistency.ReviseKeepsArc | Optimization/crossword/generate.py:156-162 | an arc that was consistent, or the revised arc itself, is consistent after the revision unless the revision re-enqueues it |
| Consistency.AC3StepKeepsArcsSettled | Optimization/crossword/generate.py:156-162 | one turn of the loop keeps every arc that is off the worklist consistent |
| Consistency.AC3StepKeepsArc | Optimization/crossword/generate.py:156-162 | one turn of the loop keeps one settled arc consistent |
| Consistency.AC3StepUnchanged | Optimization/crossword/generate.py:159 | a revision that changes nothing keeps the loop invariant after the arc is popped |
| Consistency.AC3StepShrinks | Optimization/crossword/generate.py:159-160 | a revision that changes x strictly lowers the termination measure and keeps the domains node consistent and within the starting ones |
| Consistency.AC3StepRequeuesArcs | Optimization/crossword/generate.py:162 | adding the arcs (z, x) for the other neighbours z of x keeps every arc that is off the worklist consistent |
| Consistency.AC3StepRequeuesDomains | Optimization/crossword/generate.py:160-162 | a shrink that leaves x non-empty empties no domain, and cannot happen when every arc was consistent on entry |
| Consistency.AC3StepRequeues | Optimization/crossword/generate.py:156-162 | a shrinking turn that does not fail keeps the whole AC-3 loop invariant |
| Generate.CrosswordCreator.AllArcs | Optimization/crossword/generate.py:150-154 | the initial worklist holds exactly the pairs (x, y) with y a neighbour of x |
| Generate.CrosswordCreator.AC3 | Optimization/crossword/generate.py:141-163 | domains only shrink; false means a domain was emptied; true means no domain was newly emptied and every starting arc is consistent; on arc-consistent domains it returns true and changes nothing |
| Search.CompleteIffAllAssigned | Optimization/crossword/generate.py:170 | for an assignment over the grid's slots, as many words as slots means every slot is assigned |
| Generate.CrosswordCreator.AssignmentComplete | Optimization/crossword/generate.py:165-170 | for an assignment over the grid's slots, true iff every slot has a word |
| Search.DistinctCardinality | Optimization/crossword/generate.py:189 | a list has as many distinct elements as entries iff it has no duplicates |
| Search.DistinctValues | Optimization/crossword/generate.py:177-189 | the list of assigned words is duplicate-free iff no two slots share a word |
| Generate.CrosswordCreator.Consistent | Optimization/crossword/generate.py:172-189 | true iff every word has its slot's length, every pair of assigned crossing slots agrees on the shared letter, and the words are pairwise distinct |
| Generate.CrosswordCreator.CountConflicts | Optimization/crossword/generate.py:203-206 | counts exactly the words of one neighbour that disagree with the word at the shared cell |
| Search.RuledOutStep | Optimization/crossword/generate.py:201-206 | one more neighbour adds its conflicts to the count if it is unassigned, and nothing if it is assigned |
| Generate.CrosswordCreator.RankWord | Optimization/crossword/generate.py:199-207 | the rank table gains the word with its full conflict count, and only when the slot has a neighbour |
| Generate.CrosswordCreator.RankWords | Optimization/crossword/generate.py:198-207 | the table holds every word of the domain (none when the slot has no neighbour), each with the number of words it rules out in unassigned neighbours |
| Search.Insert | Optimization/crossword/generate.py:209 | inserting a word adds exactly that word to the list |
| Search.InsertSorted | Optimization/crossword/generate.py:209 | inserting into a sorted list keeps it sorted by rank |
| Search.SortByRank | Optimization/crossword/generate.py:209 | the sorted list is a permutation of the input |
| Search.SortByRankSorted | Optimization/crossword/generate.py:209 | the sorted list is non-decreasing in rank |
| Search.SortKeepsElements | Optimization/crossword/generate.py:209 | sorting a duplicate-free list keeps its elements and stays duplicate-free |
| Search.SortByConflicts | Optimization/crossword/generate.py:198-211 | sorting the rank table's words gives the table's words, each once, ordered by conflict count |
| Generate.CrosswordCreator.OrderDomainValues | Optimization/crossword/generate.py:191-211 | a slot without neighbours gets no words; otherwise every word of its domain once; always ordered by the number of words ruled out in unassigned neighbours |
| Generate.CrosswordCreator.UnassignedSlots | Optimization/crossword/generate.py:223-226 | the slots visited are exactly the unassigned ones, each once |
| Generate.CrosswordCreator.MinDomainSize | Optimization/crossword/generate.py:228 | the result is the smallest domain size among the slots, reached by one of them |
| Generate.CrosswordCreator.MaxDegree | Optimization/crossword/generate.py:229 | the result is the largest number of neighbours among the slots, reached by one of them |
| Generate.CrosswordCreator.WithDomainSize | Optimization/crossword/generate.py:228 | exactly the slots whose domain has the given size, each once |
| Generate.CrosswordCreator.WithDegree | Optimization/crossword/generate.py:229 | exactly the slots with the given number of neighbours |
| Search.MinimumChoice | Optimization/crossword/generate.py:228-233 | the list of smallest-domain slots is non-empty, and has one entry iff some slot has the unique smallest domain |
| Search.MaximumChoice | Optimization/crossword/generate.py:229-235 | the first listed highest-degree slot is unassigned and has a degree no unassigned slot exceeds |
| Generate.CrosswordCreator.SelectUnassignedVariable | Optimization/crossword/generate.py:213-235 | nothing iff every slot is assigned; otherwise an unassigned slot, the one with the unique smallest domain when there is one, else a slot of highest degree |
| Search.ExtendsStep | Optimization/crossword/generate.py:252-256 | a result that extends the assignment plus one domain word also extends the assignment |
| Search.UndoAssign | Optimization/crossword/generate.py:252-257 | assigning a fresh slot and deleting it restores the assignment |
| Generate.CrosswordCreator.Backtrack | Optimization/crossword/generate.py:237-258 | on failure the shared assignment is as on entry; on success the result is the shared assignment, assigns every slot, extends the entry assignment with domain words, and is consistent unless the entry assignment was already complete |
| Generate.CrosswordCreator.Solve | Optimization/crossword/generate.py:89-95 | the domains end node consistent and within the length-filtered ones; a result assigns every slot consistently, with words from the starting and the final domains |
| TicTacToe.InitialState | Search/tictactoe/tictactoe.py:13-19 | a 3 by 3 board whose cells are all empty |
| TicTacToe.InitialStateFacts | Search/tictactoe/tictactoe.py:17-19 | on the empty board X moves, every cell is a legal move, and the game is not over |
| TicTacToe.ToMove | Search/tictactoe/tictactoe.py:36-39 | someone is to move iff O has not played more often than X |
| TicTacToe.Player | Search/tictactoe/tictactoe.py:22-39 | the counting loops yield the player the turn rule names |
| TicTacToe.ActionsAreEmptyCells | Search/tictactoe/tictactoe.py:42-52 | a move is legal iff it is inside the board and its cell is empty |
| TicTacToe.Actions | Search/tictactoe/tictactoe.py:42-52 | the loops collect exactly the legal moves |
| TicTacToe.MarkCounts | Search/tictactoe/tictactoe.py:64-65 | writing a mark into an empty cell adds one to that mark's count and takes one from the empty count |
| TicTacToe.Result | Search/tictactoe/tictactoe.py:55-66 | an error iff the cell is taken; otherwise a 3 by 3 board, and while someone is to move, one empty cell fewer and still someone to move |
| TicTacToe.ResultMarksOneCell | Search/tictactoe/tictactoe.py:64-66 | the chosen cell gets the mover's mark, no other cell changes, and on alternating boards the turn passes to the opponent |
| TicTacToe.Line | Search/tictactoe/tictactoe.py:73-82 | each of the eight winning lines is three cells inside the board |
| TicTacToe.WinnerFromOwnsLine | Search/tictactoe/tictactoe.py:84-89 | the scan from line k finds a mark only if it fills one of the remaining lines, and finds nothing iff no remaining line is filled |
| TicTacToe.WinnerFromFirstLine | Search/tictactoe/tictactoe.py:84-87 | the line the scan from line k takes its mark from is filled with that mark, and no line between k and it is filled |
| TicTacToe.Winner | Search/tictactoe/tictactoe.py:69-89 | the mark filling the first of the eight lines, in the listed order, that one mark fills; nothing iff no line is filled with X or with O |
| TicTacToe.Terminal | Search/tictactoe/tictactoe.py:92-96 | the game is over iff some line is filled with one mark or no cell is empty |
| TicTacToe.TerminalIffNoMoves | Search/tictactoe/tictactoe.py:92-96 | the game is over iff someone has won or no legal move is left |
| TicTacToe.Utility | Search/tictactoe/tictactoe.py:99-108 | a value iff the game is over: 1 iff X won, -1 iff O won, 0 iff the board is full without a winner |
| TicTacToe.Largest | Search/tictactoe/tictactoe.py:134-137 | the fold of max from below every value is at least each value, and equals one of them when there is any |
| TicTacToe.Smallest | Search/tictactoe/tictactoe.py:144-147 | the fold of min from above every value is at most each value, and equals one of them when there is any |
| TicTacToe.MaxValueOf | Search/tictactoe/tictactoe.py:130-137 | X's game value lies in -1..1 |
| TicTacToe.MinValueOf | Search/tictactoe/tictactoe.py:140-147 | O's game value lies in -1..1 |
| TicTacToe.MaxValueIsBestMove | Search/tictactoe/tictactoe.py:130-137 | while the game goes on, X's value is at least the value of every legal move, and some legal move reaches it |
| TicTacToe.MinValueIsBestMove | Search/tictactoe/tictactoe.py:140-147 | while the game goes on, O's value is at most the value of every legal move, and some legal move reaches it |
| TicTacToe.MaxValue | Search/tictactoe/tictactoe.py:130-137 | the loop computes X's game value, in -1..1, and the utility on a finished game |
| TicTacToe.MinValue | Search/tictactoe/tictactoe.py:140-147 | the loop computes O's game value, in -1..1, and the utility on a finished game |
| TicTacToe.Minimax | Search/tictactoe/tictactoe.py:111-127 | nothing iff the game is over; otherwise a legal move whose value for the opponent equals the board's value for the mover |

## Left out

- Printing the grid, saving it as an image, and the command-line entry points of both programs: these are I/O.
- `letter_grid`, which only turns an assignment into rows of letters for display.
- The `crossword` module: the parsing of the structure and word files is not part of this model. Its slots, overlaps, neighbours and word list are the abstract `Grid.Crossword` value, and `Crossword.Valid` states the symmetry the generator relies on.
- The PageRank program that sits beside these two: its sampling is random and its iteration is floating-point numerics.
- Generate.CrosswordCreator.Revise: requires node-consistent domains and x different from y. With shorter words Python would raise `IndexError` at `word[j]`, and `overlaps[x, x]` would raise `KeyError`. The callers in the file never do either.
- Generate.CrosswordCreator.AC3: requires node-consistent domains and explicit arcs between distinct slots, for the same reasons.
- Generate.CrosswordCreator.AC3: the docstring says false when "one or more domains end up empty". The code returns true when a domain was already empty on entry and no revision emptied it. The contract states what the code does: false only when a revision emptied a domain.
- Generate.CrosswordCreator.Consistent: requires every assigned word to be at least as long as its slot. With a shorter word, Python may raise `IndexError` when a neighbour visited earlier reads the word's letter. Every word `backtrack` assigns comes from a node-consistent domain.
- Generate.CrosswordCreator.SelectUnassignedVariable: on a tie for the smallest domain, the code returns the first highest-degree slot among all unassigned slots, not among the tied ones. A textbook description of the degree heuristic breaks the tie among the tied slots. The model follows the code.
- Generate.CrosswordCreator.OrderDomainValues: a slot without neighbours gets an empty ordering, because the rank is recorded inside the neighbour loop. The model follows the code, so `backtrack` fails on such a slot.
- Generate.CrosswordCreator.Backtrack: does not prove that failure means no consistent completion exists, and for the reason above that is not true of the code. It also states that the result is consistent only when the search itself added words: an assignment that is already complete on entry is returned without a check.
- Generate.CrosswordCreator.AC3: takes an explicit worklist as a value. Python's `arcs.pop()` and `arcs.update` empty and grow the caller's own set, so a caller passing `arcs` would see it changed. No caller in the file passes `arcs`, and the model does not capture that aliasing.
- Generate.CrosswordCreator.Solve: the verdict of AC-3 is discarded, as in the code.
- TicTacToe.Result: requires an action inside the board. Python would raise `IndexError` for indices past 2 and would wrap negative indices around. `actions` yields only cells inside the board.
- TicTacToe.MaxValue: requires that the game is over or O has not played more often than X. Otherwise `player` returns `None`, `result` writes `None` into an empty cell, and the Python recursion never shrinks the board. The same holds for `TicTacToe.MinValue`, `TicTacToe.MaxValueOf` and `TicTacToe.MinValueOf`.
- TicTacToe.Minimax: requires that the game is over or O has not played more often than X. Otherwise `player` returns `None`, neither branch of `minimax` runs, and returning `best_move` raises `UnboundLocalError`; there is no recursion.
- TicTacToe.Minimax: Python raises `UnboundLocalError` if no move matches the board's value. The model proves that some move always matches. Python calls `player` twice; the model calls it once, which gives the same answer.
- TicTacToe.Terminal: the result of `terminal` is a Python truth value (a mark or a boolean). Here it is a boolean with the same truth.
- `float("-inf")` and `float("inf")` are the integers -2 and 2, below and above every game value. `copy.deepcopy` is unnecessary because boards are immutable values.
