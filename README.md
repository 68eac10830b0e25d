# Five small programs, modelled and verified in Dafny

The repository is a collection of small, independent programs. Five of them
hold in-process logic that can be checked, and this project models those five:

- **Tic-tac-toe** (`tic-tac-toe.c`): a global 3x3 board and a global
  difficulty, updated in place. Covered: reset, free-cell count, winner
  detection, the validated player move, the three computer strategies
  (random, "take a winning move", minimax) and the two game loops. The model
  is the class `TicTacToe.Game` over an `array2<char>`. The pure rules it is
  proved against are in `TicTacToeRules`; they work on the row-major
  sequence of the nine cells.
- **To-do list** (`to-do_list.py`): the two global lists `tasks` and
  `completed_tasks`, changed by add, delete-by-index and mark-as-done. They
  become the class `TodoList.TodoList` with two `seq` fields.
- **Multi-array merge** (`merge_multiple_array.cpp`): `mergeArrays` copies k
  arrays into an output buffer through a running index and sorts the filled
  prefix in place. `main` validates the count and each size, sorts each
  input, sizes the buffer and calls the merge. Module `ArrayMerge`, over
  `array<int>`.
- **Initial screening** (`medico_initial_screening.c`): the emergency
  classification, the department allocation and the selection of precaution
  lines. These are pure decision functions in module `Screening`.
- **Career recommender** (`career_recommendation.py`): the exact-arithmetic
  parts, in module `Career`. Covered: Jaccard similarity, top trait
  alignments, the work-mode, salary and education bonus terms, the
  overlapping skills, the max-folding of questionnaire answers into a trait
  vector, and the parsing of comma-separated lists. Python floats are taken
  as exact reals.

`Common` holds the `Option` type and integer `Max`/`Min`.

Keyboard input becomes a parameter:
- the tic-tac-toe coordinates are a sequence of (row, column) pairs;
- the merge program's input is the sequence of integers typed in;
- the to-do answers are `Option<int>`, with `None` standing for a `ValueError`.

Timestamps are opaque string parameters. The `rand()` loop of the easy move
becomes a choice of any blank cell.

## Model

| member | source | states |
|---|---|---|
| TicTacToe.Game.ResetBoard | tic-tac-toe.c:68-74 | after the reset, all nine cells are blank |
| TicTacToeRules.EmptyBoardFree | tic-tac-toe.c:68-98 | the reset board has nine free cells and no winner |
| TicTacToe.Game.CheckFreeSpaces | tic-tac-toe.c:87-98 | the count returned is the number of blank cells |
| TicTacToeRules.BlankCountPositive | tic-tac-toe.c:87-98 | the free-cell count is positive exactly when some cell is blank |
| TicTacToeRules.BlankCountFill | tic-tac-toe.c:112-115 | marking a blank cell lowers the free-cell count by exactly one |
| TicTacToe.Game.IsMovesLeft | tic-tac-toe.c:218-227 | returns true exactly when some cell is blank |
| TicTacToeRules.HasBlankIffFree | tic-tac-toe.c:218-227 | `isMovesLeft` holds exactly when `checkfreespaces() > 0` |
| TicTacToe.Game.CheckWinner | tic-tac-toe.c:229-251 | returns the winner of the board as the rules define it (rows, columns, diagonals, in order) |
| TicTacToeRules.WinnerSpec | tic-tac-toe.c:229-251 | the winner is blank exactly when no line is uniform; a non-blank winner's mark fills a whole row, column or diagonal |
| TicTacToe.Game.SetCell | tic-tac-toe.c:115 | writes one cell and leaves the other eight unchanged |
| TicTacToe.Game.PlayerMove | tic-tac-toe.c:109-116 | a move is accepted exactly when row and column are in 1..3 and the cell is blank; an accepted move writes only that cell with the player's mark; a rejected one changes nothing |
| TicTacToeRules.FirstAccepted | tic-tac-toe.c:100-119 | the retry loop finds nothing exactly when every remaining entry is rejected; otherwise it stops just after an entry with row and column in 1..3 naming a blank cell, every entry before that one is rejected, and the cell is the one that entry names |
| TicTacToe.Game.PlayerTurn | tic-tac-toe.c:100-119 | plays exactly the first accepted entry (cell and position as `FirstAccepted` gives them), writing the player's mark on that blank cell only; when every remaining entry is rejected, the input is used up and the board is unchanged |
| TicTacToeRules.Score | tic-tac-toe.c:181-216 | the minimax value stays in [-10, 10] whenever depth plus the free cells is at most 10 |
| TicTacToeRules.BestFrom | tic-tac-toe.c:191-215 | the row-major max/min scan ends in [-10, 10], or keeps the initial ±1000 only when no blank cell is left to try |
| TicTacToe.Game.MinimaxTrial | tic-tac-toe.c:195-199 | one trial of `minimax` leaves the board as it found it and returns the score of the board with that mark added, one level deeper |
| TicTacToe.Game.Minimax | tic-tac-toe.c:181-216 | leaves the board exactly as it found it, and returns the minimax value of the board it was given |
| TicTacToeRules.MoveScoreRange | tic-tac-toe.c:161-166 | the score of an O trial on a blank cell is in [-10, 10] |
| TicTacToe.Game.TrialScore | tic-tac-toe.c:161-166 | one trial of `computerMoveHard` leaves the board as it found it and returns the minimax score of an O on that cell |
| TicTacToeRules.HardScannedStep | tic-tac-toe.c:161-171 | one cell of the scan keeps the best score so far and the first cell that reached it |
| TicTacToeRules.HardChoiceSpec | tic-tac-toe.c:155-179 | a move is chosen exactly when a blank cell exists; that cell is blank, has the best score, and every earlier blank cell scores strictly less |
| TicTacToe.Game.ComputerMoveHard | tic-tac-toe.c:155-179 | writes one O on the chosen cell and nothing else, or changes nothing on a full board |
| TicTacToeRules.WinningFrom | tic-tac-toe.c:140-151 | finds the first blank cell from k on where an O wins; returns none exactly when no blank cell from k on wins for O |
| TicTacToe.Game.ComputerMoveEasy | tic-tac-toe.c:122-131 | when a cell is free, writes one O on some blank cell and nothing else; on a full board nothing changes |
| TicTacToe.Game.TryWin | tic-tac-toe.c:142-150 | one trial of `computerMoveMedium` keeps the O exactly when it wins, and otherwise leaves the board as it found it |
| TicTacToe.Game.ComputerMoveMedium | tic-tac-toe.c:139-153 | keeps the first winning O and restores every other trial cell; without a winning move it falls back to the easy move (corrected, see Findings) |
| TicTacToe.Game.ComputerMove | tic-tac-toe.c:121-137 | with difficulty 1..3 and a blank cell, exactly one blank cell gets an O (at difficulty 2, with the corrected fallback); difficulty 3 plays the minimax choice, and difficulty 2 plays the first winning cell when one exists |
| TicTacToeRules.MediumAsWrittenNeverReturns | tic-tac-toe.c:132-133 | without a winning move, the medium strategy as written recurses past every bound on the call depth |
| TicTacToeRules.MediumAsWrittenFirstTurn | tic-tac-toe.c:139-153 | whichever cell X opens with, the medium strategy as written never returns on the computer's first turn |
| TicTacToeRules.TwoMarksNoWinner | tic-tac-toe.c:229-251 | a board with one X and one O has no winner |
| TicTacToeRules.LegalGameExtend | tic-tac-toe.c:267-281 | playing a blank cell on an unfinished legal game gives a legal game whose board is the old board with the mover's mark added |
| TicTacToeRules.LegalGameLast | tic-tac-toe.c:267-281 | dropping the last move of a legal game leaves a legal game |
| TicTacToeRules.ReplayCounts | tic-tac-toe.c:267-281 | with X first and turns alternating, after n moves X holds ceil(n/2) cells, O holds floor(n/2), and 9 - n are free |
| TicTacToe.Game.HumanTurn | tic-tac-toe.c:269-271 | a move is played exactly when some remaining entry is accepted, and it is the first accepted entry's cell; it extends the legal game by that cell, lowers the free count by one, and the winner and free count are read from the new board; otherwise nothing is played |
| TicTacToeRules.PvPPlayStep | tic-tac-toe.c:268-280 | in an open game, the game the input plays is over with the input exhausted when no remaining entry is accepted, and otherwise continues from the first accepted entry's cell |
| TicTacToe.Game.HumanRound | tic-tac-toe.c:268-280 | one pass of the loop plays the moves the input dictates, so the game still to be played from the new position is the one from the old position (or ends with the input exhausted); keeps the game legal, lowers the free count, and leaves the game with X to move unless it is over |
| TicTacToe.Game.PlayGamePvP | tic-tac-toe.c:263-285 | the moves and the outcome are the ones `PvPPlay` computes from the input alone; the board is the replay of that legal alternating game, which starts with X; a finished game reports the checkwinner result, and a draw only on a full board |
| TicTacToeRules.PvPPlayEnds | tic-tac-toe.c:263-285 | the game the input plays extends the starting history, stays legal, and stops with the input exhausted exactly when it is still open (no winner, a free cell) |
| TicTacToe.Game.ComputerTurn | tic-tac-toe.c:311-315 | the computer's turn appends one cell to the legal game, following the strategy, lowers the free count by one, and reads no input |
| TicTacToe.ComputerPlayedExtend | tic-tac-toe.c:303-316 | adding a move that follows the strategy keeps "every O move followed the strategy" |
| TicTacToeRules.ConsumedExtend | tic-tac-toe.c:303-316 | an O move reads no input; an X move that is the first accepted entry moves the input position just past that entry |
| TicTacToe.Game.ComputerRound | tic-tac-toe.c:304-315 | one pass of the loop plays, for X, the first accepted entry from the current input position (or nothing, when none is accepted); keeps the game legal with every O move following the strategy, lowers the free count, and leaves X to move unless the game is over |
| TicTacToe.Game.PlayGamePvC | tic-tac-toe.c:287-320 | an out-of-range difficulty becomes 1; the game is legal and alternating with X first; every X move is the next entry the input gets accepted, and every O move follows the chosen strategy; the input runs out only with X to move on an open board where no remaining entry is accepted; a finished game reports the winner, and a draw only on a full board |
| TodoList.RemoveAt | to-do_list.py:34 | `pop(i)` keeps elements before i, shifts the later ones down by one, and shortens the list by one |
| TodoList.TodoList.constructor | to-do_list.py:3-4 | both lists start empty |
| TodoList.TodoList.AddTask | to-do_list.py:6-13 | appends exactly one pending entry (given description and time, no completion date); completed tasks are unchanged; keeps the invariant that pending entries have no completion date and completed ones have one |
| TodoList.TodoList.ListTasks | to-do_list.py:16-27 | starts with the no-tasks note exactly when nothing is pending, and otherwise with the current-tasks header followed by every pending task with its index; then, if any, the completed-tasks header and every completed task with its index and dates |
| TodoList.TodoList.DeleteTask | to-do_list.py:29-39 | removes exactly element i, in order, when 0 <= i < len(tasks); otherwise (bad index or non-integer) changes nothing; completed tasks are never touched |
| TodoList.TodoList.DoneTask | to-do_list.py:41-53 | a valid index moves that task to the end of the completed list, stamped with the time and otherwise unchanged; otherwise nothing changes; the total count is kept |
| ArrayMerge.SortPrefix | merge_multiple_array.cpp:14 | `sort` on the first n cells: they end sorted and a permutation of what they were; later cells are untouched |
| ArrayMerge.AppendPart | merge_multiple_array.cpp:9-11 | the inner loop appends the first `size` cells of one array at the running index and writes no other cell |
| ArrayMerge.TotalSizeStep | merge_multiple_array.cpp:50-53 | each array adds its size to the running total |
| ArrayMerge.InputsLength | merge_multiple_array.cpp:8-12 | the inputs hold exactly as many elements as the sizes add up to, so a buffer of that size is enough |
| ArrayMerge.CopyOne | merge_multiple_array.cpp:8-12 | one pass of the outer loop puts array i right after the arrays before it; the running index grows by its size and no later cell is written |
| ArrayMerge.CopyArrays | merge_multiple_array.cpp:6-12 | the filled prefix is the inputs one after another, as long as the sizes add up to; no cell past it is written |
| ArrayMerge.MergeArrays | merge_multiple_array.cpp:5-15 | `resultSize` is the sum of the sizes; the filled prefix is sorted and a permutation of all input elements; no cell past it is written; the inputs are not modified |
| ArrayMerge.ReadFront | merge_multiple_array.cpp:31-45 | one step of reading: input runs out, or a non-positive size stops the run, or a size with too few elements stops it, or the array is read and reading goes on |
| ArrayMerge.ReadArray | merge_multiple_array.cpp:33-47 | reading one array stops the run exactly as the reading rules say; otherwise it yields a new sorted array of the given positive size holding the elements typed for it, and reading goes on after them |
| ArrayMerge.StoreArray | merge_multiple_array.cpp:33-40 | the size and the array read for index i are stored there, and the arrays stored before are kept |
| ArrayMerge.ReadRound | merge_multiple_array.cpp:31-48 | one pass of the reading loop, stated on the whole input: the run stops with the outcome reading gives, or one more array is stored and reading goes on |
| ArrayMerge.ReadArraysShape | merge_multiple_array.cpp:31-48 | a successful read yields `count` arrays, none empty |
| ArrayMerge.ReadElements | merge_multiple_array.cpp:40-45 | a new array holding the next `size` input values |
| ArrayMerge.ReadSortedArray | merge_multiple_array.cpp:40-47 | a new array of `size` cells, sorted, holding the next `size` input values |
| ArrayMerge.ReadInputArrays | merge_multiple_array.cpp:31-48 | stops with the first size error or when input runs out; otherwise every array holds its typed elements, sorted, and every size is positive |
| ArrayMerge.SumSizes | merge_multiple_array.cpp:50-53 | `totalSize` is the sum of the sizes |
| ArrayMerge.InputsElements | merge_multiple_array.cpp:40-47 | the arrays read, each whole, hold together the elements typed in |
| ArrayMerge.MergedOutcome | merge_multiple_array.cpp:55-59 | a sorted permutation of what was read is an acceptable output of `main` |
| ArrayMerge.MergeProgram | merge_multiple_array.cpp:17-59 | a non-positive count is rejected; so is the first non-positive size, before any merge; otherwise the output is sorted and a permutation of every element typed in |
| ArrayMerge.SortedUnique | merge_multiple_array.cpp:14 | two sorted sequences with the same elements are equal |
| ArrayMerge.SortedHeads | merge_multiple_array.cpp:14 | two sorted sequences with the same elements start with the same element |
| ArrayMerge.SortedTails | merge_multiple_array.cpp:14 | dropping that first element from both keeps them sorted and with the same elements |
| ArrayMerge.MergeResultUnique | merge_multiple_array.cpp:40-47 | `main`'s outcome is determined by its input, so sorting each array before merging changes nothing |
| ArrayMerge.FlattenMultiset | merge_multiple_array.cpp:47 | sorting each part does not change the elements of the concatenation |
| Screening.IsEmergency | medico_initial_screening.c:123-145 | emergency exactly when one of the ten rules holds (unresponsive, breathing, cardiac risk, trauma, pregnancy, temperature, heart rate, systolic pressure, infant fever, abdominal shock), and not an emergency exactly when none holds |
| Screening.EmergencyIgnores | medico_initial_screening.c:123-145 | the name, gender, contact, arrival time, diastolic pressure, vomiting, dehydration and cough never change the classification |
| Screening.AllocateDoctor | medico_initial_screening.c:147-159 | the department chosen is indicated, and no department of higher priority is; the ER is chosen exactly when the flag is set; the order is ER, Pediatrics, Cardiology, Pulmonology, Neurology, Orthopedics, Surgery/GI, Obstetrics, General Medicine |
| Screening.AllocateIgnoresVitals | medico_initial_screening.c:148 | the vital signs never change the department |
| Screening.ScreenedDepartments | medico_initial_screening.c:123-159 | with the flag from the classification, Neurology, Orthopedics and Obstetrics are never chosen; Pulmonology only for a cough or cold without breathing difficulty; Cardiology only for ages 14..39 with SpO2 of at least 94 |
| Screening.OrderedAppend | medico_initial_screening.c:162-172 | appending lines that all come later in the source keeps the lines in the order the source writes them |
| Screening.Precautions | medico_initial_screening.c:161-174 | the header comes first and "Keep patient warm and calm" last; in an emergency the three emergency lines follow the header |
| Screening.SymptomLinesInOrder | medico_initial_screening.c:168-171 | the symptom lines come after the emergency lines and before the closing line, in the order of the source, none twice |
| Screening.PrecautionsInOrder | medico_initial_screening.c:161-174 | every line written appears once, in the order the source writes them |
| Screening.PrecautionWritten | medico_initial_screening.c:162-172 | each line is written exactly when its own condition holds (the emergency lines exactly in an emergency) |
| Career.Lower | career_recommendation.py:376 | `str.lower`: same length, each character lower-cased, no upper-case letter left |
| Career.LowerOfLower | career_recommendation.py:376 | lower-casing is idempotent on text with no upper-case letter |
| Career.Jaccard | career_recommendation.py:375-377 | the value is in [0, 1]; it is 1 exactly when both lower-cased sets are equal and non-empty; it is 0 exactly when they share nothing (in particular when both are empty) |
| Career.JaccardSymmetric | career_recommendation.py:375-377 | the similarity is symmetric |
| Career.Pairs | career_recommendation.py:381-382 | one pair per key: the key and the product of the two weights, with 0.0 for a missing trait |
| Career.SortByValue | career_recommendation.py:383 | `pairs.sort(reverse=True)` by value: the result is non-increasing and a permutation of the pairs |
| Career.InsertPermutes | career_recommendation.py:383 | one insertion step adds exactly one pair to the multiset |
| Career.InsertDistinct | career_recommendation.py:383 | inserting a pair whose trait is not yet listed keeps every trait listed once |
| Career.SortDistinct | career_recommendation.py:383 | sorting keeps every trait listed once |
| Career.TopTraitsDistinct | career_recommendation.py:381-384 | the traits come from a set, so the pairs kept name different traits |
| Career.Positive | career_recommendation.py:384 | keeps only pairs with a positive value, all taken from the input |
| Career.PositivePrefix | career_recommendation.py:384 | in a non-increasing list, the positive pairs form a prefix |
| Career.TopTraitAlignments | career_recommendation.py:379-384 | at most k pairs; every value is positive; values are non-increasing; every pair is a trait of either vector with its product, and no trait appears twice; any positive trait left out means k pairs were kept, each with a value at least as large |
| Career.TopTraitsSound | career_recommendation.py:381-384 | at most k pairs, positive and non-increasing, each a trait of either vector with its product |
| Career.TopTraitsKept | career_recommendation.py:383-384 | a positive trait is left out only when k pairs were kept, each worth at least as much |
| Career.TopTraitsComplete | career_recommendation.py:383-384 | a positive trait is left out only when k pairs are kept and none is smaller |
| Career.ModeBonus | career_recommendation.py:390 | 0.05 exactly when the requested mode is one of the career's modes, else 0.0 |
| Career.SalaryFit | career_recommendation.py:392-395 | +0.05 exactly when the ranges share an amount with positive width; -0.05 exactly when not and the career's maximum is below the user's minimum; 0.0 otherwise |
| Career.TouchingRanges | career_recommendation.py:394-395 | ranges that only touch score 0 |
| Career.EducationFit | career_recommendation.py:397-399 | +0.03 exactly when the path's order is at most the order of the horizon (medium when none is given); -0.03 otherwise |
| Career.EducationFitMonotone | career_recommendation.py:397-399 | a longer horizon never lowers the fit, and the short path always fits |
| Career.LexTransitive | career_recommendation.py:411 | the string order used by `sorted` is transitive (with LexIrreflexive and LexTotal, a strict total order) |
| Career.InsertUnique | career_recommendation.py:411 | inserting into a strictly sorted list keeps it strictly sorted and adds exactly that element |
| Career.SortedSet | career_recommendation.py:411 | `sorted(set(xs))`: strictly sorted, with exactly the elements of xs |
| Career.MatchingSkills | career_recommendation.py:411 | keeps exactly the user skills whose lower case is among the career's lower-cased skills |
| Career.OverlappingSkills | career_recommendation.py:411 | the result is strictly sorted (so duplicate-free) and holds exactly the user skills that match a career skill ignoring case |
| Career.StrictlySortedUnique | career_recommendation.py:411 | two strictly sorted lists with the same elements are equal, so the overlap is determined by its members |
| Career.Best | career_recommendation.py:425-431 | the folded weight of a trait is at least 0.0 and at least each answer's weight for it |
| Career.BestAttained | career_recommendation.py:425-431 | the folded weight is 0.0 or the weight some answer gives that trait |
| Career.BestMonotone | career_recommendation.py:430-431 | folding in more answers never lowers a trait |
| Career.BestUnnamed | career_recommendation.py:425 | a trait no answer names stays at 0.0 |
| Career.BestBounded | career_recommendation.py:425-431 | with answer weights in [0, 1], every folded trait is in [0, 1] |
| Career.RaiseOne | career_recommendation.py:431 | raising one trait of an answer to the larger weight gives it its folded weight over one more answer, and leaves the other traits alone |
| Career.RaiseTraits | career_recommendation.py:430-431 | after one answer's entries are visited, the traits are those of the answers so far, each at its folded weight |
| Career.FoldAnswers | career_recommendation.py:425-431 | the trait vector has the eleven base traits plus every trait some answer names, each equal to the maximum of 0.0 and the answers' weights for it |
| Career.LeadingSpaces | career_recommendation.py:435 | the white space `strip` removes at the front: every character before the count is white space, and the next one is not |
| Career.TrailingSpaces | career_recommendation.py:435 | the white space `strip` removes at the end: every character after the cut is white space, and the one before it is not |
| Career.Strip | career_recommendation.py:435-438 | `strip`: the result is a slice of the input with only white space outside it and none at either end; no new characters; an already stripped string is unchanged |
| Career.StripUnique | career_recommendation.py:435-438 | any slice with only white space outside it and none at its ends is the result of `strip`: it removes all leading and trailing white space and nothing else |
| Career.Split | career_recommendation.py:435-438 | `split(',')`: at least one piece, no piece holds the separator, and no new characters |
| Career.JoinSplit | career_recommendation.py:435-438 | joining the pieces of a split with the separator restores the string |
| Career.SplitJoin | career_recommendation.py:435-438 | splitting the join of separator-free pieces gives back the pieces |
| Career.CleanPieces | career_recommendation.py:435-438 | stripped, non-blank pieces only, and no more pieces than before; lower-case, comma-free pieces stay so |
| Career.CleanPiecesSingle | career_recommendation.py:435-438 | one piece gives its strip when that is not blank, and nothing when it is |
| Career.CleanPiecesAppend | career_recommendation.py:435-438 | the pieces are cleaned one at a time: cleaning a concatenation concatenates the cleaned parts, so every kept item is the strip of its own piece, in the pieces' order, and only blank pieces are dropped |
| Career.StripPadFront | career_recommendation.py:435-438 | white space in front of a string does not change its strip |
| Career.StripPadBack | career_recommendation.py:435-438 | white space after a string does not change its strip |
| Career.SplitStrip | career_recommendation.py:435-438 | stripping the whole line before splitting it changes nothing that cleaning the pieces keeps |
| Career.SplitLower | career_recommendation.py:435 | lower-casing the line before splitting it lower-cases each piece and moves no comma |
| Career.StripLower | career_recommendation.py:435-438 | stripping and lower-casing can be done in either order |
| Career.CleanLower | career_recommendation.py:435-438 | cleaning the pieces and lower-casing them can be done in either order |
| Career.Take | career_recommendation.py:435-438 | `[:n]`: a prefix of at most n items, exactly n when there are that many |
| Career.ParseInterests | career_recommendation.py:435 | at most three interests, each non-empty, stripped, lower-case and comma-free |
| Career.ParseSkills | career_recommendation.py:438 | at most five skills, each non-empty, stripped, lower-case and comma-free |
| Career.LowerKeeps | career_recommendation.py:438 | lower-casing keeps the length, the commas and the stripped ends |
| Career.ParseInterestsJoin | career_recommendation.py:435 | a comma-joined list of clean interests parses back to its first three items |
| Career.ParseSkillsJoin | career_recommendation.py:438 | a comma-joined list of clean skills parses back to its first five items |
| Career.ParseInterestsPieces | career_recommendation.py:435 | for any line: the interests are its comma-separated pieces, each stripped and lower-cased, blank ones dropped, in order, the first three |
| Career.ParseSkillsPieces | career_recommendation.py:438 | for any line: the skills are its comma-separated pieces, each stripped and lower-cased, blank ones dropped, in order, the first five |

## Left out

- Console output: `printboard`, `printwinner`, the menus, all prompts, the `listtasks` printing (modelled as a list of lines), the merged-array printout and `printReceipt` with its file and wall clock.
- Console input and its retry loops (`ask`, `getString`, `getInt`, `getFloat`, `yn`, `scanf`, `cin`, `input`): they are parameters.
- When the input runs out, a game loop, `playerMove` or the merge reader ends with `InputExhausted`. The C programs would instead spin or read undefined values; there is no such outcome in them.
- `rand()` in the easy move: any blank cell may be chosen, and no distribution is modelled.
- `datetime.now()` in the to-do list: the time is an opaque string parameter.
- The main menus of the tic-tac-toe and to-do programs: only the operations they dispatch to are modelled.
- TicTacToe.Game.ComputerMoveMedium: models the corrected fallback, not the code as written. The code as written is `TicTacToeRules.MediumAsWritten` (see Findings).
- TicTacToe.Game.ComputerMove: at difficulty 2 it calls the corrected `ComputerMoveMedium`, so "one blank cell gets an O" holds for the corrected fallback. As written, a medium turn with no winning cell never returns (see Findings).
- TicTacToe.Game.PlayGamePvC: inherits the corrected medium fallback from `ComputerMove`. As written, a medium game stops at the computer's first turn without a winning cell, as `TicTacToeRules.MediumAsWrittenFirstTurn` shows.
- ArrayMerge.SortPrefix: an insertion sort stands in for `std::sort`. Only its contract (sorted, permutation, rest untouched) is claimed.
- ArrayMerge.MergeProgram: C `int` overflow of `totalSize` and of the element values is not modelled, since integers are unbounded.
- Non-integer tokens in `cin` are not modelled. A failed extraction would leave values unset in C.
- Memory release (`delete[]`) is not modelled.
- The temperatures in the screening program are C `float`s and are modelled as exact reals, so float rounding near 35.0, 38.5 and 40.0 is not captured.
- Screening.Precautions: returns which lines are written, and `Screening.Text` gives their exact strings. File handling is left out.
- The `name[80]`-style buffer limits and `fgets` truncation in the screening program are left out.
- `cosine` (it needs a square root), the floating total score, `round(v, 3)`, the ranking sort of the results, the career guides and the JSON save are left out of the career model.
- Career.TopTraitAlignments: the order among equal values depends on Python's set iteration order. It is taken from a `keys` parameter that lists each trait of either vector exactly once, as iterating the set `keys` does. `round(v, 3)` is not applied to the values.
- The `QUESTIONS` and `CAREERS` tables are data: the answers chosen are a parameter of `Career.FoldAnswers`, and career fields are parameters.
- The parsing of the salary range (career_recommendation.py:446-451) is left out. The bounds are parameters of `Career.SalaryFit`.
- Career.Lower, Career.Strip: ASCII only. Unicode case mapping and non-ASCII white space (such as U+00A0 or U+0085) are not modelled.
- The expenses tracker, the port scanner and the face recognition script are not modelled: they are database, chart, network and camera I/O.

## Findings

| source | as written | input that shows it | evidently intended | confidence | as-written member | corrected member |
|---|---|---|---|---|---|---|
| tic-tac-toe.c:132-133, 152 | When no cell wins for O, `computerMoveMedium` calls `computerMove()`. With difficulty 2, that call dispatches straight back to `computerMoveMedium`, so the recursion never ends and the stack overflows. | Medium difficulty; X opens in any cell; the computer's first turn has no winning cell. | Fall back to a random move, as the comment on line 152 says. | not executed | TicTacToeRules.MediumAsWritten (shown by TicTacToeRules.MediumAsWrittenFirstTurn) | TicTacToe.Game.ComputerMoveMedium |
