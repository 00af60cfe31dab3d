# Treap, blackjack table and small Python utilities in Dafny

This project models the core of a Python teaching repository and proves properties of the model.

The core is made of these parts:

- **The treap** (`project/treap.py`). It is an ordered key/value mapping stored as a binary search tree. Every node also carries a priority, and parents outrank their children.
  - `TreapNodes` models the nodes as a datatype `Tree`. The recursive node algorithms are functions over it: lookup, insert with rotations, delete through merge, split, merge and the two walks.
  - `TreapMap.Treap` is a class. It holds the root and the node counter that `__len__` reports. `SetItem` and `DelItem` rewire the root to the results of those functions and update the counter, as `__setitem__` and `__delitem__` do.
  - Search-tree order, heap order and the counter are proved to be preserved by every update. The mapping each update produces is stated exactly.
- **The blackjack objects** (`project/game/src/objects.py`): card values, the 52-card deck, and a hand. A hand carries its bet, flags, cards, possible scores (a sum-set) and action history.
- **The strategies** (`project/game/src/strategies.py`): the decision tables and the `play` rule of each strategy, as written, beside the optimal strategies with the pair-of-nines rule corrected (see Findings).
- **The table** (`project/game/src/desk.py`): first bets, splitting a hand, resetting the hands for a new round, and checking a bet.
- **Integer matrices and vectors** (`project/matrix_vector.py`): shape validation, addition, transposition, multiplication and the dot product, with their dimension errors.
- **The memoising decorator** (`project/decorators.py`): a cache bounded by `max_results` that evicts in insertion order.
- **Explicit currying and uncurrying** (`project/curry_uncurry_explicit.py`).
- **The two generators** (`project/generators/rgba_generator.py` and `project/generators/primes_generator.py`): the n-th RGBA vector and the n-th prime.

Python exceptions are modelled as results. `Wrappers.Result` carries either a value or an `Error` (KeyError, ValueError, TypeError, IndexError, NotImplementedError, AttributeError). `Wrappers.Outcome` does the same for operations that return nothing. Random choices are parameters:

- a new treap node's priority;
- the card the dealer deals;
- the deck's order after shuffling.

## Model

| member | source | states |
|---|---|---|
| TreapNodes.CountNodes | project/treap.py:17-26 | the number of nodes counted is the length of the in-order walk |
| TreapNodes.InOrder | project/treap.py:260-273 | the walk is empty exactly for an empty subtree and yields the root's entry |
| TreapNodes.ReverseInOrder | project/treap.py:296-299 | the reverse walk is the forward walk back to front, element by element |
| TreapNodes.ToMap | project/treap.py:118-125 | the mapping a tree stands for has exactly the tree's keys as its domain |
| TreapNodes.Get | project/treap.py:118-125 | a found value belongs to a key of the tree; the only error is KeyError |
| TreapNodes.GetFindsValue | project/treap.py:118-125 | on a search tree, lookup returns the value the mapping holds for the key, and raises KeyError exactly when the key is absent |
| TreapNodes.RotateRight | project/treap.py:338-343 | ValueError exactly when there is no left child; otherwise the in-order walk (so the set of nodes and their order) is unchanged and the left child becomes the root |
| TreapNodes.RotateLeft | project/treap.py:356-361 | ValueError exactly when there is no right child; otherwise the in-order walk is unchanged and the right child becomes the root |
| TreapNodes.Set | project/treap.py:150-165 | insertion returns a non-empty tree whose walk grows by one node exactly when it reports a new node |
| TreapNodes.SetUpdatesMap | project/treap.py:150-165 | on a search tree, insertion keeps search order, maps the key to the new value and leaves every other key as it was, and creates a node exactly when the key was absent |
| TreapNodes.SetKeepsHeap | project/treap.py:154-161 | insertion with rotations keeps heap order: a rotation lifts the new child above a parent it outranks, and everything below it stays under the parent's priority |
| TreapNodes.SetKeepsTreap | project/treap.py:150-165 | on a treap, insertion yields a treap holding the old mapping updated at the key, with one more node exactly when the key was new |
| TreapNodes.SetExistingKeepsShape | project/treap.py:162-163 | setting a present key creates no node, does no rotation and changes no key or priority: the tree has the same shape |
| TreapNodes.Merge | project/treap.py:239-249 | the merged walk is the left walk followed by the right walk |
| TreapNodes.MergeRoot | project/treap.py:239-249 | an empty side yields the other side; otherwise the root comes from the side with strictly higher priority, and a tie goes to the right side |
| TreapNodes.MergeJoinsMaps | project/treap.py:239-249 | merging search trees whose keys are all ordered left before right gives a search tree whose mapping is the union of the two |
| TreapNodes.MergeKeepsHeap | project/treap.py:239-249 | merging two heap-ordered trees gives a heap-ordered tree |
| TreapNodes.Split | project/treap.py:214-223 | the two walks of a split, concatenated, are the walk of the input |
| TreapNodes.SplitSeparatesKeys | project/treap.py:214-223 | on a search tree, every key left of the split is below the boundary, every key right of it is at or above it, and together they are all the keys |
| TreapNodes.SplitKeepsHeap | project/treap.py:214-223 | both parts of a split of a heap-ordered tree are heap-ordered |
| TreapNodes.SplitPartitions | project/treap.py:214-223 | splitting a treap gives two treaps separated at the boundary whose mappings partition the input's and whose node counts add up to its count |
| TreapNodes.MergeUndoesSplit | project/treap.py:214-249 | merging the two parts of a split gives back a treap with the input's walk and mapping |
| TreapNodes.Del | project/treap.py:188-198 | a successful delete removes exactly one node; the only error is KeyError |
| TreapNodes.DelRemovesKey | project/treap.py:188-198 | on a search tree, delete succeeds exactly when the key is present, and then yields a search tree whose mapping is the old one without that key |
| TreapNodes.DelKeepsHeap | project/treap.py:188-198 | deleting from a heap-ordered tree keeps heap order |
| TreapNodes.DelKeepsTreap | project/treap.py:188-198 | deleting a present key from a treap yields a treap without that key and with one node fewer |
| TreapNodes.SearchTreeIffAscending | project/treap.py:270-273 | a tree is a search tree exactly when its in-order walk has strictly ascending keys |
| TreapNodes.ReverseIsDescending | project/treap.py:296-299 | on a search tree, the reverse walk has strictly descending keys |
| TreapNodes.WalkAgreesWithMap | project/treap.py:270-273 | on a search tree, every node the walk yields carries the value the mapping holds for its key |
| TreapNodes.KeysAreWalked | project/treap.py:270-273 | the walk yields keys of the tree only, and every key of the tree is yielded |
| TreapNodes.NodeCountIsMapSize | project/treap.py:17-26 | on a search tree, the number of nodes equals the number of keys of the mapping |
| TreapMap.Treap.constructor | project/treap.py:90-93 | the root is adopted and the counter is its number of nodes, so a treap root gives a valid mapping |
| TreapMap.Treap.SetItem | project/treap.py:135 | the root is rebuilt by insertion and the counter grows when a node is created; on a valid treap, validity is kept, the mapping is updated at the key, the count grows exactly for a new key, and an existing key keeps the shape |
| TreapMap.Treap.DelItem | project/treap.py:174-175 | KeyError leaves root and counter untouched; otherwise the root is rebuilt and the counter drops by one; on a valid treap, validity is kept, it succeeds exactly for a present key, and the mapping loses that key |
| TreapMap.Treap.GetItem | project/treap.py:95-105 | only KeyError is raised; on a valid treap `treap[key]` returns the value the mapping holds, and raises KeyError exactly when the key is absent |
| TreapMap.Treap.Contains | project/treap.py:301-315 | on a valid treap, `key in treap` holds exactly for the keys of the mapping |
| TreapMap.Treap.Len | project/treap.py:317-319 | on a valid treap, `len(treap)` is the number of keys of the mapping |
| TreapMap.Treap.Iterate | project/treap.py:251-258 | on a valid treap, forward iteration yields every entry of the mapping once, with its value, in strictly ascending key order |
| TreapMap.Treap.Reversed | project/treap.py:275-282 | reverse iteration is the in-order walk back to front, and on a valid treap strictly descending in key |
| Objects.CardScores | project/game/src/objects.py:31-38 | an ace scores {1, 11}, J, Q and K score {10}, a card named by a number scores exactly that number, and every card has a single score except the ace |
| Objects.FreshCards | project/game/src/objects.py:55-63 | the unshuffled deck lists suit by suit, each suit with the 13 names in order |
| Objects.FreshDeckIsFull | project/game/src/objects.py:55-63 | a fresh deck holds 52 distinct cards: every suit with every name, and nothing else |
| Objects.Deck.constructor | project/game/src/objects.py:55-63 | a new deck holds the fresh cards |
| Objects.Deck.Pull | project/game/src/objects.py:70-72 | the first card is removed and returned and the rest keep their order; an empty deck raises IndexError |
| Objects.Hand.constructor | project/game/src/objects.py:83-88 | a new hand has bet 0, is in play with no flags and the default state, and its storage starts as no cards, scores {0} and empty history |
| Objects.Hand.GameOver | project/game/src/objects.py:161-164 | the bet drops to 0 and the hand leaves play; nothing else changes |
| Objects.Hand.DoubleDown | project/game/src/objects.py:166-170 | the bet doubles, the flag is set, "double down" is logged; nothing else changes |
| Objects.Hand.TriplingBet | project/game/src/objects.py:172-176 | half the bet, rounded down, is added, the flag is set, "tripling bet" is logged; nothing else changes |
| Objects.DoubleThenTripleIsThreefold | project/game/src/objects.py:166-176 | doubling and then tripling a bet gives exactly three times it |
| Objects.Hand.AddCard | project/game/src/objects.py:178-187 | the card is appended, the scores become the sum-set with the card's scores, "add card" is logged, nothing else changes, and up-to-date scores stay up to date |
| Objects.Hand.CalculateScore | project/game/src/objects.py:189-201 | the new scores are every old score plus every score of the card |
| Objects.SumSetMembers | project/game/src/objects.py:196-201 | a score is possible exactly when it is one old score plus one card score |
| Objects.TwoCardTwentyOne | project/game/src/objects.py:203-210 | two deck cards can total 21 exactly when they are an ace and a ten-valued card |
| Objects.BlackjackIsAceAndTen | project/game/src/objects.py:203-210 | on a two-card hand with up-to-date scores, `check_blackjack` holds exactly for an ace with a ten-valued card |
| Objects.Hand.CheckBlackjack | project/game/src/objects.py:203-210 | blackjack needs exactly two cards; with up-to-date scores it holds exactly when the two cards can total 21 |
| Objects.Hand.GetCard | project/game/src/objects.py:212-222 | Python list indexing: IndexError exactly outside `-len..len-1`, negative indices counted from the end |
| Strategies.FirstBet | project/game/src/strategies.py:27 | the first bet is 20 exactly for the aggressive strategy and 10 for every other |
| Strategies.EvenMoney | project/game/src/strategies.py:28 | only the basic strategy takes even money |
| Strategies.CheckSplitAsWritten | project/game/src/strategies.py:126-163 | nothing but a pair is answered; aces and eights split unless the dealer shows an ace, and take against it; fives double; fours split against 2 to 6 and get no answer otherwise; sixes split against 2 to 6 and take otherwise; twos, threes and sevens split against 2 to 7 and take otherwise; ten-valued pairs get no answer; of the deck's cards, nines stand exactly against a 7 or a 10 and split otherwise, a J, Q, K or ace included |
| Strategies.CheckSplit | project/game/src/strategies.py:151-154 | the corrected table: every pair but nines answered as written, rule by rule; nines stand against 7, a ten-valued card or an ace and split otherwise |
| Strategies.CheckDouble | project/game/src/strategies.py:166-187 | an answer exactly for 9 to 11, always double or take: 9 doubles exactly against 2 to 6, 10 exactly against a ten-valued card, 11 against anything but an ace |
| Strategies.CheckSoftHands | project/game/src/strategies.py:190-212 | an answer exactly for 3 to 11: 3 to 7 double against 2 to 6 and take otherwise; 8 takes against 9, a ten-valued card or an ace and passes otherwise; 9 to 11 pass |
| Strategies.CheckSteadyHands | project/game/src/strategies.py:215-237 | 4 to 8 take; 12 to 16 pass against 2 to 6 and take otherwise; 17 to 21 pass; no answer below 4, for 9 to 11 or above 21 |
| Strategies.Play | project/game/src/strategies.py:30-123 | only the base class raises, with NotImplementedError; Basic takes exactly below 17 and passes otherwise; Aggressive doubles up to 6, passes above 19, triples exactly an already doubled 9 to 11 and takes otherwise; the optimal strategies never triple nor surrender |
| Strategies.Optimal1Decision | project/game/src/strategies.py:56-80 | a split answer wins; otherwise only take, pass or double; passes above 21 and from 17 without a two-card hand holding an ace; an ace with a 6 doubles against 2 to 6; an 11 not yet doubled doubles against anything but an ace |
| Strategies.PlayOptimal1 | project/game/src/strategies.py:56-80 | as written, nines split against an ace, J, Q or K and stand against a 7 or a 10; any hand that is not a pair goes to the rules after the split table |
| Strategies.PlayOptimal1Corrected | project/game/src/strategies.py:56-63 | with the corrected nines rule, nines stand exactly against a 7, a ten-valued card or an ace, and split otherwise |
| Strategies.Optimal2Decision | project/game/src/strategies.py:104-123 | a split answer wins; otherwise it doubles exactly on 10 or 11 against a card worth under 10, passes from 17 and takes any other score |
| Strategies.PlayOptimal2 | project/game/src/strategies.py:104-123 | as written, nines split against an ace, J, Q or K and stand against a 7 or a 10; any hand that is not a pair goes to the rules after the split table |
| Strategies.PlayOptimal2Corrected | project/game/src/strategies.py:104-111 | with the corrected nines rule, nines stand exactly against a 7, a ten-valued card or an ace, and split otherwise |
| Strategies.CorrectedSplitAgrees | project/game/src/strategies.py:126-163 | the corrected nines rule agrees with the rule as written on every other hand and against cards not worth 10 or 11, and stands against a ten-valued card or an ace |
| Strategies.CorrectedPlayAgrees | project/game/src/strategies.py:56-123 | with the corrected nines rule both optimal strategies play as written on every hand except nines against a ten-valued card or an ace, where they pass |
| Strategies.PlayOnHandAsWritten | project/game/src/strategies.py:30-123 | as written every `play` raises: the base class NotImplementedError, every other strategy AttributeError from the missing `get_score` |
| Strategies.GetScoreMissingRaises | project/game/src/strategies.py:48-123 | as written a strategy raises AttributeError on a hand, while given the hand's score it answers |
| Strategies.NinesAsWrittenSplitAgainstAce | project/game/src/strategies.py:151-154 | as written, a pair of nines splits against an ace and a king but stands against a 10, because no card is named "11" |
| Desk.Player.constructor | project/game/src/persons.py:11-14 | a player holds the given strategy and chips |
| Desk.Player.Default | project/game/src/persons.py:11-14 | `Player()` without arguments plays the basic strategy with 100 chips |
| Desk.DealerInit | project/game/src/persons.py:33-37 | `Dealer.__init__` accepts exactly one argument, `num_decks`, and raises TypeError otherwise |
| Desk.DeskInitAsWrittenRaises | project/game/src/desk.py:33 | as written `Desk.__init__` raises TypeError, since it calls `Dealer()` without `num_decks` |
| Desk.Table.constructor | project/game/src/desk.py:30-34 | the table holds the players and no hands |
| Desk.Table.DealerGiveCard | project/game/src/desk.py:36-44 | the target hand receives exactly the dealt card, with scores and history updated, and nothing else about it changes |
| Desk.Table.PlaceFirstBets | project/game/src/desk.py:46-52 | players pay their first bet in turn, even beyond their chips, and their first hand gets it; it succeeds exactly when every player holds a first hand; otherwise the first player without one has still paid and raises KeyError with no hand list or IndexError with an empty one, and the players after them keep their chips and their first hands' bets |
| Desk.Table.PayFirstBet | project/game/src/desk.py:49-52 | one player pays the first bet of their strategy and it is set on their first hand, or KeyError/IndexError when they have none; no other player's first-hand bet changes |
| Desk.Table.Split | project/game/src/desk.py:54-78 | KeyError for an unknown player; IndexError for a bad index or a hand of fewer than two cards, with nothing changed; otherwise the hand becomes the first split hand, the second is appended, both are new distinct hands, and no other hand moves |
| Desk.Table.NewSplitHand | project/game/src/desk.py:65-75 | a split hand is new, carries the old bet and the `["split"]` history, and holds the kept card then the dealt one |
| Desk.Table.CheckBet | project/game/src/desk.py:80-85 | false exactly when the bet exceeds the chips of the player at that Python index; IndexError for a bad index |
| Desk.Table.Next | project/game/src/desk.py:87-91 | every player gets exactly one new hand, all different; hands of anyone else are kept |
| Desk.Table.GiveFreshHand | project/game/src/desk.py:91 | the player's hand list becomes one new hand and nobody else's changes |
| MatrixVector.IsMatrixIsRectangular | project/matrix_vector.py:108-117 | a list of lists is a matrix exactly when it has a non-empty first row and all rows are equally long |
| MatrixVector.IsMatrix | project/matrix_vector.py:108-117 | a valid matrix has a non-empty first row and every row as long as it; the empty list is not one |
| MatrixVector.NewMatrix | project/matrix_vector.py:33-36 | TypeError exactly for an invalid matrix; otherwise the matrix is the list given |
| MatrixVector.Plus | project/matrix_vector.py:38-60 | the sum has the common shape and is added entry by entry |
| MatrixVector.Add | project/matrix_vector.py:38-60 | ValueError exactly on a shape mismatch; otherwise the entrywise sum |
| MatrixVector.Transposed | project/matrix_vector.py:62-76 | an r by c matrix transposes to c by r with rows and columns swapped |
| MatrixVector.Transpose | project/matrix_vector.py:62-76 | the nested loops compute the transpose |
| MatrixVector.Product | project/matrix_vector.py:78-99 | the product is rows-of-left by columns-of-right, each entry the dot product of a row with a column |
| MatrixVector.Mul | project/matrix_vector.py:78-99 | ValueError exactly when the left column count differs from the right row count; otherwise the triple loop computes the product |
| MatrixVector.PlusCommutes | project/matrix_vector.py:38-60 | matrix addition is commutative |
| MatrixVector.TransposeInvolution | project/matrix_vector.py:62-76 | transposing twice gives the matrix back |
| MatrixVector.TransposeOfSum | project/matrix_vector.py:38-76 | the transpose of a sum is the sum of the transposes |
| MatrixVector.ProductTransposes | project/matrix_vector.py:62-99 | the transpose of a product is the product of the transposes in reverse order |
| MatrixVector.NewVector | project/matrix_vector.py:146-148 | TypeError exactly for an empty list |
| MatrixVector.VectorPlus | project/matrix_vector.py:150-161 | vector addition is entrywise |
| MatrixVector.AddVectors | project/matrix_vector.py:150-161 | ValueError exactly on a length mismatch; otherwise the entrywise sum |
| MatrixVector.DotProduct | project/matrix_vector.py:170-181 | ValueError exactly on a length mismatch; otherwise the sum of the products |
| MatrixVector.Dot | project/matrix_vector.py:177-181 | the sum of products is symmetric, and a vector's product with itself is non-negative and zero exactly for the zero vector |
| MatrixVector.DotToCommutes | project/matrix_vector.py:176-181 | the dot product is symmetric |
| MatrixVector.DotToSelf | project/matrix_vector.py:176-181 | a vector's dot product with itself is never negative, and zero exactly for the zero vector |
| MatrixVector.DotOfSum | project/matrix_vector.py:150-181 | the dot product distributes over vector addition |
| Decorators.CacheKey | project/decorators.py:13 | the key holds the positional arguments and exactly the keyword items given |
| Decorators.CacheKeyIgnoresKwargsOrder | project/decorators.py:13 | two calls share a key exactly when their positional arguments agree and their keyword items are the same, in any order |
| Decorators.StoreKeepsCache | project/decorators.py:14-18 | storing a missing key, after evicting the earliest key if the cache is full, keeps the cache consistent and within its bound |
| Decorators.CachedFunction.constructor | project/decorators.py:5-7 | a decorated function starts with an empty cache |
| Decorators.CachedFunction.Call | project/decorators.py:10-19 | the result is always the function's value on the call; a falsy bound calls the function and stores nothing; a hit changes nothing; a miss calls once, evicts the earliest key when full and stores the new key last |
| Decorators.CachedFunction.Store | project/decorators.py:15-18 | the earliest key makes room when the cache is full, and the new result is stored last |
| CurryUncurry.IsArity | project/curry_uncurry_explicit.py:38-44 | a number is an arity exactly when it is at least 0; a value whose comparison raises TypeError is not |
| CurryUncurry.CurryExplicit | project/curry_uncurry_explicit.py:4-16 | TypeError exactly when the arity is not a number at least 0; otherwise nothing is collected yet |
| CurryUncurry.Apply | project/curry_uncurry_explicit.py:10-14 | the function is called on all collected arguments exactly when their number equals the arity; otherwise they are collected in order |
| CurryUncurry.ApplyAccumulates | project/curry_uncurry_explicit.py:14 | arguments given over two calls act as if given in one |
| CurryUncurry.Step | project/curry_uncurry_explicit.py:32 | feeding one argument raises TypeError exactly for a final value; a curried function is completed by it exactly when it was one short of its arity |
| CurryUncurry.Feed | project/curry_uncurry_explicit.py:30-33 | feeding nothing returns the start; the only error is TypeError; a curried function still waiting afterwards has collected every argument fed, in order |
| CurryUncurry.UncurryExplicit | project/curry_uncurry_explicit.py:19-35 | TypeError exactly when the arity is not a number at least 0 |
| CurryUncurry.CallUncurried | project/curry_uncurry_explicit.py:25-33 | ValueError unless exactly `arity` arguments are given; otherwise the arguments are fed one at a time, left to right |
| CurryUncurry.FeedCompletes | project/curry_uncurry_explicit.py:30-33 | feeding a curried function the arguments it lacks, one at a time, returns its value on all of them |
| CurryUncurry.FeedTooManyRaises | project/curry_uncurry_explicit.py:30-33 | feeding more arguments than are missing calls the final value, which raises TypeError when that value is not callable |
| CurryUncurry.UncurryOfCurry | project/curry_uncurry_explicit.py:4-35 | uncurrying `curry_explicit(f, n)` with arity n at least 1 gives back `f` on n arguments |
| CurryUncurry.UncurryOfNullaryReturnsCurried | project/curry_uncurry_explicit.py:19-35 | with arity 0 the uncurried wrapper returns the curried function without calling it |
| RgbaGenerator.Element | project/generators/rgba_generator.py:5-16 | element i has levels 0 to 255, an even alpha from 0 to 98, and sits at position i of the enumeration |
| RgbaGenerator.ElementOfIndex | project/generators/rgba_generator.py:12-16 | each in-range vector sits at the position ((r*256+g)*256+b)*50+a, one to one |
| RgbaGenerator.ElementsAscend | project/generators/rgba_generator.py:12-16 | the enumeration is in lexicographic order, alpha varying fastest |
| RgbaGenerator.SampledElements | project/generators/rgba_generator.py:12-16 | the first elements and those at each carry into blue, green and red |
| RgbaGenerator.GetNthRgba | project/generators/rgba_generator.py:19-38 | IndexError exactly for a negative n or one past the enumeration; otherwise element n |
| PrimesGenerator.PrimesBelowMembers | project/generators/primes_generator.py:21-29 | the kept list before a candidate holds each prime below it once, in ascending order |
| PrimesGenerator.NoneDividesIffPrime | project/generators/primes_generator.py:26 | no smaller prime divides a number at least 2 exactly when it is prime |
| PrimesGenerator.LeastDivisorIsPrime | project/generators/primes_generator.py:26 | the least divisor above 1 of a number is prime |
| PrimesGenerator.EuclidCandidate | project/generators/primes_generator.py:25-29 | the product of the primes found plus one passes the test, so the search always finds the next prime |
| PrimesGenerator.KeepStep | project/generators/primes_generator.py:26-28 | a candidate that passes is prime and extends the list of primes below the next candidate |
| PrimesGenerator.SkipStep | project/generators/primes_generator.py:26-29 | a candidate that fails is not prime and leaves that list unchanged |
| PrimesGenerator.NthPrime | project/generators/primes_generator.py:4-29 | IndexError exactly for n at most 0; otherwise a prime with exactly n-1 primes below it |
| PrimesGenerator.FirstPrimeIsTwo | project/generators/primes_generator.py:22-24 | indexing starts at 1, with the prime 2 |
| PrimesGenerator.NthPrimeUnique | project/generators/primes_generator.py:4-29 | a prime is determined by how many primes lie below it, so each index has one answer |

## Left out

- Treap priorities are integers passed to `SetItem`; `random.random()` draws them in the source, and a tie between equal floats is modelled as a tie between equal integers.
- Treap keys are real numbers; Python compares any keys of one ordered type, and comparisons between unorderable keys (a TypeError) are not modelled.
- Nodes are values of a datatype: the in-place rewiring of `left` and `right` by `_set`, `_del`, `split`, `merge` and the rotations is modelled as building the rewired subtree, which is what each returns. Sharing of nodes between two treaps is not captured.
- `print_treap` and every `show_*` method print to the console and are not modelled.
- `TreapMap.Treap.DelItem`: the counter is decremented only after a successful `_del`, as in the source; a KeyError therefore leaves it unchanged.
- `Deck.shuffle` draws a random order; the deck's cards are the fresh list, and any order a caller gives is kept by `Pull`.
- `Card.__init__` converts any name with `str` and `set_scores` calls `int` on it; only the 13 names a deck uses and numbered names are modelled, and the ValueError for other strings is not.
- The `Cards` descriptor keeps each hand's cards, scores and history in a class-level dictionary keyed by the hand; they are fields of the hand here, which is what the descriptor gives each instance.
- `Strategies.Play`: the score a strategy reads is an input, because `Hand.get_score`, which every `play` calls, is not defined in `project/game/src/objects.py` (see Findings); `Play` follows the split table as written, and `PlayOptimal1Corrected` and `PlayOptimal2Corrected` are the optimal strategies with the corrected nines rule.
- The `Dealer` (project/game/src/persons.py) is not part of this model: the card it deals is a parameter, `restart` in `next` is not modelled, and `Desk.__init__` calls `Dealer()` without the required `num_decks` (see Findings), so the table constructor models only the players and hands.
- `Desk.Player.constructor` takes the strategy and chips as arguments; the defaults `Basic()` and 100 are `Desk.Player.Default`, and the sharing of one default `Basic()` object by every such player is not modelled, since a strategy is a value here.
- `Desk.Table.PlaceFirstBets` requires that no player sits twice and that no two players share a first hand; with shared objects the source would debit twice or overwrite a bet, which the model does not describe.
- `Desk.Table.Split` leaves out the card the dealer deals to the first split hand before the second card of the original hand is read; with the dealer as a parameter the failed split changes nothing.
- `project/game/src/game.py` and the example scripts orchestrate random rounds with console output and are not modelled.
- `MatrixVector.NewMatrix` and `MatrixVector.NewVector` hold values: `Matrix.__init__` and `Vector.__init__` keep the caller's list without copying it, so a later change to that list, which can leave a matrix ragged, is not captured.
- Matrix and vector entries are integers, and sums are exact: `__mul__` and `dot_product` start their sums at `0.0`, so the source returns floats, which are exact only below 2^53 in magnitude; `Vector.len` and `angle_between_vectors` use `sqrt` and `acos` on floats and are not modelled.
- `Matrix.get` only returns the stored list and has no separate member.
- `Decorators.CachedFunction.Call`: `max_results` is an integer, with `None` behaving as 0; a negative bound never equals the size, so the cache then grows without bound, as in the source.
- `Decorators.CachedFunction.Call`: the wrapped function is total; when it raises in the source, the exception propagates and nothing is stored or evicted, which the model does not describe.
- `Decorators.CachedFunction.Call`: the function takes the call key, so a function whose result depends on the order of its keyword arguments is outside this model; re-entrant calls of the cached function from inside itself are not modelled.
- `functools.wraps` metadata and `frozenset` hashing are not modelled.
- `CurryUncurry.FeedTooManyRaises`: a final value is taken to be non-callable; when `function` returns a callable, `res = res(arg)` calls it with the extra argument instead of raising TypeError, which the model does not describe.
- `CurryUncurry.UncurryExplicit` wraps a function made by `curry_explicit`; uncurrying an arbitrary Python callable is not modelled.
- `CurryUncurry.IsArity`: an arity is a real number or a value that cannot be compared with 0; objects with a custom `>=` are not modelled.
- `PrimesGenerator.NthPrime` returns the n-th prime without the concrete values at indices 500 and 1000 being computed by the verifier.
- `project/generators.py`, `project/thread_pool.py` and `project/thread_pool_with_queue.py` are not part of this model.

## Findings

| source | as written | input that shows it | evidently intended | confidence | as-written member | corrected member |
|---|---|---|---|---|---|---|
| project/game/src/strategies.py:152 | a pair of nines stands when the dealer's card name is in {"7", "10", "11"} | two nines against the dealer's "A" (or "J", "Q", "K"): no card is named "11", so the pair splits | stand against every card worth 7, 10 or 11: a 7, a ten-valued card or an ace | medium, not executed | Strategies.NinesAsWrittenSplitAgainstAce | Strategies.CorrectedSplitAgrees |
| project/game/src/strategies.py:49 | every `play` but the base one calls `player_hand.get_score()`, which `Hand` does not define (it has `get_scores`) | any hand given to `Basic().play`: the call raises AttributeError | the strategy reads the hand's score | high, not executed | Strategies.GetScoreMissingRaises | Strategies.Play |
| project/game/src/desk.py:33 | `Desk.__init__` calls `Dealer()`, whose `__init__` requires `num_decks` | `Desk([])`: the call raises TypeError | the table is built around a dealer given its number of decks | high, not executed | Desk.DeskInitAsWrittenRaises | Desk.Table.constructor |
