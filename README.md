# Tabular Q-learning agent for 2048

A Dafny model of the `QLearner` agent of the 2048 Q-learner: its sparse
Q-table keyed by (board state, action), the filter of the six candidate
actions through the game's `move_is_possible`, the greedy value and greedy
action, the epsilon-greedy policy, the temporal-difference `update` and the
episode reward accumulator of `observe`.

Everything lives in module `QLearning` in `qlearner.dfy`:

- `Action` and `Actions` are the fixed action list; the board state is the
  type parameter `S`, compared only for equality; `move_is_possible` is the
  function `legal: (S, Action) -> bool` handed to the agent's constructor.
- The table is a `map<(S, Action), real>`. The source's pure readers of it
  (`getQValue`, `computeValueFromQValues`, the list built by `getLegalActions`)
  are functions of the table (`GetQValue`, `ComputeValueFromQValues`,
  `LegalActions`), with lemmas about them.
- Class `QLearner` holds the source's fields (`qvs`, `alpha`, `epsilon`,
  `discount`, `episodeRewards`). Its methods follow the source's loops and
  writes: `GetLegalActions` appends in a loop, `ComputeActionFromQValues`
  fills a counter in a loop and takes its argmax, `Update` writes one table
  entry, `Observe` adds to the accumulator and then updates. Each method's
  `ensures` ties its result or new state to the functions above.
- `Replay` runs a sequence of `observe` calls on values, to state what holds
  across many of them (the accumulator is never reset, the table only grows).

Random draws are parameters: `draw` is the value of `random.random()` (in
[0, 1)), and `pick` is the index `random.choice` draws, reduced modulo the
number of legal actions.

The model keeps these points of the code as they are, although a textbook
Q-learner would do otherwise:

- `update` bootstraps on the value of `state`, the state the move was made
  from (qlearner.py:78), not on `nextState`, which it never reads.
- `observe` accepts an action that is not legal in `state` and writes the
  table all the same; nothing rejects it.
- `observe` never resets `episodeRewards`; only construction sets it to 0.
- The reward is whatever the caller passes, which is the score difference
  in the game loop.

## Model

| member | source | states |
|---|---|---|
| `QLearning.Rank` | qlearner.py:7 | every action has a position in the fixed six-action list, and the list holds that action there |
| `QLearning.ActionsInListOrder` | qlearner.py:7 | the fixed list names each action once, in the order Up, Left, Down, Right, Restart, Exit |
| `QLearning.Filter` | qlearner.py:21-23 | the filtered list holds exactly the legal actions of its input and is no longer than it |
| `QLearning.FilterKeepsOrder` | qlearner.py:21-23 | filtering an ordered list keeps its order |
| `QLearning.LegalActionsExact` | qlearner.py:19-24 | the legal-action list holds exactly the actions `move_is_possible` accepts, in the order of the fixed list, with no duplicates; it is empty exactly when no action is legal |
| `QLearning.QLearner.GetLegalActions` | qlearner.py:19-24 | the appending loop returns the legal-action list: exactly the legal actions, in list order |
| `QLearning.GetQValue` | qlearner.py:26-33 | a stored key reads back its stored value; a key never written reads exactly 0.0 |
| `QLearning.MaxQ` | qlearner.py:44 | the maximum of the Q-values over a non-empty action list is at least each of them and equal to one of them |
| `QLearning.ComputeValueFromQValues` | qlearner.py:35-44 | 0.0 when no action is legal; otherwise at least the Q-value of every legal action and equal to the Q-value of some legal action |
| `QLearning.EmptyTableValue` | qlearner.py:35-44 | on an empty table the value of every state is 0.0 |
| `QLearning.GreedyIsArgMax` | qlearner.py:46-56 | a greedy action has the greatest Q-value among the legal actions, and every state with a legal action has a greedy action |
| `QLearning.ArgMax` | qlearner.py:56 | the counter's argmax is None exactly when the counter is empty, and otherwise a key whose value no other key exceeds |
| `QLearning.CounterArgMaxIsGreedy` | qlearner.py:53-56 | the argmax of a counter holding the Q-value of each legal action, and nothing else, is a greedy action |
| `QLearning.QLearner.ComputeActionFromQValues` | qlearner.py:46-56 | None exactly when no action is legal; otherwise a legal action whose Q-value equals the state's value |
| `QLearning.QLearner.GetAction` | qlearner.py:58-70 | None exactly when no action is legal, otherwise a legal action; when the draw is below epsilon, the element of the legal list at the drawn index; when it is at or above epsilon (always so when epsilon is 0), a greedy action |
| `QLearning.ExplorationReachesEveryLegalAction` | qlearner.py:67-68 | every legal action sits at some index of the legal list, so the random choice can return each of them |
| `QLearning.UpdateWritesOneEntry` | qlearner.py:77-81 | after an update the updated key reads `(1-alpha)*q + alpha*(reward + discount*value)` with `q` and `value` read before the write; every other key reads as before; the key set grows by exactly the updated key |
| `QLearning.UpdateBetweenOldAndTarget` | qlearner.py:79-80 | for a learning rate in [0, 1] the new value lies between the old value and the TD target |
| `QLearning.FreshUpdateStores36` | qlearner.py:14-16 | with alpha 0.9 and discount 0.8, one update with reward 4 on a fresh table yields the table holding 3.6 at that key and nothing else |
| `QLearning.QLearner.Update` | qlearner.py:72-81 | the new table is the old one with the single key `(state, action)` set to the blend of its old value and the TD target, bootstrapped on `state`; `nextState` is not read; the accumulator is not touched |
| `QLearning.QLearner.Observe` | qlearner.py:83-89 | the accumulator grows by exactly the reward and the table is updated with the same arguments |
| `QLearning.ReplayAccumulatesRewards` | qlearner.py:83-89 | after any run of observations the accumulator has grown by exactly the sum of their rewards: it is never reset |
| `QLearning.ReplayGrowsKeys` | qlearner.py:81 | after any run of observations the table's keys are the old keys plus exactly the observed (state, action) pairs: no entry is ever removed |
| `QLearning.QLearner.constructor` | qlearner.py:11-17 | a fresh agent has an empty table, alpha 0.9, epsilon 0.01, discount 0.8 and accumulated reward 0 |

## Left out

- `teach` and its inner `learning` loop: they drive the game through `move`, `is_gameover`, `score`, `moveCount` and `deepcopy`, which belong to the game module, and their termination depends on it.
- The `__main__` driver: episode-count loops, highscore reporting and printing.
- The `field` attribute and the `GameField` object (board, merges, scoring): an external collaborator; the agent only sees it through `legal`.
- How a board hashes as a dictionary key: the state type is abstract with equality.
- QLearning.ArgMax: `util.Counter.argMax` is not part of this model, so which of several tied keys it returns is left open; the model promises only some key of greatest value.
- QLearning.QLearner.GetAction: `random.random()` and `random.choice` are parameters, not a random source; the choice is the element at `pick` modulo the legal-list length, so no statement about their distribution is made.
- Floating point: Q-values, rewards and the learning constants are exact reals, so rounding is not modelled; the integer reward accumulator of the source is a real.
- The unused `curses` and `numpy` imports.
