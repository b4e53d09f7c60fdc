/** A tabular Q-learning agent for a tile-merging grid game.

    The agent keeps a sparse table from (state, action) pairs to estimated
    returns, chooses moves with an epsilon-greedy policy and corrects the table
    with a temporal-difference update after every observed move.

    The game board is an opaque type parameter `S`; the game's legality test
    `move_is_possible` is the function `legal` given to the agent when it is
    created. Random draws are parameters of the methods that use them.
 */
module QLearning {

  datatype Option<T> = None | Some(value: T)

  /** The closed set of moves the agent can ask the game for. */
  datatype Action = Up | Left | Down | Right | Restart | Exit

  /** The fixed candidate list, in the order legality is tested. */
  const Actions: seq<Action> := [Up, Left, Down, Right, Restart, Exit]

  /** The sparse value table: a missing key stands for the value 0.0. */
  type Table<S(==)> = map<(S, Action), real>

  /** Position of an action in the candidate list. */
  function Rank(a: Action): (n: nat)
    ensures n < |Actions| && Actions[n] == a
  {
    match a
    case Up => 0
    case Left => 1
    case Down => 2
    case Right => 3
    case Restart => 4
    case Exit => 5
  }

  /** The actions of `acts` appear in candidate-list order, each at most once. */
  predicate InListOrder(acts: seq<Action>)
  {
    forall i, j :: 0 <= i < j < |acts| ==> Rank(acts[i]) < Rank(acts[j])
  }

  /** The candidate list is itself in list order: no action is listed twice. */
  lemma ActionsInListOrder()
    ensures InListOrder(Actions)
  {
    forall i, j | 0 <= i < j < |Actions| ensures Rank(Actions[i]) < Rank(Actions[j]) {
      assert Rank(Actions[i]) == i && Rank(Actions[j]) == j;
    }
  }

  /** The actions of `acts` that are legal in `s`, keeping their order. */
  function Filter<S>(legal: (S, Action) -> bool, s: S, acts: seq<Action>): (r: seq<Action>)
    ensures forall a :: a in r <==> a in acts && legal(s, a)
    ensures |r| <= |acts|
  {
    if acts == [] then []
    else
      var init := Filter(legal, s, acts[..|acts| - 1]);
      var last := acts[|acts| - 1];
      assert forall a :: a in acts <==> a in acts[..|acts| - 1] || a == last;
      if legal(s, last) then init + [last] else init
  }

  /** Filtering keeps the candidate-list order of its input. */
  lemma {:induction false} FilterKeepsOrder<S>(legal: (S, Action) -> bool, s: S, acts: seq<Action>)
    requires InListOrder(acts)
    ensures InListOrder(Filter(legal, s, acts))
  {
    if acts != [] {
      var init := acts[..|acts| - 1];
      var last := acts[|acts| - 1];
      assert InListOrder(init);
      FilterKeepsOrder(legal, s, init);
      assert forall a :: a in Filter(legal, s, init) ==> Rank(a) < Rank(last);
    }
  }

  /** What `getLegalActions` returns: the candidates legal in `s`. */
  function LegalActions<S>(legal: (S, Action) -> bool, s: S): seq<Action>
  {
    Filter(legal, s, Actions)
  }

  /** Exactly the legal actions are listed, in candidate order, without duplicates. */
  lemma LegalActionsExact<S>(legal: (S, Action) -> bool, s: S)
    ensures forall a :: a in LegalActions(legal, s) <==> legal(s, a)
    ensures InListOrder(LegalActions(legal, s))
    ensures forall i, j :: 0 <= i < j < |LegalActions(legal, s)| ==>
              LegalActions(legal, s)[i] != LegalActions(legal, s)[j]
    ensures LegalActions(legal, s) == [] <==> !HasLegalAction(legal, s)
  {
    forall a ensures a in Actions {
      assert Actions[Rank(a)] == a;
    }
    ActionsInListOrder();
    FilterKeepsOrder(legal, s, Actions);
    if HasLegalAction(legal, s) {
      var a :| legal(s, a);
      assert a in LegalActions(legal, s);
    }
    if LegalActions(legal, s) != [] {
      assert legal(s, LegalActions(legal, s)[0]);
    }
  }

  /** Some action is legal in `s`: the state is not terminal for the agent. */
  predicate HasLegalAction<S>(legal: (S, Action) -> bool, s: S)
  {
    exists a :: legal(s, a)
  }

  /** `getQValue`: the stored value, or 0.0 for a key never written. */
  function GetQValue<S(==)>(qvs: Table<S>, s: S, a: Action): (q: real)
    ensures (s, a) in qvs ==> q == qvs[(s, a)]
    ensures (s, a) !in qvs ==> q == 0.0
  {
    if (s, a) in qvs then qvs[(s, a)] else 0.0
  }

  /** The larger of two values. */
  function Max(x: real, y: real): (m: real)
    ensures x <= m && y <= m && (m == x || m == y)
  {
    if x >= y then x else y
  }

  /** Largest table value of `s` over the non-empty list `acts`. */
  function MaxQ<S(==)>(qvs: Table<S>, s: S, acts: seq<Action>): (m: real)
    requires acts != []
    ensures forall a :: a in acts ==> GetQValue(qvs, s, a) <= m
    ensures exists a :: a in acts && GetQValue(qvs, s, a) == m
  {
    if |acts| == 1 then GetQValue(qvs, s, acts[0])
    else
      var rest := MaxQ(qvs, s, acts[1..]);
      assert forall a :: a in acts <==> a == acts[0] || a in acts[1..];
      Max(GetQValue(qvs, s, acts[0]), rest)
  }

  /** `computeValueFromQValues`: the greatest value over the legal actions of
      `s`, and 0.0 when there is none. */
  function ComputeValueFromQValues<S(==)>(qvs: Table<S>, legal: (S, Action) -> bool, s: S): (v: real)
    ensures !HasLegalAction(legal, s) ==> v == 0.0
    ensures forall a :: legal(s, a) ==> GetQValue(qvs, s, a) <= v
    ensures HasLegalAction(legal, s) ==> exists a :: legal(s, a) && GetQValue(qvs, s, a) == v
  {
    LegalActionsExact(legal, s);
    var acts := LegalActions(legal, s);
    if |acts| == 0 then 0.0 else MaxQ(qvs, s, acts)
  }

  /** An action the greedy policy may return: legal, and of greatest value. */
  predicate IsGreedy<S(==)>(qvs: Table<S>, legal: (S, Action) -> bool, s: S, a: Action)
  {
    legal(s, a) && GetQValue(qvs, s, a) == ComputeValueFromQValues(qvs, legal, s)
  }

  /** A greedy action is an argmax: no legal action has a greater value; and
      every state with a legal action has a greedy action. */
  lemma GreedyIsArgMax<S>(qvs: Table<S>, legal: (S, Action) -> bool, s: S)
    ensures forall a, b :: IsGreedy(qvs, legal, s, a) && legal(s, b) ==>
              GetQValue(qvs, s, b) <= GetQValue(qvs, s, a)
    ensures HasLegalAction(legal, s) ==> exists a :: IsGreedy(qvs, legal, s, a)
  {
    if HasLegalAction(legal, s) {
      var a :| legal(s, a) && GetQValue(qvs, s, a) == ComputeValueFromQValues(qvs, legal, s);
      assert IsGreedy(qvs, legal, s, a);
    }
  }

  /** A maximal key of a counter that holds the value of each legal action of
      `s`, and nothing else, is a greedy action. */
  lemma CounterArgMaxIsGreedy<S>(qvs: Table<S>, legal: (S, Action) -> bool, s: S,
                                 counter: map<Action, real>, b: Action)
    requires forall a :: a in counter <==> legal(s, a)
    requires forall a :: a in counter ==> counter[a] == GetQValue(qvs, s, a)
    requires b in counter && forall k :: k in counter ==> counter[k] <= counter[b]
    ensures IsGreedy(qvs, legal, s, b)
  {
    var w :| legal(s, w) && GetQValue(qvs, s, w) == ComputeValueFromQValues(qvs, legal, s);
    assert w in counter;
  }

  /** The TD target of `update`: the reward plus the discounted bootstrap value. */
  function TDTarget(reward: real, discount: real, value: real): real
  {
    reward + discount * value
  }

  /** The blend written by `update`: `1 - alpha` parts of the old value `q`
      and `alpha` parts of the target. */
  function Blend(alpha: real, q: real, target: real): real
  {
    (1.0 - alpha) * q + alpha * target
  }

  /** The new value of the updated entry: the blend of the old value of
      `(s, a)` with the TD target bootstrapped on the value of `s`. */
  function NewQ<S(==)>(qvs: Table<S>, legal: (S, Action) -> bool, alpha: real, discount: real,
                        s: S, a: Action, reward: real): real
  {
    Blend(alpha, GetQValue(qvs, s, a),
          TDTarget(reward, discount, ComputeValueFromQValues(qvs, legal, s)))
  }

  /** The table after `update(s, a, _, reward)`: both values are read from the
      table before the single entry is written. */
  function UpdatedTable<S(==)>(qvs: Table<S>, legal: (S, Action) -> bool, alpha: real, discount: real,
                                s: S, a: Action, reward: real): Table<S>
  {
    qvs[(s, a) := NewQ(qvs, legal, alpha, discount, s, a, reward)]
  }

  /** After an update the entry reads back as the blend of its old value and
      the TD target; every other key keeps its value; the key set grows by
      exactly the updated key. */
  lemma UpdateWritesOneEntry<S>(qvs: Table<S>, legal: (S, Action) -> bool, alpha: real, discount: real,
                                s: S, a: Action, reward: real)
    ensures var t := UpdatedTable(qvs, legal, alpha, discount, s, a, reward);
      && GetQValue(t, s, a) == Blend(alpha, GetQValue(qvs, s, a),
                                      TDTarget(reward, discount, ComputeValueFromQValues(qvs, legal, s)))
      && t.Keys == qvs.Keys + {(s, a)}
      && forall s', a' :: (s', a') != (s, a) ==> GetQValue(t, s', a') == GetQValue(qvs, s', a')
  {
  }

  /** With a learning rate in [0, 1] the new value lies between the old value
      and the TD target. */
  lemma UpdateBetweenOldAndTarget<S>(qvs: Table<S>, legal: (S, Action) -> bool, alpha: real, discount: real,
                                     s: S, a: Action, reward: real)
    requires 0.0 <= alpha <= 1.0
    ensures var q := GetQValue(qvs, s, a);
      var target := TDTarget(reward, discount, ComputeValueFromQValues(qvs, legal, s));
      var q' := GetQValue(UpdatedTable(qvs, legal, alpha, discount, s, a, reward), s, a);
      (q <= target ==> q <= q' <= target) && (target <= q ==> target <= q' <= q)
  {
    var q := GetQValue(qvs, s, a);
    var target := TDTarget(reward, discount, ComputeValueFromQValues(qvs, legal, s));
    assert GetQValue(UpdatedTable(qvs, legal, alpha, discount, s, a, reward), s, a)
           == Blend(alpha, q, target);
    BlendBetween(alpha, q, target);
  }

  /** A convex combination of two reals lies between them. */
  lemma BlendBetween(alpha: real, x: real, y: real)
    requires 0.0 <= alpha <= 1.0
    ensures x <= y ==> x <= Blend(alpha, x, y) <= y
    ensures y <= x ==> y <= Blend(alpha, x, y) <= x
  {
    var b := Blend(alpha, x, y);
    assert b == x + alpha * (y - x);
    assert b == y - (1.0 - alpha) * (y - x);
    if x <= y {
      MulNonneg(alpha, y - x);
      MulNonneg(1.0 - alpha, y - x);
    } else {
      MulNonneg(alpha, x - y);
      MulNonneg(1.0 - alpha, x - y);
      assert alpha * (y - x) == -(alpha * (x - y));
      assert (1.0 - alpha) * (y - x) == -((1.0 - alpha) * (x - y));
    }
  }

  lemma MulNonneg(a: real, b: real)
    requires 0.0 <= a && 0.0 <= b
    ensures 0.0 <= a * b
  {
  }

  /** On an empty table the value of every state is 0.0. */
  lemma {:induction false} EmptyTableValue<S>(legal: (S, Action) -> bool, s: S)
    ensures ComputeValueFromQValues(map[], legal, s) == 0.0
  {
    var empty: Table<S> := map[];
    var v := ComputeValueFromQValues(empty, legal, s);
    if HasLegalAction(legal, s) {
      assert exists a :: legal(s, a) && GetQValue(empty, s, a) == v;
      var a :| legal(s, a) && GetQValue(empty, s, a) == v;
    }
  }

  /** With the agent's constants (alpha 0.9, discount 0.8), one update on a
      fresh table with reward 4 stores 3.6. */
  lemma FreshUpdateStores36<S>(legal: (S, Action) -> bool, s: S, a: Action)
    ensures UpdatedTable(map[], legal, 0.9, 0.8, s, a, 4.0) == map[(s, a) := 3.6]
  {
    EmptyTableValue(legal, s);
  }

  /** One observed move: state before, chosen action, state after, reward. */
  datatype Transition<S> = Transition(state: S, action: Action, nextState: S, reward: real)

  /** The table and the reward accumulator after a run of `observe` calls. */
  function Replay<S(==)>(qvs: Table<S>, episodeRewards: real, legal: (S, Action) -> bool,
                         alpha: real, discount: real, trace: seq<Transition<S>>): (Table<S>, real)
    decreases |trace|
  {
    if trace == [] then (qvs, episodeRewards)
    else
      var t := trace[0];
      Replay(UpdatedTable(qvs, legal, alpha, discount, t.state, t.action, t.reward),
             episodeRewards + t.reward, legal, alpha, discount, trace[1..])
  }

  function SumRewards<S>(trace: seq<Transition<S>>): real
  {
    if trace == [] then 0.0 else trace[0].reward + SumRewards(trace[1..])
  }

  /** Keys written by a run of observations. */
  function UpdatedKeys<S(==)>(trace: seq<Transition<S>>): set<(S, Action)>
  {
    if trace == [] then {} else {(trace[0].state, trace[0].action)} + UpdatedKeys(trace[1..])
  }

  /** The accumulator is never reset: after a run of observations it has grown
      by exactly the sum of their rewards. */
  lemma {:induction false} ReplayAccumulatesRewards<S>(qvs: Table<S>, episodeRewards: real,
                                                       legal: (S, Action) -> bool, alpha: real,
                                                       discount: real, trace: seq<Transition<S>>)
    decreases |trace|
    ensures Replay(qvs, episodeRewards, legal, alpha, discount, trace).1
            == episodeRewards + SumRewards(trace)
  {
    if trace != [] {
      var t := trace[0];
      ReplayAccumulatesRewards(UpdatedTable(qvs, legal, alpha, discount, t.state, t.action, t.reward),
                               episodeRewards + t.reward, legal, alpha, discount, trace[1..]);
    }
  }

  /** The table only grows: after a run of observations its keys are the old
      keys plus exactly the observed (state, action) pairs. */
  lemma {:induction false} ReplayGrowsKeys<S>(qvs: Table<S>, episodeRewards: real,
                                              legal: (S, Action) -> bool, alpha: real,
                                              discount: real, trace: seq<Transition<S>>)
    decreases |trace|
    ensures Replay(qvs, episodeRewards, legal, alpha, discount, trace).0.Keys
            == qvs.Keys + UpdatedKeys(trace)
  {
    if trace != [] {
      var t := trace[0];
      var next := UpdatedTable(qvs, legal, alpha, discount, t.state, t.action, t.reward);
      assert next.Keys == qvs.Keys + {(t.state, t.action)};
      ReplayGrowsKeys(next, episodeRewards + t.reward, legal, alpha, discount, trace[1..]);
    }
  }

  /** `util.Counter.argMax`: some key of greatest value, or None when empty.
      Which of several tied keys is returned is left open. */
  method ArgMax(counter: map<Action, real>) returns (best: Option<Action>)
    ensures best.None? <==> counter == map[]
    ensures best.Some? ==> (best.value in counter &&
              forall k :: k in counter ==> counter[k] <= counter[best.value])
  {
    if counter == map[] {
      return None;
    }
    var remaining := counter.Keys;
    var b :| b in remaining;
    remaining := remaining - {b};
    while remaining != {}
      invariant remaining <= counter.Keys
      invariant b in counter
      invariant forall k :: k in counter && k !in remaining ==> counter[k] <= counter[b]
      decreases remaining
    {
      var k :| k in remaining;
      if counter[k] > counter[b] {
        b := k;
      }
      remaining := remaining - {k};
    }
    return Some(b);
  }

  /** The exploring branch of `getAction` can return every legal action: each
      one sits at some index the random choice may draw. */
  lemma ExplorationReachesEveryLegalAction<S>(legal: (S, Action) -> bool, s: S, a: Action)
    requires legal(s, a)
    ensures exists pick: nat :: pick < |LegalActions(legal, s)| && LegalActions(legal, s)[pick] == a
  {
    LegalActionsExact(legal, s);
  }

  class QLearner<S(==)> {
    var qvs: Table<S>
    const alpha: real
    const epsilon: real
    const discount: real
    var episodeRewards: real
    /** The game's `move_is_possible` test. */
    const legal: (S, Action) -> bool

    /** A fresh agent: empty table, the fixed learning constants, no reward yet. */
    constructor (legal: (S, Action) -> bool)
      ensures qvs == map[] && episodeRewards == 0.0
      ensures alpha == 0.9 && epsilon == 0.01 && discount == 0.8
      ensures this.legal == legal
    {
      qvs := map[];
      alpha := 0.9;
      epsilon := 0.01;
      discount := 0.8;
      episodeRewards := 0.0;
      this.legal := legal;
    }

    /** `getLegalActions`: tests each candidate in turn, keeping the legal ones. */
    method GetLegalActions(s: S) returns (legals: seq<Action>)
      ensures legals == LegalActions(legal, s)
      ensures forall a :: a in legals <==> legal(s, a)
      ensures InListOrder(legals)
    {
      legals := [];
      for i := 0 to |Actions|
        invariant legals == Filter(legal, s, Actions[..i])
      {
        assert Actions[..i + 1][..i] == Actions[..i];
        if legal(s, Actions[i]) {
          legals := legals + [Actions[i]];
        }
      }
      assert Actions[..|Actions|] == Actions;
      LegalActionsExact(legal, s);
    }

    /** `computeActionFromQValues`: None exactly when no action is legal,
        otherwise a legal action of greatest value. */
    method ComputeActionFromQValues(s: S) returns (best: Option<Action>)
      ensures best.None? <==> !HasLegalAction(legal, s)
      ensures best.Some? ==> IsGreedy(qvs, legal, s, best.value)
    {
      var legalActions := GetLegalActions(s);
      if |legalActions| == 0 {
        return None;
      }
      var counter: map<Action, real> := map[];
      for i := 0 to |legalActions|
        invariant forall a :: a in counter <==> a in legalActions[..i]
        invariant forall a :: a in counter ==> counter[a] == GetQValue(qvs, s, a)
      {
        assert forall a :: a in legalActions[..i + 1] <==> a in legalActions[..i] || a == legalActions[i];
        counter := counter[legalActions[i] := GetQValue(qvs, s, legalActions[i])];
      }
      assert legalActions[..|legalActions|] == legalActions;
      assert legalActions[0] in counter;
      best := ArgMax(counter);
      if best.Some? {
        CounterArgMaxIsGreedy(qvs, legal, s, counter, best.value);
      }
    }

    /** `getAction`: the epsilon-greedy policy. `draw` is the value of
        `random.random()`, `pick` the index drawn by `random.choice`. */
    method GetAction(s: S, draw: real, pick: nat) returns (action: Option<Action>)
      requires 0.0 <= draw < 1.0
      ensures action.None? <==> !HasLegalAction(legal, s)
      ensures action.Some? ==> legal(s, action.value)
      ensures LegalActions(legal, s) != [] && draw < epsilon ==>
                action == Some(LegalActions(legal, s)[pick % |LegalActions(legal, s)|])
      ensures HasLegalAction(legal, s) && draw >= epsilon ==>
                action.Some? && IsGreedy(qvs, legal, s, action.value)
    {
      LegalActionsExact(legal, s);
      var legalActions := GetLegalActions(s);
      if |legalActions| == 0 {
        return None;
      }
      if draw < epsilon {
        return Some(legalActions[pick % |legalActions|]);
      } else {
        action := ComputeActionFromQValues(s);
      }
    }

    /** `update`: one TD write. The bootstrap value is that of `s` itself, as
        computed before the write; `nextState` is not read. */
    method Update(s: S, a: Action, nextState: S, reward: real)
      modifies this`qvs
      ensures qvs == UpdatedTable(old(qvs), legal, alpha, discount, s, a, reward)
    {
      var q := GetQValue(qvs, s, a);
      var value := ComputeValueFromQValues(qvs, legal, s);
      var newQ := Blend(alpha, q, TDTarget(reward, discount, value));
      qvs := qvs[(s, a) := newQ];
    }

    /** `observe`: adds the reward to the accumulator, then updates. */
    method Observe(s: S, a: Action, nextState: S, deltaReward: real)
      modifies this`qvs, this`episodeRewards
      ensures episodeRewards == old(episodeRewards) + deltaReward
      ensures qvs == UpdatedTable(old(qvs), legal, alpha, discount, s, a, deltaReward)
      ensures (qvs, episodeRewards)
              == Replay(old(qvs), old(episodeRewards), legal, alpha, discount,
                        [Transition(s, a, nextState, deltaReward)])
    {
      episodeRewards := episodeRewards + deltaReward;
      Update(s, a, nextState, deltaReward);
      assert [Transition(s, a, nextState, deltaReward)][1..] == [];
    }
  }
}
