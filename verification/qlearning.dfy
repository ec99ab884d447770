/**
  The tabular Q-learning store: a nested table state -> (action -> value)
  with 0 as the default for any pair never written, and the one-step
  update rule q_old + alfa * (r + gamma * q_max - q_old). States and actions
  are any types with equality; values are reals.
 */
module QLearn {

  /** The nested dictionary held by the store: state -> (action -> value). */
  type Table<S, A> = map<S, map<A, real>>

  /** The value of (s, a) in t: the stored one, or 0 when s or a is unknown. */
  function Lookup<S(!new), A(!new)>(t: Table<S, A>, s: S, a: A): (v: real)
    ensures s !in t || a !in t[s] ==> v == 0.0
    ensures s in t && a in t[s] ==> v == t[s][a]
  {
    if s in t && a in t[s] then t[s][a] else 0.0
  }

  /**
    t with (s, a) set to v: an existing inner table for s is updated in
    place, a missing one is created holding just a.
   */
  function Store<S(!new), A(!new)>(t: Table<S, A>, s: S, a: A, v: real): (r: Table<S, A>)
    ensures Lookup(r, s, a) == v
    ensures forall s', a' :: (s' != s || a' != a) ==> Lookup(r, s', a') == Lookup(t, s', a')
    ensures r.Keys == t.Keys + {s}
    ensures s in t ==> r[s].Keys == t[s].Keys + {a}
    ensures s !in t ==> r[s].Keys == {a}
    ensures forall s' :: s' in t && s' != s ==> r[s'] == t[s']
  {
    if s in t then t[s := t[s][a := v]] else t[s := map[a := v]]
  }

  /** A second write to the same pair wins; the first leaves no trace. */
  lemma StoreTwice<S(!new), A(!new)>(t: Table<S, A>, s: S, a: A, v: real, w: real)
    ensures Store(Store(t, s, a, v), s, a, w) == Store(t, s, a, w)
  {
    if s in t {
      assert Store(t, s, a, v)[s] == t[s][a := v];
      assert t[s][a := v][a := w] == t[s][a := w];
    } else {
      assert Store(t, s, a, v)[s] == map[a := v];
      assert map[a := v][a := w] == map[a := w];
    }
  }

  /** Writing back the value already stored changes no lookup. */
  lemma StoreSame<S(!new), A(!new)>(t: Table<S, A>, s: S, a: A)
    ensures forall s', a' :: Lookup(Store(t, s, a, Lookup(t, s, a)), s', a') == Lookup(t, s', a')
  {
  }

  /** The values of actions in state s, in the order of actions. */
  function ActionValues<S(!new), A(!new)>(t: Table<S, A>, s: S, actions: seq<A>): (r: seq<real>)
    ensures |r| == |actions|
    ensures forall i :: 0 <= i < |actions| ==> r[i] == Lookup(t, s, actions[i])
  {
    if actions == [] then []
    else ActionValues(t, s, actions[..|actions| - 1]) + [Lookup(t, s, actions[|actions| - 1])]
  }

  /**
    np.argmax: the first index holding the largest value. Every value is at
    most the one there, and every value before it is strictly smaller.
   */
  function ArgMax(vals: seq<real>): (i: nat)
    requires |vals| > 0
    ensures i < |vals|
    ensures forall j :: 0 <= j < |vals| ==> vals[j] <= vals[i]
    ensures forall j :: 0 <= j < i ==> vals[j] < vals[i]
  {
    if |vals| == 1 then 0
    else
      var best := ArgMax(vals[..|vals| - 1]);
      if vals[|vals| - 1] > vals[best] then |vals| - 1 else best
  }

  /**
    The update rule. With alfa = 1 the old estimate is forgotten, with
    alfa = 0 it is kept, and for alfa in [0, 1] the new value lies between
    the old estimate and the target r + gamma * q_max.
   */
  function NewValue(qOld: real, r: real, qMax: real, alfa: real, gamma: real): (v: real)
    ensures alfa == 1.0 ==> v == r + gamma * qMax
    ensures alfa == 0.0 ==> v == qOld
  {
    qOld + alfa * (r + (gamma * qMax) - qOld)
  }

  /** The rule mixes the old estimate and the target r + gamma * q_max in the proportion 1 - alfa to alfa. */
  lemma NewValueMix(qOld: real, r: real, qMax: real, alfa: real, gamma: real)
    ensures NewValue(qOld, r, qMax, alfa, gamma) == (1.0 - alfa) * qOld + alfa * (r + gamma * qMax)
  {
    var target := r + gamma * qMax;
    assert alfa * (target - qOld) == alfa * target - alfa * qOld;
  }

  /** For a learning rate in [0, 1] the update moves toward the target and never past it. */
  lemma NewValueBetween(qOld: real, r: real, qMax: real, alfa: real, gamma: real)
    requires 0.0 <= alfa <= 1.0
    ensures var v, target := NewValue(qOld, r, qMax, alfa, gamma), r + gamma * qMax;
      (qOld <= target ==> qOld <= v <= target) && (target <= qOld ==> target <= v <= qOld)
  {
    var target := r + gamma * qMax;
    var v := NewValue(qOld, r, qMax, alfa, gamma);
    assert v - qOld == alfa * (target - qOld);
    assert target - v == (1.0 - alfa) * (target - qOld);
    if qOld <= target {
      MulNonNegative(alfa, target - qOld);
      MulNonNegative(1.0 - alfa, target - qOld);
    } else {
      MulNonNegative(alfa, qOld - target);
      MulNonNegative(1.0 - alfa, qOld - target);
    }
  }

  lemma MulNonNegative(a: real, b: real)
    requires 0.0 <= a && 0.0 <= b
    ensures 0.0 <= a * b
  {}

  /**
    The table after update_q: (s, a) holds the rule applied to its old value
    and to q_max, the largest old value among the next state's possible
    actions; every other pair keeps its value, and with alfa = 0 nothing
    changes at all.
   */
  function Update<S(!new), A(!new)>(t: Table<S, A>, s: S, a: A, r: real, next: S, actions: seq<A>, alfa: real, gamma: real): (u: Table<S, A>)
    requires |actions| > 0
    ensures exists best :: (best in actions
      && (forall b :: b in actions ==> Lookup(t, next, b) <= Lookup(t, next, best))
      && Lookup(u, s, a) == NewValue(Lookup(t, s, a), r, Lookup(t, next, best), alfa, gamma))
    ensures forall s', a' :: (s' != s || a' != a) ==> Lookup(u, s', a') == Lookup(t, s', a')
    ensures alfa == 0.0 ==> forall s', a' :: Lookup(u, s', a') == Lookup(t, s', a')
  {
    var choices := ActionValues(t, next, actions);
    var i := ArgMax(choices);
    var u := Store(t, s, a, NewValue(Lookup(t, s, a), r, choices[i], alfa, gamma));
    assert actions[i] in actions && Lookup(u, s, a) == NewValue(Lookup(t, s, a), r, Lookup(t, next, actions[i]), alfa, gamma);
    assert forall b :: b in actions ==> Lookup(t, next, b) <= Lookup(t, next, actions[i]) by {
      forall b | b in actions
        ensures Lookup(t, next, b) <= Lookup(t, next, actions[i])
      {
        var j :| 0 <= j < |actions| && actions[j] == b;
        assert choices[j] <= choices[i];
      }
    }
    u
  }

  class QLearning<S(==, !new), A(==, !new)> {
    var q: Table<S, A>

    constructor ()
      ensures q == map[]
    {
      q := map[];
    }

    /** get_q: the stored value of (state, action), or 0 when either is unknown. */
    function GetQ(state: S, action: A): (v: real)
      reads this
      ensures state in q && action in q[state] ==> v == q[state][action]
      ensures state !in q || action !in q[state] ==> v == 0.0
    {
      Lookup(q, state, action)
    }

    /** set_q: writes value for (state, action), creating the inner table for a new state. */
    method SetQ(state: S, action: A, value: real)
      modifies this
      ensures q == Store(old(q), state, action, value)
      ensures GetQ(state, action) == value
      ensures forall s, a :: (s != state || a != action) ==> GetQ(s, a) == old(GetQ(s, a))
    {
      if state in q {
        var actionValues := q[state];
        actionValues := actionValues[action := value];
        q := q[state := actionValues];
      } else {
        var actionValues: map<A, real> := map[];
        actionValues := actionValues[action := value];
        q := q[state := actionValues];
      }
    }

    /** get_action_values: the value of each action in state, in order; nothing changes. */
    method GetActionValues(state: S, actions: seq<A>) returns (result: seq<real>)
      ensures result == ActionValues(q, state, actions)
      ensures |result| == |actions|
      ensures forall i :: 0 <= i < |actions| ==> result[i] == GetQ(state, actions[i])
    {
      result := [];
      var i := 0;
      while i < |actions|
        invariant 0 <= i <= |actions|
        invariant result == ActionValues(q, state, actions[..i])
      {
        result := result + [GetQ(state, actions[i])];
        assert actions[..i + 1][..i] == actions[..i];
        i := i + 1;
      }
      assert actions[..|actions|] == actions;
    }

    /**
      update_q: reads the old estimate and the best value of the next
      state's possible actions, then writes the updated estimate back.
     */
    method UpdateQ(state: S, action: A, r: real, stateNext: S, possibleActions: seq<A>, alfa: real, gamma: real)
      requires |possibleActions| > 0
      modifies this
      ensures q == Update(old(q), state, action, r, stateNext, possibleActions, alfa, gamma)
    {
      ghost var before := q;
      var qOld := GetQ(state, action);
      var qChoices := GetActionValues(stateNext, possibleActions);
      var qMax := qChoices[ArgMax(qChoices)];
      var qNew := NewValue(qOld, r, qMax, alfa, gamma);
      assert qNew == NewValue(Lookup(before, state, action), r, qMax, alfa, gamma);
      SetQ(state, action, qNew);
      assert q == Store(before, state, action, qNew);
    }
  }
}
