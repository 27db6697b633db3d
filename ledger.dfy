/** The engagement ledger's state machine, independent of the label alphabet.
    A ledger table maps a (user, target) pair to the one label that user holds
    against that target; a missing key is the state NoReaction. */
module Ledger {
  import opened Wrappers

  datatype Key<U, T> = Key(user: U, target: T)

  /** The label a user holds against a target, if any. */
  function Held<K, R>(rows: map<K, R>, k: K): Option<R> {
    if k in rows then Some(rows[k]) else None
  }

  /** One request for label `r`: NoReaction becomes Holding(r), Holding(r) is
      toggled off, and Holding(r') with r' != r switches to Holding(r). */
  function Step<R(==)>(held: Option<R>, r: R): Option<R> {
    if held == Some(r) then None else Some(r)
  }

  /** Stores a new state for one key: a row written, or the row deleted. */
  function Write<K(!new), R>(rows: map<K, R>, k: K, v: Option<R>): (rows': map<K, R>)
    ensures Held(rows', k) == v
    ensures forall j :: j != k ==> Held(rows', j) == Held(rows, j)
    ensures rows'.Keys == if v.Some? then rows.Keys + {k} else rows.Keys - {k}
  {
    if v.Some? then rows[k := v.value] else rows - {k}
  }

  /** The keys of the rows for target `t` that hold label `x`. */
  ghost function Holders<U, T, R>(rows: map<Key<U, T>, R>, t: T, x: R): set<Key<U, T>> {
    set k | k in rows && k.target == t && rows[k] == x
  }

  /** The histogram of the ledger: how many users hold label `x` against `t`. */
  ghost function Tally<U, T, R>(rows: map<Key<U, T>, R>, t: T, x: R): nat {
    |Holders(rows, t, x)|
  }

  function Ind(b: bool): int { if b then 1 else 0 }

  lemma TallyRemove<U(!new), T(!new), R>(rows: map<Key<U, T>, R>, k: Key<U, T>, t: T, x: R)
    ensures Tally(rows - {k}, t, x) == Tally(rows, t, x) - Ind(k in rows && k.target == t && rows[k] == x)
  {
    var before := Holders(rows, t, x);
    assert Holders(rows - {k}, t, x) == before - {k};
    if k in before {
      assert before == (before - {k}) + {k};
    } else {
      assert before == before - {k};
    }
  }

  lemma TallyPut<U(!new), T(!new), R>(rows: map<Key<U, T>, R>, k: Key<U, T>, y: R, t: T, x: R)
    ensures Tally(rows[k := y], t, x) == Tally(rows - {k}, t, x) + Ind(k.target == t && y == x)
  {
    var rest := Holders(rows - {k}, t, x);
    if k.target == t && y == x {
      assert Holders(rows[k := y], t, x) == rest + {k};
    } else {
      assert Holders(rows[k := y], t, x) == rest;
    }
  }

  /** Writing one key changes the tally of its own target only, by the row
      it removes and the row it adds. */
  lemma TallyWrite<U(!new), T(!new), R>(rows: map<Key<U, T>, R>, k: Key<U, T>, v: Option<R>, t: T, x: R)
    ensures Tally(Write(rows, k, v), t, x)
         == Tally(rows, t, x) - Ind(k in rows && k.target == t && rows[k] == x) + Ind(k.target == t && v == Some(x))
  {
    TallyRemove(rows, k, t, x);
    if v.Some? {
      TallyPut(rows, k, v.value, t, x);
    }
  }

  /** A write to a key of another target leaves the tally of `t` alone. */
  lemma TallyWriteElsewhere<U(!new), T(!new), R>(rows: map<Key<U, T>, R>, k: Key<U, T>, v: Option<R>, t: T, x: R)
    requires k.target != t
    ensures Tally(Write(rows, k, v), t, x) == Tally(rows, t, x)
  {
    TallyWrite(rows, k, v, t, x);
  }

  /** Every row of user `u` removed, as a delete-many by user does. */
  function SweepUser<U(==,!new), T(==,!new), R>(rows: map<Key<U, T>, R>, u: U): (rows': map<Key<U, T>, R>)
    ensures forall k :: k in rows' <==> k in rows && k.user != u
    ensures forall k :: k in rows' ==> rows'[k] == rows[k]
  {
    map k | k in rows && k.user != u :: rows[k]
  }

  /** Sweeping a user out of the ledger removes exactly that user's row from
      each target's histogram. */
  lemma TallySweep<U(!new), T(!new), R>(rows: map<Key<U, T>, R>, u: U, t: T, x: R)
    ensures Tally(SweepUser(rows, u), t, x)
         == Tally(rows, t, x) - Ind(Key(u, t) in rows && rows[Key(u, t)] == x)
  {
    var before := Holders(rows, t, x);
    var after := Holders(SweepUser(rows, u), t, x);
    assert after == before - {Key(u, t)};
    assert |before - {Key(u, t)}| == |before| - Ind(Key(u, t) in before);
  }

  /** Two identical requests in a row restore the state exactly when the user
      held nothing or held that same label; after a switch they do not. */
  lemma StepTwice<R>(held: Option<R>, r: R)
    ensures Step(Step(held, r), r) == held <==> held == None || held == Some(r)
  {
  }

  /** The row of a two-request round trip: writing the step and then the step
      from there gives the table back, when the user held nothing or held `r`. */
  lemma {:induction false} WriteStepTwice<K(!new), R>(rows: map<K, R>, k: K, r: R)
    requires Held(rows, k) == None || Held(rows, k) == Some(r)
    ensures var rows1 := Write(rows, k, Step(Held(rows, k), r));
            Write(rows1, k, Step(Held(rows1, k), r)) == rows
  {
    var h := Held(rows, k);
    var rows1 := Write(rows, k, Step(h, r));
    var rows2 := Write(rows1, k, Step(Held(rows1, k), r));
    assert Held(rows1, k) == Step(h, r);
    assert Step(Step(h, r), r) == h;
    assert rows2.Keys == rows.Keys;
    forall j | j in rows
      ensures rows2[j] == rows[j]
    {
      assert Held(rows2, j) == Held(rows, j);
    }
  }

  /** A target no row refers to has an empty histogram. */
  lemma TallyUntargeted<U, T, R>(rows: map<Key<U, T>, R>, t: T, x: R)
    requires forall k :: k in rows ==> k.target != t
    ensures Tally(rows, t, x) == 0
  {
    assert Holders(rows, t, x) == {};
  }
}
