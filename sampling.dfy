/** Drawing one tile id from frequency tables: a single table, or the
    common keys of several tables with their counts added up. */
module Sampling {
  import opened Adjacency

  /** The ways a draw can fail: a table with no keys, and several tables
      with no key in common (an assertion failure in the source). */
  datatype Error = EmptyDistribution | Contradiction

  datatype Result<T> = Success(value: T) | Failure(error: Error)

  /** The weighted draw (a Dirichlet sample of the weights followed by a
      categorical choice). Its randomness is not modelled: it returns some
      key of the weight table. */
  method Choice(weights: map<int, nat>) returns (t: int)
    requires weights != map[]
    ensures t in weights
  {
    assert (forall x :: x !in weights) ==> weights == map[];
    t :| t in weights;
  }

  lemma HasMember(s: set<int>)
    requires s != {}
    ensures exists x :: x in s
  {
    assert (forall x :: x !in s) ==> s == {};
  }

  /** The ids that are a key of every table in cs. */
  function Common(cs: seq<Counter>): set<int>
    requires |cs| > 0
  {
    set t | t in cs[0] && forall j :: 0 <= j < |cs| ==> t in cs[j]
  }

  /** The weight of id t: its count summed over all tables of cs. */
  function Weight(cs: seq<Counter>, t: int): nat {
    if cs == [] then 0 else Weight(cs[..|cs| - 1], t) + Get(cs[|cs| - 1], t)
  }

  /** An id found in every table of counts that are all positive weighs at
      least one per table, so every weight handed to the draw is positive. */
  lemma {:induction false} WeightAtLeastLength(cs: seq<Counter>, t: int)
    requires forall j :: 0 <= j < |cs| ==> t in cs[j] && cs[j][t] > 0
    ensures Weight(cs, t) >= |cs|
  {
    if cs != [] {
      WeightAtLeastLength(cs[..|cs| - 1], t);
    }
  }

  /** Two tables with no key in common leave nothing to draw from. */
  lemma DisjointTablesContradict(c0: Counter, c1: Counter)
    requires c0.Keys !! c1.Keys
    ensures Common([c0, c1]) == {}
  {
    var cs := [c0, c1];
    assert cs[0] == c0 && cs[1] == c1;
    assert forall t :: t in Common(cs) ==> t in cs[0] && t in cs[1];
  }

  /** The intersection and weighting of coupled_markov_chain: keep the ids
      that are a key of every table, and give each the sum of its counts. */
  method ValidTileCounts(cs: seq<Counter>) returns (weights: map<int, nat>)
    requires |cs| > 0
    ensures weights.Keys == Common(cs)
    ensures forall t :: t in weights ==> weights[t] == Weight(cs, t)
  {
    var valid := cs[0].Keys;
    var i := 0;
    while i < |cs|
      invariant 0 <= i <= |cs|
      invariant valid == set t | t in cs[0] && forall j :: 0 <= j < i ==> t in cs[j]
    {
      valid := valid * cs[i].Keys;
      i := i + 1;
    }
    weights := map t | t in valid :: 0;
    var todo := valid;
    while todo != {}
      invariant todo <= valid && weights.Keys == valid
      invariant forall t :: t in valid && t !in todo ==> weights[t] == Weight(cs, t)
      invariant forall t :: t in todo ==> weights[t] == 0
      decreases todo
    {
      HasMember(todo);
      var t :| t in todo;
      var j := 0;
      while j < |cs|
        invariant 0 <= j <= |cs| && weights.Keys == valid
        invariant weights[t] == Weight(cs[..j], t)
        invariant forall s :: s in valid && s != t && s !in todo ==> weights[s] == Weight(cs, s)
        invariant forall s :: s in todo && s != t ==> weights[s] == 0
      {
        assert cs[..j + 1][..j] == cs[..j];
        weights := weights[t := weights[t] + Get(cs[j], t)];
        j := j + 1;
      }
      assert cs[..|cs|] == cs;
      todo := todo - {t};
    }
  }
}
