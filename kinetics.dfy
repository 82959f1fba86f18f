/** The analyses of `knightshock/kinetics.py`: `Simulation.ignition_delay_time`
    with its window-edge check, `Simulation.get_top_species`, and the case
    grid `SimulationPool.parameter_study` builds. */
module Kinetics {
  import opened Wrappers
  import Text
  import Lists
  import opened ReactorStates
  import Ranking

  // ---------------------------------------------------------------------
  // ignition_delay_time

  /** `method="inflection"`: the time of the first steepest step of the
      signal, or undefined (NaN) when that step is the last one, whose
      steepest point may lie beyond the simulated window. */
  function InflectionTime(t: seq<real>, x: seq<real>): (r: Result<Option<real>, Error>)
    requires |x| == |t| >= 1 && StrictlyIncreasing(t)
    ensures r.Err? <==> |t| < 2
    ensures r.Err? ==> r.error == EmptyArgmax
    ensures r == Ok(None) <==> |t| >= 2 && IsFirstMax(Slopes(t, x), |t| - 2)
    ensures r.Ok? && r.value.Some? ==>
      exists i :: 0 <= i < |t| - 2 && IsFirstMax(Slopes(t, x), i) && r.value.value == t[i]
  {
    if |t| < 2 then Err(EmptyArgmax)
    else
      var d := Slopes(t, x);
      var i := ArgMax(d);
      FirstMaxUnique(d, i, |t| - 2);
      if i == |t| - 2 then Ok(None) else Ok(Some(t[i]))
  }

  /** `method="peak"`: the time of the first maximum of the signal, or
      undefined when the maximum is the last sample. */
  function PeakTime(t: seq<real>, x: seq<real>): (r: Option<real>)
    requires |x| == |t| >= 1 && StrictlyIncreasing(t)
    ensures r == None <==> IsFirstMax(x, |t| - 1)
    ensures r.Some? ==> exists i :: 0 <= i < |t| - 1 && IsFirstMax(x, i) && r.value == t[i]
  {
    var i := ArgMax(x);
    FirstMaxUnique(x, i, |t| - 1);
    if i == |t| - 1 then None else Some(t[i])
  }

  /** `Simulation.ignition_delay_time(species, method=...)`. The signal is
      looked up first, so an unknown species is reported even for an
      invalid method name. */
  function IgnitionDelayTime(s: States, species: Option<string>, methodName: string)
    : (r: Result<Option<real>, Error>)
    requires s.Valid()
    ensures Signal(s, species).Err? ==> r == Err(UnknownSpecies(species.value))
    ensures Signal(s, species).Ok? && methodName != "inflection" && methodName != "peak" ==>
              r == Err(InvalidMethod(methodName))
    ensures r.Ok? ==> (methodName == "inflection" || methodName == "peak")
    ensures Signal(s, species).Ok? && methodName == "inflection" ==>
              r == InflectionTime(s.t, Signal(s, species).value)
    ensures Signal(s, species).Ok? && methodName == "peak" ==>
              r == Ok(PeakTime(s.t, Signal(s, species).value))
  {
    match Signal(s, species)
    case Err(e) => Err(e)
    case Ok(x) =>
      if methodName == "inflection" then InflectionTime(s.t, x)
      else if methodName == "peak" then Ok(PeakTime(s.t, x))
      else Err(InvalidMethod(methodName))
  }

  /** A defined ignition delay is one of the sample times and never the
      last one: the edge check rules out the end of the window. */
  lemma DelayInsideWindow(s: States, species: Option<string>, methodName: string)
    requires s.Valid()
    ensures IgnitionDelayTime(s, species, methodName).Ok? &&
            IgnitionDelayTime(s, species, methodName).value.Some? ==>
              var tau := IgnitionDelayTime(s, species, methodName).value.value;
              tau in s.t && tau < s.t[|s.t| - 1]
  {
    var r := IgnitionDelayTime(s, species, methodName);
    if r.Ok? && r.value.Some? {
      var x := Signal(s, species).value;
      if methodName == "inflection" {
        var i :| 0 <= i < |s.t| - 2 && IsFirstMax(Slopes(s.t, x), i) && r.value.value == s.t[i];
        assert s.t[i] < s.t[|s.t| - 1];
      } else {
        var i :| 0 <= i < |s.t| - 1 && IsFirstMax(x, i) && r.value.value == s.t[i];
        assert s.t[i] < s.t[|s.t| - 1];
      }
    }
  }

  // ---------------------------------------------------------------------
  // get_top_species

  /** The `exclude` argument: None, a single name, or a list of names. */
  datatype Exclusion = NoExclusion | ExcludeOne(name: string) | ExcludeMany(names: seq<string>)

  /** A single string stands for the one-element list. */
  function ExclusionList(e: Exclusion): (r: seq<string>)
    ensures e.NoExclusion? ==> r == []
    ensures e.ExcludeOne? ==> r == [e.name]
  {
    match e
    case NoExclusion => []
    case ExcludeOne(name) => [name]
    case ExcludeMany(names) => names
  }

  /** The names that can be removed: each excluded name upper-cased. */
  function UpperSet(names: seq<string>): set<string> {
    set k | 0 <= k < |names| :: Text.Upper(names[k])
  }

  /** The list after `species.remove(name.upper())` for each name in turn,
      a missing name leaving it unchanged. */
  function RemoveEach(species: seq<string>, names: seq<string>): (r: seq<string>)
    ensures multiset(r) <= multiset(species)
    ensures |species| - |names| <= |r| <= |species|
  {
    if |names| == 0 then species
    else
      var rest := RemoveEach(species, names[..|names| - 1]);
      Lists.RemoveFirstShrinks(rest, Text.Upper(names[|names| - 1]));
      Lists.RemoveFirst(rest, Text.Upper(names[|names| - 1]))
  }

  /** On a list without duplicates, removing the names one by one is
      filtering out the set of upper-cased names. */
  lemma {:induction false} RemoveEachFilters(species: seq<string>, names: seq<string>)
    requires Lists.NoDup(species)
    ensures RemoveEach(species, names) == Lists.Filter(species, UpperSet(names))
  {
    if |names| == 0 {
      assert UpperSet(names) == {};
      Lists.FilterNothing(species, {});
    } else {
      var init := names[..|names| - 1];
      var last := Text.Upper(names[|names| - 1]);
      RemoveEachFilters(species, init);
      Lists.FilterNoDup(species, UpperSet(init));
      Lists.RemoveFirstIsFilter(Lists.Filter(species, UpperSet(init)), last);
      Lists.FilterFilter(species, UpperSet(init), {last});
      UpperSetLast(names);
    }
  }

  lemma UpperSetLast(names: seq<string>)
    requires |names| > 0
    ensures UpperSet(names) == UpperSet(names[..|names| - 1]) + {Text.Upper(names[|names| - 1])}
  {
    var init := names[..|names| - 1];
    forall y ensures y in UpperSet(names) <==> y in UpperSet(init) + {Text.Upper(names[|names| - 1])} {
      if y in UpperSet(names) {
        var k :| 0 <= k < |names| && Text.Upper(names[k]) == y;
        if k < |names| - 1 { assert init[k] == names[k]; }
      }
      if y in UpperSet(init) {
        var k :| 0 <= k < |init| && Text.Upper(init[k]) == y;
        assert names[k] == init[k];
      }
    }
  }

  /** One more excluded name is one more `remove`. */
  lemma RemoveEachStep(species: seq<string>, names: seq<string>, i: nat, done: seq<string>)
    requires i < |names| && done == RemoveEach(species, names[..i])
    ensures RemoveEach(species, names[..i + 1]) == Lists.RemoveFirst(done, Text.Upper(names[i]))
  {
    assert names[..i + 1][..i] == names[..i];
  }

  /** What is left of the ranking once the excluded names are removed and
      the rest is cut to `n`: the ranking filtered by the upper-cased names,
      distinct species, none excluded, in ranking order, and all of them
      when `n` is None. */
  lemma TopOfRanking(s: States, names: seq<string>, n: Option<int>)
    requires s.Valid()
    ensures var top := Lists.Head(RemoveEach(Ranking.RankedNames(s), names), n);
      var drop := UpperSet(names);
      top == Lists.Head(Lists.Filter(Ranking.RankedNames(s), drop), n) &&
      Lists.NoDup(top) &&
      (forall x :: x in top ==> x in s.speciesNames && x !in drop) &&
      (forall i, j :: 0 <= i < j < |top| ==> Ranking.Outranks(s, top[i], top[j])) &&
      (n.None? ==> forall x :: x in s.speciesNames && x !in drop ==> x in top)
  {
    var ranked := Ranking.RankedNames(s);
    var drop := UpperSet(names);
    Ranking.RankedNamesMembers(s);
    Ranking.RankedNamesOrdered(s);
    RemoveEachFilters(ranked, names);
    var kept := Lists.Filter(ranked, drop);
    Lists.FilterNoDup(ranked, drop);
    var R := (a, b) => s.Valid() && Ranking.Outranks(s, a, b);
    assert Lists.Chain(ranked, R);
    Lists.FilterChain(ranked, drop, R);
    Lists.HeadKeeps(kept, n, R);
    var top := Lists.Head(kept, n);
    forall i, j | 0 <= i < j < |top| ensures Ranking.Outranks(s, top[i], top[j]) {
      assert R(top[i], top[j]);
    }
  }

  /** `Simulation.get_top_species(n, exclude=...)`: the species ranked by
      their largest mole fraction, the excluded ones removed one by one,
      cut to `n`. */
  method GetTopSpecies(s: States, n: Option<int>, exclude: Exclusion) returns (top: seq<string>)
    requires s.Valid()
    ensures top == Lists.Head(Lists.Filter(Ranking.RankedNames(s), UpperSet(ExclusionList(exclude))), n)
    ensures Lists.NoDup(top)
    ensures forall x :: x in top ==> x in s.speciesNames && x !in UpperSet(ExclusionList(exclude))
    ensures forall i, j :: 0 <= i < j < |top| ==> Ranking.Outranks(s, top[i], top[j])
    ensures n.None? ==>
      forall x :: x in s.speciesNames && x !in UpperSet(ExclusionList(exclude)) ==> x in top
  {
    var ranked := Ranking.RankedNames(s);
    var species := ranked;
    var names := ExclusionList(exclude);
    if exclude != NoExclusion {
      species := RemoveNames(ranked, names);
    } else {
      assert species == RemoveEach(ranked, names);
    }
    TopOfRanking(s, names, n);
    top := species[..Lists.SliceEnd(|species|, n)];
  }

  /** The `for s in exclude: species.remove(s.upper())` loop, a name that is
      not in the list being skipped. */
  method RemoveNames(species: seq<string>, names: seq<string>) returns (r: seq<string>)
    ensures r == RemoveEach(species, names)
  {
    r := species;
    var i := 0;
    while i < |names|
      invariant i <= |names|
      invariant r == RemoveEach(species, names[..i])
    {
      var name := Text.Upper(names[i]);
      RemoveEachStep(species, names, i, r);
      r := Lists.RemoveFirst(r, name);
      i := i + 1;
    }
    assert names[..|names|] == names;
  }

  // ---------------------------------------------------------------------
  // parameter_study

  /** A `mech` or `X` argument: one value, or a list of them. */
  datatype OneOrMany<T> = One(value: T) | Many(values: seq<T>)

  /** A `T` or `P` argument: a float, an int, or an iterable of numbers. */
  datatype NumberArg = FloatValue(x: real) | IntValue(k: int) | Numbers(xs: seq<real>)

  datatype GridError =
    | NotIterable(argument: string)  // `list(...)` of a number that is not a float
    | NoCases                        // an empty product leaves no columns to pass on

  /** The four columns handed to the pool, one entry per case. */
  datatype Columns<M> = Columns(mech: seq<string>, T: seq<real>, P: seq<real>, X: seq<M>)

  function AsList<T>(a: OneOrMany<T>): (r: seq<T>)
    ensures a.One? ==> r == [a.value]
    ensures a.Many? ==> r == a.values
  {
    match a
    case One(v) => [v]
    case Many(vs) => vs
  }

  /** `list(v)` after the `isinstance(v, float)` promotion: an int is not
      promoted and is not iterable. */
  function NumberList(a: NumberArg): (r: Option<seq<real>>)
    ensures r.None? <==> a.IntValue?
    ensures a.FloatValue? ==> r == Some([a.x])
    ensures a.Numbers? ==> r == Some(a.xs)
  {
    match a
    case FloatValue(x) => Some([x])
    case IntValue(_) => None
    case Numbers(xs) => Some(xs)
  }

  /** `zip(*rows)`: the rows of the product turned into four columns. */
  function Transpose<M>(rows: seq<(string, real, real, M)>): (c: Columns<M>)
    ensures |c.mech| == |c.T| == |c.P| == |c.X| == |rows|
    ensures forall k :: 0 <= k < |rows| ==> rows[k] == (c.mech[k], c.T[k], c.P[k], c.X[k])
  {
    Columns(seq(|rows|, k requires 0 <= k < |rows| => rows[k].0),
            seq(|rows|, k requires 0 <= k < |rows| => rows[k].1),
            seq(|rows|, k requires 0 <= k < |rows| => rows[k].2),
            seq(|rows|, k requires 0 <= k < |rows| => rows[k].3))
  }

  /** `SimulationPool.parameter_study(mech, T, P, X)`, up to the columns it
      passes on: every combination, `mech` outermost and `X` innermost. */
  function ParameterStudy<M>(mech: OneOrMany<string>, T: NumberArg, P: NumberArg, X: OneOrMany<M>)
    : (r: Result<Columns<M>, GridError>)
    ensures T.IntValue? ==> r == Err(NotIterable("T"))
    ensures !T.IntValue? && P.IntValue? ==> r == Err(NotIterable("P"))
    ensures r.Ok? ==> NumberList(T).Some? && NumberList(P).Some?
    ensures r.Ok? ==>
      (var n := |AsList(mech)| * (|NumberList(T).value| * (|NumberList(P).value| * |AsList(X)|));
       n > 0 && |r.value.mech| == |r.value.T| == |r.value.P| == |r.value.X| == n)
  {
    match (NumberList(T), NumberList(P))
    case (None, _) => Err(NotIterable("T"))
    case (_, None) => Err(NotIterable("P"))
    case (Some(ts), Some(ps)) =>
      var rows := Lists.Product4(AsList(mech), ts, ps, AsList(X));
      if |rows| == 0 then Err(NoCases) else Ok(Transpose(rows))
  }

  /** The grid holds each combination of one mechanism, temperature,
      pressure and mixture at its lexicographic position, and as often as
      the four values occur in their arguments: exactly once when no
      argument repeats a value. An empty argument leaves no cases. */
  lemma ParameterStudyGrid<M>(mech: OneOrMany<string>, ts: seq<real>, ps: seq<real>, X: OneOrMany<M>,
                              i: nat, j: nat, k: nat, l: nat)
    requires i < |AsList(mech)| && j < |ts| && k < |ps| && l < |AsList(X)|
    ensures var r := ParameterStudy(mech, Numbers(ts), Numbers(ps), X);
      var pos := Lists.Position(i, j, k, l, |ts|, |ps|, |AsList(X)|);
      r.Ok? && pos < |r.value.mech| &&
      (r.value.mech[pos], r.value.T[pos], r.value.P[pos], r.value.X[pos]) ==
        (AsList(mech)[i], ts[j], ps[k], AsList(X)[l])
    ensures var rows := Lists.Product4(AsList(mech), ts, ps, AsList(X));
      var c := (AsList(mech)[i], ts[j], ps[k], AsList(X)[l]);
      Lists.Count(rows, c) ==
        Lists.Count(AsList(mech), c.0) * (Lists.Count(ts, c.1) * (Lists.Count(ps, c.2) * Lists.Count(AsList(X), c.3)))
  {
    var ms, xs := AsList(mech), AsList(X);
    Lists.Product4At(ms, ts, ps, xs, i, j, k, l);
    Lists.Product4Count(ms, ts, ps, xs, (ms[i], ts[j], ps[k], xs[l]));
  }

  /** A single float temperature or pressure is promoted to the list holding
      it. */
  lemma FloatPromoted<M>(mech: OneOrMany<string>, x: real, T: NumberArg, P: NumberArg, X: OneOrMany<M>)
    ensures ParameterStudy(mech, FloatValue(x), P, X) == ParameterStudy(mech, Numbers([x]), P, X)
    ensures ParameterStudy(mech, T, FloatValue(x), X) == ParameterStudy(mech, T, Numbers([x]), X)
  {
  }

  lemma ZeroFactor(a: nat, b: nat, c: nat, d: nat)
    requires a == 0 || b == 0 || c == 0 || d == 0
    ensures a * (b * (c * d)) == 0
  {
    if c == 0 || d == 0 {
      assert c * d == 0;
    }
  }

  /** An empty argument gives no cases at all. */
  lemma EmptyArgumentNoCases<M>(mech: OneOrMany<string>, ts: seq<real>, ps: seq<real>, X: OneOrMany<M>)
    requires |AsList(mech)| == 0 || |ts| == 0 || |ps| == 0 || |AsList(X)| == 0
    ensures ParameterStudy(mech, Numbers(ts), Numbers(ps), X) == Err(NoCases)
  {
    var rows := Lists.Product4(AsList(mech), ts, ps, AsList(X));
    ZeroFactor(|AsList(mech)|, |ts|, |ps|, |AsList(X)|);
    assert |rows| == 0;
    assert NumberList(Numbers(ts)) == Some(ts) && NumberList(Numbers(ps)) == Some(ps);
  }
}
