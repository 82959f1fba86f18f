/** The sampled reactor history a `Simulation` keeps in its `states` array:
    one row per integrator step, the first row the initial state, and the
    numpy reductions (`argmax`, `max`, `diff`) the analyses apply to it. */
module ReactorStates {
  import opened Wrappers
  import Lists

  predicate StrictlyIncreasing(t: seq<real>) {
    forall i, j :: 0 <= i < j < |t| ==> t[i] < t[j]
  }

  /** `states.t`, `states.T`, `states.species_names` and `states.X` (one row
      of mole fractions per sample, one column per species). */
  datatype States = States(t: seq<real>, T: seq<real>, speciesNames: seq<string>, X: seq<seq<real>>)
  {
    /** What the stepping loop guarantees: at least the initial sample,
        columns of one length, times strictly increasing, species distinct. */
    predicate Valid() {
      |t| >= 1 && |T| == |t| && |X| == |t| &&
      (forall i :: 0 <= i < |X| ==> |X[i]| == |speciesNames|) &&
      StrictlyIncreasing(t) && Lists.NoDup(speciesNames)
    }
  }

  /** The exceptions the analyses raise. */
  datatype Error =
    | UnknownSpecies(name: string)   // the species lookup of `states(species)`
    | EmptyArgmax                    // numpy's argmax of an empty array
    | InvalidMethod(methodName: string)  // the explicit `ValueError` for the method name

  /** Column `k` of a table of rows. */
  function Column(rows: seq<seq<real>>, k: nat): (c: seq<real>)
    requires forall i :: 0 <= i < |rows| ==> k < |rows[i]|
    ensures |c| == |rows| && forall i :: 0 <= i < |rows| ==> c[i] == rows[i][k]
  {
    seq(|rows|, i requires 0 <= i < |rows| => rows[i][k])
  }

  /** `Simulation.X(species)`: the mole-fraction history of one species. */
  function MoleFractionHistory(s: States, species: string): (r: Result<seq<real>, Error>)
    requires s.Valid()
    ensures r.Err? <==> species !in s.speciesNames
    ensures r.Err? ==> r.error == UnknownSpecies(species)
    ensures r.Ok? ==> |r.value| == |s.t|
    ensures r.Ok? ==>
      forall i :: 0 <= i < |s.t| ==> r.value[i] == s.X[i][Lists.IndexOf(s.speciesNames, species)]
  {
    if species in s.speciesNames then Ok(Column(s.X, Lists.IndexOf(s.speciesNames, species)))
    else Err(UnknownSpecies(species))
  }

  /** The analysed signal: the temperature history without a species,
      that species' mole-fraction history otherwise. */
  function Signal(s: States, species: Option<string>): (r: Result<seq<real>, Error>)
    requires s.Valid()
    ensures species.None? ==> r == Ok(s.T)
    ensures species.Some? ==> r == MoleFractionHistory(s, species.value)
    ensures r.Ok? ==> |r.value| == |s.t|
  {
    match species
    case None => Ok(s.T)
    case Some(name) => MoleFractionHistory(s, name)
  }

  // ---------------------------------------------------------------------
  // numpy reductions

  /** `i` is what `numpy.argmax(v)` returns: an index of the maximum, and
      the first such index. */
  predicate IsFirstMax(v: seq<real>, i: nat) {
    i < |v| &&
    (forall j :: 0 <= j < |v| ==> v[j] <= v[i]) &&
    (forall j :: 0 <= j < i ==> v[j] < v[i])
  }

  /** `numpy.argmax(v)` of a non-empty array. */
  function ArgMax(v: seq<real>): (i: nat)
    requires |v| >= 1
    ensures IsFirstMax(v, i)
  {
    if |v| == 1 then 0
    else
      var j := ArgMax(v[..|v| - 1]);
      assert forall k :: 0 <= k < |v| - 1 ==> v[..|v| - 1][k] == v[k];
      if v[|v| - 1] > v[j] then |v| - 1 else j
  }

  /** There is only one first maximiser. */
  lemma FirstMaxUnique(v: seq<real>, i: nat, j: nat)
    ensures IsFirstMax(v, i) && IsFirstMax(v, j) ==> i == j
  {
    if IsFirstMax(v, i) && IsFirstMax(v, j) {
      assert v[i] <= v[j] && v[j] <= v[i];
    }
  }

  /** `numpy.max(v)` of a non-empty array. */
  function Max(v: seq<real>): (m: real)
    requires |v| >= 1
    ensures m in v && forall j :: 0 <= j < |v| ==> v[j] <= m
  {
    if |v| == 1 then v[0]
    else
      var m := Max(v[1..]);
      assert forall j :: 1 <= j < |v| ==> v[j] == v[1..][j - 1];
      if v[0] > m then v[0] else m
  }

  /** `numpy.diff(x) / numpy.diff(t)`: the slope between consecutive samples. */
  function Slopes(t: seq<real>, x: seq<real>): (d: seq<real>)
    requires |x| == |t| >= 1 && StrictlyIncreasing(t)
    ensures |d| == |t| - 1
    ensures forall i :: 0 <= i < |d| ==> d[i] == (x[i + 1] - x[i]) / (t[i + 1] - t[i])
  {
    seq(|t| - 1, i requires 0 <= i < |t| - 1 => (x[i + 1] - x[i]) / (t[i + 1] - t[i]))
  }

  /** `numpy.max(states.X.T, axis=1)`: each species' largest mole fraction
      over the whole history, in species order. */
  function PeakMoleFractions(s: States): (m: seq<real>)
    requires s.Valid()
    ensures |m| == |s.speciesNames|
    ensures forall k :: 0 <= k < |m| ==>
      (forall i :: 0 <= i < |s.t| ==> s.X[i][k] <= m[k]) &&
      (exists i :: 0 <= i < |s.t| && s.X[i][k] == m[k])
  {
    seq(|s.speciesNames|, k requires 0 <= k < |s.speciesNames| => Max(Column(s.X, k)))
  }
}
