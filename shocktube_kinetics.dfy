/** `Simulation.ignition_delay_time` of `shocktube/kinetics.py`, the older
    version without the window-edge check, and how it relates to the newer
    one in `Kinetics`. Its `get_top_species` is the same code as the newer
    one and is modelled once, by `Kinetics.GetTopSpecies`. */
module ShocktubeKinetics {
  import opened Wrappers
  import opened ReactorStates
  import Kinetics

  /** `method="inflection"`: the time of the first steepest step, whichever
      step that is, the last one included. */
  function InflectionTime(t: seq<real>, x: seq<real>): (r: Result<real, Error>)
    requires |x| == |t| >= 1 && StrictlyIncreasing(t)
    ensures r.Err? <==> |t| < 2
    ensures r.Err? ==> r.error == EmptyArgmax
    ensures r.Ok? ==> exists i :: 0 <= i < |t| - 1 && IsFirstMax(Slopes(t, x), i) && r.value == t[i]
  {
    if |t| < 2 then Err(EmptyArgmax) else Ok(t[ArgMax(Slopes(t, x))])
  }

  /** `method="peak"`: the time of the first maximum, the last sample
      included. */
  function PeakTime(t: seq<real>, x: seq<real>): (r: real)
    requires |x| == |t| >= 1 && StrictlyIncreasing(t)
    ensures exists i :: 0 <= i < |t| && IsFirstMax(x, i) && r == t[i]
  {
    t[ArgMax(x)]
  }

  /** `Simulation.ignition_delay_time(species, method=...)`: the signal is
      looked up first, then the method name is checked. */
  function IgnitionDelayTime(s: States, species: Option<string>, methodName: string)
    : (r: Result<real, Error>)
    requires s.Valid()
    ensures Signal(s, species).Err? ==> r == Err(UnknownSpecies(species.value))
    ensures Signal(s, species).Ok? && methodName != "inflection" && methodName != "peak" ==>
              r == Err(InvalidMethod(methodName))
    ensures r.Ok? ==> (methodName == "inflection" || methodName == "peak")
    ensures Signal(s, species).Ok? && methodName == "inflection" ==>
              r == InflectionTime(s.t, Signal(s, species).value)
    ensures Signal(s, species).Ok? && methodName == "peak" ==>
              r == Ok(PeakTime(s.t, Signal(s, species).value))
  {
    match Signal(s, species)
    case Err(e) => Err(e)
    case Ok(x) =>
      if methodName == "inflection" then InflectionTime(s.t, x)
      else if methodName == "peak" then Ok(PeakTime(s.t, x))
      else Err(InvalidMethod(methodName))
  }

  /** Where the older inflection method lands on the last step, the newer
      one is undefined, and there only. */
  lemma InflectionAgrees(t: seq<real>, x: seq<real>)
    requires |x| == |t| >= 2 && StrictlyIncreasing(t)
    ensures var k := Kinetics.InflectionTime(t, x);
      var o := InflectionTime(t, x);
      o.Ok? && k.Ok? && (k.value.Some? ==> o.value == k.value.value) &&
      (k.value.None? <==> o.value == t[|t| - 2])
  {
    var d := Slopes(t, x);
    var i := ArgMax(d);
    FirstMaxUnique(d, i, |t| - 2);
    if i < |t| - 2 {
      assert t[i] < t[|t| - 2];
    }
  }

  /** Where the older peak method lands on the last sample, the newer one is
      undefined, and there only. */
  lemma PeakAgrees(t: seq<real>, x: seq<real>)
    requires |x| == |t| >= 1 && StrictlyIncreasing(t)
    ensures var k := Kinetics.PeakTime(t, x);
      (k.Some? ==> PeakTime(t, x) == k.value) &&
      (k.None? <==> PeakTime(t, x) == t[|t| - 1])
  {
    var i := ArgMax(x);
    FirstMaxUnique(x, i, |t| - 1);
    if i < |t| - 1 {
      assert t[i] < t[|t| - 1];
    }
  }

  /** The window edge a method can land on: the start of the last step for
      "inflection", the last sample for "peak". */
  function EdgeTime(s: States, methodName: string): (e: real)
    requires s.Valid()
    ensures e in s.t
  {
    if methodName == "inflection" && |s.t| >= 2 then s.t[|s.t| - 2] else s.t[|s.t| - 1]
  }

  /** The newer result `k` and the older result `o` raise the same errors;
      a time from `k` is the time `o` gives; `k` is undefined exactly when
      `o` lands on `edge`. */
  ghost predicate Agree(k: Result<Option<real>, Error>, o: Result<real, Error>, edge: real) {
    (k.Err? <==> o.Err?) && (k.Err? ==> k.error == o.error) &&
    (k.Ok? && k.value.Some? ==> o == Ok(k.value.value)) &&
    (o.Ok? ==> (k == Ok(None) <==> o.value == edge))
  }

  /** The two versions raise the same errors. Where the newer one gives a
      time, the older one gives the same time; the newer one is undefined
      exactly when the older one lands on the window edge. */
  lemma VersionsAgree(s: States, species: Option<string>, methodName: string)
    requires s.Valid()
    ensures var k := Kinetics.IgnitionDelayTime(s, species, methodName);
      var o := IgnitionDelayTime(s, species, methodName);
      (k.Err? <==> o.Err?) && (k.Err? ==> k.error == o.error) &&
      (k.Ok? && k.value.Some? ==> o == Ok(k.value.value)) &&
      (o.Ok? ==> (k == Ok(None) <==> o.value == EdgeTime(s, methodName)))
  {
    var k := Kinetics.IgnitionDelayTime(s, species, methodName);
    var o := IgnitionDelayTime(s, species, methodName);
    if Signal(s, species).Ok? && methodName == "inflection" {
      InflectionVersionsAgree(s.t, Signal(s, species).value);
    } else if Signal(s, species).Ok? && methodName == "peak" {
      PeakVersionsAgree(s.t, Signal(s, species).value);
    }
    assert Agree(k, o, EdgeTime(s, methodName));
  }

  /** Two results that both succeed agree once their times match. */
  lemma BothDefined(k: Result<Option<real>, Error>, o: Result<real, Error>, edge: real)
    requires k.Ok? && o.Ok?
    requires k.value.Some? ==> o.value == k.value.value
    requires k.value.None? <==> o.value == edge
    ensures Agree(k, o, edge)
  {
  }

  lemma InflectionVersionsAgree(t: seq<real>, x: seq<real>)
    requires |x| == |t| >= 1 && StrictlyIncreasing(t)
    ensures Agree(Kinetics.InflectionTime(t, x), InflectionTime(t, x), if |t| >= 2 then t[|t| - 2] else t[|t| - 1])
  {
    if |t| >= 2 {
      InflectionAgrees(t, x);
      BothDefined(Kinetics.InflectionTime(t, x), InflectionTime(t, x), t[|t| - 2]);
    }
  }

  lemma PeakVersionsAgree(t: seq<real>, x: seq<real>)
    requires |x| == |t| >= 1 && StrictlyIncreasing(t)
    ensures Agree(Ok(Kinetics.PeakTime(t, x)), Ok(PeakTime(t, x)), t[|t| - 1])
  {
    PeakAgrees(t, x);
  }
}
