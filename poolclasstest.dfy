/** The case grid and the reverse mixture lookup of the `SimulationPool` in
    `knightshock/poolclasstest.py`. A Python dict is its list of items in
    insertion order; nothing here relies on its keys being distinct. */
module PoolClassTest {
  import Lists

  /** `dict.items()`: key/value pairs in insertion order. */
  type Items<V> = seq<(string, V)>

  /** What `get_key` returns when no value matches. */
  const Missing: string := "key doesn't exist"

  /** `i` is the first item whose value is `val`. */
  predicate IsFirstMatch<V(==)>(d: Items<V>, val: V, i: int) {
    0 <= i < |d| && d[i].1 == val && forall j :: 0 <= j < i ==> d[j].1 != val
  }

  /** The answer `get_key` gives: the key of the first item holding `val`, or
      the sentinel when none does. */
  function FirstKey<V(==)>(d: Items<V>, val: V): (k: string)
    ensures (exists i :: 0 <= i < |d| && d[i].1 == val) ==>
              exists i :: IsFirstMatch(d, val, i) && k == d[i].0
    ensures (forall i :: 0 <= i < |d| ==> d[i].1 != val) ==> k == Missing
  {
    if |d| == 0 then Missing
    else if d[0].1 == val then d[0].0
    else
      var k := FirstKey(d[1..], val);
      assert forall i :: 1 <= i < |d| ==> d[i] == d[1..][i - 1];
      assert forall m :: IsFirstMatch(d[1..], val, m) ==> IsFirstMatch(d, val, m + 1);
      k
  }

  /** `SimulationPool.get_key(dictionary, val)`: walk the items in order and
      return at the first match. The dictionary is a value, so it is left as
      it was. */
  method GetKey<V(==)>(dictionary: Items<V>, val: V) returns (key: string)
    ensures key == FirstKey(dictionary, val)
  {
    var i := 0;
    while i < |dictionary|
      invariant i <= |dictionary|
      invariant forall j :: 0 <= j < i ==> dictionary[j].1 != val
    {
      if dictionary[i].1 == val {
        FirstMatchUnique(dictionary, val, i);
        return dictionary[i].0;
      }
      i := i + 1;
    }
    return Missing;
  }

  /** Only one item is the first match, so `FirstKey` names its key. */
  lemma FirstMatchUnique<V>(d: Items<V>, val: V, i: nat)
    requires IsFirstMatch(d, val, i)
    ensures FirstKey(d, val) == d[i].0
  {
    assert d[i].1 == val;
    var m :| IsFirstMatch(d, val, m) && FirstKey(d, val) == d[m].0;
    assert IsFirstMatch(d, val, m);
    assert d[m].1 == val && d[i].1 == val;
    assert !(m < i) && !(i < m);
  }

  /** `list(itertools.product(Mechs, Mixtures.values(), Pressures, Temps))`,
      each tuple unpacked by `run` and `save_to_CSV` as `(mech, X, P, T)`. */
  function TupledInputs<M, V>(mechs: seq<M>, mixtures: Items<V>, pressures: seq<real>, temps: seq<real>)
    : (r: seq<(M, V, real, real)>)
    ensures |r| == |mechs| * (|mixtures| * (|pressures| * |temps|))
  {
    Lists.Product4(mechs, Lists.Seconds(mixtures), pressures, temps)
  }

  /** Mechanism `a`, mixture `b`, pressure `c` and temperature `d` form the
      case at the lexicographic position of `(a, b, c, d)`, mechanisms
      outermost and temperatures innermost, and every combination occurs as
      often as its parts: once when no list repeats a value. */
  lemma TupledInputsGrid<M, V>(mechs: seq<M>, mixtures: Items<V>, pressures: seq<real>, temps: seq<real>,
                               a: nat, b: nat, c: nat, d: nat)
    requires a < |mechs| && b < |mixtures| && c < |pressures| && d < |temps|
    ensures var r := TupledInputs(mechs, mixtures, pressures, temps);
      var pos := Lists.Position(a, b, c, d, |mixtures|, |pressures|, |temps|);
      pos < |r| && r[pos] == (mechs[a], mixtures[b].1, pressures[c], temps[d])
    ensures var r := TupledInputs(mechs, mixtures, pressures, temps);
      var t := (mechs[a], mixtures[b].1, pressures[c], temps[d]);
      Lists.Count(r, t) ==
        Lists.Count(mechs, t.0) *
        (Lists.Count(Lists.Seconds(mixtures), t.1) * (Lists.Count(pressures, t.2) * Lists.Count(temps, t.3)))
  {
    var vs := Lists.Seconds(mixtures);
    Lists.Product4At(mechs, vs, pressures, temps, a, b, c, d);
    Lists.Product4Count(mechs, vs, pressures, temps, (mechs[a], vs[b], pressures[c], temps[d]));
  }

  /** Every case's mixture is one of the dictionary's values. */
  lemma CaseMixtureIsValue<M, V>(mechs: seq<M>, mixtures: Items<V>, pressures: seq<real>, temps: seq<real>,
                                 k: nat)
    returns (b: nat)
    requires k < |TupledInputs(mechs, mixtures, pressures, temps)|
    ensures b < |mixtures| && TupledInputs(mechs, mixtures, pressures, temps)[k].1 == mixtures[b].1
  {
    var vs := Lists.Seconds(mixtures);
    var inner := Lists.Product(vs, Lists.Product(pressures, temps));
    var outer := Lists.Product(mechs, inner);
    assert TupledInputs(mechs, mixtures, pressures, temps)[k] == Lists.Flat(outer[k]);
    var a, p := ProductIndex(mechs, inner, k);
    var q;
    b, q := ProductIndex(vs, Lists.Product(pressures, temps), p);
  }

  /** Looking a case's mixture up again, as `save_to_CSV` does, finds a key
      holding that very mixture: never the sentinel, unless the sentinel is
      itself one of the keys. */
  lemma EveryCaseHasKey<M, V>(mechs: seq<M>, mixtures: Items<V>, pressures: seq<real>, temps: seq<real>,
                              k: nat)
    requires k < |TupledInputs(mechs, mixtures, pressures, temps)|
    ensures var X := TupledInputs(mechs, mixtures, pressures, temps)[k].1;
      exists i :: 0 <= i < |mixtures| && mixtures[i] == (FirstKey(mixtures, X), X)
    ensures var X := TupledInputs(mechs, mixtures, pressures, temps)[k].1;
      (forall i :: 0 <= i < |mixtures| ==> mixtures[i].0 != Missing) ==> FirstKey(mixtures, X) != Missing
  {
    var X := TupledInputs(mechs, mixtures, pressures, temps)[k].1;
    var b := CaseMixtureIsValue(mechs, mixtures, pressures, temps, k);
    KeyOfStoredValue(mixtures, b);
  }

  /** A value stored in the dictionary is found again under a key that holds it. */
  lemma KeyOfStoredValue<V>(d: Items<V>, b: nat)
    requires b < |d|
    ensures exists i :: 0 <= i < |d| && d[i] == (FirstKey(d, d[b].1), d[b].1)
    ensures (forall i :: 0 <= i < |d| ==> d[i].0 != Missing) ==> FirstKey(d, d[b].1) != Missing
  {
    var val := d[b].1;
    assert exists i :: 0 <= i < |d| && d[i].1 == val;
    var k := FirstKey(d, val);
    var m :| IsFirstMatch(d, val, m) && k == d[m].0;
    assert IsFirstMatch(d, val, m);
    assert d[m] == (k, val);
  }

  /** Position `k` of a product pairs the element at some `i` of the first
      factor with the element at some `j` of the second. */
  lemma {:induction false} ProductIndex<A, B>(xs: seq<A>, ys: seq<B>, k: nat) returns (i: nat, j: nat)
    requires k < |Lists.Product(xs, ys)|
    ensures i < |xs| && j < |ys| && Lists.Product(xs, ys)[k] == (xs[i], ys[j])
  {
    var row := Lists.Row(xs[0], ys);
    var rest := Lists.Product(xs[1..], ys);
    assert Lists.Product(xs, ys) == row + rest;
    if k < |ys| {
      i, j := 0, k;
    } else {
      var i', j' := ProductIndex(xs[1..], ys, k - |ys|);
      i, j := i' + 1, j';
    }
  }
}
