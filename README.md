# KnightShock analysis core in Dafny

KnightShock runs constant-volume shock-tube simulations with Cantera and
analyses what they produce. This project models the parts that are
computation rather than simulation:

- the ignition delay time read off a reactor history. The `inflection`
  method takes the first steepest step of the temperature or of a species'
  mole fraction. The `peak` method takes the first maximum. Both appear in
  two versions: the newer `knightshock/kinetics.py`, which reports an
  undefined delay (NaN) when the answer lies on the edge of the simulated
  window, and the older `shocktube/kinetics.py`, which does not check;
- `get_top_species`, which ranks species by their largest mole fraction,
  removes excluded names and cuts the list to `n`;
- the case grids of `SimulationPool.parameter_study` and of the
  multiprocessing pool in `knightshock/poolclasstest.py`, with its reverse
  mixture lookup `get_key`;
- `format_mixture`, which turns a mixture dict or a text such as
  `"H2:0.1, O2:0.05, AR:0.85"` into a dict of upper-cased species names and
  mole fractions;
- `species_mole_fraction`, the Beer-Lambert law solved for the mole
  fraction.

The reactor history is a value (`ReactorStates.States`) holding the sample
times, the temperatures, the species names and the mole-fraction rows.
Every operation of the core is a pure computation on its arguments. The one
loop that changes a local list in place, the exclusion loop of
`get_top_species` (`Kinetics.RemoveNames`), is a `method` with loop invariants, and so is the
search loop of `get_key`. Python exceptions are `Err` values of a `Result`, except the division by
zero of `species_mole_fraction`, which is `None` of an `Option`.
NaN is `None` of an `Option`.

Two behaviours of `format_mixture` are proved as they are. A text without
`:` becomes one species name even when it holds commas, so `"H2, O2"` gives
the single key `"H2, O2"` with fraction 1.0 (`Mixture.BareName`). A trailing
comma in a text with `:` leaves an empty element that does not unpack into a
name and a value, so the call fails (`Mixture.TrailingCommaFails`).

Modules: `Wrappers` (Option, Result), `Text` (the `str` operations used),
`FloatText` (`float()` of a decimal literal), `Lists` (list removal,
filtering, slicing, cartesian products), `ReactorStates` (the history and
the numpy reductions), `Ranking` (the sorted ranking), `Kinetics`
(knightshock/kinetics.py), `ShocktubeKinetics` (shocktube/kinetics.py),
`PoolClassTest`, `Mixture` (`format_mixture`) and `Absorption`.

## Model

| member | source | states |
|---|---|---|
| ReactorStates.MoleFractionHistory | knightshock/kinetics.py:56-64 | a species' history is its column of mole fractions, one entry per sample; an unknown species is an error |
| ReactorStates.Signal | knightshock/kinetics.py:83 | the analysed signal is the temperature history without a species and that species' mole-fraction history otherwise |
| ReactorStates.ArgMax | knightshock/kinetics.py:85 | `numpy.argmax` returns the first index of a maximum |
| ReactorStates.FirstMaxUnique | knightshock/kinetics.py:85 | only one index is the first maximiser |
| ReactorStates.Max | knightshock/kinetics.py:107 | `numpy.max` is an element of the array and bounds every element |
| ReactorStates.Slopes | knightshock/kinetics.py:85 | `diff(x) / diff(t)` has one entry fewer than `t`, the slope between consecutive samples |
| ReactorStates.PeakMoleFractions | knightshock/kinetics.py:107 | each species' entry bounds its whole history and is reached at some sample |
| Kinetics.InflectionTime | knightshock/kinetics.py:84-86 | fewer than two samples is an error; undefined exactly when the first steepest step is the last one; otherwise the start time of the first steepest step |
| Kinetics.PeakTime | knightshock/kinetics.py:87-89 | undefined exactly when the first maximum is the last sample; otherwise the time of the first maximum |
| Kinetics.IgnitionDelayTime | knightshock/kinetics.py:83-91 | an unknown species is reported before an invalid method name; an invalid name is a `ValueError`; the valid names dispatch to the two methods |
| Kinetics.DelayInsideWindow | knightshock/kinetics.py:86-89 | a defined delay is one of the sample times and lies strictly before the last one |
| Kinetics.ExclusionList | knightshock/kinetics.py:110-112 | no exclusion removes nothing, and a single string is the one-element list, not its characters |
| Kinetics.RemoveEach | knightshock/kinetics.py:113-117 | removing the excluded names one by one takes out at most one species per name and adds none |
| Kinetics.RemoveNames | knightshock/kinetics.py:113-117 | the exclusion loop leaves the list `RemoveEach` describes |
| Kinetics.RemoveEachFilters | knightshock/kinetics.py:110-117 | on distinct names, removing each upper-cased excluded name once is filtering out the set of upper-cased names; absent names change nothing |
| Kinetics.TopOfRanking | knightshock/kinetics.py:107-119 | the filtered, cut ranking repeats no species, holds no excluded one, keeps the ranking order and, without `n`, holds every species not excluded |
| Kinetics.GetTopSpecies | knightshock/kinetics.py:107-119 | the result is the ranking with the upper-cased exclusions removed, cut to `n`; distinct, ordered by peak mole fraction then name, descending, complete when `n` is None |
| Kinetics.Transpose | knightshock/kinetics.py:160 | `zip(*rows)` gives four columns of the rows' length whose k-th entries form the k-th row |
| Kinetics.AsList | knightshock/kinetics.py:155-158 | a single mechanism or mixture is promoted to the one-element list, a list is kept |
| Kinetics.NumberList | knightshock/kinetics.py:151-154 | a float temperature or pressure is promoted to the one-element list, a list is kept, an int is not iterable |
| Kinetics.FloatPromoted | knightshock/kinetics.py:151-154 | the parameter study with a float temperature or pressure is the study with the one-element list |
| Kinetics.ParameterStudy | knightshock/kinetics.py:151-165 | an int temperature or pressure is not iterable and fails; otherwise as many cases as the product of the four list lengths |
| Kinetics.ParameterStudyGrid | knightshock/kinetics.py:160-165 | each combination of mechanism, temperature, pressure and mixture sits at its lexicographic position, mechanism outermost, and occurs as often as the product of its parts' multiplicities |
| Kinetics.EmptyArgumentNoCases | knightshock/kinetics.py:160-165 | an empty argument list leaves no case at all |
| ShocktubeKinetics.InflectionTime | shocktube/kinetics.py:65-66 | the start time of the first steepest step, the last step included; an error with fewer than two samples |
| ShocktubeKinetics.PeakTime | shocktube/kinetics.py:67-68 | the time of the first maximum, the last sample included |
| ShocktubeKinetics.IgnitionDelayTime | shocktube/kinetics.py:64-70 | the same dispatch and errors as the newer version, without the edge check |
| ShocktubeKinetics.InflectionAgrees | shocktube/kinetics.py:65-66 | where the newer inflection method gives a time the older one gives the same; the newer one is undefined exactly when the older one returns the start of the last step |
| ShocktubeKinetics.PeakAgrees | shocktube/kinetics.py:67-68 | where the newer peak method gives a time the older one gives the same; the newer one is undefined exactly when the older one returns the last sample time |
| ShocktubeKinetics.VersionsAgree | shocktube/kinetics.py:64-70 | both versions raise the same errors; a defined newer delay equals the older one; the newer one is undefined exactly when the older one lands on the window edge |
| Ranking.BelowTransitive | knightshock/kinetics.py:108 | tuple comparison is transitive |
| Ranking.BelowTotal | knightshock/kinetics.py:108 | distinct tuples are comparable |
| Ranking.Insert | knightshock/kinetics.py:108 | insertion adds exactly the new entry to the multiset |
| Ranking.SortDescending | knightshock/kinetics.py:108 | `sorted(..., reverse=True)` is a permutation of its input |
| Ranking.SortIsDescending | knightshock/kinetics.py:108 | the sorted entries are in descending tuple order |
| Ranking.SortedEntries | knightshock/kinetics.py:107-108 | the sorted entries are one per species, distinct, descending, each a species paired with its own peak |
| Ranking.RankedNames | knightshock/kinetics.py:108 | the ranking has one name per species |
| Ranking.RankedNamesMembers | knightshock/kinetics.py:108 | the ranking lists exactly the species, as many as there are |
| Ranking.RankedNamesOrdered | knightshock/kinetics.py:108 | the ranking repeats no species and lists a species before every species it outranks |
| Lists.RemoveFirst | knightshock/kinetics.py:114-117 | `list.remove` shortens the list by one when the value is present; a missing value (the swallowed `ValueError`) leaves the list alone |
| Lists.RemoveFirstShrinks | knightshock/kinetics.py:115 | `remove` takes one copy of the value out of the list's multiset, if there is one, and nothing else |
| Lists.RemoveFirstCuts | knightshock/kinetics.py:115 | the list after `remove` is the list with exactly the first occurrence cut out |
| Lists.RemoveFirstIsFilter | knightshock/kinetics.py:115 | on a list without duplicates, removing a value is filtering it out |
| Lists.FilterChain | knightshock/kinetics.py:113-117 | removals keep the relative order of what stays |
| Lists.SliceEnd | knightshock/kinetics.py:119 | `species[:n]` ends at `n` clamped to the length, counts a negative `n` from the end, and takes all for None |
| Lists.Head | knightshock/kinetics.py:119 | `species[:n]` is the prefix of the list that ends where `SliceEnd` says |
| Lists.HeadKeeps | knightshock/kinetics.py:119 | a prefix keeps the order of the list |
| Lists.ProductAt | knightshock/poolclasstest.py:25-26 | the product holds each pair at position `i * |ys| + j` |
| Lists.ProductCount | knightshock/poolclasstest.py:25-26 | a pair occurs in the product as often as the product of its parts' counts |
| Lists.Product4At | knightshock/poolclasstest.py:25-26 | the four-way product holds each combination at its lexicographic position |
| Lists.Product4Count | knightshock/poolclasstest.py:25-26 | a combination occurs in the four-way product as often as the product of its parts' counts |
| PoolClassTest.FirstKey | knightshock/poolclasstest.py:67-71 | the key of the first item holding the value, or the sentinel when none does |
| PoolClassTest.GetKey | knightshock/poolclasstest.py:67-71 | the search loop returns exactly the first matching key, or `"key doesn't exist"` |
| PoolClassTest.FirstMatchUnique | knightshock/poolclasstest.py:68-70 | the first match is unique, so the loop's early return gives `FirstKey` |
| PoolClassTest.TupledInputs | knightshock/poolclasstest.py:25-26 | one case per combination of mechanism, mixture value, pressure and temperature |
| PoolClassTest.TupledInputsGrid | knightshock/poolclasstest.py:25-45 | each combination sits at its lexicographic position, mechanisms outermost, unpacked as `(mech, X, P, T)`, and occurs as often as its parts |
| PoolClassTest.CaseMixtureIsValue | knightshock/poolclasstest.py:25-26 | every case's mixture is one of the dictionary's values |
| PoolClassTest.EveryCaseHasKey | knightshock/poolclasstest.py:59-60 | looking a case's mixture up again finds a key holding that mixture, never the sentinel unless the sentinel is itself a key |
| PoolClassTest.KeyOfStoredValue | knightshock/poolclasstest.py:67-71 | a stored value is found under a key that holds it |
| Text.Upper | knightshock/__init__.py:11-13 | `str.upper` keeps the length and leaves no lower-case letter |
| Text.Strip | knightshock/__init__.py:11-18 | `str.strip` removes only surrounding whitespace: the result is an infix with whitespace on both sides and none at its ends |
| Text.StripKeeps | knightshock/__init__.py:15 | every character that is not whitespace survives `strip` |
| Text.StripInfix | knightshock/__init__.py:18 | `strip` adds no character, so a name stripped from text without `:` holds no `:` |
| Text.StripStripped | knightshock/__init__.py:18 | a stripped string is left alone |
| Text.Split | knightshock/__init__.py:19 | `str.split(sep)` gives at least one piece and no piece holds the separator |
| Text.JoinSplit | knightshock/__init__.py:19 | joining the pieces of a split gives back the string |
| Text.SplitJoin | knightshock/__init__.py:19 | splitting a join of separator-free pieces gives back the pieces |
| Text.Delete | knightshock/__init__.py:13 | `replace(c, "")` removes every occurrence of `c` and keeps the count of every other character |
| Text.DeleteChar | knightshock/__init__.py:13 | on one character, `replace(c, "")` gives the empty string for `c` and the character itself otherwise |
| Text.DeleteConcat | knightshock/__init__.py:13 | `replace(c, "")` works piece by piece, so with `DeleteChar` it keeps every other character in its order |
| Text.Less | knightshock/kinetics.py:108 | string `<` never holds between equal strings and puts a proper prefix first |
| FloatText.ParseFloat | knightshock/__init__.py:11-18 | `float(text)` refuses every text without a decimal digit |
| FloatText.ParseIgnoresSpace | knightshock/__init__.py:11-18 | `float()` ignores surrounding whitespace |
| FloatText.ParseNatText | knightshock/__init__.py:18 | `float()` of a digit string is its value |
| FloatText.ParseDecimal | knightshock/__init__.py:18 | `float()` of a signed decimal is the signed value of its digits scaled by the fraction length |
| FloatText.ParseScientific | knightshock/__init__.py:18 | `float()` of `mEe` is `m` times ten to the signed `e` |
| Mixture.ToFloat | knightshock/__init__.py:11-18 | `float(y)` of a float or an int is its value; of a text, succeeds exactly when the text parses, else `ValueError`; of any other value, `TypeError` |
| Mixture.Convert | knightshock/__init__.py:11-20 | the generator succeeds exactly when every element converts, elementwise; otherwise the first failing element's error |
| Mixture.DictOf | knightshock/__init__.py:11-20 | `dict(pairs)` has no more keys than there are pairs, and the last pair's key holds the last pair's value |
| Mixture.DictOfLastWins | knightshock/__init__.py:11-17 | `dict(pairs)` has exactly the pairs' keys, and each key holds its last value |
| Mixture.NormalKey | knightshock/__init__.py:11 | a dict key is stripped and upper-cased |
| Mixture.DictEntry | knightshock/__init__.py:11 | a dict item becomes the normalised key and `float` of its value, or `float`'s error |
| Mixture.Clean | knightshock/__init__.py:13 | the cleaned text is upper case without braces |
| Mixture.CleanConcat | knightshock/__init__.py:13 | cleaning works piece by piece |
| Mixture.CleanChar | knightshock/__init__.py:13 | cleaning drops a brace and upper-cases any other character, so with `CleanConcat` it keeps every non-brace character, upper-cased, in order |
| Mixture.CleanKeeps | knightshock/__init__.py:13 | cleaning keeps every character that is not a letter or a brace |
| Mixture.ParseElement | knightshock/__init__.py:19 | an element that does not split into exactly two parts on `:` fails; a parsed name is stripped and holds no `:` |
| Mixture.FormatMixture | knightshock/__init__.py:9-22 | the explicit `TypeError` of the `else` branch (`NotStrOrDict`) is raised exactly for arguments that are neither dict nor str |
| Mixture.DictMixture | knightshock/__init__.py:10-11 | a dict converts when every value converts, else the first failure; keys are normalised and the last item of a key wins |
| Mixture.StringMixture | knightshock/__init__.py:16-20 | text with `:` converts when every comma-separated element parses, else the first failure; each name holds the last value given to it |
| Mixture.BareName | knightshock/__init__.py:14-15 | text without `:` is one stripped, cleaned name with fraction 1.0, commas included |
| Mixture.TrailingCommaFails | knightshock/__init__.py:17-20 | text with `:` and a trailing comma fails on the empty element |
| Mixture.KeysNormalised | knightshock/__init__.py:9-20 | every key of a formatted mixture is upper case and stripped |
| Mixture.ElementParses | knightshock/__init__.py:19 | a rendered `NAME: decimal` element parses back to the name and its value |
| Mixture.RenderParses | knightshock/__init__.py:9-20 | formatting the text `"A: x, B: y, ..."` of well-formed components gives back the dict of those components |
| Absorption.Attenuation | knightshock/absorption.py:49 | `sigma / 1E6 * N_A * L` is zero exactly when `sigma` or `L` is, and positive when both are |
| Absorption.SpeciesMoleFraction | knightshock/absorption.py:8-49 | division by zero exactly when `sigma`, `L` or `P` is zero; otherwise `A * R * T / (sigma / 1E6 * N_A * L * P)` |
| Absorption.Absorbance | knightshock/absorption.py:25-27 | the docstring's law `A = sigma X N_A L P / (R T)` with the code's 1E6 cross-section factor, undefined at zero temperature |
| Absorption.LawRecoversAbsorbance | knightshock/absorption.py:25-49 | put back into the law, the computed mole fraction gives back the absorbance |
| Absorption.InverseRecoversMoleFraction | knightshock/absorption.py:25-49 | the mole fraction computed from the absorbance a mole fraction produces is that mole fraction |
| Absorption.ZeroAbsorbance | knightshock/absorption.py:49 | zero absorbance gives zero mole fraction |
| Absorption.LinearInAbsorbance | knightshock/absorption.py:49 | scaling the absorbance by `k` scales the mole fraction by `k` |
| Absorption.GrowsWithAbsorbanceAndTemperature | knightshock/absorption.py:49 | with positive parameters the mole fraction grows strictly with the absorbance and with the temperature |
| Absorption.ShrinksWithCrossSectionPathAndPressure | knightshock/absorption.py:49 | with positive parameters the mole fraction falls strictly as the cross-section, the path length or the pressure grows |

## Left out

- The Cantera simulation itself (`Simulation.__init__`): reactor stepping, `SolutionArray` and printing are calls into Cantera. The model takes the resulting history as a `States` value whose validity predicate states what the stepping loop guarantees.
- `SimulationPool.__init__`, `__getitem__`, `_run_case`, `knightshock/pool.py`, `init_process`, `run` and the `multiprocessing.Pool`: process pools, a Cantera solution cache and concurrency. The model stops at the list of cases each pool is handed.
- `save_to_CSV`: file output and the DataFrame. Only its key lookup is modelled.
- `knightshock/figures.py`, `shocktube/figures.py`, `shocktube/plan.py` and `knightshock/constants.py` are not part of this model: plotting, planning and constants only.
- The pandas DataFrame of `SimulationPool.__init__`: `Kinetics.ParameterStudy` stops at the four columns passed to it, and the extra `*args` and `**kwargs` are not modelled. An empty grid is `NoCases` because `zip(*[])` leaves no columns to unpack.
- Floating point: times, temperatures, mole fractions and the Beer-Lambert formula are over the reals, with no rounding. A NaN delay is `None`. numpy's NaN handling in `argmax` and `max` is not modelled.
- Absorption.SpeciesMoleFraction: scalars only. The numpy array case is the same formula applied elementwise.
- Kinetics.GetTopSpecies: models `get_top_species` of both `knightshock/kinetics.py:107-119` and `shocktube/kinetics.py:86-98`, whose code is identical.
- Kinetics.GetTopSpecies: excluded names are matched exactly after upper-casing, as `list.remove` does; the species names themselves are not upper-cased.
- Text.Upper: ASCII letters only. Python's full Unicode case mapping is not modelled.
- FloatText.ParseFloat: decimal and scientific literals only. `inf`, `nan`, digit-group underscores and non-ASCII digits are not accepted.
- Mixture.ToFloat: a dict value that is neither a number nor a string is one `OtherValue`; which Python objects define `__float__` is not modelled, and all of them are refused with the `TypeError`.
- Mixture.FormatMixture: a dict is the list of its items in insertion order with keys taken as strings; the insertion order of the resulting dict is not modelled, only its keys and values.
- ReactorStates.MoleFractionHistory: Cantera's species lookup is modelled as an exact-name lookup.
- PoolClassTest.GetKey: that the dictionary is left unchanged holds because it is a value here.
