/** The pure part of `DataCollector` in `source/data_collector`: the CO2
    emissions of one observation of the generation mix, the map from
    timestamp to emissions built from a list of observations, and the two
    fragments of `_retrieve_energy_data` that clean the JSONP wrapper off the
    response text and keep its last twelve observations. */
module DataCollector {

  // ---------------------------------------------------------------------
  // Decoded observations
  // ---------------------------------------------------------------------

  /** A scalar JSON value as `json.loads` decodes it. */
  datatype Value = Num(n: real) | Text(s: string) | Null

  /** One observation: a decoded JSON object, e.g. `{"ts": "2020-08-27 21:00", "car": 120.5, ...}`. */
  type Observation = map<string, Value>

  /** The exceptions the computation can raise: a missing key
      (`observation[key]`) or a product of a non-number with a factor. */
  datatype Error = KeyError(key: string) | TypeError(key: string)

  datatype Result<T> = Ok(value: T) | Err(error: Error)

  /** The energy sources that emit CO2, in the order they are summed. */
  const PollutingEnergies: seq<string> := ["aut", "car", "cc", "cogenResto", "gf", "termRenov"]

  /** `CO2_EMISSIONS_FACTOR`: emissions per unit of energy of each source. */
  const Co2EmissionsFactor: map<string, real> :=
    map["aut" := 0.27, "car" := 0.95, "cc" := 0.37, "cogenResto" := 0.27, "gf" := 0.7, "termRenov" := 0.27]

  /** Every polluting energy has a factor. */
  ghost predicate HasFactors(energies: seq<string>)
  {
    forall k :: 0 <= k < |energies| ==> energies[k] in Co2EmissionsFactor
  }

  // ---------------------------------------------------------------------
  // _compute_emissions
  // ---------------------------------------------------------------------

  /** `observation[energy] * CO2_EMISSIONS_FACTOR[energy]`. */
  function EnergyEmission(obs: Observation, energy: string): Result<real>
    requires energy in Co2EmissionsFactor
  {
    if energy !in obs then Err(KeyError(energy))
    else match obs[energy]
      case Num(x) => Ok(x * Co2EmissionsFactor[energy])
      case _ => Err(TypeError(energy))
  }

  /** `sum([observation[e] * CO2_EMISSIONS_FACTOR[e] for e in energies])`: the
      first energy whose lookup or product fails raises. */
  function SumEmissions(obs: Observation, energies: seq<string>): Result<real>
    requires HasFactors(energies)
  {
    if energies == [] then Ok(0.0)
    else
      match EnergyEmission(obs, energies[0])
      case Err(e) => Err(e)
      case Ok(x) =>
        match SumEmissions(obs, energies[1..])
        case Err(e) => Err(e)
        case Ok(rest) => Ok(x + rest)
  }

  /** `_compute_emissions(observation)`. */
  function ComputeEmissions(obs: Observation): Result<real>
  {
    SumEmissions(obs, PollutingEnergies)
  }

  /** The observation carries a number for every polluting energy: the six
      names of `PollutingEnergies`, written out one conjunct each. */
  ghost predicate HasEnergies(obs: Observation)
  {
    && "aut" in obs && obs["aut"].Num?
    && "car" in obs && obs["car"].Num?
    && "cc" in obs && obs["cc"].Num?
    && "cogenResto" in obs && obs["cogenResto"].Num?
    && "gf" in obs && obs["gf"].Num?
    && "termRenov" in obs && obs["termRenov"].Num?
  }

  /** The six factors of `CO2_EMISSIONS_FACTOR`, one per polluting energy. */
  lemma FactorTable()
    ensures Co2EmissionsFactor["aut"] == 0.27 && Co2EmissionsFactor["car"] == 0.95
    ensures Co2EmissionsFactor["cc"] == 0.37 && Co2EmissionsFactor["cogenResto"] == 0.27
    ensures Co2EmissionsFactor["gf"] == 0.7 && Co2EmissionsFactor["termRenov"] == 0.27
  {
  }

  /** A present number contributes its value times its factor `f`. */
  lemma EnergyEmissionNum(obs: Observation, e: string, f: real)
    requires e in Co2EmissionsFactor && Co2EmissionsFactor[e] == f
    requires e in obs && obs[e].Num?
    ensures EnergyEmission(obs, e) == Ok(obs[e].n * f)
  {
  }

  /** One step of the sum: a present number contributes its weighted value. */
  lemma SumEmissionsCons(obs: Observation, e: string, rest: seq<string>, f: real, x: real)
    requires e in Co2EmissionsFactor && Co2EmissionsFactor[e] == f && HasFactors(rest)
    requires e in obs && obs[e].Num?
    requires SumEmissions(obs, rest) == Ok(x)
    ensures HasFactors([e] + rest)
    ensures SumEmissions(obs, [e] + rest) == Ok(obs[e].n * f + x)
  {
    assert forall k :: 0 < k < |[e] + rest| ==> ([e] + rest)[k] == rest[k - 1];
    var es := [e] + rest;
    assert es[0] == e && es[1..] == rest;
    EnergyEmissionNum(obs, e, f);
    assert EnergyEmission(obs, es[0]) == Ok(obs[e].n * f);
    assert SumEmissions(obs, es[1..]) == Ok(x);
  }

  /** The emissions of an observation are the weighted sum of its six energy
      fields with the factors 0.27, 0.95, 0.37, 0.27, 0.7 and 0.27. */
  lemma ComputeEmissionsIsWeightedSum(obs: Observation)
    requires HasEnergies(obs)
    ensures ComputeEmissions(obs) == Ok(
      obs["aut"].n * 0.27 + obs["car"].n * 0.95 + obs["cc"].n * 0.37 +
      obs["cogenResto"].n * 0.27 + obs["gf"].n * 0.7 + obs["termRenov"].n * 0.27)
  {
    FactorTable();
    var s6: seq<string> := [];
    var s5 := ["termRenov"] + s6;
    var s4 := ["gf"] + s5;
    var s3 := ["cogenResto"] + s4;
    var s2 := ["cc"] + s3;
    var s1 := ["car"] + s2;
    assert PollutingEnergies == ["aut"] + s1;
    var x5 := obs["termRenov"].n * 0.27 + 0.0;
    var x4 := obs["gf"].n * 0.7 + x5;
    var x3 := obs["cogenResto"].n * 0.27 + x4;
    var x2 := obs["cc"].n * 0.37 + x3;
    var x1 := obs["car"].n * 0.95 + x2;
    SumEmissionsCons(obs, "termRenov", s6, 0.27, 0.0);
    SumEmissionsCons(obs, "gf", s5, 0.7, x5);
    SumEmissionsCons(obs, "cogenResto", s4, 0.27, x4);
    SumEmissionsCons(obs, "cc", s3, 0.37, x3);
    SumEmissionsCons(obs, "car", s2, 0.95, x2);
    SumEmissionsCons(obs, "aut", s1, 0.27, x1);
  }

  /** `SumEmissions` succeeds exactly when every energy is present with a
      number, and otherwise raises for the first energy that is not. */
  lemma {:induction false} SumEmissionsError(obs: Observation, energies: seq<string>)
    requires HasFactors(energies)
    ensures SumEmissions(obs, energies).Ok? <==>
      forall k :: 0 <= k < |energies| ==> energies[k] in obs && obs[energies[k]].Num?
    ensures SumEmissions(obs, energies).Err? ==> exists k :: (0 <= k < |energies| &&
      (forall j :: 0 <= j < k ==> energies[j] in obs && obs[energies[j]].Num?) &&
      SumEmissions(obs, energies).error ==
        (if energies[k] !in obs then KeyError(energies[k]) else TypeError(energies[k])) &&
      (energies[k] in obs ==> !obs[energies[k]].Num?))
  {
    if energies != [] {
      SumEmissionsError(obs, energies[1..]);
      var e := energies[0];
      if e in obs && obs[e].Num? && SumEmissions(obs, energies).Err? {
        var k :| 0 <= k < |energies[1..]| &&
          (forall j :: 0 <= j < k ==> energies[1..][j] in obs && obs[energies[1..][j]].Num?) &&
          SumEmissions(obs, energies[1..]).error ==
            (if energies[1..][k] !in obs then KeyError(energies[1..][k]) else TypeError(energies[1..][k])) &&
          (energies[1..][k] in obs ==> !obs[energies[1..][k]].Num?);
        assert forall j :: 0 <= j < k + 1 ==> energies[j] in obs && obs[energies[j]].Num? by {
          forall j | 0 <= j < k + 1 ensures energies[j] in obs && obs[energies[j]].Num? {
            if j > 0 { assert energies[j] == energies[1..][j - 1]; }
          }
        }
      }
      assert forall k :: 0 < k < |energies| ==> energies[k] == energies[1..][k - 1];
    }
  }

  /** `_compute_emissions` raises `KeyError` or `TypeError` for the first
      polluting energy that is missing or not a number, and succeeds exactly
      when there is none. */
  lemma ComputeEmissionsError(obs: Observation)
    ensures ComputeEmissions(obs).Ok? <==> HasEnergies(obs)
    ensures ComputeEmissions(obs).Err? ==> exists k :: (0 <= k < |PollutingEnergies| &&
      (forall j :: 0 <= j < k ==> PollutingEnergies[j] in obs && obs[PollutingEnergies[j]].Num?) &&
      ComputeEmissions(obs).error ==
        (if PollutingEnergies[k] !in obs then KeyError(PollutingEnergies[k]) else TypeError(PollutingEnergies[k])) &&
      (PollutingEnergies[k] in obs ==> !obs[PollutingEnergies[k]].Num?))
  {
    var es := PollutingEnergies;
    assert es[0] == "aut" && es[1] == "car" && es[2] == "cc";
    assert es[3] == "cogenResto" && es[4] == "gf" && es[5] == "termRenov";
    SumEmissionsError(obs, es);
  }

  /** Two observations that agree on the given energies have the same sum. */
  lemma {:induction false} SumEmissionsLocal(obs1: Observation, obs2: Observation, energies: seq<string>)
    requires HasFactors(energies)
    requires forall k :: 0 <= k < |energies| ==>
      (energies[k] in obs1 <==> energies[k] in obs2) &&
      (energies[k] in obs1 ==> obs1[energies[k]] == obs2[energies[k]])
    ensures SumEmissions(obs1, energies) == SumEmissions(obs2, energies)
  {
    if energies != [] {
      assert forall k :: 0 <= k < |energies[1..]| ==> energies[1..][k] == energies[k + 1];
      SumEmissionsLocal(obs1, obs2, energies[1..]);
    }
  }

  /** Only the six polluting energies matter: changing `ts` or any other field,
      or adding or removing one, leaves the emissions unchanged. */
  lemma ComputeEmissionsLocal(obs1: Observation, obs2: Observation)
    requires forall e :: e in PollutingEnergies ==>
      (e in obs1 <==> e in obs2) && (e in obs1 ==> obs1[e] == obs2[e])
    ensures ComputeEmissions(obs1) == ComputeEmissions(obs2)
  {
    SumEmissionsLocal(obs1, obs2, PollutingEnergies);
  }

  /** An observation with every polluting energy at 0 emits nothing. */
  lemma ComputeEmissionsZero(obs: Observation)
    requires forall e :: e in PollutingEnergies ==> e in obs && obs[e] == Num(0.0)
    ensures ComputeEmissions(obs) == Ok(0.0)
  {
    ComputeEmissionsIsWeightedSum(obs);
  }

  /** Linearity in each field: setting energy `e` to `x` adds `x` times its
      factor to the emissions of the observation with `e` at 0. The old value
      of `e`, if any, plays no part. */
  lemma ComputeEmissionsLinear(obs: Observation, e: string, x: real)
    requires e in PollutingEnergies
    requires forall k :: k in PollutingEnergies && k != e ==> k in obs && obs[k].Num?
    ensures ComputeEmissions(obs[e := Num(x)]).Ok? && ComputeEmissions(obs[e := Num(0.0)]).Ok?
    ensures ComputeEmissions(obs[e := Num(x)]).value ==
      ComputeEmissions(obs[e := Num(0.0)]).value + x * Co2EmissionsFactor[e]
  {
    var withX, withZero := obs[e := Num(x)], obs[e := Num(0.0)];
    assert HasEnergies(withX) && HasEnergies(withZero);
    ComputeEmissionsIsWeightedSum(withX);
    ComputeEmissionsIsWeightedSum(withZero);
  }

  // ---------------------------------------------------------------------
  // _generate_emissions
  // ---------------------------------------------------------------------

  /** An observation the loop body handles without raising. */
  ghost predicate Processable(obs: Observation)
  {
    "ts" in obs && ComputeEmissions(obs).Ok?
  }

  /** The loop body `emissions[observation['ts']] = _compute_emissions(observation)`:
      the timestamp is looked up first, then the emissions computed. */
  function Record(emissions: map<Value, real>, obs: Observation): Result<map<Value, real>>
  {
    if "ts" !in obs then Err(KeyError("ts"))
    else match ComputeEmissions(obs)
      case Err(e) => Err(e)
      case Ok(x) => Ok(emissions[obs["ts"] := x])
  }

  /** The dictionary after processing `data` in order, or the exception raised. */
  function EmissionsOf(data: seq<Observation>): Result<map<Value, real>>
  {
    if data == [] then Ok(map[])
    else match EmissionsOf(data[..|data| - 1])
      case Err(e) => Err(e)
      case Ok(m) => Record(m, data[|data| - 1])
  }

  /** `_generate_emissions(json_data)`. */
  method GenerateEmissions(data: seq<Observation>) returns (r: Result<map<Value, real>>)
    ensures r == EmissionsOf(data)
  {
    var emissions: map<Value, real> := map[];
    var i := 0;
    while i < |data|
      invariant 0 <= i <= |data|
      invariant EmissionsOf(data[..i]) == Ok(emissions)
    {
      var observation := data[i];
      assert data[..i + 1][..i] == data[..i];
      if "ts" !in observation {
        EmissionsErrorSticky(data, i + 1);
        return Err(KeyError("ts"));
      }
      var timestamp := observation["ts"];
      var e := ComputeEmissions(observation);
      if e.Err? {
        EmissionsErrorSticky(data, i + 1);
        return Err(e.error);
      }
      emissions := emissions[timestamp := e.value];
      i := i + 1;
    }
    assert data[..i] == data;
    r := Ok(emissions);
  }

  /** Once an exception is raised the rest of the list is not looked at. */
  lemma {:induction false} EmissionsErrorSticky(data: seq<Observation>, i: nat)
    requires i <= |data| && EmissionsOf(data[..i]).Err?
    ensures EmissionsOf(data) == EmissionsOf(data[..i])
  {
    if i < |data| {
      assert data[..|data| - 1][..i] == data[..i];
      EmissionsErrorSticky(data[..|data| - 1], i);
    } else {
      assert data[..i] == data;
    }
  }

  /** The key set of an emissions map that was built without raising. */
  ghost predicate HasTimestamps(data: seq<Observation>)
  {
    forall i :: 0 <= i < |data| ==> "ts" in data[i]
  }

  /** The error raised, if any, is that of the first observation that cannot
      be processed, and none is raised exactly when all can. */
  lemma {:induction false} EmissionsError(data: seq<Observation>)
    ensures EmissionsOf(data).Ok? <==> forall i :: 0 <= i < |data| ==> Processable(data[i])
    ensures EmissionsOf(data).Err? ==> exists i :: (0 <= i < |data| &&
      (forall j :: 0 <= j < i ==> Processable(data[j])) &&
      !Processable(data[i]) &&
      EmissionsOf(data).error ==
        (if "ts" !in data[i] then KeyError("ts") else ComputeEmissions(data[i]).error))
  {
    if data != [] {
      var init, last := data[..|data| - 1], data[|data| - 1];
      EmissionsError(init);
      assert forall j :: 0 <= j < |init| ==> data[j] == init[j];
    }
  }

  /** Some observation of `data` carries timestamp `t`. */
  ghost predicate Stamped(data: seq<Observation>, t: Value)
  {
    exists i :: 0 <= i < |data| && "ts" in data[i] && data[i]["ts"] == t
  }

  /** The keys are exactly the timestamps of the observations; an empty list
      gives an empty map. */
  lemma {:induction false} EmissionsKeys(data: seq<Observation>)
    requires EmissionsOf(data).Ok?
    ensures HasTimestamps(data)
    ensures forall t :: t in EmissionsOf(data).value <==> Stamped(data, t)
    ensures data == [] ==> EmissionsOf(data).value == map[]
  {
    EmissionsError(data);
    if data != [] {
      var init := data[..|data| - 1];
      EmissionsKeys(init);
      assert forall j :: 0 <= j < |init| ==> data[j] == init[j];
      forall t | t in EmissionsOf(data).value
        ensures Stamped(data, t)
      {
        if t != data[|data| - 1]["ts"] {
          var i :| 0 <= i < |init| && init[i]["ts"] == t;
          assert data[i]["ts"] == t;
        }
      }
    }
  }

  /** Later entries overwrite earlier ones: the value of a timestamp is the
      emissions of the last observation that carries it. */
  lemma {:induction false} EmissionsLastWins(data: seq<Observation>, i: nat)
    requires EmissionsOf(data).Ok? && HasTimestamps(data) && i < |data|
    requires forall j :: i < j < |data| ==> data[j]["ts"] != data[i]["ts"]
    ensures data[i]["ts"] in EmissionsOf(data).value && ComputeEmissions(data[i]).Ok?
    ensures EmissionsOf(data).value[data[i]["ts"]] == ComputeEmissions(data[i]).value
  {
    EmissionsError(data);
    var init := data[..|data| - 1];
    assert forall j :: 0 <= j < |init| ==> data[j] == init[j];
    if i < |init| {
      EmissionsLastWins(init, i);
    }
  }

  /** The observations' timestamps are pairwise distinct. */
  ghost predicate DistinctTimestamps(data: seq<Observation>)
    requires HasTimestamps(data)
  {
    forall i, j :: 0 <= i < j < |data| ==> data[i]["ts"] != data[j]["ts"]
  }

  /** Appending an observation keeps the timestamps distinct exactly when its
      timestamp is new. */
  lemma DistinctTimestampsSnoc(data: seq<Observation>)
    requires data != [] && HasTimestamps(data)
    ensures HasTimestamps(data[..|data| - 1])
    ensures DistinctTimestamps(data) <==>
      DistinctTimestamps(data[..|data| - 1]) && !Stamped(data[..|data| - 1], data[|data| - 1]["ts"])
  {
    var init := data[..|data| - 1];
    assert forall j :: 0 <= j < |init| ==> data[j] == init[j];
  }

  /** The timestamps of a list are those of its initial part and of its last
      observation. */
  lemma HasTimestampsSnoc(data: seq<Observation>)
    requires data != [] && HasTimestamps(data[..|data| - 1]) && "ts" in data[|data| - 1]
    ensures HasTimestamps(data)
  {
    var init := data[..|data| - 1];
    assert forall i :: 0 <= i < |init| ==> data[i] == init[i];
  }

  /** Updating a map adds an entry exactly when the key is new. */
  lemma MapUpdateSize<K, V>(m: map<K, V>, k: K, v: V)
    ensures |m[k := v]| == if k in m then |m| else |m| + 1
  {
    if k in m {
      assert m[k := v].Keys == m.Keys;
    } else {
      assert m[k := v].Keys == m.Keys + {k};
    }
  }

  /** Processing one more observation updates the map at its timestamp, which
      is already a key exactly when an earlier observation carries it. */
  lemma EmissionsSnoc(data: seq<Observation>)
    requires data != [] && EmissionsOf(data).Ok?
    ensures EmissionsOf(data[..|data| - 1]).Ok? && HasTimestamps(data)
    ensures ComputeEmissions(data[|data| - 1]).Ok?
    ensures EmissionsOf(data).value == EmissionsOf(data[..|data| - 1]).value[
      data[|data| - 1]["ts"] := ComputeEmissions(data[|data| - 1]).value]
    ensures data[|data| - 1]["ts"] in EmissionsOf(data[..|data| - 1]).value <==>
      Stamped(data[..|data| - 1], data[|data| - 1]["ts"])
  {
    EmissionsKeys(data[..|data| - 1]);
    HasTimestampsSnoc(data);
  }

  /** The map has at most one entry per observation, and exactly one per
      observation when the timestamps are pairwise distinct. */
  lemma {:induction false} EmissionsSize(data: seq<Observation>)
    requires EmissionsOf(data).Ok?
    ensures HasTimestamps(data)
    ensures |EmissionsOf(data).value| <= |data|
    ensures |EmissionsOf(data).value| == |data| <==> DistinctTimestamps(data)
  {
    if data != [] {
      var init, last := data[..|data| - 1], data[|data| - 1];
      EmissionsSnoc(data);
      EmissionsSize(init);
      MapUpdateSize(EmissionsOf(init).value, last["ts"], ComputeEmissions(last).value);
      DistinctTimestampsSnoc(data);
    }
  }

  // ---------------------------------------------------------------------
  // Fragments of _retrieve_energy_data
  // ---------------------------------------------------------------------

  /** The JSONP opening the endpoint wraps its observations in. */
  const ResponsePrefix: string := "null({\"valoresHorariosGeneracion\":"

  /** The JSONP closing. */
  const ResponseSuffix: string := "});"

  /** `pat` occurs in `s` starting at position `p`. */
  predicate OccursAt(s: string, pat: string, p: int)
  {
    0 <= p && p + |pat| <= |s| && s[p..p + |pat|] == pat
  }

  /** `pat in s`. */
  ghost predicate Contains(s: string, pat: string)
  {
    exists p :: OccursAt(s, pat, p)
  }

  /** Python's `s.replace(pat, '')` for a non-empty `pat`: occurrences are
      removed from left to right, never overlapping. */
  function RemoveAll(s: string, pat: string): string
    requires pat != []
    decreases |s|
  {
    if |s| < |pat| then s
    else if s[..|pat|] == pat then RemoveAll(s[|pat|..], pat)
    else [s[0]] + RemoveAll(s[1..], pat)
  }

  /** The cleanup of the response text: both replace-all calls. */
  function CleanResponse(text: string): string
  {
    RemoveAll(RemoveAll(text, ResponsePrefix), ResponseSuffix)
  }

  /** Dropping the first character shifts every occurrence one place left. */
  lemma OccursAtTail(s: string, pat: string, p: nat)
    requires s != []
    ensures OccursAt(s[1..], pat, p) == OccursAt(s, pat, p + 1)
  {
    if p + 1 + |pat| <= |s| {
      assert s[1..][p..p + |pat|] == s[p + 1..p + 1 + |pat|];
    }
  }

  /** Where `pat` does not start at the front, the first character is kept. */
  lemma RemoveAllKeepsFirst(s: string, pat: string)
    requires pat != [] && |s| >= |pat| && !OccursAt(s, pat, 0)
    ensures RemoveAll(s, pat) == [s[0]] + RemoveAll(s[1..], pat)
  {
    assert s[0..|pat|] == s[..|pat|];
  }

  /** Splitting `s` after `k` characters is splitting `s[1..]` after `k - 1`. */
  lemma SliceTail(s: string, k: nat)
    requires 0 < k <= |s|
    ensures s[..k] == [s[0]] + s[1..][..k - 1] && s[1..][k - 1..] == s[k..]
  {
    forall i | 0 <= i < k ensures s[..k][i] == ([s[0]] + s[1..][..k - 1])[i] {
    }
  }

  /** A prefix in which `pat` starts nowhere is kept as it is. */
  lemma {:induction false} RemoveAllSkip(s: string, pat: string, k: nat)
    requires pat != [] && k <= |s|
    requires forall p :: 0 <= p < k ==> !OccursAt(s, pat, p)
    ensures RemoveAll(s, pat) == s[..k] + RemoveAll(s[k..], pat)
  {
    if k > 0 {
      if |s| >= |pat| {
        RemoveAllKeepsFirst(s, pat);
        forall p | 0 <= p < k - 1 ensures !OccursAt(s[1..], pat, p) {
          OccursAtTail(s, pat, p);
        }
        RemoveAllSkip(s[1..], pat, k - 1);
        SliceTail(s, k);
      } else {
        assert s == s[..k] + s[k..];
      }
    }
  }

  /** Where `pat` does not occur, `s.replace(pat, '')` returns `s` unchanged. */
  lemma RemoveAllNoOccurrence(s: string, pat: string)
    requires pat != [] && !Contains(s, pat)
    ensures RemoveAll(s, pat) == s
  {
    RemoveAllSkip(s, pat, |s|);
    var none: string := [];
    assert s[|s|..] == none && s[..|s|] == s;
  }

  /** Removing never lengthens the text, and shortens it when `pat` occurs. */
  lemma {:induction false} RemoveAllShortens(s: string, pat: string)
    requires pat != []
    ensures |RemoveAll(s, pat)| <= |s|
    ensures Contains(s, pat) ==> |RemoveAll(s, pat)| < |s|
  {
    if |s| >= |pat| {
      if s[..|pat|] == pat {
        RemoveAllShortens(s[|pat|..], pat);
      } else {
        RemoveAllShortens(s[1..], pat);
        if Contains(s, pat) {
          var p :| OccursAt(s, pat, p);
          assert p != 0;
          assert s[1..][p - 1..p - 1 + |pat|] == s[p..p + |pat|];
          assert OccursAt(s[1..], pat, p - 1);
        }
      }
    } else {
      forall p ensures !OccursAt(s, pat, p) {
      }
    }
  }

  /** `s.replace(pat, '')` returns `s` unchanged exactly when `pat` does not
      occur in `s`. */
  lemma RemoveAllUnchanged(s: string, pat: string)
    requires pat != []
    ensures RemoveAll(s, pat) == s <==> !Contains(s, pat)
  {
    RemoveAllShortens(s, pat);
    if !Contains(s, pat) {
      RemoveAllNoOccurrence(s, pat);
    }
  }

  /** `pat` has no border: no proper prefix of it is also a suffix, so two
      occurrences of it can never overlap. */
  ghost predicate NoBorder(pat: string)
  {
    forall k :: 0 < k < |pat| ==> pat[..|pat| - k] != pat[k..]
  }

  /** A marker whose last character does not occur in `tail` cannot occur
      in `body + tail` unless it occurs in `body`. */
  lemma NotContainsAppend(body: string, tail: string, pat: string)
    requires pat != [] && !Contains(body, pat)
    requires forall i :: 0 <= i < |tail| ==> tail[i] != pat[|pat| - 1]
    ensures !Contains(body + tail, pat)
  {
    var s := body + tail;
    forall p ensures !OccursAt(s, pat, p) {
      if p + |pat| <= |body| {
        assert p < 0 || s[p..p + |pat|] == body[p..p + |pat|];
        assert !OccursAt(body, pat, p);
      } else if 0 <= p && p + |pat| <= |s| {
        assert s[p..p + |pat|][|pat| - 1] == tail[p + |pat| - 1 - |body|];
      }
    }
  }

  /** A leading occurrence of `pat` in front of a text free of it is all
      that `replace(pat, '')` removes. */
  lemma RemoveAllLeading(pat: string, body: string)
    requires pat != [] && !Contains(body, pat)
    ensures RemoveAll(pat + body, pat) == body
  {
    var s := pat + body;
    assert s[..|pat|] == pat && s[|pat|..] == body;
    RemoveAllNoOccurrence(body, pat);
  }

  /** A trailing occurrence of a border-free `pat` behind a text free of it
      is all that `replace(pat, '')` removes. */
  lemma RemoveAllTrailing(body: string, pat: string)
    requires pat != [] && NoBorder(pat) && !Contains(body, pat)
    ensures RemoveAll(body + pat, pat) == body
  {
    var s := body + pat;
    forall p | 0 <= p < |body| ensures !OccursAt(s, pat, p) {
      if p + |pat| <= |body| {
        assert s[p..p + |pat|] == body[p..p + |pat|];
        assert !OccursAt(body, pat, p);
      } else {
        var k := |body| - p;
        assert s[p..p + |pat|][k..] == pat[..|pat| - k];
        assert pat[..|pat| - k] != pat[k..];
      }
    }
    RemoveAllSkip(s, pat, |body|);
    assert s[..|body|] == body && s[|body|..] == pat;
    var none: string := [];
    assert pat[|pat|..] == none;
  }

  /** Unwrapping: a body in which neither marker occurs, wrapped as the
      endpoint wraps it, cleans to exactly that body. */
  lemma CleanResponseUnwraps(body: string)
    requires !Contains(body, ResponsePrefix) && !Contains(body, ResponseSuffix)
    ensures CleanResponse(ResponsePrefix + body + ResponseSuffix) == body
  {
    var P, S := ResponsePrefix, ResponseSuffix;
    assert P[|P| - 1] == ':' && S[0] == '}' && S[1] == ')' && S[2] == ';' && |S| == 3;
    assert S[..2] == "})" && S[1..] == ");" && S[..1] == "}" && S[2..] == ";";
    assert NoBorder(S);
    NotContainsAppend(body, S, P);
    assert P + body + S == P + (body + S);
    RemoveAllLeading(P, body + S);
    RemoveAllTrailing(body, S);
  }

  /** A text in which neither marker occurs is returned unchanged. */
  lemma CleanResponseKeepsPlainText(text: string)
    requires !Contains(text, ResponsePrefix) && !Contains(text, ResponseSuffix)
    ensures CleanResponse(text) == text
  {
    RemoveAllNoOccurrence(text, ResponsePrefix);
    RemoveAllNoOccurrence(text, ResponseSuffix);
  }

  /** Python's `xs[start:]`: a negative start counts from the end, and the
      position is clamped to the sequence. */
  function SliceFrom<T>(xs: seq<T>, start: int): seq<T>
  {
    var s := if start < 0 then start + |xs| else start;
    xs[if s < 0 then 0 else if s > |xs| then |xs| else s..]
  }

  /** Observations come every ten minutes, so two hours are twelve of them. */
  const ObservationsInTwoHours: int := 12

  /** `json_data[-12:]`: the last `min(12, len)` observations, in their order. */
  function LastTwoHours<T>(data: seq<T>): (r: seq<T>)
    ensures |r| == if |data| < ObservationsInTwoHours then |data| else ObservationsInTwoHours
    ensures data == data[..|data| - |r|] + r
  {
    SliceFrom(data, -ObservationsInTwoHours)
  }

  /** The emissions of the last two hours hold at most twelve timestamps. */
  lemma LastTwoHoursEmissions(data: seq<Observation>)
    requires EmissionsOf(LastTwoHours(data)).Ok?
    ensures |EmissionsOf(LastTwoHours(data)).value| <= ObservationsInTwoHours
  {
    EmissionsSize(LastTwoHours(data));
  }
}
