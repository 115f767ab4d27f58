/**
 * How a report's objective and reward are determined. A client may send
 * them directly (`type` and `params`), or, when it is an API client rather
 * than a logged-in user, send a text to match (`match`, with an optional
 * `match_algo`). The result is the component, "not determined" (PHP's FALSE)
 * or "no such matching algorithm" (PHP's NULL); the report endpoint turns
 * the latter two into HTTP 400 and 501 answers.
 *
 * The matchers of the research library, the objective catalogue, the
 * display texts of objectives and the `similar_text` score are outside this
 * model and appear as parameters.
 */
module ResearchMatching {
  import opened Wrappers
  import PhpNumbers
  import PhpStrings

  /** The `params` entry of a component: an array, or some other value. */
  datatype Params = ParamArray(entries: map<string, string>) | ParamScalar(text: string)

  /** The keys of a submitted component that the code reads; `None` where a key is not set. */
  datatype TaskData = TaskData(
    kind: Option<string>,
    params: Option<Params>,
    matchText: Option<string>,
    matchAlgo: Option<string>)

  /** A value that is not an array: every key reads as not set. */
  const NoKeys := TaskData(None, None, None, None)

  datatype Component = Objective | Reward

  /** The three results: a component array, FALSE, or NULL. */
  datatype Determined = Found(data: TaskData) | NotDetermined | NotImplemented

  /** The matchers the function delegates to, one per algorithm. */
  datatype Matchers = Matchers(
    fuzzy: string -> Option<TaskData>,
    objective: string -> TaskData,
    reward: string -> TaskData)

  /** `match_algo` read with `intval`, 2 when it is not set. */
  function MatchAlgo(d: TaskData): int
  {
    if d.matchAlgo.Some? then PhpNumbers.IntVal(d.matchAlgo.value) else 2
  }

  /** Both `type` and `params` are set: the component was given directly. */
  predicate GivenDirectly(d: TaskData)
  {
    d.kind.Some? && d.params.Some?
  }

  /** determineResearchComponent. */
  function DetermineResearchComponent(d: TaskData, component: Component, isRealUser: bool, m: Matchers): Determined
  {
    if GivenDirectly(d) then Found(d)
    else if isRealUser then NotDetermined
    else if d.matchText.Some? then
      var algo := MatchAlgo(d);
      match component
      case Objective =>
        if algo == 1 then
          match m.fuzzy(d.matchText.value)
          case Some(x) => Found(x)
          case None => NotImplemented
        else if algo == 2 then Found(m.objective(d.matchText.value))
        else NotImplemented
      case Reward =>
        if algo == 2 then Found(m.reward(d.matchText.value)) else NotImplemented
    else NotDetermined
  }

  /** A submitted field of the report: not set, set to a non-array, or an array. */
  datatype Field = Missing | NotArray | ArrayValue(data: TaskData)

  /** What the endpoint makes of the research part of a report. */
  datatype Checked = Accepted(objective: TaskData, reward: TaskData) | Rejected(status: int, reason: string)

  /** The component has a type and an array of parameters. */
  predicate WellShaped(d: TaskData)
  {
    d.kind.Some? && d.params.Some? && d.params.value.ParamArray?
  }

  /** The endpoint's answer to each result of the determination. */
  function CheckDetermined(r: Determined): (c: Checked)
  {
    match r
    case NotDetermined => Rejected(400, "missing_fields")
    case NotImplemented => Rejected(501, "match_mode_not_implemented")
    case Found(x) => if WellShaped(x) then Accepted(x, x) else Rejected(400, "invalid_data")
  }

  /**
   * The checks on `objective` and `reward` in the order the endpoint makes
   * them: both must be set; the objective must be an array; then the
   * objective and after it the reward are determined and checked. A reward
   * that is not an array reads as an array without keys.
   */
  function CheckResearch(objective: Field, reward: Field, isRealUser: bool, m: Matchers): (c: Checked)
    ensures c.Accepted? ==> WellShaped(c.objective) && WellShaped(c.reward)
    ensures c.Rejected? ==> c.status == 400 || c.status == 501
  {
    if objective.Missing? || reward.Missing? then Rejected(400, "missing_fields")
    else if objective.NotArray? then Rejected(400, "invalid_data")
    else
      var o := CheckDetermined(DetermineResearchComponent(objective.data, Objective, isRealUser, m));
      if o.Rejected? then o
      else
        var rewardData := if reward.ArrayValue? then reward.data else NoKeys;
        var r := CheckDetermined(DetermineResearchComponent(rewardData, Reward, isRealUser, m));
        if r.Rejected? then r else Accepted(o.objective, r.reward)
  }

  // ---------------------------------------------------------------------------
  // Properties of the determination
  // ---------------------------------------------------------------------------

  /** A component given directly is used as it is, whoever sends it. */
  lemma GivenIsKept(d: TaskData, component: Component, isRealUser: bool, m: Matchers)
    requires GivenDirectly(d)
    ensures DetermineResearchComponent(d, component, isRealUser, m) == Found(d)
  {
  }

  /** A logged-in user must give the component directly; anything else is "not determined". */
  lemma RealUserNeedsComponent(d: TaskData, component: Component, m: Matchers)
    ensures DetermineResearchComponent(d, component, true, m).Found? <==> GivenDirectly(d)
    ensures !GivenDirectly(d) ==> CheckDetermined(DetermineResearchComponent(d, component, true, m)) ==
                                  Rejected(400, "missing_fields")
  {
  }

  /** Without a text to match, a component that is not given is "not determined". */
  lemma NoMatchTextNotDetermined(d: TaskData, component: Component, isRealUser: bool, m: Matchers)
    requires !GivenDirectly(d) && d.matchText.None?
    ensures DetermineResearchComponent(d, component, isRealUser, m) == NotDetermined
  {
  }

  /** An unset `match_algo` behaves as `"2"`. */
  lemma MatchAlgoDefault(d: TaskData)
    requires d.matchAlgo.None?
    ensures MatchAlgo(d) == MatchAlgo(d.(matchAlgo := Some("2")))
  {
    PhpNumbers.IntValOfNatString(2);
    assert PhpStrings.NatToString(2) == "2";
  }

  /**
   * For a text match by an API client: objectives know algorithms 1 and 2,
   * rewards only algorithm 2; any other algorithm is "not implemented".
   */
  lemma AlgorithmsKnown(d: TaskData, component: Component, m: Matchers)
    requires !GivenDirectly(d) && d.matchText.Some?
    ensures component == Reward ==>
              (DetermineResearchComponent(d, component, false, m) == NotImplemented <==> MatchAlgo(d) != 2)
    ensures component == Objective && MatchAlgo(d) != 1 && MatchAlgo(d) != 2 ==>
              DetermineResearchComponent(d, component, false, m) == NotImplemented
    ensures component == Objective && MatchAlgo(d) == 2 ==>
              DetermineResearchComponent(d, component, false, m) == Found(m.objective(d.matchText.value))
  {
  }

  /** Each result of the determination leads to its own answer. */
  lemma StatusOfEachResult(r: Determined)
    ensures r.NotDetermined? <==> CheckDetermined(r) == Rejected(400, "missing_fields")
    ensures r.NotImplemented? <==> CheckDetermined(r) == Rejected(501, "match_mode_not_implemented")
    ensures r.Found? && !WellShaped(r.data) <==> CheckDetermined(r) == Rejected(400, "invalid_data")
    ensures CheckDetermined(r).Accepted? <==> r.Found? && WellShaped(r.data)
  {
  }

  /** A logged-in user who gives both components directly, with array parameters, is accepted. */
  lemma DirectReportAccepted(o: TaskData, r: TaskData, isRealUser: bool, m: Matchers)
    requires WellShaped(o) && WellShaped(r)
    ensures CheckResearch(ArrayValue(o), ArrayValue(r), isRealUser, m) == Accepted(o, r)
  {
  }

  /**
   * A reward that is not an array is never accepted: once the objective
   * passes, it is answered as a missing field.
   */
  lemma NonArrayRewardMissing(o: TaskData, isRealUser: bool, m: Matchers)
    requires CheckDetermined(DetermineResearchComponent(o, Objective, isRealUser, m)).Accepted?
    ensures CheckResearch(ArrayValue(o), NotArray, isRealUser, m) == Rejected(400, "missing_fields")
  {
  }

  // ---------------------------------------------------------------------------
  // fuzzyMatchCommonObjective
  // ---------------------------------------------------------------------------

  /** One entry of `$stringMap`: a lower-cased display text and the objective it stands for. */
  datatype Candidate = Candidate(text: string, objective: TaskData)

  /** The value stored under `key`, if any. */
  function Lookup(m: seq<Candidate>, key: string): Option<TaskData>
  {
    if m == [] then None
    else if m[0].text == key then Some(m[0].objective)
    else Lookup(m[1..], key)
  }

  /** `$stringMap[$key] = $v`: an existing key keeps its place and takes the new value; a new key goes last. */
  function Put(m: seq<Candidate>, key: string, v: TaskData): seq<Candidate>
  {
    if m == [] then [Candidate(key, v)]
    else if m[0].text == key then [Candidate(key, v)] + m[1..]
    else [m[0]] + Put(m[1..], key, v)
  }

  /** The lower-cased singular or plural display text of an objective. */
  function Key(d: TaskData, plural: bool, display: (TaskData, bool) -> string): string
  {
    PhpStrings.Lower(display(d, plural))
  }

  /** The string map after the loop over the catalogue. */
  function StringMapOf(catalogue: seq<TaskData>, display: (TaskData, bool) -> string): seq<Candidate>
  {
    if catalogue == [] then []
    else
      var last := catalogue[|catalogue| - 1];
      var m := StringMapOf(catalogue[..|catalogue| - 1], display);
      Put(Put(m, Key(last, false, display), last), Key(last, true, display), last)
  }

  /** The similarity of the query and a candidate, measured in both directions and added. */
  function Score(query: string, candidate: string, similarity: (string, string) -> real): real
  {
    var q := PhpStrings.Lower(query);
    similarity(q, candidate) + similarity(candidate, q)
  }

  function ScoreOf(query: string, similarity: (string, string) -> real): string -> real
  {
    k => Score(query, k, similarity)
  }

  /** Index of the first candidate with the highest score. */
  function BestIndex(m: seq<Candidate>, score: string -> real): (b: nat)
    requires m != []
    ensures b < |m|
  {
    if |m| == 1 then 0
    else
      var b := BestIndex(m[..|m| - 1], score);
      if score(m[|m| - 1].text) > score(m[b].text) then |m| - 1 else b
  }

  /** What the fuzzy matcher returns: the objective of the best candidate, or `None` when there is none. */
  function FuzzyMatch(query: string, catalogue: seq<TaskData>, display: (TaskData, bool) -> string,
                      similarity: (string, string) -> real): Option<TaskData>
  {
    var m := StringMapOf(catalogue, display);
    if m == [] then None else Some(m[BestIndex(m, ScoreOf(query, similarity))].objective)
  }

  /** The first loop: both display texts of every catalogue objective go into the map. */
  method BuildStringMap(catalogue: seq<TaskData>, display: (TaskData, bool) -> string)
    returns (m: seq<Candidate>)
    ensures m == StringMapOf(catalogue, display)
  {
    m := [];
    for i := 0 to |catalogue|
      invariant m == StringMapOf(catalogue[..i], display)
    {
      assert catalogue[..i + 1][..i] == catalogue[..i];
      m := Put(m, Key(catalogue[i], false, display), catalogue[i]);
      m := Put(m, Key(catalogue[i], true, display), catalogue[i]);
    }
    assert catalogue[..|catalogue|] == catalogue;
  }

  /** Sorting by decreasing score and taking the first key: the first candidate with the highest score. */
  method ChooseClosest(m: seq<Candidate>, score: string -> real) returns (r: Option<Candidate>)
    ensures m == [] ==> r.None?
    ensures m != [] ==> r == Some(m[BestIndex(m, score)])
  {
    if m == [] {
      return None;
    }
    var best := 0;
    for i := 1 to |m|
      invariant best == BestIndex(m[..i], score)
    {
      assert m[..i + 1][..i] == m[..i];
      assert m[..i][best] == m[best];
      if score(m[i].text) > score(m[best].text) {
        best := i;
      }
    }
    assert m[..|m|] == m;
    r := Some(m[best]);
  }

  /** fuzzyMatchCommonObjective. */
  method FuzzyMatchCommonObjective(query: string, catalogue: seq<TaskData>,
                                   display: (TaskData, bool) -> string, similarity: (string, string) -> real)
    returns (r: Option<TaskData>)
    ensures r == FuzzyMatch(query, catalogue, display, similarity)
  {
    var m := BuildStringMap(catalogue, display);
    var closest := ChooseClosest(m, ScoreOf(query, similarity));
    r := if closest.Some? then Some(closest.value.objective) else None;
  }

  // ---------------------------------------------------------------------------
  // Properties of the fuzzy matcher
  // ---------------------------------------------------------------------------

  lemma {:induction false} PutLookup(m: seq<Candidate>, key: string, v: TaskData, x: string)
    ensures Lookup(Put(m, key, v), x) == if x == key then Some(v) else Lookup(m, x)
  {
    if m != [] && m[0].text != key {
      PutLookup(m[1..], key, v, x);
    }
  }

  lemma {:induction false} PutValues(m: seq<Candidate>, key: string, v: TaskData)
    ensures forall c :: c in Put(m, key, v) ==> c in m || c.objective == v
  {
    if m != [] && m[0].text != key {
      PutValues(m[1..], key, v);
    }
  }

  lemma {:induction false} PutNonEmpty(m: seq<Candidate>, key: string, v: TaskData)
    ensures |Put(m, key, v)| >= |m| && Put(m, key, v) != []
  {
    if m != [] && m[0].text != key {
      PutNonEmpty(m[1..], key, v);
    }
  }

  lemma {:induction false} LookupFound(m: seq<Candidate>, key: string)
    ensures Lookup(m, key).Some? ==> Candidate(key, Lookup(m, key).value) in m
  {
    if m != [] && m[0].text != key {
      LookupFound(m[1..], key);
    }
  }

  /** The map is empty exactly when the catalogue is, and holds only catalogue objectives. */
  lemma {:induction false} StringMapShape(catalogue: seq<TaskData>, display: (TaskData, bool) -> string)
    ensures StringMapOf(catalogue, display) == [] <==> catalogue == []
    ensures forall c :: c in StringMapOf(catalogue, display) ==> c.objective in catalogue
  {
    if catalogue != [] {
      var init := catalogue[..|catalogue| - 1];
      var last := catalogue[|catalogue| - 1];
      StringMapShape(init, display);
      var m := StringMapOf(init, display);
      var m1 := Put(m, Key(last, false, display), last);
      PutValues(m, Key(last, false, display), last);
      PutValues(m1, Key(last, true, display), last);
      PutNonEmpty(m1, Key(last, true, display), last);
      forall c | c in StringMapOf(catalogue, display) ensures c.objective in catalogue {
        if c in m {
          assert c.objective in init;
        }
      }
    }
  }

  /**
   * Every display text of the catalogue is a key of the map, and its value
   * is the objective of the same or a LATER catalogue entry with that text:
   * a later duplicate overwrites an earlier one.
   */
  lemma {:induction false} LaterDuplicateWins(catalogue: seq<TaskData>, display: (TaskData, bool) -> string,
                                             i: nat, plural: bool)
    requires i < |catalogue|
    ensures exists j :: i <= j < |catalogue| &&
              Lookup(StringMapOf(catalogue, display), Key(catalogue[i], plural, display)) == Some(catalogue[j]) &&
              (Key(catalogue[j], false, display) == Key(catalogue[i], plural, display) ||
               Key(catalogue[j], true, display) == Key(catalogue[i], plural, display))
  {
    var n := |catalogue|;
    var init := catalogue[..n - 1];
    var last := catalogue[n - 1];
    var key := Key(catalogue[i], plural, display);
    var m := StringMapOf(init, display);
    var m1 := Put(m, Key(last, false, display), last);
    PutLookup(m, Key(last, false, display), last, key);
    PutLookup(m1, Key(last, true, display), last, key);
    if key == Key(last, false, display) || key == Key(last, true, display) {
      assert Lookup(StringMapOf(catalogue, display), key) == Some(catalogue[n - 1]);
    } else {
      assert i < n - 1;
      assert init[i] == catalogue[i];
      LaterDuplicateWins(init, display, i, plural);
      var j :| i <= j < n - 1 && Lookup(m, key) == Some(init[j]) &&
               (Key(init[j], false, display) == key || Key(init[j], true, display) == key);
      assert init[j] == catalogue[j];
    }
  }

  lemma {:induction false} BestIndexIsFirstMax(m: seq<Candidate>, score: string -> real)
    requires m != []
    ensures forall j :: 0 <= j < |m| ==> score(m[j].text) <= score(m[BestIndex(m, score)].text)
    ensures forall j :: 0 <= j < BestIndex(m, score) ==> score(m[j].text) < score(m[BestIndex(m, score)].text)
  {
    if |m| > 1 {
      var init := m[..|m| - 1];
      BestIndexIsFirstMax(init, score);
      var b := BestIndex(init, score);
      assert init[b] == m[b];
      forall j | 0 <= j < |m| - 1 ensures m[j] == init[j] {
      }
    }
  }

  /**
   * The fuzzy matcher returns nothing exactly when the catalogue is empty;
   * otherwise it returns a catalogue objective whose display text scores at
   * least as high as every display text of every catalogue objective, and
   * no candidate before it in the map scores as high.
   */
  lemma FuzzyMatchBest(query: string, catalogue: seq<TaskData>, display: (TaskData, bool) -> string,
                       similarity: (string, string) -> real)
    ensures FuzzyMatch(query, catalogue, display, similarity).None? <==> catalogue == []
    ensures FuzzyMatch(query, catalogue, display, similarity).Some? ==>
              FuzzyMatch(query, catalogue, display, similarity).value in catalogue
    ensures catalogue != [] ==>
              var m := StringMapOf(catalogue, display);
              var b := BestIndex(m, ScoreOf(query, similarity));
              && FuzzyMatch(query, catalogue, display, similarity) == Some(m[b].objective)
              && (forall i, plural :: 0 <= i < |catalogue| ==>
                    Score(query, Key(catalogue[i], plural, display), similarity) <= Score(query, m[b].text, similarity))
              && (forall j :: 0 <= j < b ==> Score(query, m[j].text, similarity) < Score(query, m[b].text, similarity))
  {
    StringMapShape(catalogue, display);
    if catalogue != [] {
      var m := StringMapOf(catalogue, display);
      var score := ScoreOf(query, similarity);
      var b := BestIndex(m, score);
      BestIndexIsFirstMax(m, score);
      assert m[b] in m;
      forall i, plural | 0 <= i < |catalogue|
        ensures Score(query, Key(catalogue[i], plural, display), similarity) <= Score(query, m[b].text, similarity)
      {
        var key := Key(catalogue[i], plural, display);
        LaterDuplicateWins(catalogue, display, i, plural);
        LookupFound(m, key);
        var k :| 0 <= k < |m| && m[k] == Candidate(key, Lookup(m, key).value);
        assert score(m[k].text) <= score(m[b].text);
      }
      forall j | 0 <= j < b ensures Score(query, m[j].text, similarity) < Score(query, m[b].text, similarity) {
        assert score(m[j].text) < score(m[b].text);
      }
    }
  }

  /** With an empty catalogue, fuzzy matching an objective ends in the 501 answer. */
  lemma EmptyCatalogueNotImplemented(d: TaskData, display: (TaskData, bool) -> string,
                                     similarity: (string, string) -> real, m: Matchers)
    requires !GivenDirectly(d) && d.matchText.Some? && MatchAlgo(d) == 1
    requires forall q :: m.fuzzy(q) == FuzzyMatch(q, [], display, similarity)
    ensures CheckDetermined(DetermineResearchComponent(d, Objective, false, m)) ==
            Rejected(501, "match_mode_not_implemented")
  {
    FuzzyMatchBest(d.matchText.value, [], display, similarity);
  }
}
