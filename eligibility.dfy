/**
 * Which webhooks fire for a field research report. A hook fires when it is
 * active, when the POI lies inside its geofence (if it names one), and when
 * each of its two requirement lists (objectives, rewards) accepts the
 * report. A non-empty list accepts exactly when "some requirement matches"
 * agrees with "the list is a whitelist".
 *
 * Whether a requirement matches the reported research, and whether the POI
 * lies inside a geofence, are decided by code outside this model; both are
 * parameters here.
 */
module Eligibility {
  import opened Wrappers
  import PhpNumbers

  /** One entry of a hook's objective or reward list: a research type and its parameters. */
  datatype Requirement = Requirement(kind: string, params: map<string, string>)

  /** The parts of a webhook's configuration that decide whether it fires. */
  datatype Hook = Hook(
    active: bool,
    geofence: Option<string>,
    objectives: seq<Requirement>,
    rewards: seq<Requirement>,
    objectiveMode: string,
    rewardMode: string)

  /** `$mode == "whitelist"`, with PHP's loose comparison. */
  predicate IsWhitelist(mode: string)
  {
    PhpNumbers.LooseEquals(mode, "whitelist")
  }

  /** Some requirement of the list matches the report. */
  predicate AnyMatch(reqs: seq<Requirement>, matches: Requirement -> bool)
  {
    exists i :: 0 <= i < |reqs| && matches(reqs[i])
  }

  /** One axis of the filter: an empty list accepts everything. */
  predicate AxisAccepts(reqs: seq<Requirement>, mode: string, matches: Requirement -> bool)
  {
    |reqs| == 0 || AnyMatch(reqs, matches) == IsWhitelist(mode)
  }

  /** The whole eligibility test for one hook. */
  predicate Eligible(h: Hook, inside: string -> bool,
                     objectiveMatches: Requirement -> bool, rewardMatches: Requirement -> bool)
  {
    && h.active
    && (h.geofence.Some? ==> inside(h.geofence.value))
    && AxisAccepts(h.objectives, h.objectiveMode, objectiveMatches)
    && AxisAccepts(h.rewards, h.rewardMode, rewardMatches)
  }

  /** The hooks that fire, in configuration order. */
  function EligibleHooks(hooks: seq<Hook>, inside: string -> bool,
                         objectiveMatches: Requirement -> bool, rewardMatches: Requirement -> bool): seq<Hook>
  {
    if hooks == [] then []
    else
      var last := hooks[|hooks| - 1];
      EligibleHooks(hooks[..|hooks| - 1], inside, objectiveMatches, rewardMatches) +
      (if Eligible(last, inside, objectiveMatches, rewardMatches) then [last] else [])
  }

  /** The inner `foreach` with its early `break`: does any requirement match? */
  method AnyRequirementMatches(reqs: seq<Requirement>, matches: Requirement -> bool) returns (found: bool)
    ensures found <==> AnyMatch(reqs, matches)
  {
    found := false;
    var i := 0;
    while i < |reqs|
      invariant 0 <= i <= |reqs|
      invariant forall j :: 0 <= j < i ==> !matches(reqs[j])
    {
      if matches(reqs[i]) {
        found := true;
        break;
      }
      i := i + 1;
    }
  }

  /** The outer loop over the configured hooks, skipping each one that fails a test. */
  method SelectHooks(hooks: seq<Hook>, inside: string -> bool,
                     objectiveMatches: Requirement -> bool, rewardMatches: Requirement -> bool)
    returns (fired: seq<Hook>)
    ensures fired == EligibleHooks(hooks, inside, objectiveMatches, rewardMatches)
  {
    fired := [];
    for k := 0 to |hooks|
      invariant fired == EligibleHooks(hooks[..k], inside, objectiveMatches, rewardMatches)
    {
      var hook := hooks[k];
      assert hooks[..k + 1][..k] == hooks[..k];
      if !hook.active {
        continue;
      }
      if hook.geofence.Some? && !inside(hook.geofence.value) {
        continue;
      }
      if |hook.objectives| > 0 {
        var eq := IsWhitelist(hook.objectiveMode);
        var matched := AnyRequirementMatches(hook.objectives, objectiveMatches);
        if matched != eq {
          continue;
        }
      }
      if |hook.rewards| > 0 {
        var eq := IsWhitelist(hook.rewardMode);
        var matched := AnyRequirementMatches(hook.rewards, rewardMatches);
        if matched != eq {
          continue;
        }
      }
      fired := fired + [hook];
    }
    assert hooks[..|hooks|] == hooks;
  }

  // ---------------------------------------------------------------------------
  // Properties
  // ---------------------------------------------------------------------------

  /** A hook fires exactly when it is configured and passes the test. */
  lemma {:induction false} EligibleHooksMembers(hooks: seq<Hook>, inside: string -> bool,
                                               objectiveMatches: Requirement -> bool,
                                               rewardMatches: Requirement -> bool, h: Hook)
    ensures h in EligibleHooks(hooks, inside, objectiveMatches, rewardMatches) <==>
            h in hooks && Eligible(h, inside, objectiveMatches, rewardMatches)
  {
    if hooks != [] {
      var init := hooks[..|hooks| - 1];
      EligibleHooksMembers(init, inside, objectiveMatches, rewardMatches, h);
      assert hooks == init + [hooks[|hooks| - 1]];
    }
  }

  /**
   * Hooks are tested one at a time and in configuration order: the hooks
   * firing from a list made of two parts are those of the first part
   * followed by those of the second.
   */
  lemma {:induction false} EligibleHooksConcat(a: seq<Hook>, b: seq<Hook>, inside: string -> bool,
                                              objectiveMatches: Requirement -> bool,
                                              rewardMatches: Requirement -> bool)
    ensures EligibleHooks(a + b, inside, objectiveMatches, rewardMatches) ==
            EligibleHooks(a, inside, objectiveMatches, rewardMatches) +
            EligibleHooks(b, inside, objectiveMatches, rewardMatches)
    decreases |b|
  {
    if b == [] {
      assert a + b == a;
    } else {
      var init := b[..|b| - 1];
      assert (a + b)[..|a + b| - 1] == a + init;
      assert (a + b)[|a + b| - 1] == b[|b| - 1];
      EligibleHooksConcat(a, init, inside, objectiveMatches, rewardMatches);
    }
  }

  lemma WhitelistLabelNotNumeric()
    ensures !PhpNumbers.IsNumeric("whitelist")
  {
    assert PhpNumbers.SpaceEnd("whitelist", 0) == 0 && PhpNumbers.DigitEnd("whitelist", 0) == 0;
  }

  /** "whitelist" is not a numeric string, so the loose comparison is exact. */
  lemma IsWhitelistExact(mode: string)
    ensures IsWhitelist(mode) <==> mode == "whitelist"
  {
    WhitelistLabelNotNumeric();
    PhpNumbers.LooseEqualsNonNumeric(mode, "whitelist");
  }

  /**
   * An axis with requirements: a whitelist needs a match, and every other
   * mode (not only "blacklist") needs the absence of one.
   */
  lemma AxisModes(reqs: seq<Requirement>, mode: string, matches: Requirement -> bool)
    requires |reqs| > 0
    ensures mode == "whitelist" ==> (AxisAccepts(reqs, mode, matches) <==> AnyMatch(reqs, matches))
    ensures mode != "whitelist" ==> (AxisAccepts(reqs, mode, matches) <==> !AnyMatch(reqs, matches))
  {
    IsWhitelistExact(mode);
  }

  /** An inactive hook, or one whose geofence excludes the POI, never fires. */
  lemma InactiveOrOutsideNeverFires(hooks: seq<Hook>, inside: string -> bool,
                                    objectiveMatches: Requirement -> bool,
                                    rewardMatches: Requirement -> bool, h: Hook)
    requires !h.active || (h.geofence.Some? && !inside(h.geofence.value))
    ensures h !in EligibleHooks(hooks, inside, objectiveMatches, rewardMatches)
  {
    EligibleHooksMembers(hooks, inside, objectiveMatches, rewardMatches, h);
  }

  /** A hook with no requirements on either axis fires when active and inside its geofence. */
  lemma UnfilteredHookFires(hooks: seq<Hook>, inside: string -> bool,
                            objectiveMatches: Requirement -> bool,
                            rewardMatches: Requirement -> bool, h: Hook)
    requires h in hooks && h.active && (h.geofence.Some? ==> inside(h.geofence.value))
    requires h.objectives == [] && h.rewards == []
    ensures h in EligibleHooks(hooks, inside, objectiveMatches, rewardMatches)
  {
    EligibleHooksMembers(hooks, inside, objectiveMatches, rewardMatches, h);
  }
}
