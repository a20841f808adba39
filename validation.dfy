/**
 * The validator of ConfigChannel (`_validate_config`,
 * `_validate_channel_pruning_policies`, `_validate_channel_pruning_policy`):
 * per-policy positivity checks over the whole list first, then a uniqueness
 * pass over channel ids. Each raised ValueError becomes an `Outcome.Fail`
 * carrying the identifying fields of its message.
 */
module Validation {
  import opened Wrappers
  import opened ConfigModels

  /** Why a single policy is rejected (the inner exception). */
  datatype PolicyError =
    | NonPositiveChannelId(channelId: int)
    | NonPositiveDays(deleteOlderThanDays: int)

  /** The error the validator reports for a policy list. */
  datatype ValidationError =
    | InvalidPolicy(channelId: int, channelName: string, cause: PolicyError)
    | DuplicateChannelId(channelId: int, channelName: string)

  datatype Outcome = Pass | Fail(error: ValidationError)

  // -------------------------
  // Reference properties
  // -------------------------

  predicate GoodPolicy(p: ChannelPruningPolicy) {
    p.channelId > 0 && p.deleteOlderThanDays > 0
  }

  predicate AllPositive(ps: seq<ChannelPruningPolicy>) {
    forall i :: 0 <= i < |ps| ==> GoodPolicy(ps[i])
  }

  predicate DistinctIds(ps: seq<ChannelPruningPolicy>) {
    forall a, b :: 0 <= a < b < |ps| ==> ps[a].channelId != ps[b].channelId
  }

  // -------------------------
  // Specification of the two passes
  // -------------------------

  /**
   * `_validate_channel_pruning_policy`: `None` when the policy is accepted,
   * otherwise the first failed check, the channel id being checked before the days.
   */
  function CheckPolicy(p: ChannelPruningPolicy): (r: Option<PolicyError>)
    ensures r.None? <==> GoodPolicy(p)
    ensures p.channelId <= 0 ==> r == Some(NonPositiveChannelId(p.channelId))
    ensures p.channelId > 0 && p.deleteOlderThanDays <= 0 ==>
      r == Some(NonPositiveDays(p.deleteOlderThanDays))
  {
    if p.channelId <= 0 then Some(NonPositiveChannelId(p.channelId))
    else if p.deleteOlderThanDays <= 0 then Some(NonPositiveDays(p.deleteOlderThanDays))
    else None
  }

  /** The first index at or after `j` whose policy fails its own checks. */
  function FirstBadFrom(ps: seq<ChannelPruningPolicy>, j: nat): (r: Option<nat>)
    requires j <= |ps|
    ensures r.Some? ==>
      j <= r.value < |ps| && !GoodPolicy(ps[r.value]) &&
      forall m :: j <= m < r.value ==> GoodPolicy(ps[m])
    ensures r.None? ==> forall m :: j <= m < |ps| ==> GoodPolicy(ps[m])
    decreases |ps| - j
  {
    if j == |ps| then None
    else if !GoodPolicy(ps[j]) then Some(j)
    else FirstBadFrom(ps, j + 1)
  }

  /** The channel ids of the first `n` policies: the `seen` set after `n` steps. */
  function IdsBefore(ps: seq<ChannelPruningPolicy>, n: nat): set<int>
    requires n <= |ps|
  {
    set k | 0 <= k < n :: ps[k].channelId
  }

  /** The first index at or after `j` whose channel id already occurred earlier in the list. */
  function FirstRepeatFrom(ps: seq<ChannelPruningPolicy>, j: nat): (r: Option<nat>)
    requires j <= |ps|
    ensures r.Some? ==>
      j <= r.value < |ps| && ps[r.value].channelId in IdsBefore(ps, r.value) &&
      forall m :: j <= m < r.value ==> ps[m].channelId !in IdsBefore(ps, m)
    ensures r.None? ==> forall m :: j <= m < |ps| ==> ps[m].channelId !in IdsBefore(ps, m)
    decreases |ps| - j
  {
    if j == |ps| then None
    else if ps[j].channelId in IdsBefore(ps, j) then Some(j)
    else FirstRepeatFrom(ps, j + 1)
  }

  /** What `_validate_channel_pruning_policies` reports for a policy list. */
  function Validate(ps: seq<ChannelPruningPolicy>): Outcome {
    match FirstBadFrom(ps, 0)
    case Some(k) => Fail(InvalidPolicy(ps[k].channelId, ps[k].channelName, CheckPolicy(ps[k]).value))
    case None =>
      match FirstRepeatFrom(ps, 0)
      case Some(k) => Fail(DuplicateChannelId(ps[k].channelId, ps[k].channelName))
      case None => Pass
  }

  predicate IsValidConfig(c: Config) {
    Validate(c.channelPruningPolicies) == Pass
  }

  // -------------------------
  // Properties
  // -------------------------

  /** No repeated id in list order is the same as pairwise distinct ids. */
  lemma NoRepeatIffDistinct(ps: seq<ChannelPruningPolicy>)
    ensures FirstRepeatFrom(ps, 0).None? <==> DistinctIds(ps)
  {
    if FirstRepeatFrom(ps, 0).None? {
      forall a, b | 0 <= a < b < |ps|
        ensures ps[a].channelId != ps[b].channelId
      {
        assert ps[a].channelId in IdsBefore(ps, b);
      }
    }
    if DistinctIds(ps) {
      forall m | 0 <= m < |ps|
        ensures ps[m].channelId !in IdsBefore(ps, m)
      {
        assert forall k :: 0 <= k < m ==> ps[k].channelId != ps[m].channelId;
      }
    }
  }

  /**
   * Validation succeeds exactly when every policy has a positive channel id and
   * positive days and no two policies share a channel id; so the empty list passes.
   */
  lemma ValidateSucceedsIff(ps: seq<ChannelPruningPolicy>)
    ensures Validate(ps) == Pass <==> AllPositive(ps) && DistinctIds(ps)
  {
    NoRepeatIffDistinct(ps);
  }

  /**
   * The per-policy pass runs over the whole list before the uniqueness pass:
   * the first policy in list order that fails its checks decides the error,
   * whatever duplicates the list also holds.
   */
  lemma FirstBadPolicyReported(ps: seq<ChannelPruningPolicy>, k: nat)
    requires k < |ps| && !GoodPolicy(ps[k])
    requires forall m :: 0 <= m < k ==> GoodPolicy(ps[m])
    ensures Validate(ps) == Fail(InvalidPolicy(ps[k].channelId, ps[k].channelName, CheckPolicy(ps[k]).value))
  {
  }

  /**
   * When every policy passes its own checks and the first `j` ids are distinct,
   * a policy at `j` repeating an earlier id is reported, by its own (the later)
   * id and name.
   */
  lemma LaterDuplicateReported(ps: seq<ChannelPruningPolicy>, i: nat, j: nat)
    requires AllPositive(ps)
    requires i < j < |ps| && ps[i].channelId == ps[j].channelId
    requires forall a, b :: 0 <= a < b < j ==> ps[a].channelId != ps[b].channelId
    ensures Validate(ps) == Fail(DuplicateChannelId(ps[j].channelId, ps[j].channelName))
  {
    assert ps[j].channelId in IdsBefore(ps, j);
    forall m | 0 <= m < j
      ensures ps[m].channelId !in IdsBefore(ps, m)
    {
      assert forall k :: 0 <= k < m ==> ps[k].channelId != ps[m].channelId;
    }
  }

  lemma {:induction false} FirstRepeatSameIds(ps: seq<ChannelPruningPolicy>, qs: seq<ChannelPruningPolicy>, j: nat)
    requires |ps| == |qs| && j <= |ps|
    requires forall i :: 0 <= i < |ps| ==> ps[i].channelId == qs[i].channelId
    ensures FirstRepeatFrom(ps, j) == FirstRepeatFrom(qs, j)
    decreases |ps| - j
  {
    if j < |ps| {
      assert IdsBefore(ps, j) == IdsBefore(qs, j);
      FirstRepeatSameIds(ps, qs, j + 1);
    }
  }

  /**
   * The duplicate check looks at channel ids only: two lists of accepted policies
   * with the same ids and names in the same order get the same verdict, whatever
   * their day values.
   */
  lemma DuplicateCheckIgnoresDays(ps: seq<ChannelPruningPolicy>, qs: seq<ChannelPruningPolicy>)
    requires |ps| == |qs| && AllPositive(ps) && AllPositive(qs)
    requires forall i :: 0 <= i < |ps| ==>
      ps[i].channelId == qs[i].channelId && ps[i].channelName == qs[i].channelName
    ensures Validate(ps) == Validate(qs)
  {
    FirstRepeatSameIds(ps, qs, 0);
  }

  // -------------------------
  // The validator as written: two loops and a `seen` set
  // -------------------------

  /** `_validate_channel_pruning_policies`. */
  method ValidateChannelPruningPolicies(ps: seq<ChannelPruningPolicy>) returns (r: Outcome)
    ensures r == Validate(ps)
    ensures r == Pass <==> AllPositive(ps) && DistinctIds(ps)
  {
    ValidateSucceedsIff(ps);
    for i := 0 to |ps|
      invariant forall m :: 0 <= m < i ==> GoodPolicy(ps[m])
    {
      var e := CheckPolicy(ps[i]);
      if e.Some? {
        return Fail(InvalidPolicy(ps[i].channelId, ps[i].channelName, e.value));
      }
    }
    var seen: set<int> := {};
    for i := 0 to |ps|
      invariant seen == IdsBefore(ps, i)
      invariant forall m :: 0 <= m < i ==> ps[m].channelId !in IdsBefore(ps, m)
    {
      if ps[i].channelId in seen {
        return Fail(DuplicateChannelId(ps[i].channelId, ps[i].channelName));
      }
      assert IdsBefore(ps, i + 1) == IdsBefore(ps, i) + {ps[i].channelId};
      seen := seen + {ps[i].channelId};
    }
    return Pass;
  }

  /** `_validate_config`: validates the pruning policies of a config. */
  method ValidateConfig(config: Config) returns (r: Outcome)
    ensures r == Validate(config.channelPruningPolicies)
    ensures r == Pass <==> IsValidConfig(config)
  {
    r := ValidateChannelPruningPolicies(config.channelPruningPolicies);
  }
}
