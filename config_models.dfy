/**
 * The configuration value types of models/config.py. Both are frozen dataclasses
 * in the source: immutable Dafny datatypes with structural equality.
 */
module ConfigModels {

  /**
   * One pruning rule: delete messages in one channel once they are older than
   * a number of days. The type puts no bound on either number; positivity is
   * left to the validator.
   */
  datatype ChannelPruningPolicy = ChannelPruningPolicy(
    channelName: string,
    channelId: int,
    deleteOlderThanDays: int
  )

  /** The whole configuration: the pruning policies, in the order they were written. */
  datatype Config = Config(channelPruningPolicies: seq<ChannelPruningPolicy>)

  /** Dataclass equality: two policies are equal exactly when their three fields are. */
  lemma PolicyEquality(p: ChannelPruningPolicy, q: ChannelPruningPolicy)
    ensures p == q <==>
      p.channelName == q.channelName && p.channelId == q.channelId &&
      p.deleteOlderThanDays == q.deleteOlderThanDays
  {
  }

  /** Dataclass equality: two configs are equal exactly when their policy lists are, element by element. */
  lemma ConfigEquality(c: Config, d: Config)
    ensures c == d <==>
      |c.channelPruningPolicies| == |d.channelPruningPolicies| &&
      forall i :: 0 <= i < |c.channelPruningPolicies| ==>
        c.channelPruningPolicies[i] == d.channelPruningPolicies[i]
  {
    if |c.channelPruningPolicies| == |d.channelPruningPolicies| &&
       forall i :: 0 <= i < |c.channelPruningPolicies| ==>
         c.channelPruningPolicies[i] == d.channelPruningPolicies[i]
    {
      assert c.channelPruningPolicies == d.channelPruningPolicies;
    }
  }
}
