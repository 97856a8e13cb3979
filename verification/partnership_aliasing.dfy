/** `copyFrom` as the source writes it, on a store of partnership objects so that the
    target and the source can be the same object. Each setter clears the target's map
    and then reads the source's map as it is at that moment. */
module PartnershipAliasing {
  import opened Wrappers
  import opened Partnerships

  /** Object identity of a `Partnership` instance. */
  type Ref = nat
  type Store = map<Ref, Partnership>

  /** `m_a….clear ()` on the target object. */
  function ClearSenders(s: Store, target: Ref): Store requires target in s {
    s[target := s[target].(senderIDs := map[])]
  }

  function ClearReceivers(s: Store, target: Ref): Store requires target in s {
    s[target := s[target].(receiverIDs := map[])]
  }

  function ClearAttributes(s: Store, target: Ref): Store requires target in s {
    s[target := s[target].(attributes := map[])]
  }

  /** `target.copyFrom (source)`, step by step: name, then `setSenderIDs`,
      `setReceiverIDs`, `setAttributes`, each one clearing before it reads. */
  function CopyFromAsWritten(s: Store, target: Ref, source: Ref): (r: Store)
    requires target in s && source in s
    ensures r.Keys == s.Keys
    ensures forall o :: o in s && o != target ==> r[o] == s[o]
  {
    var s0 := if s[source].name.Some? then s[target := s[target].(name := s[source].name)] else s;
    var c1 := ClearSenders(s0, target);
    var s1 := c1[target := c1[target].(senderIDs := AddAll(c1[target].senderIDs, Some(c1[source].senderIDs)))];
    var c2 := ClearReceivers(s1, target);
    var s2 := c2[target := c2[target].(receiverIDs := AddAll(c2[target].receiverIDs, Some(c2[source].receiverIDs)))];
    var c3 := ClearAttributes(s2, target);
    c3[target := c3[target].(attributes := AddAll(c3[target].attributes, Some(c3[source].attributes)))]
  }

  /** On two distinct objects the source's code does what the snapshot definition
      `CopyFrom` says, and the source object is left as it was. */
  lemma DistinctCopyIsSnapshotCopy(s: Store, target: Ref, source: Ref)
    requires target in s && source in s && target != source
    ensures CopyFromAsWritten(s, target, source)[target] == CopyFrom(s[target], s[source])
    ensures CopyFromAsWritten(s, target, source)[source] == s[source]
  {
  }

  /** `p.copyFrom (p)` empties all three maps of `p`, whatever they held. */
  lemma SelfCopyAsWrittenEmptiesMaps(s: Store, p: Ref)
    requires p in s
    ensures CopyFromAsWritten(s, p, p)[p].senderIDs == map[]
    ensures CopyFromAsWritten(s, p, p)[p].receiverIDs == map[]
    ensures CopyFromAsWritten(s, p, p)[p].attributes == map[]
  {
  }

  /** A concrete partnership that stops matching itself after `copyFrom (this)`,
      while the snapshot copy leaves it unchanged. */
  lemma SelfCopyCounterexample()
    ensures var p := Partnership(Some("p"), map["as2_id" := "A"], map["as2_id" := "B"], map[]);
            var after := CopyFromAsWritten(map[0 := p], 0, 0)[0];
            Matches(p, p) && !Matches(after, after) && CopyFrom(p, p) == p
  {
    var p := Partnership(Some("p"), map["as2_id" := "A"], map["as2_id" := "B"], map[]);
    SelfCopyAsWrittenEmptiesMaps(map[0 := p], 0);
    assert "as2_id" in p.senderIDs && "as2_id" in p.receiverIDs;
    assert Matches(p, p);
    CopyFromSelfAndMatching(p, p, p);
  }
}
