/** The partnership of an AS2 exchange: a name and three string maps (sender IDs,
    receiver IDs, free-form attributes), and the directional matching used to find
    the configured partnership for a message. */
module Partnerships {
  import opened Wrappers

  /** A `StringMap`, taken to hold no null values: a key is either absent or bound
      to a string (`StringMap` itself is not part of this model). */
  type StringMap = map<string, string>

  datatype Partnership = Partnership(
    name: Option<string>,
    senderIDs: StringMap,
    receiverIDs: StringMap,
    attributes: StringMap)

  /** Reference definition of `compareIDs`: the reference map is non-empty and the
      candidate binds every one of its keys to the same value. Keys of the
      candidate that the reference does not mention are never looked at. */
  predicate Covers(ids: StringMap, candidate: StringMap) {
    ids != map[] && forall k :: k in ids ==> k in candidate && candidate[k] == ids[k]
  }

  /** `this.matches(candidate)`: both ID maps of `this` are covered by the candidate's. */
  predicate Matches(reference: Partnership, candidate: Partnership) {
    Covers(reference.senderIDs, candidate.senderIDs) && Covers(reference.receiverIDs, candidate.receiverIDs)
  }

  /** `compareIDs` as the source runs it: an empty reference answers false at once;
      otherwise the entries are visited in the map's (unspecified) iteration order and
      the first entry whose value differs from the candidate's lookup (absent looks up
      as null, which equals no stored value) answers false. */
  method CompareIDs(ids: StringMap, candidate: StringMap) returns (equal: bool)
    ensures equal <==> Covers(ids, candidate)
  {
    if ids == map[] {
      return false;
    }
    var pending := ids.Keys;
    while pending != {}
      invariant pending <= ids.Keys
      invariant forall k :: k in ids && k !in pending ==> k in candidate && candidate[k] == ids[k]
      decreases pending
    {
      var k :| k in pending;
      var compareValue := if k in candidate then Some(candidate[k]) else None;
      if compareValue != Some(ids[k]) {
        return false;
      }
      pending := pending - {k};
    }
    return true;
  }

  /** `matches`: the sender maps are compared first and the receiver maps only if
      the sender maps agree (Java's `&&`). */
  method MatchPartnership(reference: Partnership, candidate: Partnership) returns (matched: bool)
    ensures matched <==> Matches(reference, candidate)
    ensures matched ==> reference.senderIDs != map[] && reference.receiverIDs != map[]
  {
    matched := CompareIDs(reference.senderIDs, candidate.senderIDs);
    if matched {
      matched := CompareIDs(reference.receiverIDs, candidate.receiverIDs);
    }
  }

  /** An empty reference sender-ID or receiver-ID map never matches any candidate. */
  lemma EmptyReferenceNeverMatches(reference: Partnership, candidate: Partnership)
    requires reference.senderIDs == map[] || reference.receiverIDs == map[]
    ensures !Matches(reference, candidate)
  {
  }

  /** Entries the candidate adds under keys the reference does not mention never
      change whether `compareIDs` holds. */
  lemma ExtraCandidateKeysIrrelevant(ids: StringMap, candidate: StringMap, extra: StringMap)
    requires ids.Keys !! extra.Keys
    ensures Covers(ids, candidate + extra) <==> Covers(ids, candidate)
  {
  }

  /** Matching depends only on the reference's keys: a candidate that agrees with a
      matching candidate on every key the reference names matches too. */
  lemma MatchDependsOnlyOnReferenceKeys(reference: Partnership, q: Partnership, r: Partnership)
    requires Matches(reference, q)
    requires forall k :: k in reference.senderIDs ==> k in r.senderIDs && r.senderIDs[k] == q.senderIDs[k]
    requires forall k :: k in reference.receiverIDs ==> k in r.receiverIDs && r.receiverIDs[k] == q.receiverIDs[k]
    ensures Matches(reference, r)
  {
  }

  /** A partnership whose two ID maps are non-empty matches itself; with either map
      empty it does not. */
  lemma SelfMatch(p: Partnership)
    ensures Matches(p, p) <==> p.senderIDs != map[] && p.receiverIDs != map[]
  {
  }

  /** Matching is directional: a more specific candidate is matched by a less
      specific reference, not the other way round. */
  lemma MatchIsNotSymmetric()
    ensures exists p: Partnership, q: Partnership :: Matches(p, q) && !Matches(q, p)
  {
    var p := Partnership(None, map["as2_id" := "A"], map["as2_id" := "B"], map[]);
    var q := Partnership(None, map["as2_id" := "A", "email" := "a@example.com"], map["as2_id" := "B"], map[]);
    assert "as2_id" in p.senderIDs && "as2_id" in p.receiverIDs;
    assert p.senderIDs.Keys == {"as2_id"};
    assert Covers(p.senderIDs, q.senderIDs);
    assert Covers(p.receiverIDs, q.receiverIDs);
    assert "email" in q.senderIDs && "email" !in p.senderIDs;
    assert !Covers(q.senderIDs, p.senderIDs);
    assert Matches(p, q) && !Matches(q, p);
  }

  /** `StringMap.setAttributes(incoming)` applied to `m`: every incoming entry is
      set, overriding an existing value; a null argument adds nothing. */
  function AddAll(m: StringMap, incoming: Option<StringMap>): (r: StringMap)
    ensures incoming.None? ==> r == m
    ensures incoming.Some? ==> r.Keys == m.Keys + incoming.value.Keys
    ensures incoming.Some? ==> forall k :: k in incoming.value ==> r[k] == incoming.value[k]
    ensures forall k :: k in m && (incoming.None? || k !in incoming.value) ==> r[k] == m[k]
  {
    match incoming
    case None => m
    case Some(added) => m + added
  }

  /** `addAttributes`: merge, incoming values win, null is a no-op. */
  function AddAttributes(p: Partnership, attrs: Option<StringMap>): (r: Partnership)
    ensures r.attributes.Keys == p.attributes.Keys + (if attrs.Some? then attrs.value.Keys else {})
    ensures attrs.Some? ==> forall k :: k in attrs.value ==> r.attributes[k] == attrs.value[k]
    ensures forall k :: k in p.attributes && (attrs.None? || k !in attrs.value) ==> r.attributes[k] == p.attributes[k]
    ensures r.(attributes := p.attributes) == p
  {
    p.(attributes := AddAll(p.attributes, attrs))
  }

  /** `setAttributes`: clear, then add; the attributes become exactly the argument,
      or empty for null. */
  function SetAttributes(p: Partnership, attrs: Option<StringMap>): (r: Partnership)
    ensures r.attributes == attrs.GetOr(map[])
    ensures r.(attributes := p.attributes) == p
  {
    AddAttributes(p.(attributes := map[]), attrs)
  }

  /** `setSenderIDs`: clear, then copy; the whole map is replaced, null leaves it empty. */
  function SetSenderIDs(p: Partnership, ids: Option<StringMap>): (r: Partnership)
    ensures r.senderIDs == ids.GetOr(map[])
    ensures r.(senderIDs := p.senderIDs) == p
  {
    p.(senderIDs := AddAll(map[], ids))
  }

  /** `setReceiverIDs`: clear, then copy; the whole map is replaced, null leaves it empty. */
  function SetReceiverIDs(p: Partnership, ids: Option<StringMap>): (r: Partnership)
    ensures r.receiverIDs == ids.GetOr(map[])
    ensures r.(receiverIDs := p.receiverIDs) == p
  {
    p.(receiverIDs := AddAll(map[], ids))
  }

  function SetName(p: Partnership, name: Option<string>): Partnership {
    p.(name := name)
  }

  /** `copyFrom(source)` with the source read as a snapshot: the IDs and attributes
      become the source's; the name is taken only when the source has one. */
  function CopyFrom(target: Partnership, source: Partnership): (r: Partnership)
    ensures r.senderIDs == source.senderIDs
    ensures r.receiverIDs == source.receiverIDs
    ensures r.attributes == source.attributes
    ensures r.name == (if source.name.Some? then source.name else target.name)
  {
    var named := if source.name.Some? then SetName(target, source.name) else target;
    var withSenders := SetSenderIDs(named, Some(source.senderIDs));
    var withReceivers := SetReceiverIDs(withSenders, Some(source.receiverIDs));
    SetAttributes(withReceivers, Some(source.attributes))
  }

  /** Copying a partnership from itself changes nothing, and after a copy the target
      matches exactly the candidates the source matches. */
  lemma CopyFromSelfAndMatching(p: Partnership, target: Partnership, candidate: Partnership)
    ensures CopyFrom(p, p) == p
    ensures Matches(CopyFrom(target, p), candidate) <==> Matches(p, candidate)
  {
  }

  /** `getAttribute(key, default)`: the stored value, or the default when absent. */
  function GetAttributeOr(p: Partnership, key: string, default: string): (v: string)
    ensures key in p.attributes ==> v == p.attributes[key]
    ensures key !in p.attributes ==> v == default
  {
    if key in p.attributes then p.attributes[key] else default
  }

  function GetSenderID(p: Partnership, key: string): Option<string> {
    if key in p.senderIDs then Some(p.senderIDs[key]) else None
  }

  function GetReceiverID(p: Partnership, key: string): Option<string> {
    if key in p.receiverIDs then Some(p.receiverIDs[key]) else None
  }
}
