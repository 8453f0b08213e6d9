/** Internal keys as bytes, and blocks in their order (db/dbformat.cc). */
module InternalBlocks {
  import opened Blocks
  import opened Bytewise
  import opened Fixed
  import opened InternalKeys
  import opened Separators

  const TAG := 8

  /** AppendInternalKey: the user key, then the packed sequence number and type. */
  function Encoded(e: Stored): (b: Bytes)
    requires e.seqno <= MAX_SEQUENCE
    ensures |b| == |e.user| + TAG
  {
    e.user + Encode64(Tag(e.seqno, e.kind))
  }

  /** ExtractUserKey, and the number after it. */
  function UserPart(b: Bytes): Bytes
    requires |b| >= TAG
  {
    b[..|b| - TAG]
  }

  function TagPart(b: Bytes): U64
    requires |b| >= TAG
  {
    Decode64(b[|b| - TAG..])
  }

  /**
   * InternalKeyComparator on bytes: increasing user key, then decreasing tag. The source
   * asserts that keys hold a tag; here those that do not come first, in byte order.
   */
  predicate InternalLess(a: Bytes, b: Bytes) {
    if |a| < TAG || |b| < TAG then |a| < TAG && (|b| >= TAG || Less(a, b))
    else Less(UserPart(a), UserPart(b)) || (UserPart(a) == UserPart(b) && TagPart(a) > TagPart(b))
  }

  lemma LessTransitive()
    ensures Transitive(Less)
  {
    forall a, b, c | Less(a, b) && Less(b, c) ensures Less(a, c) {
      hide Less, Rank;
      RankOrder(a, b);
      RankOrder(b, c);
      RankOrder(a, c);
    }
  }

  lemma InternalLessTransitive()
    ensures Transitive(InternalLess)
  {
    forall a, b, c | InternalLess(a, b) && InternalLess(b, c) ensures InternalLess(a, c) {
      hide Less, UserPart, TagPart;
      LessTransitive();
      InternalChain(a, b, c);
    }
  }

  lemma InternalChain(a: Bytes, b: Bytes, c: Bytes)
    requires Transitive(Less) && InternalLess(a, b) && InternalLess(b, c)
    ensures InternalLess(a, c)
  {
    hide Less, UserPart, TagPart;
  }

  lemma EncodedParts(e: Stored)
    requires e.seqno <= MAX_SEQUENCE
    ensures UserPart(Encoded(e)) == e.user && TagPart(Encoded(e)) == Tag(e.seqno, e.kind)
  {
    Decode64Encode64(Tag(e.seqno, e.kind));
    assert Encoded(e)[|e.user|..] == Encode64(Tag(e.seqno, e.kind));
  }

  /** On encoded keys the comparator is the order of entries. */
  lemma EncodedOrder(a: Stored, b: Stored)
    requires a.seqno <= MAX_SEQUENCE && b.seqno <= MAX_SEQUENCE
    ensures InternalLess(Encoded(a), Encoded(b)) <==> Before(Ranked(a), Ranked(b))
  {
    hide Less, Rank, UserPart, TagPart;
    EncodedParts(a);
    EncodedParts(b);
    RankOrder(a.user, b.user);
  }

  /** The block holds the entries, in internal-key order. */
  ghost predicate Holds(l: Layout, es: seq<Stored>) {
    && |l.pairs| == |es|
    && (forall i :: 0 <= i < |es| ==> es[i].seqno <= MAX_SEQUENCE)
    && (forall i :: 0 <= i < |es| ==> l.pairs[i] == Pair(Encoded(es[i]), es[i].value))
    && forall i, j :: 0 <= i < j < |es| ==> Before(Ranked(es[i]), Ranked(es[j]))
  }

  lemma HeldAreSorted(l: Layout, es: seq<Stored>)
    requires Holds(l, es)
    ensures SortedKeys(l, InternalLess)
  {
    hide InternalLess, Encoded, Before, Ranked;
    forall i, j | 0 <= i < j < |es| ensures InternalLess(l.pairs[i].key, l.pairs[j].key) {
      EncodedOrder(es[i], es[j]);
    }
  }

  /** A seek in a data block lands on the first entry not before the target's internal key. */
  method SeekInternal(iter: Iter, ghost es: seq<Stored>, target: Stored)
    requires iter.Inv() && Holds(iter.layout, es) && target.seqno <= MAX_SEQUENCE
    modifies iter
    ensures iter.Inv() && iter.at <= |es|
    ensures forall i :: 0 <= i < iter.at ==> Before(Ranked(es[i]), Ranked(target))
    ensures iter.at < |es| ==> iter.Valid() && !Before(Ranked(es[iter.at]), Ranked(target))
    ensures iter.at < |es| ==> iter.Current() == Pair(Encoded(es[iter.at]), es[iter.at].value)
  {
    hide InternalLess, Encoded, Before, Ranked, Transitive, SortedKeys;
    InternalLessTransitive();
    HeldAreSorted(iter.layout, es);
    iter.Seek(Encoded(target), InternalLess);
    forall i | 0 <= i < |es|
      ensures InternalLess(Encoded(es[i]), Encoded(target)) <==> Before(Ranked(es[i]), Ranked(target))
    {
      EncodedOrder(es[i], target);
    }
  }
}
