/** Conflict resolution: adopt the longest valid chain offered by a peer.
    Each peer's reply is already fetched; a reply carries the HTTP status, the
    length the peer reports and the chain it sends. The reported length is
    compared, not the length of the chain actually sent. Replies come in the
    iteration order of the peer set, which is unspecified. */
module Consensus {
  import opened BlockTypes
  import opened Chain

  import opened Hashing

  const StatusOk: int := 200

  datatype Reply = Reply(status: int, length: int, chain: seq<Block>)

  datatype Resolution = Resolution(replaced: bool, ledger: Ledger)

  /** A reply the resolver would adopt if nothing longer came along. */
  predicate Qualifies(c: Crypto, localLength: int, r: Reply)
  {
    r.status == StatusOk && r.length > localLength && |r.chain| > 0 && IsValidChain(c, r.chain)
  }

  /** Reply `j` reaches the validity check with an empty chain: it claims a length
      above the local one and above every qualifying reply before it. */
  predicate Crashes(c: Crypto, localLength: int, replies: seq<Reply>, j: int)
    requires 0 <= j < |replies|
  {
    && replies[j].status == StatusOk
    && |replies[j].chain| == 0
    && replies[j].length > localLength
    && forall i :: 0 <= i < j && Qualifies(c, localLength, replies[i]) ==> replies[i].length < replies[j].length
  }

  /** Among the first `n` replies, `k` qualifies with the greatest reported length
      and no earlier qualifying reply has that length. */
  predicate SelectedAmong(c: Crypto, localLength: int, replies: seq<Reply>, n: int, k: int)
    requires n <= |replies|
  {
    && 0 <= k < n
    && Qualifies(c, localLength, replies[k])
    && (forall j :: 0 <= j < n && Qualifies(c, localLength, replies[j]) ==> replies[j].length <= replies[k].length)
    && (forall j :: 0 <= j < k && Qualifies(c, localLength, replies[j]) ==> replies[j].length < replies[k].length)
  }

  /** What the scan knows after the first `n` replies: none of them failed, and
      `maxLength`/`best` describe the selection among them. */
  ghost predicate ScanState(c: Crypto, localLength: int, replies: seq<Reply>, n: int,
                            maxLength: int, best: Option<seq<Block>>)
    requires 0 <= n <= |replies|
  {
    && (forall j :: 0 <= j < n ==> !Crashes(c, localLength, replies, j))
    && match best
       case None =>
         maxLength == localLength && forall j :: 0 <= j < n ==> !Qualifies(c, localLength, replies[j])
       case Some(chosen) =>
         exists k :: SelectedAmong(c, localLength, replies, n, k)
                     && chosen == replies[k].chain && maxLength == replies[k].length
  }

  /** One step of the scan over reply `n`, when it is skipped. */
  lemma SkipStep(c: Crypto, localLength: int, replies: seq<Reply>, n: nat,
                 maxLength: int, best: Option<seq<Block>>)
    requires n < |replies|
    requires ScanState(c, localLength, replies, n, maxLength, best)
    requires !(replies[n].status == StatusOk && replies[n].length > maxLength)
             || (|replies[n].chain| > 0 && !IsValidChain(c, replies[n].chain))
    ensures ScanState(c, localLength, replies, n + 1, maxLength, best)
  {
    var r := replies[n];
    match best
    case None =>
      assert !Crashes(c, localLength, replies, n);
      assert !Qualifies(c, localLength, r);
    case Some(chosen) =>
      var k :| SelectedAmong(c, localLength, replies, n, k)
               && chosen == replies[k].chain && maxLength == replies[k].length;
      assert !Crashes(c, localLength, replies, n);
      assert SelectedAmong(c, localLength, replies, n + 1, k);
  }

  /** One step of the scan over reply `n`, when it is adopted. */
  lemma AdoptStep(c: Crypto, localLength: int, replies: seq<Reply>, n: nat,
                  maxLength: int, best: Option<seq<Block>>)
    requires n < |replies|
    requires ScanState(c, localLength, replies, n, maxLength, best)
    requires replies[n].status == StatusOk && replies[n].length > maxLength
    requires |replies[n].chain| > 0 && IsValidChain(c, replies[n].chain)
    ensures ScanState(c, localLength, replies, n + 1, replies[n].length, Some(replies[n].chain))
  {
    match best
    case None =>
    case Some(chosen) =>
      var k :| SelectedAmong(c, localLength, replies, n, k)
               && chosen == replies[k].chain && maxLength == replies[k].length;
    assert SelectedAmong(c, localLength, replies, n + 1, n);
  }

  /** The reply at `n` reaches the validity check with an empty chain. */
  lemma CrashStep(c: Crypto, localLength: int, replies: seq<Reply>, n: nat,
                  maxLength: int, best: Option<seq<Block>>)
    requires n < |replies|
    requires ScanState(c, localLength, replies, n, maxLength, best)
    requires replies[n].status == StatusOk && replies[n].length > maxLength
    requires |replies[n].chain| == 0
    ensures Crashes(c, localLength, replies, n)
  {
    match best
    case None =>
    case Some(chosen) =>
      var k :| SelectedAmong(c, localLength, replies, n, k)
               && chosen == replies[k].chain && maxLength == replies[k].length;
  }

  /** The loop over the replies from position `n` on, with the running maximum
      length and the chain chosen so far. */
  function Scan(c: Crypto, ghost localLength: int, replies: seq<Reply>, n: nat,
                maxLength: int, best: Option<seq<Block>>): (r: Result<Option<seq<Block>>>)
    requires n <= |replies|
    requires ScanState(c, localLength, replies, n, maxLength, best)
    ensures r.Failure? <==> exists j :: 0 <= j < |replies| && Crashes(c, localLength, replies, j)
    ensures r.Success? ==>
              (r.value.None? <==> forall j :: 0 <= j < |replies| ==> !Qualifies(c, localLength, replies[j]))
    ensures r.Success? && r.value.Some? ==>
              exists k :: SelectedAmong(c, localLength, replies, |replies|, k) && r.value.value == replies[k].chain
    decreases |replies| - n
  {
    if n == |replies| then
      Success(best)
    else
      var reply := replies[n];
      if reply.status == StatusOk && reply.length > maxLength then
        match ValidChain(c, reply.chain)
        case Failure(e) =>
          CrashStep(c, localLength, replies, n, maxLength, best);
          Failure(e)
        case Success(ok) =>
          if ok then
            AdoptStep(c, localLength, replies, n, maxLength, best);
            Scan(c, localLength, replies, n + 1, reply.length, Some(reply.chain))
          else
            SkipStep(c, localLength, replies, n, maxLength, best);
            Scan(c, localLength, replies, n + 1, maxLength, best)
      else
        SkipStep(c, localLength, replies, n, maxLength, best);
        Scan(c, localLength, replies, n + 1, maxLength, best)
  }

  /** Replaces the local chain by the longest valid chain the peers offer, if any
      is strictly longer (by reported length) than the local one. Pending
      transactions and peers are kept. A reply that reaches the validity check
      with an empty chain aborts the whole pass. */
  function ResolveConflicts(c: Crypto, l: Ledger, replies: seq<Reply>): (r: Result<Resolution>)
    ensures r.Failure? <==> exists j :: 0 <= j < |replies| && Crashes(c, |l.chain|, replies, j)
    ensures r.Success? ==>
              (r.value.replaced <==> exists j :: 0 <= j < |replies| && Qualifies(c, |l.chain|, replies[j]))
    ensures r.Success? && !r.value.replaced ==> r.value.ledger == l
    ensures r.Success? && r.value.replaced ==>
              exists k :: SelectedAmong(c, |l.chain|, replies, |replies|, k)
                          && r.value.ledger == l.(chain := replies[k].chain)
  {
    match Scan(c, |l.chain|, replies, 0, |l.chain|, None)
    case Failure(e) => Failure(e)
    case Success(None) => Success(Resolution(false, l))
    case Success(Some(chain)) => Success(Resolution(true, l.(chain := chain)))
  }

  /** At most one reply is selected: the greatest reported length, first seen on ties. */
  lemma SelectionUnique(c: Crypto, localLength: int, replies: seq<Reply>, k1: int, k2: int)
    requires SelectedAmong(c, localLength, replies, |replies|, k1)
    requires SelectedAmong(c, localLength, replies, |replies|, k2)
    ensures k1 == k2
  {
  }

  /** An adopted chain is non-empty, valid and strictly longer by reported length. */
  lemma AdoptedChainIsValid(c: Crypto, l: Ledger, replies: seq<Reply>)
    ensures var r := ResolveConflicts(c, l, replies);
            r.Success? && r.value.replaced ==>
              |r.value.ledger.chain| > 0 && IsValidChain(c, r.value.ledger.chain)
              && exists k :: 0 <= k < |replies| && replies[k].chain == r.value.ledger.chain
                             && replies[k].length > |l.chain|
  {
  }

  /** When every peer reports the true length of what it sends, resolution never
      fails and never shortens the local chain. */
  lemma HonestLengthsOnlyLengthen(c: Crypto, l: Ledger, replies: seq<Reply>)
    requires forall j :: 0 <= j < |replies| ==> replies[j].length == |replies[j].chain|
    ensures var r := ResolveConflicts(c, l, replies);
            r.Success? && (r.value.replaced ==> |r.value.ledger.chain| > |l.chain|)
  {
  }

  /** A peer that overstates its length can replace a two-block chain by a
      one-block chain. */
  lemma InflatedLengthCanShorten(c: Crypto, l: Ledger, b: Block)
    requires |l.chain| == 2
    ensures ResolveConflicts(c, l, [Reply(StatusOk, 3, [b])])
            == Success(Resolution(true, l.(chain := [b])))
  {
    var replies := [Reply(StatusOk, 3, [b])];
    assert Qualifies(c, |l.chain|, replies[0]);
  }

  /** Two valid chains of the same greater length: the one seen first wins, so the
      outcome depends on the order in which peers are visited. */
  lemma TieGoesToFirstSeen(c: Crypto, l: Ledger, a: seq<Block>, b: seq<Block>, n: int)
    requires |a| > 0 && IsValidChain(c, a) && |b| > 0 && IsValidChain(c, b)
    requires n > |l.chain|
    ensures ResolveConflicts(c, l, [Reply(StatusOk, n, a), Reply(StatusOk, n, b)])
            == Success(Resolution(true, l.(chain := a)))
    ensures ResolveConflicts(c, l, [Reply(StatusOk, n, b), Reply(StatusOk, n, a)])
            == Success(Resolution(true, l.(chain := b)))
  {
    var ab := [Reply(StatusOk, n, a), Reply(StatusOk, n, b)];
    var ba := [Reply(StatusOk, n, b), Reply(StatusOk, n, a)];
    assert Qualifies(c, |l.chain|, ab[0]) && Qualifies(c, |l.chain|, ab[1]);
    assert SelectedAmong(c, |l.chain|, ab, 2, 0);
    assert SelectedAmong(c, |l.chain|, ba, 2, 0);
  }
}
