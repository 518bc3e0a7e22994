/**
  The unique-word source. Each request to the word service yields one reply,
  a list whose first element is the word. The service is modelled as the
  finite stream of replies it would give; a ledger records every word issued
  so far, and a word already in it is skipped by asking again. The retry is
  bounded by `fuel`, the maximum number of requests one draw may make.
 */
module WordSource {
  import opened Results

  /** One decoded reply of the word service. */
  type Reply = seq<string>

  datatype WordError =
    | NoReply           // the service stopped answering
    | EmptyReply        // a reply without a first element
    | RetriesExhausted  // every allowed request returned a word already issued

  /** A successful draw: the word, the ledger that now records it, and the replies not yet consumed. */
  datatype Draw = Draw(word: string, ledger: seq<string>, rest: seq<Reply>)

  predicate NoDuplicates(s: seq<string>) {
    forall i, j :: 0 <= i < j < |s| ==> s[i] != s[j]
  }

  /** Every reply in `replies` carries a word, and that word is already in `ledger`. */
  predicate AllRepeats(replies: seq<Reply>, ledger: seq<string>) {
    forall k :: 0 <= k < |replies| ==> |replies[k]| > 0 && replies[k][0] in ledger
  }

  /** Request `k` is made within the retry bound, and every reply before it repeated a ledger word. */
  predicate ReachedAt(replies: seq<Reply>, ledger: seq<string>, fuel: nat, k: int) {
    0 <= k < |replies| && k < fuel && AllRepeats(replies[..k], ledger)
  }

  /** Prefixing a repeated reply does not change whether all replies are repeats. */
  lemma AllRepeatsAfterRepeat(first: Reply, tail: seq<Reply>, ledger: seq<string>)
    requires |first| > 0 && first[0] in ledger
    ensures AllRepeats([first] + tail, ledger) <==> AllRepeats(tail, ledger)
  {
    var all := [first] + tail;
    if AllRepeats(tail, ledger) {
      forall k | 0 <= k < |all|
        ensures |all[k]| > 0 && all[k][0] in ledger
      {
        if k > 0 {
          assert all[k] == tail[k - 1];
        }
      }
    }
    if AllRepeats(all, ledger) {
      forall k | 0 <= k < |tail|
        ensures |tail[k]| > 0 && tail[k][0] in ledger
      {
        assert tail[k] == all[k + 1];
      }
    }
  }

  /** After a repeated first reply, request `k + 1` is reached exactly when request `k` of the remaining replies is. */
  lemma ReachedAfterRepeat(replies: seq<Reply>, tail: seq<Reply>, ledger: seq<string>, fuel: nat, tailFuel: nat)
    requires |replies| > 0 && |replies[0]| > 0 && replies[0][0] in ledger
    requires tail == replies[1..] && tailFuel + 1 == fuel
    ensures forall k :: 0 <= k ==> (ReachedAt(tail, ledger, tailFuel, k) <==> ReachedAt(replies, ledger, fuel, k + 1))
    ensures !ReachedAt(replies, ledger, fuel, 0) || (|replies[0]| > 0 && replies[0][0] in ledger)
    ensures forall k :: 1 <= k ==> (ReachedAt(replies, ledger, fuel, k) <==> ReachedAt(tail, ledger, tailFuel, k - 1))
    ensures forall k :: 0 <= k < |tail| ==> tail[k] == replies[k + 1]
    ensures AllRepeats(tail, ledger) ==> AllRepeats(replies, ledger)
    ensures tailFuel <= |tail| && AllRepeats(tail[..tailFuel], ledger) ==> AllRepeats(replies[..fuel], ledger)
  {
    forall k | 0 <= k
      ensures ReachedAt(tail, ledger, tailFuel, k) <==> ReachedAt(replies, ledger, fuel, k + 1)
    {
      if k < |tail| {
        assert replies[..k + 1] == [replies[0]] + tail[..k];
        AllRepeatsAfterRepeat(replies[0], tail[..k], ledger);
      }
    }
    forall k | 1 <= k
      ensures ReachedAt(replies, ledger, fuel, k) <==> ReachedAt(tail, ledger, tailFuel, k - 1)
    {
      assert ReachedAt(tail, ledger, tailFuel, k - 1) <==> ReachedAt(replies, ledger, fuel, k - 1 + 1);
    }
    assert replies == [replies[0]] + tail;
    AllRepeatsAfterRepeat(replies[0], tail, ledger);
    if tailFuel <= |tail| {
      assert replies[..fuel] == [replies[0]] + tail[..tailFuel];
      AllRepeatsAfterRepeat(replies[0], tail[..tailFuel], ledger);
    }
  }

  /**
    What a draw from `replies` with the given ledger and retry bound must
    give; it pins down the outcome for every input.
   */
  ghost predicate DrawOutcome(ledger: seq<string>, replies: seq<Reply>, fuel: nat, r: Result<Draw, WordError>) {
    // the word is fresh and the ledger grows by exactly that word
    && (r.Success? ==> r.value.word !in ledger && r.value.ledger == ledger + [r.value.word])
    // the replies left over are a proper suffix of those given
    && (r.Success? ==> |r.value.rest| < |replies| && r.value.rest == replies[|replies| - |r.value.rest|..])
    // the word comes from the last reply consumed, reached within the retry bound after repeats only
    && (r.Success? ==>
          var last := |replies| - |r.value.rest| - 1;
          ReachedAt(replies, ledger, fuel, last) && |replies[last]| > 0 && replies[last][0] == r.value.word)
    // the service running dry is reported only after every reply was a repeat
    && (r == Failure(NoReply) ==> AllRepeats(replies, ledger) && |replies| < fuel)
    && (r == Failure(RetriesExhausted) ==> |replies| >= fuel && AllRepeats(replies[..fuel], ledger))
    // an empty reply fails the draw only when it is the first reply that is not a repeat
    && (r == Failure(EmptyReply) ==> exists k :: ReachedAt(replies, ledger, fuel, k) && |replies[k]| == 0)
    // conversely, a fresh word reached within the retry bound is always returned
    && ((exists k :: ReachedAt(replies, ledger, fuel, k) && |replies[k]| > 0 && replies[k][0] !in ledger) ==> r.Success?)
  }

  /** Skipping a repeated first reply: an outcome right for the remaining replies is right for all of them. */
  lemma OutcomeAfterRepeat(ledger: seq<string>, replies: seq<Reply>, fuel: nat, r: Result<Draw, WordError>)
    requires fuel > 0 && |replies| > 0 && |replies[0]| > 0 && replies[0][0] in ledger
    requires DrawOutcome(ledger, replies[1..], fuel - 1, r)
    ensures DrawOutcome(ledger, replies, fuel, r)
  {
    var tail := replies[1..];
    ReachedAfterRepeat(replies, tail, ledger, fuel, fuel - 1);
    if r.Success? {
      var lastT := |tail| - |r.value.rest| - 1;
      assert ReachedAt(replies, ledger, fuel, lastT + 1);
      assert tail[|tail| - |r.value.rest|..] == replies[|replies| - |r.value.rest|..];
    }
    if r == Failure(EmptyReply) {
      var k :| ReachedAt(tail, ledger, fuel - 1, k) && |tail[k]| == 0;
      assert ReachedAt(replies, ledger, fuel, k + 1) && |replies[k + 1]| == 0;
    }
    if exists k :: ReachedAt(replies, ledger, fuel, k) && |replies[k]| > 0 && replies[k][0] !in ledger {
      var k :| ReachedAt(replies, ledger, fuel, k) && |replies[k]| > 0 && replies[k][0] !in ledger;
      assert k != 0;
      assert ReachedAt(tail, ledger, fuel - 1, k - 1) && tail[k - 1] == replies[k];
    }
  }

  function GetRandomWord(ledger: seq<string>, replies: seq<Reply>, fuel: nat): (r: Result<Draw, WordError>)
    ensures DrawOutcome(ledger, replies, fuel, r)
    decreases fuel
  {
    if fuel == 0 then Failure(RetriesExhausted)
    else if |replies| == 0 then Failure(NoReply)
    else if |replies[0]| == 0 then
      assert ReachedAt(replies, ledger, fuel, 0);
      Failure(EmptyReply)
    else if replies[0][0] in ledger then
      var r := GetRandomWord(ledger, replies[1..], fuel - 1);
      OutcomeAfterRepeat(ledger, replies, fuel, r);
      r
    else
      var r := Success(Draw(replies[0][0], ledger + [replies[0][0]], replies[1..]));
      assert ReachedAt(replies, ledger, fuel, 0);
      r
  }

  /** A ledger without duplicates stays duplicate-free after a draw. */
  lemma DrawKeepsLedgerDistinct(ledger: seq<string>, replies: seq<Reply>, fuel: nat)
    requires NoDuplicates(ledger)
    ensures GetRandomWord(ledger, replies, fuel).Success? ==> NoDuplicates(GetRandomWord(ledger, replies, fuel).value.ledger)
  {
  }
}
