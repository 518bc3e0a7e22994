/**
  The collection loop: draw a fresh word, search with it for at most as many
  repositories as are still needed (and never more than the per-word cap),
  append what comes back, and stop once the quota is met. The search service
  is a parameter mapping each query word to its decoded reply.
 */
module Collector {
  import opened Results
  import opened Search
  import opened WordSource

  /** The two run settings the loop reads, as they come from the configuration. */
  datatype Config = Config(numberOfReposWanted: int, numberOfReposPerWord: int)

  /** What a run produced, round by round. */
  datatype Collection = Collection(
    repos: seq<string>,        // the accepted full names, in acceptance order
    words: seq<string>,        // the word used in each round
    rounds: seq<seq<string>>,  // the names each round contributed
    ledger: seq<string>,       // the word ledger after the run
    rests: seq<seq<Reply>>)    // word-service replies not yet consumed before each round, and at the end

  /** A run stopped because no word could be drawn, with everything collected up to that point. */
  datatype Aborted = Aborted(error: WordError, partial: Collection)

  /** The size of one round's request: the per-word cap, unless fewer repositories are still needed. */
  function RoundCap(perWord: int, stillNeeded: int): (n: int)
    ensures n <= perWord && n <= stillNeeded
    ensures n == perWord || n == stillNeeded
  {
    if stillNeeded >= perWord then perWord else stillNeeded
  }

  /** The rounds' contributions concatenated in order. */
  function Flatten(rounds: seq<seq<string>>): seq<string> {
    if |rounds| == 0 then [] else Flatten(rounds[..|rounds| - 1]) + rounds[|rounds| - 1]
  }

  /** The repositories collected before round `i` form a prefix of those collected after it. */
  lemma {:induction false} FlattenPrefix(rounds: seq<seq<string>>, i: nat)
    requires i <= |rounds|
    ensures Flatten(rounds[..i]) <= Flatten(rounds)
    decreases |rounds|
  {
    if i < |rounds| {
      var init := rounds[..|rounds| - 1];
      assert rounds[..i] == init[..i];
      FlattenPrefix(init, i);
    } else {
      assert rounds[..i] == rounds;
    }
  }

  /** The quota to reach: a non-positive setting asks for nothing. */
  function Quota(config: Config): nat {
    if config.numberOfReposWanted < 0 then 0 else config.numberOfReposWanted
  }

  /** Round `i` searched with word `i`, asking for what was still needed, capped per word. */
  predicate RoundFollowsRule(config: Config, search: string -> Response,
                             words: seq<string>, rounds: seq<seq<string>>, i: int)
    requires 0 <= i < |rounds| == |words|
  {
    var before := |Flatten(rounds[..i])|;
    && before < config.numberOfReposWanted
    && rounds[i] == Capped(SuitableNames(ItemsOf(search(words[i]))),
                           RoundCap(config.numberOfReposPerWord, config.numberOfReposWanted - before))
  }

  /**
    Five wanted, three per word: a first word with three suitable results
    contributes all three, and a second with four is cut to the two still
    needed, taken in response order.
   */
  lemma TwoRoundScenario(search: string -> Response, rounds: seq<seq<string>>)
    requires |SuitableNames(ItemsOf(search("alpha")))| == 3
    requires |SuitableNames(ItemsOf(search("beta")))| == 4
    requires |rounds| == 2
    requires forall i :: 0 <= i < 2 ==> RoundFollowsRule(Config(5, 3), search, ["alpha", "beta"], rounds, i)
    ensures Flatten(rounds) == SuitableNames(ItemsOf(search("alpha"))) + SuitableNames(ItemsOf(search("beta")))[..2]
    ensures |Flatten(rounds)| == 5
  {
    var words := ["alpha", "beta"];
    assert RoundFollowsRule(Config(5, 3), search, words, rounds, 0);
    assert rounds[..0] == [];
    assert RoundFollowsRule(Config(5, 3), search, words, rounds, 1);
    assert rounds[..1] == [rounds[0]];
    assert Flatten([rounds[0]]) == rounds[0];
    assert rounds[..|rounds| - 1] == [rounds[0]];
  }

  /** The facts the loop keeps about the rounds done so far. */
  predicate RoundsSoFar(config: Config, search: string -> Response,
                        words: seq<string>, rounds: seq<seq<string>>)
  {
    && |rounds| == |words|
    && |Flatten(rounds)| <= Quota(config)
    && forall i :: 0 <= i < |rounds| ==> RoundFollowsRule(config, search, words, rounds, i)
  }

  /** One more round that follows the rule keeps the loop's facts. */
  lemma ExtendRounds(config: Config, search: string -> Response,
                     words: seq<string>, rounds: seq<seq<string>>, word: string, found: seq<string>)
    requires RoundsSoFar(config, search, words, rounds)
    requires |Flatten(rounds)| < config.numberOfReposWanted
    requires found == Capped(SuitableNames(ItemsOf(search(word))),
                             RoundCap(config.numberOfReposPerWord, config.numberOfReposWanted - |Flatten(rounds)|))
    ensures Flatten(rounds + [found]) == Flatten(rounds) + found
    ensures RoundsSoFar(config, search, words + [word], rounds + [found])
  {
    var rounds', words' := rounds + [found], words + [word];
    assert rounds'[..|rounds|] == rounds;
    forall i | 0 <= i < |rounds'|
      ensures RoundFollowsRule(config, search, words', rounds', i)
    {
      if i < |rounds| {
        assert rounds'[..i] == rounds[..i];
        assert RoundFollowsRule(config, search, words, rounds, i);
      }
    }
  }

  /** Word `i` is what the word source gives for the ledger and the replies as they stood before round `i`. */
  predicate DrawFollows(ledger: seq<string>, fuel: nat, words: seq<string>, rests: seq<seq<Reply>>, i: int)
    requires 0 <= i < |words| && |rests| == |words| + 1
  {
    GetRandomWord(ledger + words[..i], rests[i], fuel)
      == Success(Draw(words[i], ledger + words[..i + 1], rests[i + 1]))
  }

  /** The words of the rounds so far were drawn one after another from `replies`. */
  predicate DrawsSoFar(ledger: seq<string>, replies: seq<Reply>, fuel: nat,
                       words: seq<string>, rests: seq<seq<Reply>>)
  {
    && |rests| == |words| + 1
    && rests[0] == replies
    && forall i :: 0 <= i < |words| ==> DrawFollows(ledger, fuel, words, rests, i)
  }

  /** One more successful draw from the replies left over extends the chain of draws. */
  lemma ExtendDraws(ledger: seq<string>, replies: seq<Reply>, fuel: nat,
                    words: seq<string>, rests: seq<seq<Reply>>, word: string, rest: seq<Reply>)
    requires DrawsSoFar(ledger, replies, fuel, words, rests)
    requires GetRandomWord(ledger + words, rests[|words|], fuel) == Success(Draw(word, ledger + words + [word], rest))
    ensures DrawsSoFar(ledger, replies, fuel, words + [word], rests + [rest])
  {
    var words', rests' := words + [word], rests + [rest];
    forall i | 0 <= i < |words'|
      ensures DrawFollows(ledger, fuel, words', rests', i)
    {
      if i < |words| {
        assert words'[..i] == words[..i] && words'[..i + 1] == words[..i + 1];
        assert rests'[i] == rests[i] && rests'[i + 1] == rests[i + 1];
        assert DrawFollows(ledger, fuel, words, rests, i);
      } else {
        assert words'[..i] == words && words'[..i + 1] == words';
        assert rests'[i] == rests[|words|] && rests'[i + 1] == rest;
        assert ledger + words' == ledger + words + [word];
      }
    }
  }

  /**
    `c` is what the loop holds after some rounds of a run with these inputs:
    its words drawn in turn from the replies, each round searched by the rule,
    and the list the rounds' contributions in order.
   */
  predicate IsTrace(config: Config, search: string -> Response,
                    ledger: seq<string>, replies: seq<Reply>, fuel: nat, c: Collection)
  {
    && c.repos == Flatten(c.rounds)
    && RoundsSoFar(config, search, c.words, c.rounds)
    && DrawsSoFar(ledger, replies, fuel, c.words, c.rests)
    && c.ledger == ledger + c.words
  }

  /** Round `k` of two runs agrees when everything before it does. */
  lemma RoundAgrees(config: Config, search: string -> Response, ledger: seq<string>, fuel: nat,
                    words1: seq<string>, rounds1: seq<seq<string>>, rests1: seq<seq<Reply>>,
                    words2: seq<string>, rounds2: seq<seq<string>>, rests2: seq<seq<Reply>>, k: nat)
    requires k < |words1| == |rounds1| && |rests1| == |words1| + 1
    requires k < |words2| == |rounds2| && |rests2| == |words2| + 1
    requires DrawFollows(ledger, fuel, words1, rests1, k) && DrawFollows(ledger, fuel, words2, rests2, k)
    requires RoundFollowsRule(config, search, words1, rounds1, k) && RoundFollowsRule(config, search, words2, rounds2, k)
    requires words1[..k] == words2[..k] && rounds1[..k] == rounds2[..k] && rests1[k] == rests2[k]
    ensures words1[..k + 1] == words2[..k + 1] && rounds1[..k + 1] == rounds2[..k + 1] && rests1[k + 1] == rests2[k + 1]
  {
    // the same ledger and replies give the same draw
    var draw1 := GetRandomWord(ledger + words1[..k], rests1[k], fuel);
    assert draw1 == GetRandomWord(ledger + words2[..k], rests2[k], fuel);
    assert words1[k] == draw1.value.word == words2[k];
    // the same word and the same earlier rounds give the same search request
    assert Flatten(rounds1[..k]) == Flatten(rounds2[..k]);
    assert rounds1[k] == rounds2[k];
    assert words1[..k + 1] == words1[..k] + [words1[k]] && words2[..k + 1] == words2[..k] + [words2[k]];
    assert rounds1[..k + 1] == rounds1[..k] + [rounds1[k]] && rounds2[..k + 1] == rounds2[..k] + [rounds2[k]];
  }

  /** One more round, drawn and searched as the loop does, extends a trace. */
  lemma ExtendTrace(config: Config, search: string -> Response,
                    ledger: seq<string>, replies: seq<Reply>, fuel: nat,
                    c: Collection, word: string, found: seq<string>, rest: seq<Reply>)
    requires IsTrace(config, search, ledger, replies, fuel, c)
    requires |c.repos| < config.numberOfReposWanted
    requires GetRandomWord(c.ledger, c.rests[|c.words|], fuel) == Success(Draw(word, c.ledger + [word], rest))
    requires found == Capped(SuitableNames(ItemsOf(search(word))),
                             RoundCap(config.numberOfReposPerWord, config.numberOfReposWanted - |c.repos|))
    ensures IsTrace(config, search, ledger, replies, fuel,
                    Collection(c.repos + found, c.words + [word], c.rounds + [found], c.ledger + [word], c.rests + [rest]))
  {
    ExtendRounds(config, search, c.words, c.rounds, word, found);
    ExtendDraws(ledger, replies, fuel, c.words, c.rests, word, rest);
  }

  /** Traces of the same inputs agree on their first `n` rounds. */
  lemma {:induction false} TracesAgree(config: Config, search: string -> Response,
                                       ledger: seq<string>, replies: seq<Reply>, fuel: nat,
                                       c1: Collection, c2: Collection, n: nat)
    requires IsTrace(config, search, ledger, replies, fuel, c1)
    requires IsTrace(config, search, ledger, replies, fuel, c2)
    requires n <= |c1.words| && n <= |c2.words|
    ensures c1.words[..n] == c2.words[..n] && c1.rounds[..n] == c2.rounds[..n] && c1.rests[n] == c2.rests[n]
  {
    if n > 0 {
      TracesAgree(config, search, ledger, replies, fuel, c1, c2, n - 1);
      RoundAgrees(config, search, ledger, fuel, c1.words, c1.rounds, c1.rests,
                  c2.words, c2.rounds, c2.rests, n - 1);
    }
  }

  /** A run is fixed by its inputs: two traces with the same number of rounds are the same. */
  lemma TraceDeterminedByInputs(config: Config, search: string -> Response,
                                ledger: seq<string>, replies: seq<Reply>, fuel: nat,
                                c1: Collection, c2: Collection)
    requires IsTrace(config, search, ledger, replies, fuel, c1)
    requires IsTrace(config, search, ledger, replies, fuel, c2)
    requires |c1.words| == |c2.words|
    ensures c1 == c2
  {
    var n := |c1.words|;
    TracesAgree(config, search, ledger, replies, fuel, c1, c2, n);
    assert c1.words == c1.words[..n] && c2.words == c2.words[..n];
    assert c1.rounds == c1.rounds[..n] && c2.rounds == c2.rounds[..n];
    forall j | 0 <= j < |c1.rests|
      ensures c1.rests[j] == c2.rests[j]
    {
      TracesAgree(config, search, ledger, replies, fuel, c1, c2, j);
    }
  }

  /** A run of the same inputs that went on for more rounds was still short of the quota after these. */
  lemma ShorterRunBelowQuota(config: Config, search: string -> Response,
                             ledger: seq<string>, replies: seq<Reply>, fuel: nat,
                             c: Collection, longer: Collection)
    requires IsTrace(config, search, ledger, replies, fuel, c)
    requires IsTrace(config, search, ledger, replies, fuel, longer)
    requires |c.words| < |longer.words|
    ensures |c.repos| < config.numberOfReposWanted
  {
    var n := |c.words|;
    TracesAgree(config, search, ledger, replies, fuel, c, longer, n);
    assert c.rounds == c.rounds[..n];
    assert RoundFollowsRule(config, search, longer.words, longer.rounds, n);
  }

  /** Two runs of the same inputs that both reach the quota are the same run. */
  lemma SuccessfulTracesEqual(config: Config, search: string -> Response,
                              ledger: seq<string>, replies: seq<Reply>, fuel: nat,
                              c1: Collection, c2: Collection)
    requires IsTrace(config, search, ledger, replies, fuel, c1) && |c1.repos| == Quota(config)
    requires IsTrace(config, search, ledger, replies, fuel, c2) && |c2.repos| == Quota(config)
    ensures c1 == c2
  {
    if |c1.words| < |c2.words| {
      ShorterRunBelowQuota(config, search, ledger, replies, fuel, c1, c2);
      assert false;
    } else if |c2.words| < |c1.words| {
      ShorterRunBelowQuota(config, search, ledger, replies, fuel, c2, c1);
      assert false;
    } else {
      TraceDeterminedByInputs(config, search, ledger, replies, fuel, c1, c2);
    }
  }

  /** When some run reaches the quota, every run of the same inputs still short of it can draw its next word. */
  lemma SuccessExcludesFailure(config: Config, search: string -> Response,
                               ledger: seq<string>, replies: seq<Reply>, fuel: nat,
                               c: Collection, partial: Collection)
    requires IsTrace(config, search, ledger, replies, fuel, c) && |c.repos| == Quota(config)
    requires IsTrace(config, search, ledger, replies, fuel, partial)
    requires |partial.repos| < config.numberOfReposWanted
    ensures GetRandomWord(partial.ledger, partial.rests[|partial.words|], fuel).Success?
  {
    var n := |partial.words|;
    if n < |c.words| {
      TracesAgree(config, search, ledger, replies, fuel, c, partial, n);
      assert DrawFollows(ledger, fuel, c.words, c.rests, n);
      assert partial.words == partial.words[..n];
    } else if n == |c.words| {
      TraceDeterminedByInputs(config, search, ledger, replies, fuel, c, partial);
      assert false;
    } else {
      ShorterRunBelowQuota(config, search, ledger, replies, fuel, c, partial);
      assert false;
    }
  }

  method GetRepos(config: Config, search: string -> Response,
                  ledger: seq<string>, replies: seq<Reply>, fuel: nat)
    returns (r: Result<Collection, Aborted>)
    // the run follows the loop: words drawn in turn, rounds searched by the rule, results appended
    ensures r.Success? ==> IsTrace(config, search, ledger, replies, fuel, r.value)
    // the loop stops with exactly the wanted number of repositories
    ensures r.Success? ==> |r.value.repos| == Quota(config)
    // it fails only when, still short of the quota, the next word cannot be drawn
    ensures r.Failure? ==>
              var c := r.error.partial;
              && IsTrace(config, search, ledger, replies, fuel, c)
              && |c.repos| < config.numberOfReposWanted
              && GetRandomWord(c.ledger, c.rests[|c.words|], fuel) == Failure(r.error.error)
    // every intermediate list is a prefix of the final one, so never over the quota
    ensures r.Success? ==> forall i :: 0 <= i <= |r.value.rounds| ==> Flatten(r.value.rounds[..i]) <= r.value.repos
    // the words are distinct and new to the ledger
    ensures r.Success? ==> NoDuplicates(r.value.words) && forall w :: w in r.value.words ==> w !in ledger
  {
    var c := Collection([], [], [], ledger, [replies]);
    while |c.repos| < config.numberOfReposWanted
      invariant IsTrace(config, search, ledger, replies, fuel, c)
      invariant NoDuplicates(c.words) && forall w :: w in c.words ==> w !in ledger
      decreases |c.rests[|c.words|]|
    {
      var draw := GetRandomWord(c.ledger, c.rests[|c.words|], fuel);
      if draw.Failure? {
        return Failure(Aborted(draw.error, c));
      }
      var word := draw.value.word;
      var cap := RoundCap(config.numberOfReposPerWord, config.numberOfReposWanted - |c.repos|);
      var found := FindXReposForText(search(word), cap);
      ExtendTrace(config, search, ledger, replies, fuel, c, word, found, draw.value.rest);
      c := Collection(c.repos + found, c.words + [word], c.rounds + [found], draw.value.ledger, c.rests + [draw.value.rest]);
    }
    forall i | 0 <= i <= |c.rounds|
      ensures Flatten(c.rounds[..i]) <= c.repos
    {
      FlattenPrefix(c.rounds, i);
    }
    r := Success(c);
  }
}
