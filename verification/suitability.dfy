/**
  The suitability filter: which search candidates belong in the dataset.
  A candidate must be public, not a fork, at least 2000 in size, have at
  least 100 stars, have been updated in 2021 or 2022, and not look like an
  Android project.
 */
module Suitability {
  import opened Results
  import opened AsciiText

  /** The fields of one search result item that the filter reads. */
  datatype Repo = Repo(
    fullName: string,
    isPrivate: bool,
    isFork: bool,
    size: int,
    stargazersCount: int,
    updatedAt: string,
    topics: seq<string>,
    description: Option<string>)

  const MinSize := 2000
  const MinStars := 100
  const AndroidToken := "android"

  /** The text a description yields when converted to a string; a null description reads as "None". */
  function DescriptionText(d: Option<string>): string {
    match d
    case None => "None"
    case Some(s) => s
  }

  predicate MentionsAndroid(s: string) {
    Contains(Lower(s), AndroidToken)
  }

  predicate IsRecent(updatedAt: string) {
    StartsWith(updatedAt, "2021") || StartsWith(updatedAt, "2022")
  }

  /** Some topic, scanned from the first, mentions Android. */
  function TopicsMentionAndroid(topics: seq<string>): (b: bool)
    ensures b <==> exists i :: 0 <= i < |topics| && MentionsAndroid(topics[i])
  {
    if |topics| == 0 then false
    else if MentionsAndroid(topics[0]) then true
    else TopicsMentionAndroid(topics[1..])
  }

  /** A repository looks Android based when a topic or its description mentions Android in any case. */
  function RepoContainAndroid(repo: Repo): (b: bool)
    ensures b <==> (exists i :: 0 <= i < |repo.topics| && MentionsAndroid(repo.topics[i]))
                   || MentionsAndroid(DescriptionText(repo.description))
  {
    TopicsMentionAndroid(repo.topics) || MentionsAndroid(DescriptionText(repo.description))
  }

  /** The individual reasons a candidate can be turned down for. */
  datatype Rejection = Private | Fork | TooSmall | TooFewStars | NotRecent | Android

  const AllRejections: set<Rejection> := {Private, Fork, TooSmall, TooFewStars, NotRecent, Android}

  predicate Applies(reason: Rejection, repo: Repo) {
    match reason
    case Private => repo.isPrivate
    case Fork => repo.isFork
    case TooSmall => repo.size < MinSize
    case TooFewStars => repo.stargazersCount < MinStars
    case NotRecent => !IsRecent(repo.updatedAt)
    case Android => RepoContainAndroid(repo)
  }

  /** Every reason that turns `repo` down, checked one criterion at a time. */
  function Rejections(repo: Repo): set<Rejection> {
    set reason | reason in AllRejections && Applies(reason, repo)
  }

  /** The filter as one combined test over all criteria. */
  function IsSuitableRepo(repo: Repo): (r: bool)
    ensures repo.isPrivate ==> !r
    ensures repo.isFork ==> !r
    ensures repo.size < MinSize ==> !r
    ensures repo.stargazersCount < MinStars ==> !r
    ensures !StartsWith(repo.updatedAt, "2021") && !StartsWith(repo.updatedAt, "2022") ==> !r
    ensures RepoContainAndroid(repo) ==> !r
    ensures r <==> Rejections(repo) == {}
  {
    var unsuitable :=
      repo.isPrivate || repo.isFork || repo.size < MinSize || repo.stargazersCount < MinStars
      || !IsRecent(repo.updatedAt) || RepoContainAndroid(repo);
    assert repo.isPrivate ==> Private in Rejections(repo);
    assert repo.isFork ==> Fork in Rejections(repo);
    assert repo.size < MinSize ==> TooSmall in Rejections(repo);
    assert repo.stargazersCount < MinStars ==> TooFewStars in Rejections(repo);
    assert !IsRecent(repo.updatedAt) ==> NotRecent in Rejections(repo);
    assert RepoContainAndroid(repo) ==> Android in Rejections(repo);
    !unsuitable
  }

  /** Both thresholds are inclusive: 2000 in size and 100 stars pass, one less fails. */
  lemma InclusiveThresholds(repo: Repo)
    requires !repo.isPrivate && !repo.isFork && IsRecent(repo.updatedAt) && !RepoContainAndroid(repo)
    ensures repo.stargazersCount >= MinStars ==>
              IsSuitableRepo(repo.(size := MinSize)) && !IsSuitableRepo(repo.(size := MinSize - 1))
    ensures repo.size >= MinSize ==>
              IsSuitableRepo(repo.(stargazersCount := MinStars)) && !IsSuitableRepo(repo.(stargazersCount := MinStars - 1))
  {
  }

  /** A null description never makes a repository look Android based. */
  lemma NullDescriptionNeverMatches()
    ensures !MentionsAndroid(DescriptionText(None))
  {
  }

  /** "Android" in any letter case, in a topic or the description, rejects the candidate. */
  lemma AndroidInAnyCaseRejected(repo: Repo, word: string)
    requires Lower(word) == AndroidToken
    requires (exists i :: 0 <= i < |repo.topics| && Contains(repo.topics[i], word))
             || Contains(DescriptionText(repo.description), word)
    ensures RepoContainAndroid(repo)
    ensures !IsSuitableRepo(repo)
  {
    if exists i :: 0 <= i < |repo.topics| && Contains(repo.topics[i], word) {
      var i :| 0 <= i < |repo.topics| && Contains(repo.topics[i], word);
      ContainsAnyCase(repo.topics[i], word, AndroidToken);
      assert MentionsAndroid(repo.topics[i]);
    } else {
      ContainsAnyCase(DescriptionText(repo.description), word, AndroidToken);
    }
  }
}
