/**
  The filtering half of one repository search: walk the returned items in
  order and keep the full names of suitable ones, up to a cap. The HTTP
  request that produces the response is outside the model.
 */
module Search {
  import opened Suitability

  /** A decoded search reply: either it has no `items` field, or it lists candidates in ranking order. */
  datatype Response = NoItems | Items(items: seq<Repo>)

  function ItemsOf(response: Response): seq<Repo> {
    match response
    case NoItems => []
    case Items(items) => items
  }

  /** The full name of one item if it is suitable, and nothing otherwise. */
  function Kept(item: Repo): seq<string> {
    if IsSuitableRepo(item) then [item.fullName] else []
  }

  /** Reference definition: the full names of all suitable items, in response order. */
  function SuitableNames(items: seq<Repo>): seq<string> {
    if |items| == 0 then [] else Kept(items[0]) + SuitableNames(items[1..])
  }

  /** The first `n` elements of `s`, or all of them when there are fewer; none when `n` is not positive. */
  function Capped<T>(s: seq<T>, n: int): (r: seq<T>)
    ensures |r| == if n <= 0 then 0 else if n < |s| then n else |s|
    ensures r == s[..|r|]
  {
    if n <= 0 then [] else if n < |s| then s[..n] else s
  }

  /** Some suitable item in `items` has the full name `name`. */
  predicate NamedBySuitable(items: seq<Repo>, name: string) {
    exists j :: 0 <= j < |items| && IsSuitableRepo(items[j]) && items[j].fullName == name
  }

  /** Filtering distributes over concatenation of item lists. */
  lemma {:induction false} SuitableNamesConcat(a: seq<Repo>, b: seq<Repo>)
    ensures SuitableNames(a + b) == SuitableNames(a) + SuitableNames(b)
    decreases |a|
  {
    if |a| == 0 {
      assert a + b == b;
    } else {
      var ab := a + b;
      assert ab[0] == a[0] && ab[1..] == a[1..] + b;
      SuitableNamesConcat(a[1..], b);
      var head, x, y := Kept(a[0]), SuitableNames(a[1..]), SuitableNames(b);
      assert SuitableNames(ab) == head + (x + y);
      assert head + (x + y) == (head + x) + y;
    }
  }

  /** A name is kept exactly when some suitable item carries it. */
  lemma {:induction false} SuitableNamesMembership(items: seq<Repo>, name: string)
    ensures name in SuitableNames(items) <==> NamedBySuitable(items, name)
    decreases |items|
  {
    if |items| > 0 {
      SuitableNamesMembership(items[1..], name);
      if name in SuitableNames(items[1..]) {
        var j :| 0 <= j < |items[1..]| && IsSuitableRepo(items[1..][j]) && items[1..][j].fullName == name;
        assert items[j + 1] == items[1..][j];
      }
      if exists j :: 0 <= j < |items| && IsSuitableRepo(items[j]) && items[j].fullName == name {
        var j :| 0 <= j < |items| && IsSuitableRepo(items[j]) && items[j].fullName == name;
        if j > 0 {
          assert items[1..][j - 1] == items[j];
        }
      }
    }
  }

  /** Extending the capped list by one candidate name is the same as capping the extended list. */
  lemma CappedStep(s: seq<string>, x: seq<string>, n: int)
    requires |x| <= 1
    ensures |Capped(s, n)| < n ==> Capped(s, n) + x == Capped(s + x, n)
    ensures |Capped(s, n)| >= n ==> Capped(s, n) == Capped(s + x, n)
  {
  }

  /**
    Keeps, in response order, the full names of the first `numberOfRepos`
    suitable items; a response without items gives nothing.
   */
  method FindXReposForText(response: Response, numberOfRepos: int) returns (result: seq<string>)
    ensures response.NoItems? ==> result == []
    ensures result == Capped(SuitableNames(ItemsOf(response)), numberOfRepos)
    ensures |result| <= numberOfRepos || result == []
    ensures forall k :: 0 <= k < |result| ==> NamedBySuitable(ItemsOf(response), result[k])
  {
    result := [];
    if response.Items? {
      var items := response.items;
      var i := 0;
      while i < |items|
        invariant 0 <= i <= |items|
        invariant result == Capped(SuitableNames(items[..i]), numberOfRepos)
      {
        ghost var found := Kept(items[i]);
        assert items[..i + 1] == items[..i] + [items[i]];
        SuitableNamesConcat(items[..i], [items[i]]);
        assert SuitableNames([items[i]]) == found;
        CappedStep(SuitableNames(items[..i]), found, numberOfRepos);
        if |result| < numberOfRepos {
          if IsSuitableRepo(items[i]) {
            result := result + [items[i].fullName];
          }
        }
        i := i + 1;
      }
      assert items[..i] == items;
    }
    forall k | 0 <= k < |result|
      ensures NamedBySuitable(ItemsOf(response), result[k])
    {
      var all := SuitableNames(ItemsOf(response));
      assert result[k] == all[k];
      SuitableNamesMembership(ItemsOf(response), result[k]);
    }
  }
}
