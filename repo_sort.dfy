/**
 * The ordering `GetHooks` imposes on its result with
 * `sort.Slice(repos, func(i, j int) bool { return repos[i].Repo < repos[j].Repo })`:
 * ascending by repo URL. `sort.Slice` is not stable, so the order of repos
 * with equal URLs is left open; only sortedness and permutation are promised.
 */
module RepoSort {
  import opened Precommit
  import opened GoStrings

  /** No repo is followed by one with a smaller URL. */
  predicate SortedByRepo(s: seq<Repo>)
  {
    forall i, j :: 0 <= i < j < |s| ==> !Less(s[j].repo, s[i].repo)
  }

  /** Places `x` into the sorted `s`. */
  function Insert(x: Repo, s: seq<Repo>): (r: seq<Repo>)
    requires SortedByRepo(s)
    ensures SortedByRepo(r)
    ensures multiset(r) == multiset(s) + multiset{x}
    ensures |r| == |s| + 1
  {
    if s == [] then [x]
    else if !Less(s[0].repo, x.repo) then
      InsertFront(x, s);
      [x] + s
    else
      var rest := Insert(x, s[1..]);
      InsertBehind(s[0], x, s[1..], rest);
      assert s == [s[0]] + s[1..];
      assert multiset([s[0]] + rest) == multiset{s[0]} + multiset(rest);
      [s[0]] + rest
  }

  /** A repo no later than the head of a sorted sequence may go in front of it. */
  lemma InsertFront(x: Repo, s: seq<Repo>)
    requires SortedByRepo(s) && s != [] && !Less(s[0].repo, x.repo)
    ensures SortedByRepo([x] + s)
  {
    forall j | 0 <= j < |s|
      ensures !Less(s[j].repo, x.repo)
    {
      if Less(s[j].repo, x.repo) {
        LessTotal(x.repo, s[0].repo);
        LessIrreflexive(s[0].repo);
        if x.repo != s[0].repo {
          LessTransitive(s[j].repo, x.repo, s[0].repo);
        }
      }
    }
    assert forall j :: 0 < j < |[x] + s| ==> ([x] + s)[j] == s[j - 1];
  }

  /**
   * A head `h` that came before `x` and before every repo of the sorted
   * `tail` stays in front once `x` is inserted into `tail`.
   */
  lemma InsertBehind(h: Repo, x: Repo, tail: seq<Repo>, rest: seq<Repo>)
    requires Less(h.repo, x.repo)
    requires SortedByRepo([h] + tail)
    requires SortedByRepo(rest) && multiset(rest) == multiset(tail) + multiset{x}
    ensures SortedByRepo([h] + rest)
  {
    forall j | 0 <= j < |rest|
      ensures !Less(rest[j].repo, h.repo)
    {
      assert rest[j] in multiset(rest);
      if rest[j] == x {
        if Less(x.repo, h.repo) {
          LessTransitive(x.repo, h.repo, x.repo);
          LessIrreflexive(x.repo);
        }
      } else {
        assert rest[j] in multiset(tail);
        var k :| 0 <= k < |tail| && tail[k] == rest[j];
        assert ([h] + tail)[0] == h && ([h] + tail)[k + 1] == rest[j];
      }
    }
    assert forall j :: 0 < j < |[h] + rest| ==> ([h] + rest)[j] == rest[j - 1];
  }

  /** The repos of `s` in ascending URL order. */
  function Sort(s: seq<Repo>): (r: seq<Repo>)
    ensures SortedByRepo(r)
    ensures multiset(r) == multiset(s)
  {
    if s == [] then []
    else
      assert s == [s[0]] + s[1..];
      Insert(s[0], Sort(s[1..]))
  }
}
