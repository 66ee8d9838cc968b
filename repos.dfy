/** The finder's repository table: repository name to the patch URLs of its
    listed commits, filled by `get_repos` and extended by `get_commits`. */
module RepoTable {

  /** The two fields of a repository-listing entry that the finder reads. */
  datatype RepoDescriptor = RepoDescriptor(name: string, fork: bool)

  /** The one field of a commit-listing entry that the finder reads. */
  datatype CommitDescriptor = CommitDescriptor(htmlUrl: string)

  /** A listing request succeeded: status 200 and a non-empty body. */
  predicate ListingOk<T>(status: int, body: seq<T>): (r: bool)
    ensures status != 200 ==> !r
    ensures body == [] ==> !r
  {
    status == 200 && body != []
  }

  /** The names of the listing entries that are not forks. */
  ghost function NonForkNames(data: seq<RepoDescriptor>): set<string> {
    set d | d in data && !d.fork :: d.name
  }

  /** The table after the loop of `get_repos` over `data`: every non-fork name
      is (re)bound to an empty list. */
  function Register(repos: map<string, seq<string>>, data: seq<RepoDescriptor>): (r: map<string, seq<string>>)
    ensures r.Keys == repos.Keys + NonForkNames(data)
    decreases |data|
  {
    if data == [] then repos
    else
      var init, d := data[..|data| - 1], data[|data| - 1];
      var m := Register(repos, init);
      assert data == init + [d];
      assert NonForkNames(data) == NonForkNames(init) + (if d.fork then {} else {d.name});
      if d.fork then m else m[d.name := []]
  }

  /** After registration the keys are the old keys plus the non-fork names;
      each non-fork name maps to an empty list, every other key keeps its list. */
  lemma {:induction false} RegisterSpec(repos: map<string, seq<string>>, data: seq<RepoDescriptor>)
    ensures Register(repos, data).Keys == repos.Keys + NonForkNames(data)
    ensures forall n :: n in Register(repos, data) ==>
      Register(repos, data)[n] == if n in NonForkNames(data) then [] else repos[n]
    decreases |data|
  {
    if data != [] {
      var init, d := data[..|data| - 1], data[|data| - 1];
      RegisterSpec(repos, init);
      assert data == init + [d];
      assert NonForkNames(data) == NonForkNames(init) + (if d.fork then {} else {d.name});
    }
  }

  /** A fork whose name no non-fork entry shares, and that was not a key
      before, never becomes a key. */
  lemma ForkNotRegistered(repos: map<string, seq<string>>, data: seq<RepoDescriptor>, d: RepoDescriptor)
    requires d in data && d.fork && d.name !in repos
    requires forall e :: e in data && !e.fork ==> e.name != d.name
    ensures d.name !in Register(repos, data)
  {
    RegisterSpec(repos, data);
  }

  /** The patch URLs derived from a commit listing, in listing order. */
  function PatchUrls(cs: seq<CommitDescriptor>): (r: seq<string>)
    ensures |r| == |cs|
    ensures forall k :: 0 <= k < |cs| ==> r[k] == cs[k].htmlUrl + ".patch"
    decreases |cs|
  {
    if cs == [] then [] else PatchUrls(cs[..|cs| - 1]) + [cs[|cs| - 1].htmlUrl + ".patch"]
  }
}
