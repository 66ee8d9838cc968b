/** The `GithubUser` object of the finder and the sequence of steps of its
    entry point. Every HTTP response is a parameter: a status code plus the
    decoded listing, or the text of a patch. */
module Finder {
  import opened EmailPattern
  import opened EmailRecords
  import opened RepoTable

  /** A decoded listing response: its status and its JSON array of entries. */
  datatype Listing<T> = Listing(status: int, body: seq<T>)

  /** The patch URLs a repository ends with when `get_commits` is applied to
      a table entry that starts empty. */
  function Patches(l: Listing<CommitDescriptor>): (r: seq<string>)
    ensures |r| == if ListingOk(l.status, l.body) then |l.body| else 0
    ensures forall k :: 0 <= k < |r| ==> r[k] == l.body[k].htmlUrl + ".patch"
  {
    if ListingOk(l.status, l.body) then PatchUrls(l.body) else []
  }

  /** Every patch URL recorded under some repository. */
  ghost function AllPatchUrls(repos: map<string, seq<string>>): set<string> {
    set n, u | n in repos && u in repos[n] :: u
  }

  /** Every address the merge keeps from the patches at `urls`. */
  ghost function Found(urls: set<string>, patchText: string -> string): set<string> {
    set u, m | u in urls && m in FindAll(patchText(u)) && !IsNoreply(m) :: m
  }

  /** Scraping one more patch adds what the merge keeps from its text. */
  lemma FoundAdd(done: set<string>, u: string, patchText: string -> string)
    ensures Found(done + {u}, patchText) == Found(done, patchText) + Kept(FindAll(patchText(u)))
  {
  }

  /** The table holds no patch URL exactly when every entry is empty. */
  lemma NoPatchUrls(repos: map<string, seq<string>>)
    ensures AllPatchUrls(repos) == {} <==> forall n :: n in repos ==> repos[n] == []
  {
    if exists n :: n in repos && repos[n] != [] {
      var n :| n in repos && repos[n] != [];
      var u := repos[n][0];
      assert u in repos[n];
      assert u in AllPatchUrls(repos);
    }
  }

  class GithubUser {
    const username: string
    /** Repository name to the patch URLs of its commits. */
    var repos: map<string, seq<string>>
    /** Discovered addresses, append-only. */
    var emails: seq<EmailRecord>

    ghost predicate Valid()
      reads this
    {
      EmailsValid(emails)
    }

    constructor (username: string)
      ensures this.username == username && repos == map[] && emails == []
      ensures Valid()
    {
      this.username := username;
      repos := map[];
      emails := [];
    }

    /** The profile page answers anything but 404. */
    method IsValid(status: int) returns (ok: bool)
      ensures ok <==> status != 404
    {
      if status == 404 {
        return false;
      }
      return true;
    }

    /** Registers every non-fork repository of a successful listing with an
        empty list of patch URLs. */
    method GetRepos(status: int, data: seq<RepoDescriptor>) returns (ok: bool)
      modifies this`repos
      ensures ok == ListingOk(status, data)
      ensures repos == if ok then Register(old(repos), data) else old(repos)
      ensures ok ==> repos.Keys == old(repos).Keys + NonForkNames(data)
      ensures ok ==> forall n :: n in repos ==>
        repos[n] == if n in NonForkNames(data) then [] else old(repos)[n]
    {
      if status != 200 {
        return false;
      }
      if data == [] {
        return false;
      }
      for i := 0 to |data|
        invariant repos == Register(old(repos), data[..i])
      {
        assert data[..i + 1][..i] == data[..i];
        if !data[i].fork {
          repos := repos[data[i].name := []];
        }
      }
      assert data[..|data|] == data;
      RegisterSpec(old(repos), data);
      return true;
    }

    /** Appends the patch URL of every commit of a successful listing to the
        entry of `repo`. The source fails with a missing key if `repo` is not
        in the table by the time it appends. */
    method GetCommits(repo: string, status: int, data: seq<CommitDescriptor>) returns (ok: bool)
      requires ListingOk(status, data) ==> repo in repos
      modifies this`repos
      ensures ok == ListingOk(status, data)
      ensures repos == if ok then old(repos)[repo := old(repos)[repo] + PatchUrls(data)] else old(repos)
    {
      if status != 200 {
        return false;
      }
      if data == [] {
        return false;
      }
      ghost var before := old(repos)[repo];
      assert data[..0] == [] && before + [] == before;
      for i := 0 to |data|
        invariant repos == old(repos)[repo := before + PatchUrls(data[..i])]
      {
        assert data[..i + 1][..i] == data[..i];
        var url := data[i].htmlUrl + ".patch";
        assert before + PatchUrls(data[..i + 1]) == before + PatchUrls(data[..i]) + [url];
        repos := repos[repo := repos[repo] + [url]];
      }
      assert data[..|data|] == data;
      return true;
    }

    /** Records every match in the patch text at `commitUrl` that is neither
        recorded already nor a privacy-proxy address. */
    method SearchCommit(commitUrl: string, text: string)
      requires Valid()
      modifies this`emails
      ensures Valid()
      ensures emails == Merge(old(emails), FindAll(text), commitUrl)
      ensures EmailSet(emails) == EmailSet(old(emails)) + Kept(FindAll(text))
      ensures old(emails) <= emails
      ensures forall k :: |old(emails)| <= k < |emails| ==>
        emails[k].email in FindAll(text) && emails[k].commitUrl == commitUrl
    {
      var found := FindAll(text);
      for i := 0 to |found|
        invariant emails == Merge(old(emails), found[..i], commitUrl)
      {
        assert found[..i + 1][..i] == found[..i];
        var email := found[i];
        if email !in Emails(emails) && !IsNoreply(email) {
          emails := emails + [EmailRecord(email, commitUrl)];
        }
      }
      assert found[..|found|] == found;
      MergeValid(old(emails), found, commitUrl);
      MergeEmailSet(old(emails), found, commitUrl);
      MergeAppends(old(emails), found, commitUrl);
    }
  }

  /** The commit-listing fan-out: `get_commits` for every repository, in an
      arbitrary order. Each call touches only its own entry. */
  method ListAllCommits(user: GithubUser, commitsOf: string -> Listing<CommitDescriptor>)
    requires forall n :: n in user.repos ==> user.repos[n] == []
    modifies user`repos
    ensures user.repos.Keys == old(user.repos).Keys
    ensures forall n :: n in user.repos ==> user.repos[n] == Patches(commitsOf(n))
  {
    var pending := user.repos.Keys;
    while pending != {}
      invariant pending <= user.repos.Keys
      invariant user.repos.Keys == old(user.repos).Keys
      invariant forall n :: n in user.repos ==>
        user.repos[n] == if n in pending then [] else Patches(commitsOf(n))
      decreases pending
    {
      var n :| n in pending;
      var listing := commitsOf(n);
      var _ := user.GetCommits(n, listing.status, listing.body);
      pending := pending - {n};
    }
  }

  /** The flattened list of every patch URL in the table. */
  method CollectPatchUrls(user: GithubUser) returns (urls: seq<string>)
    ensures forall u :: u in urls <==> u in AllPatchUrls(user.repos)
    ensures urls == [] <==> forall n :: n in user.repos ==> user.repos[n] == []
  {
    urls := [];
    var rest := user.repos.Keys;
    while rest != {}
      invariant rest <= user.repos.Keys
      invariant forall u :: u in urls <==> exists n :: n in user.repos && n !in rest && u in user.repos[n]
      invariant urls == [] <==> forall n :: n in user.repos && n !in rest ==> user.repos[n] == []
      decreases rest
    {
      var n :| n in rest;
      urls := urls + user.repos[n];
      rest := rest - {n};
    }
  }

  /** The scraping fan-out: `search_commit` once per patch URL, in an arbitrary
      order. Whatever the order, the recorded addresses are exactly those
      kept from all the patches, and each record names a patch it occurs in. */
  method SearchAllCommits(user: GithubUser, urls: seq<string>, patchText: string -> string)
    requires user.Valid()
    modifies user`emails
    ensures user.Valid()
    ensures old(user.emails) <= user.emails
    ensures EmailSet(user.emails) == EmailSet(old(user.emails)) + Found((set u | u in urls), patchText)
    ensures forall k :: |old(user.emails)| <= k < |user.emails| ==>
      user.emails[k].commitUrl in urls && user.emails[k].email in FindAll(patchText(user.emails[k].commitUrl))
  {
    var todo := multiset(urls);
    ghost var done: set<string> := {};
    while todo != multiset{}
      invariant todo <= multiset(urls)
      invariant forall u :: u in done ==> u in urls
      invariant forall u :: u in urls ==> u in done || u in todo
      invariant user.Valid()
      invariant old(user.emails) <= user.emails
      invariant EmailSet(user.emails) == EmailSet(old(user.emails)) + Found(done, patchText)
      invariant forall k :: |old(user.emails)| <= k < |user.emails| ==>
        user.emails[k].commitUrl in done && user.emails[k].email in FindAll(patchText(user.emails[k].commitUrl))
      decreases |todo|
    {
      var u :| u in todo;
      ghost var before := user.emails;
      user.SearchCommit(u, patchText(u));
      FoundAdd(done, u, patchText);
      done := done + {u};
      forall k | |old(user.emails)| <= k < |user.emails|
        ensures user.emails[k].commitUrl in done
        ensures user.emails[k].email in FindAll(patchText(user.emails[k].commitUrl))
      {
        if k < |before| {
          assert user.emails[k] == before[k];
        }
      }
      todo := todo - multiset{u};
    }
    assert done == set u | u in urls;
  }

  /** Which of the entry point's exits a run took. */
  datatype Exit = InvalidUser | NoRepositories | NoCommits | Finished

  /** The steps after a successful repository listing: list the commits of
      every repository, stop if none yielded a patch, otherwise scrape every
      patch. */
  method ListAndScrape(user: GithubUser, commitsOf: string -> Listing<CommitDescriptor>,
                       patchText: string -> string)
    returns (exit: Exit)
    requires user.Valid() && user.emails == []
    requires forall n :: n in user.repos ==> user.repos[n] == []
    modifies user`repos, user`emails
    ensures user.Valid()
    ensures user.repos.Keys == old(user.repos).Keys
    ensures forall n :: n in user.repos ==> user.repos[n] == Patches(commitsOf(n))
    ensures exit == NoCommits || exit == Finished
    ensures exit == NoCommits <==> AllPatchUrls(user.repos) == {}
    ensures exit == NoCommits ==> user.emails == []
    ensures exit == Finished ==> EmailSet(user.emails) == Found(AllPatchUrls(user.repos), patchText)
    ensures exit == Finished ==> forall r :: r in user.emails ==>
      r.commitUrl in AllPatchUrls(user.repos) && r.email in FindAll(patchText(r.commitUrl))
  {
    ListAllCommits(user, commitsOf);
    var urls := CollectPatchUrls(user);
    NoPatchUrls(user.repos);
    if urls == [] {
      return NoCommits;
    }
    ghost var table := user.repos;
    SearchAllCommits(user, urls, patchText);
    assert (set u | u in urls) == AllPatchUrls(table);
    forall r | r in user.emails
      ensures r.commitUrl in AllPatchUrls(table) && r.email in FindAll(patchText(r.commitUrl))
    {
      var k :| 0 <= k < |user.emails| && user.emails[k] == r;
    }
    return Finished;
  }

  /** The entry point: validate the user, list the repositories, list the
      commits of each, and scrape every patch, stopping at the first step
      that finds nothing to go on with. */
  method Run(username: string, profileStatus: int, repoListing: Listing<RepoDescriptor>,
             commitsOf: string -> Listing<CommitDescriptor>, patchText: string -> string)
    returns (exit: Exit, user: GithubUser)
    ensures fresh(user) && user.username == username && user.Valid()
    ensures exit == InvalidUser <==> profileStatus == 404
    ensures exit == NoRepositories <==>
      profileStatus != 404 && !ListingOk(repoListing.status, repoListing.body)
    ensures exit == InvalidUser || exit == NoRepositories ==> user.repos == map[]
    ensures exit == NoCommits || exit == Finished ==>
      user.repos.Keys == NonForkNames(repoListing.body) &&
      forall n :: n in user.repos ==> user.repos[n] == Patches(commitsOf(n))
    ensures exit == NoCommits <==>
      exit != InvalidUser && exit != NoRepositories && AllPatchUrls(user.repos) == {}
    ensures exit != Finished ==> user.emails == []
    ensures exit == Finished ==> EmailSet(user.emails) == Found(AllPatchUrls(user.repos), patchText)
    ensures exit == Finished ==> forall r :: r in user.emails ==>
      r.commitUrl in AllPatchUrls(user.repos) && r.email in FindAll(patchText(r.commitUrl))
  {
    user := new GithubUser(username);
    var valid := user.IsValid(profileStatus);
    if !valid {
      return InvalidUser, user;
    }
    var listed := user.GetRepos(repoListing.status, repoListing.body);
    if !listed {
      return NoRepositories, user;
    }
    exit := ListAndScrape(user, commitsOf, patchText);
  }
}
