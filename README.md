# github-email-finder, modelled in Dafny

The finder takes a GitHub user name. It checks that the profile exists and lists the user's
repositories, skipping forks. It lists the recent commits of each repository and fetches each
commit's `.patch` text. It scans every patch for e-mail addresses and keeps one record per
distinct address, with the patch URL where that address was first seen. It never keeps GitHub's
privacy-proxy addresses (`…@users.noreply.github.com`).

The model covers the `GithubUser` object of `main.py` and the steps of its `main` coroutine.
Every HTTP response is a parameter: a status code plus the decoded JSON listing, or the text of
a patch.

- `scanner.dfy`, module `EmailPattern`: the finder's one regular expression,
  `[a-zA-Z0-9_.+-]+@[a-zA-Z0-9-]+\.[a-zA-Z0-9-.]+`, as a deterministic scanner (`RunEnd`,
  `MatchAt`), and the leftmost, non-overlapping search of `re.findall` (`Scan`, `FindAll`).
  - The pattern itself is stated independently as `IsEmailShape`: local part, `@`, a label
    without dots, `.`, then a tail.
  - `MatchAt` is proved to return the longest email-shaped text at a position, and to return
    nothing when no such text exists. This is the text the backtracking engine picks: `@` is
    not a local-part character and `.` is not a label character, so the only choice left is
    the length of the tail, and the greedy tail takes the longest one.
- `records.dfy`, module `EmailRecords`: the list of discovered addresses.
  - `Step` and `Merge` are the check-then-append loop of `search_commit`, written as a fold.
  - The lemmas prove that the merge keeps the list's invariant: addresses are distinct and none
    is a proxy address. They also prove that it only appends, which addresses it adds, and that
    a second merge of the same text changes nothing.
- `repos.dfy`, module `RepoTable`: the repository table (name to list of patch URLs).
  - `Register` is the loop of `get_repos`; `PatchUrls` derives the patch URLs of `get_commits`.
- `finder.dfy`, module `Finder`: class `GithubUser` with the fields `repos` and `emails`.
  `IsValid` is the status test and changes nothing. `GetRepos`, `GetCommits` and `SearchCommit`
  update those fields in loops and are proved against the functions above.
  - `Run` is `main`: each early exit leaves the state as the code does.
  - The two `asyncio.gather` fan-outs (`ListAllCommits`, `SearchAllCommits`) run their calls
    one at a time, in an order the verifier does not get to choose (`:|`). This is faithful:
    no `await` falls between the membership check and the append. So the results hold for
    every completion order.
  - Whatever the order, the recorded addresses are exactly the non-proxy matches of all the
    patches. Each record names a patch whose text contains its address.

Behaviour of the code that the model keeps as written:
- A repository listing that names the same repository twice rebinds that name to an empty list.
- The rule that no fork is ever a key holds only when no non-fork entry shares the fork's name
  and the name was not already a key (`ForkNotRegistered`).
- `main` stops silently when no repository yielded a patch URL (`main.py:91-93`). The model
  has this as the `NoCommits` exit.
- The records' second field is `commit_url` in the code (`commitUrl` here).

## Model

| member | source | states |
|---|---|---|
| EmailPattern.RunEnd | main.py:68 | a character-class run `[…]+` read greedily: every character up to the returned end is in the class and the character at the end is not (or the text ends) |
| EmailPattern.MatchAt | main.py:68 | a match reported at a position is inside the text and the matched text has the pattern's shape: local part, `@`, dot-free label, `.`, tail |
| EmailPattern.MatchAtComplete | main.py:68 | whenever any text from a position has the pattern's shape, a match is found there and it is at least as long, so the match is the longest email-shaped prefix, as the greedy pattern gives |
| EmailPattern.NoMatchAt | main.py:68 | no match at a position exactly when no text starting there has the pattern's shape |
| EmailPattern.Scan | main.py:68 | the search's spans lie in the text from the start position, each is the pattern's match at its start, and they are in left-to-right order without overlap |
| EmailPattern.ScanLeftmost | main.py:68 | the search is leftmost: every position not covered by a reported span starts no match |
| EmailPattern.FindAll | main.py:68 | every string `re.findall` returns has the pattern's shape and occurs in the text |
| EmailPattern.ShapeHasOneAt | main.py:68 | every matched address contains exactly one `@` |
| EmailRecords.Step | main.py:71-75 | one match: the recorded address set grows by that match unless it is a proxy address; the list's invariant (distinct, no proxy) is kept |
| EmailRecords.IsNoreply | main.py:71 | the `'users.noreply.github.com' not in email` test: true only of texts at least as long as the domain, and true of every address that ends in the domain |
| EmailRecords.Emails | main.py:71 | the list of recorded addresses that a match is tested against: a text is in it exactly when some record holds that address |
| EmailRecords.Merge | main.py:70-75 | the whole loop over a text's matches: the old records are a prefix of the result, which has at most one new record per match |
| EmailRecords.MergeValid | main.py:70-75 | merging all matches of a text keeps addresses pairwise distinct and free of proxy addresses, even when the text repeats an address |
| EmailRecords.MergeEmailSet | main.py:70-75 | after the merge the recorded addresses are the earlier ones plus every non-proxy match |
| EmailRecords.MergeAppends | main.py:70-75 | the merge only appends; each new record holds a non-proxy match of the text that was not recorded before, with the argument URL as its source |
| EmailRecords.MergeNoop | main.py:71 | merging matches that are all already recorded or proxies changes nothing |
| EmailRecords.MergeIdempotent | main.py:71 | scanning the same text a second time, under any URL, adds no record and leaves the first records' URLs in place |
| RepoTable.ListingOk | main.py:34-41 | the listing gate of `get_repos` and `get_commits` (also main.py:51-58): a status other than 200 fails, and so does an empty body |
| RepoTable.Register | main.py:43-46 | the loop of `get_repos`: the keys afterwards are the old keys plus the names of the non-fork entries |
| RepoTable.RegisterSpec | main.py:43-46 | after the listing loop the keys are the old keys plus the non-fork names; each non-fork name maps to an empty list and every other key keeps its list |
| RepoTable.ForkNotRegistered | main.py:44-45 | a fork whose name no non-fork entry shares, and that was not a key before, is not a key afterwards |
| RepoTable.PatchUrls | main.py:60-61 | one patch URL per commit, in listing order, each the commit's `html_url` followed by `.patch` |
| Finder.Patches | main.py:51-61 | what `get_commits` leaves in a freshly registered entry: nothing when the listing fails, otherwise one `html_url` + `.patch` per commit, in listing order |
| Finder.NoPatchUrls | main.py:91-92 | the flattened list of patch URLs is empty exactly when every repository's list is empty |
| Finder.GithubUser.constructor | main.py:9-12 | a new user has the given name, an empty table and no records |
| Finder.GithubUser.IsValid | main.py:25-30 | the user is valid exactly when the profile status is not 404 |
| Finder.GithubUser.GetRepos | main.py:32-47 | succeeds exactly on status 200 with a non-empty listing; on failure the table is unchanged; on success every non-fork name is bound to an empty list and nothing else changes |
| Finder.GithubUser.GetCommits | main.py:49-63 | succeeds exactly on status 200 with a non-empty listing; on failure the table is unchanged; on success the repository's list is extended by one patch URL per commit in listing order and every other key is unchanged |
| Finder.GithubUser.SearchCommit | main.py:65-75 | the records keep their invariant; the old records are a prefix; the address set grows by exactly the non-proxy matches; each new record holds a match of the text and the argument URL |
| Finder.ListAllCommits | main.py:89 | in any order of completion, every repository ends with exactly the patch URLs of its own commit listing (none if that listing failed) and the keys are unchanged |
| Finder.CollectPatchUrls | main.py:91 | the flattened list holds exactly the patch URLs recorded under some repository |
| Finder.SearchAllCommits | main.py:95 | in any order of completion, the records keep their invariant, only grow, and end with exactly the earlier addresses plus every non-proxy match of every patch; each new record names one of the patches and its address is a match of that patch |
| Finder.ListAndScrape | main.py:89-95 | after a successful listing: each repository holds its own patch URLs; the run stops with no records when there are none, otherwise the records are exactly the non-proxy matches of all patches, each with a patch it occurs in |
| Finder.Run | main.py:77-95 | a 404 profile stops the run before any listing; a failed or empty repository listing stops it with an empty table; otherwise the table holds exactly the non-fork repositories and the records are as in `ListAndScrape`; records stay distinct and proxy-free on every path |

## Left out

- The `aiohttp` session and every request (`main.py:16-23` and each `session.get`) are not modelled. Each response is a parameter of the method that reads it: a status plus a decoded listing, or a text.
- A transport failure propagates uncaught in the code and ends the run. The model has no such failure.
- JSON decoding is not modelled. A listing is a sequence of records carrying only the fields read: `name` and `fork`, or `html_url`. A body that is not an array, or an entry that lacks a field, is not represented.
- `input()`, the `print` diagnostics, `time.time()` and the Windows event-loop policy (`main.py:78`, `97-110`) are I/O or clock reads with no effect on the state.
- `asyncio.gather` concurrency is modelled as a sequential loop in an arbitrary order. This is exact here, because no `await` falls inside the check-then-append.
- The insertion order of the `repos` dict is not modelled; the table is a `map`. In the code that order only fixes the order in which the concurrent calls are issued, and their completion order is arbitrary anyway.
- Finder.CollectPatchUrls: states which URLs the flattened list contains, not their order or multiplicity. Repeated URLs are harmless, because scraping a patch again changes nothing (`MergeIdempotent`).
- The general regular-expression engine is not modelled. Only this one pattern is, over Dafny `char` (Unicode scalar values; a Python `str` may also hold surrogate code points, none of which is in any of the pattern's classes); its classes match ASCII letters and digits only, as in the code.
- Finder.GithubUser.GetCommits: requires that `repo` be a key whenever the listing succeeds. The code raises `KeyError` at the append otherwise, and `main` only passes keys of the table.
