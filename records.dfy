/** The finder's list of discovered addresses and the check-then-append merge
    that `search_commit` performs on it for each match of a patch text. */
module EmailRecords {
  import opened EmailPattern

  /** One discovered address and the patch URL where it was first seen. */
  datatype EmailRecord = EmailRecord(email: string, commitUrl: string)

  /** GitHub's privacy-proxy domain; addresses containing it are never kept. */
  const NoreplyDomain: string := "users.noreply.github.com"

  /** The match contains the privacy-proxy domain; in particular every
      address ending in it is a proxy, and no shorter text is. */
  predicate IsNoreply(m: string): (r: bool)
    ensures r ==> |m| >= |NoreplyDomain|
    ensures |m| >= |NoreplyDomain| && m[|m| - |NoreplyDomain|..] == NoreplyDomain ==> r
  {
    var n := |m| - |NoreplyDomain|;
    assert n >= 0 && m[n..] == NoreplyDomain ==> OccursAt(NoreplyDomain, m, n);
    IsSubstring(NoreplyDomain, m)
  }

  /** The set of recorded addresses. */
  ghost function EmailSet(es: seq<EmailRecord>): set<string> {
    set r | r in es :: r.email
  }

  /** The addresses of the records, the list `search_commit` tests a match
      against: an address is in it exactly when some record holds it. */
  function Emails(es: seq<EmailRecord>): (r: seq<string>)
    ensures forall m :: m in r <==> m in EmailSet(es)
  {
    var r := seq(|es|, k requires 0 <= k < |es| => es[k].email);
    assert forall m :: m in r ==> m in EmailSet(es) by {
      forall m | m in r ensures m in EmailSet(es) {
        var k :| 0 <= k < |r| && r[k] == m;
        assert es[k] in es;
      }
    }
    assert forall m :: m in EmailSet(es) ==> m in r by {
      forall m | m in EmailSet(es) ensures m in r {
        var x :| x in es && x.email == m;
        var k :| 0 <= k < |es| && es[k] == x;
        assert r[k] == m;
      }
    }
    r
  }

  /** The invariant of the list: addresses are pairwise distinct and none is a
      privacy-proxy address. */
  ghost predicate EmailsValid(es: seq<EmailRecord>) {
    (forall i, j :: 0 <= i < j < |es| ==> es[i].email != es[j].email) &&
    (forall i :: 0 <= i < |es| ==> !IsNoreply(es[i].email))
  }

  /** The matches of `ms` that the merge keeps: those that are not proxies. */
  ghost function Kept(ms: seq<string>): set<string> {
    set m | m in ms && !IsNoreply(m)
  }

  /** One iteration of the merge: append `m` unless it is already recorded or
      is a privacy-proxy address. */
  function Step(es: seq<EmailRecord>, m: string, url: string): (r: seq<EmailRecord>)
    ensures es <= r && |r| <= |es| + 1
    ensures EmailSet(r) == if IsNoreply(m) then EmailSet(es) else EmailSet(es) + {m}
    ensures EmailsValid(es) ==> EmailsValid(r)
  {
    if m !in Emails(es) && !IsNoreply(m) then
      var r := es + [EmailRecord(m, url)];
      assert EmailSet(r) == EmailSet(es) + {m} by {
        assert forall x :: x in r <==> x in es || x == r[|es|];
      }
      r
    else
      es
  }

  /** The merge of all matches `ms`, in order, found in the patch at `url`. */
  function Merge(es: seq<EmailRecord>, ms: seq<string>, url: string): (r: seq<EmailRecord>)
    ensures es <= r && |r| <= |es| + |ms|
    decreases |ms|
  {
    if ms == [] then es else Step(Merge(es, ms[..|ms| - 1], url), ms[|ms| - 1], url)
  }

  /** The merge keeps the invariant, even when `ms` repeats an address. */
  lemma {:induction false} MergeValid(es: seq<EmailRecord>, ms: seq<string>, url: string)
    requires EmailsValid(es)
    ensures EmailsValid(Merge(es, ms, url))
    decreases |ms|
  {
    if ms != [] {
      MergeValid(es, ms[..|ms| - 1], url);
    }
  }

  /** The recorded addresses afterwards are those before plus every match of
      `ms` that is not a privacy-proxy address. */
  lemma {:induction false} MergeEmailSet(es: seq<EmailRecord>, ms: seq<string>, url: string)
    ensures EmailSet(Merge(es, ms, url)) == EmailSet(es) + Kept(ms)
    decreases |ms|
  {
    if ms != [] {
      var init, last := ms[..|ms| - 1], ms[|ms| - 1];
      MergeEmailSet(es, init, url);
      assert ms == init + [last];
      assert Kept(ms) == Kept(init) + (if IsNoreply(last) then {} else {last});
    }
  }

  /** The merge only appends, and every appended record holds a kept match of
      `ms` that was not recorded before, with `url` as its source. */
  lemma {:induction false} MergeAppends(es: seq<EmailRecord>, ms: seq<string>, url: string)
    ensures es <= Merge(es, ms, url)
    ensures forall k :: |es| <= k < |Merge(es, ms, url)| ==>
      Merge(es, ms, url)[k].email in ms && !IsNoreply(Merge(es, ms, url)[k].email) &&
      Merge(es, ms, url)[k].email !in EmailSet(es) && Merge(es, ms, url)[k].commitUrl == url
    decreases |ms|
  {
    if ms != [] {
      var init, last := ms[..|ms| - 1], ms[|ms| - 1];
      MergeAppends(es, init, url);
      var prev := Merge(es, init, url);
      MergeEmailSet(es, init, url);
      var r := Merge(es, ms, url);
      forall k | |es| <= k < |r|
        ensures r[k].email in ms && !IsNoreply(r[k].email)
        ensures r[k].email !in EmailSet(es) && r[k].commitUrl == url
      {
        if k < |prev| {
          assert r[k] == prev[k];
          assert prev[k].email in init;
        } else {
          assert r[k] == EmailRecord(last, url);
        }
      }
    }
  }

  /** Merging matches that are all recorded or proxies changes nothing. */
  lemma {:induction false} MergeNoop(es: seq<EmailRecord>, ms: seq<string>, url: string)
    requires forall m :: m in ms ==> m in EmailSet(es) || IsNoreply(m)
    ensures Merge(es, ms, url) == es
    decreases |ms|
  {
    if ms != [] {
      var last := ms[|ms| - 1];
      MergeNoop(es, ms[..|ms| - 1], url);
    }
  }

  /** Scanning the same matches a second time, from any URL, adds nothing:
      the first scan's records stand. */
  lemma MergeIdempotent(es: seq<EmailRecord>, ms: seq<string>, url: string, url': string)
    ensures Merge(Merge(es, ms, url), ms, url') == Merge(es, ms, url)
  {
    MergeEmailSet(es, ms, url);
    MergeNoop(Merge(es, ms, url), ms, url');
  }
}
