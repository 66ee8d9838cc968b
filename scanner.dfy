/** The one regular expression the finder applies to every patch text,
    `[a-zA-Z0-9_.+-]+@[a-zA-Z0-9-]+\.[a-zA-Z0-9-.]+`, together with the
    leftmost, non-overlapping search that `re.findall` performs with it.

    For this pattern backtracking never changes the outcome: '@' is not a
    local-part character and '.' is not a label character, so the local run
    and the label run must both be maximal, and the tail run is maximal because
    nothing follows it. The pattern is therefore written as a deterministic
    scanner, and its agreement with the pattern (stated as `IsEmailShape`) is
    proved in both directions. */
module EmailPattern {

  datatype Option<T> = None | Some(value: T)

  /** A match: the half-open character range [start, end) of the text. */
  datatype Span = Span(start: nat, end: nat)

  predicate IsAlnum(c: char) {
    'a' <= c <= 'z' || 'A' <= c <= 'Z' || '0' <= c <= '9'
  }

  /** `[a-zA-Z0-9_.+-]` */
  predicate IsLocalChar(c: char) {
    IsAlnum(c) || c == '_' || c == '.' || c == '+' || c == '-'
  }

  /** `[a-zA-Z0-9-]` */
  predicate IsLabelChar(c: char) {
    IsAlnum(c) || c == '-'
  }

  /** `[a-zA-Z0-9-.]`: the '-' after the range `0-9` is a literal. */
  predicate IsTailChar(c: char) {
    IsAlnum(c) || c == '-' || c == '.'
  }

  /** `t` is split as local '@' label '.' tail at positions `a` and `b`. */
  predicate ShapeAt(t: string, a: nat, b: nat) {
    0 < a && a + 1 < b && b + 1 < |t| && t[a] == '@' && t[b] == '.' &&
    (forall k :: 0 <= k < a ==> IsLocalChar(t[k])) &&
    (forall k :: a < k < b ==> IsLabelChar(t[k])) &&
    (forall k :: b < k < |t| ==> IsTailChar(t[k]))
  }

  /** `t` as a whole is matched by the pattern. */
  ghost predicate IsEmailShape(t: string) {
    exists a: nat, b: nat :: ShapeAt(t, a, b)
  }

  /** The end of the maximal run of `p`-characters that starts at `i`. */
  function RunEnd(s: string, i: nat, p: char -> bool): (j: nat)
    requires i <= |s|
    ensures i <= j <= |s|
    ensures forall k :: i <= k < j ==> p(s[k])
    ensures j == |s| || !p(s[j])
    decreases |s| - i
  {
    if i < |s| && p(s[i]) then RunEnd(s, i + 1, p) else i
  }

  /** Any index that closes a run of `p`-characters from `i` is the run end. */
  lemma RunEndUnique(s: string, i: nat, p: char -> bool, j: nat)
    requires i <= j <= |s|
    requires forall k :: i <= k < j ==> p(s[k])
    requires j == |s| || !p(s[j])
    ensures RunEnd(s, i, p) == j
  {
  }

  /** The end of the match that the pattern makes at position `i`, if any. */
  function MatchAt(s: string, i: nat): (r: Option<nat>)
    requires i <= |s|
    ensures r.Some? ==> i < r.value <= |s| && IsEmailShape(s[i..r.value])
  {
    var a := RunEnd(s, i, IsLocalChar);
    if a == i || a == |s| || s[a] != '@' then None
    else
      var b := RunEnd(s, a + 1, IsLabelChar);
      if b == a + 1 || b == |s| || s[b] != '.' then None
      else
        var e := RunEnd(s, b + 1, IsTailChar);
        if e == b + 1 then None
        else
          assert ShapeAt(s[i..e], a - i, b - i);
          Some(e)
  }

  /** Completeness of `MatchAt`: whenever some text from `i` has the email
      shape, `MatchAt` finds a match there, and no shorter one. With the
      soundness in its ensures, `MatchAt` is the longest email-shaped prefix
      of `s[i..]`, which is what the greedy pattern picks. */
  lemma MatchAtComplete(s: string, i: nat, e: nat)
    requires i < e <= |s|
    requires IsEmailShape(s[i..e])
    ensures MatchAt(s, i).Some? && e <= MatchAt(s, i).value
  {
    var t := s[i..e];
    var a: nat, b: nat :| ShapeAt(t, a, b);
    assert forall k :: i <= k < i + a ==> IsLocalChar(s[k]) by {
      forall k | i <= k < i + a ensures IsLocalChar(s[k]) { assert s[k] == t[k - i]; }
    }
    assert s[i + a] == t[a];
    RunEndUnique(s, i, IsLocalChar, i + a);
    assert forall k :: i + a + 1 <= k < i + b ==> IsLabelChar(s[k]) by {
      forall k | i + a + 1 <= k < i + b ensures IsLabelChar(s[k]) { assert s[k] == t[k - i]; }
    }
    assert s[i + b] == t[b];
    RunEndUnique(s, i + a + 1, IsLabelChar, i + b);
    assert forall k :: i + b + 1 <= k < e ==> IsTailChar(s[k]) by {
      forall k | i + b + 1 <= k < e ensures IsTailChar(s[k]) { assert s[k] == t[k - i]; }
    }
  }

  /** No email-shaped text starts at `i` exactly when `MatchAt` finds none. */
  lemma NoMatchAt(s: string, i: nat)
    requires i <= |s|
    ensures MatchAt(s, i).None? <==> forall e :: i < e <= |s| ==> !IsEmailShape(s[i..e])
  {
    if MatchAt(s, i).None? {
      forall e | i < e <= |s| ensures !IsEmailShape(s[i..e]) {
        if IsEmailShape(s[i..e]) {
          MatchAtComplete(s, i, e);
        }
      }
    }
  }

  /** Position `p` lies inside one of the spans. */
  predicate Covered(r: seq<Span>, p: nat) {
    exists k :: 0 <= k < |r| && r[k].start <= p < r[k].end
  }

  /** The scan from position `i`: the spans `re.findall` reports, in order. */
  function Scan(s: string, i: nat): (r: seq<Span>)
    requires i <= |s|
    ensures forall k :: 0 <= k < |r| ==> i <= r[k].start < r[k].end <= |s|
    ensures forall k :: 0 <= k < |r| ==> MatchAt(s, r[k].start) == Some(r[k].end)
    ensures forall k :: 0 <= k < |r| - 1 ==> r[k].end <= r[k + 1].start
    decreases |s| - i
  {
    if i == |s| then []
    else
      match MatchAt(s, i)
      case Some(e) => [Span(i, e)] + Scan(s, e)
      case None => Scan(s, i + 1)
  }

  /** The scan is leftmost: every position it does not cover starts no match. */
  lemma {:induction false} ScanLeftmost(s: string, i: nat, p: nat)
    requires i <= p < |s|
    requires !Covered(Scan(s, i), p)
    ensures MatchAt(s, p).None?
    decreases |s| - i
  {
    var m := MatchAt(s, i);
    if m.Some? {
      var e := m.value;
      var r, r' := Scan(s, i), Scan(s, e);
      assert r == [Span(i, e)] + r';
      assert !(r[0].start <= p < r[0].end);
      forall k | 0 <= k < |r'| ensures !(r'[k].start <= p < r'[k].end) {
        assert r[k + 1] == r'[k];
      }
      ScanLeftmost(s, e, p);
    } else if p > i {
      assert Scan(s, i) == Scan(s, i + 1);
      ScanLeftmost(s, i + 1, p);
    }
  }

  /** The matched texts, as `re.findall` returns them. */
  function FindAll(s: string): (ms: seq<string>)
    ensures forall k :: 0 <= k < |ms| ==> IsEmailShape(ms[k])
    ensures forall k :: 0 <= k < |ms| ==> IsSubstring(ms[k], s)
  {
    var r := Scan(s, 0);
    var ms := seq(|r|, k requires 0 <= k < |r| => s[r[k].start..r[k].end]);
    assert forall k :: 0 <= k < |ms| ==> OccursAt(ms[k], s, r[k].start);
    ms
  }

  /** `sub` occurs in `s` starting at index `i`. */
  predicate OccursAt(sub: string, s: string, i: int) {
    0 <= i && i + |sub| <= |s| && s[i..i + |sub|] == sub
  }

  /** `sub` occurs in `s` (Python's `sub in s` on strings). */
  predicate IsSubstring(sub: string, s: string) {
    exists i | 0 <= i <= |s| :: OccursAt(sub, s, i)
  }

  /** The pattern matches only texts with exactly one '@'. */
  lemma ShapeHasOneAt(t: string)
    requires IsEmailShape(t)
    ensures multiset(t)['@'] == 1
  {
    var a: nat, b: nat :| ShapeAt(t, a, b);
    assert t == t[..a] + [t[a]] + t[a + 1..];
    assert '@' !in t[..a] by {
      forall k | 0 <= k < a ensures t[..a][k] != '@' { assert IsLocalChar(t[k]); }
    }
    assert '@' !in t[a + 1..] by {
      forall k | a < k < |t| ensures t[k] != '@' {
        if k < b { assert IsLabelChar(t[k]); }
        else if k > b { assert IsTailChar(t[k]); }
      }
    }
    assert multiset(t) == multiset(t[..a]) + multiset{t[a]} + multiset(t[a + 1..]);
  }
}
