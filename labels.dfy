/** The reverse tag on an item name: ticking 역산 puts "[역산] " in front of the name unless
    it already begins with "[역산]", and clearing it deletes every "[역산] " the name holds. */
module Labels {

  /** What `startswith` looks for (no trailing space). */
  const ReverseMark: string := "[역산]"
  /** What is prepended, and what `replace` deletes. */
  const ReverseTag: string := "[역산] "

  predicate StartsWith(s: string, p: string) {
    |p| <= |s| && s[..|p|] == p
  }

  predicate OccursAt(s: string, p: string, k: int) {
    0 <= k && k + |p| <= |s| && s[k..k + |p|] == p
  }

  predicate Contains(s: string, p: string) {
    exists k :: 0 <= k <= |s| - |p| && OccursAt(s, p, k)
  }

  /** `s.replace(pat, "")`: scan left to right, delete each occurrence and resume after it. */
  function RemoveAll(s: string, pat: string): (r: string)
    requires pat != []
    ensures |r| <= |s|
    decreases |s|
  {
    if |s| < |pat| then s
    else if s[..|pat|] == pat then RemoveAll(s[|pat|..], pat)
    else [s[0]] + RemoveAll(s[1..], pat)
  }

  /** The name after 역산 is set to true. */
  function AddTag(name: string): (r: string)
    ensures StartsWith(r, ReverseMark)
    ensures StartsWith(name, ReverseMark) ==> r == name
    ensures !StartsWith(name, ReverseMark) ==> r == ReverseTag + name
    ensures |r| <= |name| + |ReverseTag|
  {
    if StartsWith(name, ReverseMark) then name else ReverseTag + name
  }

  /** The name after 역산 is set to false. */
  function StripTag(name: string): (r: string)
    ensures |r| <= |name|
    ensures !Contains(name, ReverseTag) ==> r == name
  {
    if !Contains(name, ReverseTag) then RemoveAllAbsent(name, ReverseTag); RemoveAll(name, ReverseTag)
    else RemoveAll(name, ReverseTag)
  }

  /** Ticking the flag twice tags the name once. */
  lemma AddTagIdempotent(name: string)
    ensures AddTag(AddTag(name)) == AddTag(name)
  {
  }

  /** Tagging never produces a doubled tag that was not already there. */
  lemma AddTagNeverDoubles(name: string)
    ensures StartsWith(AddTag(name), ReverseTag + ReverseMark) ==> StartsWith(name, ReverseTag + ReverseMark)
  {
    var s := ReverseTag + name;
    if !StartsWith(name, ReverseMark) && |ReverseTag + ReverseMark| <= |s| {
      assert s[|ReverseTag|..|ReverseTag| + |ReverseMark|] == name[..|ReverseMark|];
      assert (ReverseTag + ReverseMark)[|ReverseTag|..] == ReverseMark;
    }
  }

  /** Deleting a pattern that does not occur leaves the string as it is. */
  lemma {:induction false} RemoveAllAbsent(s: string, pat: string)
    requires pat != [] && !Contains(s, pat)
    ensures RemoveAll(s, pat) == s
    decreases |s|
  {
    if |s| >= |pat| {
      assert !OccursAt(s, pat, 0);
      assert !Contains(s[1..], pat) by {
        forall k | OccursAt(s[1..], pat, k) ensures false {
          assert s[1..][k..k + |pat|] == s[k + 1..k + 1 + |pat|];
          assert OccursAt(s, pat, k + 1);
        }
      }
      RemoveAllAbsent(s[1..], pat);
    }
  }

  /** `replace` deletes the first occurrence of the pattern, keeps everything before it,
      and resumes the scan right after it. */
  lemma RemoveAllFirst(s: string, pat: string, k: nat)
    requires pat != [] && OccursAt(s, pat, k)
    requires forall j :: 0 <= j < k ==> !OccursAt(s, pat, j)
    ensures RemoveAll(s, pat) == s[..k] + RemoveAll(s[k + |pat|..], pat)
  {
    var p, u := s[..k], s[k..];
    assert s == p + u;
    NoneBeforeOfForall(s, pat, k);
    RemoveAllAfterPrefix(p, u, pat);
    assert OccursAt(u, pat, 0) by {
      assert u[0..|pat|] == s[k..k + |pat|];
    }
    RemoveAllDrop(u, pat);
    assert u[|pat|..] == s[k + |pat|..];
  }

  /** The pattern occurs at none of the first `k` positions, stated one position at a time. */
  predicate NoneBefore(s: string, pat: string, k: nat)
    decreases k
  {
    k == 0 || (|s| > 0 && !OccursAt(s, pat, 0) && NoneBefore(s[1..], pat, k - 1))
  }

  lemma {:induction false} NoneBeforeOfForall(s: string, pat: string, k: nat)
    requires k + |pat| <= |s|
    requires forall j :: 0 <= j < k ==> !OccursAt(s, pat, j)
    ensures NoneBefore(s, pat, k)
    decreases k
  {
    if k > 0 {
      assert !OccursAt(s, pat, 0);
      var t := s[1..];
      forall j | 0 <= j < k - 1 ensures !OccursAt(t, pat, j) {
        assert !OccursAt(s, pat, j + 1);
        assert t[j..j + |pat|] == s[j + 1..j + 1 + |pat|];
      }
      NoneBeforeOfForall(t, pat, k - 1);
    }
  }

  /** A prefix in which no occurrence starts is kept as it is. */
  lemma {:induction false} RemoveAllAfterPrefix(p: string, u: string, pat: string)
    requires pat != [] && NoneBefore(p + u, pat, |p|)
    ensures RemoveAll(p + u, pat) == p + RemoveAll(u, pat)
    decreases |p|
  {
    if p == [] {
      assert p + u == u;
    } else {
      var s, q := p + u, p[1..];
      var rest := RemoveAll(u, pat);
      assert RemoveAll(s, pat) == [p[0]] + RemoveAll(q + u, pat) by {
        assert s[1..] == q + u;
        RemoveAllKeep(s, pat);
      }
      assert RemoveAll(q + u, pat) == q + rest by {
        assert s[1..] == q + u;
        RemoveAllAfterPrefix(q, u, pat);
      }
      assert [p[0]] + (q + rest) == p + rest;
    }
  }

  /** When the pattern starts the string, it is deleted and the scan goes on after it. */
  lemma RemoveAllDrop(s: string, pat: string)
    requires pat != [] && OccursAt(s, pat, 0)
    ensures RemoveAll(s, pat) == RemoveAll(s[|pat|..], pat)
  {
    assert s[..|pat|] == s[0..|pat|];
  }

  /** When the pattern does not start the string, the first character is kept. */
  lemma RemoveAllKeep(s: string, pat: string)
    requires pat != [] && |s| > 0 && !OccursAt(s, pat, 0)
    ensures RemoveAll(s, pat) == [s[0]] + RemoveAll(s[1..], pat)
  {
  }

  /** A leading tag is deleted and the scan goes on with the rest of the name. */
  lemma StripTagLeading(name: string)
    ensures StripTag(ReverseTag + name) == StripTag(name)
  {
    var s := ReverseTag + name;
    assert s[..|ReverseTag|] == ReverseTag;
    assert s[|ReverseTag|..] == name;
  }

  /** Ticking and then clearing the flag restores a name that held no "[역산] ". */
  lemma TagRoundTrip(name: string)
    requires !Contains(name, ReverseTag)
    ensures StripTag(AddTag(name)) == name
  {
    if !StartsWith(name, ReverseMark) {
      StripTagLeading(name);
    }
    RemoveAllAbsent(name, ReverseTag);
  }

  /** Clearing the flag does not rescan what a deletion joins together, so a tag can remain. */
  lemma StripTagCanLeaveTag()
    ensures StripTag("[역[역산] 산] ") == ReverseTag
  {
    var s: string := "[역[역산] 산] ";
    assert s[..|ReverseTag|][2] != ReverseTag[2];
    assert s[1..][..|ReverseTag|][1] != ReverseTag[1];
    assert s[2..][..|ReverseTag|] == ReverseTag;
    assert s[2..][|ReverseTag|..] == "산] ";
    assert RemoveAll("산] ", ReverseTag) == "산] ";
  }
}
