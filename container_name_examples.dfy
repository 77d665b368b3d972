/**
 * What getSafeContainerName gives for concrete job IDs, one per path through
 * the derivation, and a pair of distinct IDs that meet in one container.
 */
module ContainerNameExamples {
  import opened Wrappers
  import opened HexEncoding
  import opened StorageUtils
  import opened ContainerNameProperties

  /** "ab-c-" followed by hex digits passes the fast-path checks. */
  lemma {:induction false} DashedHexIsDirectlyUsable(h: string)
    requires |h| == HashTextLength && forall i :: 0 <= i < |h| ==> IsHexChar(h[i])
    ensures ToLower("ab-c-" + h) == "ab-c-" + h
    ensures IsDirectlyUsable("ab-c-" + h)
  {
    var other := "ab-c-" + h;
    var p := "ab-c-";
    assert forall i :: 0 <= i < |p| ==> other[i] == p[i];
    assert forall i :: |p| <= i < |other| ==> other[i] == h[i - |p|];
    assert forall i :: 0 <= i < |other| ==> IsLowerAlnum(other[i]) || other[i] == '-' by {
      forall i | 0 <= i < |other| ensures IsLowerAlnum(other[i]) || other[i] == '-' {
        if i >= |p| { assert IsHexChar(h[i - |p|]); }
      }
    }
    ToLowerWithoutUpper(other);
    assert MatchesPermittedPattern(other);
    ContainsDoubleDash(other);
    assert NoDoubleDash(other) by {
      forall i | 0 <= i < |other| - 1 ensures !DoubleDashAt(other, i) {
        if i >= 4 { assert IsHexChar(h[i + 1 - |p|]); }
      }
    }
    assert IsHexChar(h[|h| - 1]);
  }

  lemma {:induction false} DashedConcat(h: string)
    ensures "ab-c" + "-" + h == "ab-c-" + h
  {
    assert "ab-c" + "-" == "ab-c-";
  }

  lemma {:induction false} AbCFallsBack(id: string)
    requires id == "ab_c"
    ensures ToLower(id) == id && !IsDirectlyUsable(id)
    ensures MungedJobId(id) == "ab-c"
  {
    ToLowerWithoutUpper(id);
    assert !IsAsciiAlnum(id[2]);
    CollapseOneUnderscore("ab", "c");
    assert "ab" + "_" + "c" == id;
    assert "ab" + "-" + "c" == "ab-c";
    ShortCollapsedIsBody(id);
  }

  /**
   * A fast-path name can coincide with a fallback name, whatever the digest
   * function: an ID that takes the fallback with the body "ab-c" (such as "ab_c",
   * by AbCFallsBack) and the ID "ab-c-" followed by its hash get the same container.
   */
  lemma {:induction false} FastPathMeetsFallback(id: string, sha1: Sha1)
    requires id != [] && ToLower(id) == id && !IsDirectlyUsable(id)
    requires MungedJobId(id) == "ab-c"
    ensures var other := "ab-c-" + JobIdHash(id, sha1);
      && ToLower(other) != ToLower(id)
      && GetSafeContainerName(Some(other), sha1) == GetSafeContainerName(Some(id), sha1)
  {
    var h := JobIdHash(id, sha1);
    var other := "ab-c-" + h;
    DashedHexIsDirectlyUsable(h);
    MungeShape(id, sha1);
    DashedConcat(h);
    FallbackCollision(id, sha1);
    assert other != id;
  }

  /** The ID "ab_c" and "ab-c-" followed by its hash share a container. */
  lemma {:induction false} AbCCollision(id: string, sha1: Sha1)
    requires id == "ab_c"
    ensures var other := "ab-c-" + JobIdHash(id, sha1);
      && ToLower(other) != ToLower(id)
      && GetSafeContainerName(Some(other), sha1) == GetSafeContainerName(Some(id), sha1)
  {
    AbCFallsBack(id);
    FastPathMeetsFallback(id, sha1);
  }

  /** A short valid ID is used as it is, lower-cased: "MyJob" gets "job-myjob". */
  lemma {:induction false} FastPathExample(jobId: string, sha1: Sha1)
    requires jobId == "MyJob"
    ensures GetSafeContainerName(Some(jobId), sha1) == Success(JobPrefix + "myjob")
  {
    AlnumIdUsedAsIs(jobId, sha1);
    assert ToLower(jobId) == "myjob";
  }

  lemma {:induction false} MyJobBangsFallsBack(jobId: string)
    requires jobId == "My_Job!!"
    ensures ToLower(jobId) == "my_job!!" && !IsDirectlyUsable(ToLower(jobId))
    ensures MungedJobId(ToLower(jobId)) == "my-job!!"
  {
    var id := ToLower(jobId);
    assert id == "my_job!!";
    assert !IsAsciiAlnum(id[2]);
    CollapseOneUnderscore("my", "job!!");
    assert "my" + "_" + "job!!" == id;
    assert "my" + "-" + "job!!" == "my-job!!";
    ShortCollapsedIsBody(id);
  }

  /** Characters outside the job-ID alphabet are kept by the munge: "My_Job!!" gets "job-my-job!!-" and the hash. */
  lemma {:induction false} IllegalCharactersExample(jobId: string, sha1: Sha1)
    requires jobId == "My_Job!!"
    ensures GetSafeContainerName(Some(jobId), sha1)
         == Success(JobPrefix + "my-job!!" + "-" + JobIdHash("my_job!!", sha1))
  {
    MyJobBangsFallsBack(jobId);
    FallbackName(jobId, sha1);
  }

  /** An ID made only of underscores and hyphens gets the body "job". */
  lemma {:induction false} SeparatorsOnlyName(jobId: string, sha1: Sha1)
    requires jobId != [] && forall i :: 0 <= i < |jobId| ==> IsSeparator(jobId[i])
    ensures GetSafeContainerName(Some(jobId), sha1) == Success(JobPrefix + "job" + "-" + JobIdHash(jobId, sha1))
  {
    ToLowerWithoutUpper(jobId);
    assert !IsAsciiAlnum(jobId[0]);
    MungedJobIdContent(jobId);
    FallbackName(jobId, sha1);
  }

  /** A storage account ID with the classic provider segment is classic; a shorter one cannot be. */
  lemma {:induction false} IsClassicExample(id: string, other: string)
    requires id == "/subscriptions/s/providers/" + ClassicStorageMarker + "/a"
    requires other == "Microsoft.Storage/storageAccounts"
    ensures IsClassic(id) && !IsClassic(other)
  {
    var p := "/subscriptions/s/providers/";
    assert id[|p|..|p| + |ClassicStorageMarker|] == ClassicStorageMarker;
    assert OccursAt(id, ClassicStorageMarker, |p|);
    assert |other| < |ClassicStorageMarker|;
  }
}
