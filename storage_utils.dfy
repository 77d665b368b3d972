/**
 * StorageUtils: the name of the Azure Blob Storage container that holds a Batch
 * job's output, derived from the job ID, and the test for classic storage
 * accounts.
 *
 * The asynchronous plumbing of the original (Promises around the digest) carries
 * no logic and is flattened into plain functions. The SHA-1 digest of the
 * lower-cased job ID is supplied by the platform; here it is the parameter
 * `sha1`, an arbitrary function that returns 20 bytes.
 */
module StorageUtils {
  import opened Wrappers
  import opened HexEncoding

  // ---------------------------------------------------------------------------
  // Constants

  const JobPrefix: string := "job-"
  const SingleDashChar: char := '-'
  /** The longest container name Azure Blob Storage accepts. */
  const MaxContainerNameLength: nat := 63
  const MaxUsableJobIdLength: nat := MaxContainerNameLength - |JobPrefix|
  const MaxJobIdLengthInMungedContainerName: nat := 15
  /** The body used when munging leaves nothing of the job ID. */
  const EmptyMungeReplacement: string := "job"
  const ClassicStorageMarker: string := "Microsoft.ClassicStorage/storageAccounts"
  /** The rejection reason of getSafeContainerName. */
  const NoJobIdMessage: string := "No jobId supplied to getSafeContainerName(jobId: string)"
  /** Length of the hex rendering of a SHA-1 digest. */
  const HashTextLength: nat := 40

  /** A SHA-1 digest: 20 bytes. */
  type Digest = s: seq<Byte> | |s| == 20 witness seq(20, _ => 0)

  /** The platform digest of a job ID (its byte encoding included). */
  type Sha1 = string -> Digest

  // ---------------------------------------------------------------------------
  // Characters

  predicate IsLowerAlnum(c: char) {
    'a' <= c <= 'z' || '0' <= c <= '9'
  }

  predicate IsUpper(c: char) {
    'A' <= c <= 'Z'
  }

  /** [a-z0-9] under the regex flag /i. */
  predicate IsAsciiAlnum(c: char) {
    IsLowerAlnum(c) || IsUpper(c)
  }

  /** The characters the regex /[_-]{1,}/ collapses. */
  predicate IsSeparator(c: char) {
    c == '-' || c == '_'
  }

  /** The characters a Batch job ID may contain. */
  predicate IsJobIdChar(c: char) {
    IsAsciiAlnum(c) || IsSeparator(c)
  }

  /** The characters a container name may contain. */
  predicate IsContainerNameChar(c: char) {
    IsLowerAlnum(c) || c == '-'
  }

  /** String.prototype.toLowerCase on one ASCII character. */
  function ToLowerChar(c: char): char {
    if IsUpper(c) then (c as int + 32) as char else c
  }

  function ToUpperChar(c: char): char {
    if 'a' <= c <= 'z' then (c as int - 32) as char else c
  }

  /** String.prototype.toLowerCase, ASCII letters only. */
  function ToLower(s: string): (r: string)
    ensures |r| == |s|
    ensures forall i :: 0 <= i < |s| ==> r[i] == ToLowerChar(s[i])
  {
    if s == [] then [] else [ToLowerChar(s[0])] + ToLower(s[1..])
  }

  /** String.prototype.toUpperCase, ASCII letters only. */
  function ToUpper(s: string): (r: string)
    ensures |r| == |s|
    ensures forall i :: 0 <= i < |s| ==> r[i] == ToUpperChar(s[i])
  {
    if s == [] then [] else [ToUpperChar(s[0])] + ToUpper(s[1..])
  }

  // ---------------------------------------------------------------------------
  // Substrings

  /** pat occurs in s at index i. */
  predicate OccursAt(s: string, pat: string, i: int) {
    0 <= i && i + |pat| <= |s| && s[i..i + |pat|] == pat
  }

  /** s.contains(pat), and s.indexOf(pat) !== -1. */
  function Contains(s: string, pat: string): (r: bool)
    ensures r <==> exists i :: OccursAt(s, pat, i)
    decreases |s|
  {
    if |s| < |pat| then false
    else if pat <= s then (assert OccursAt(s, pat, 0); true)
    else
      var r := Contains(s[1..], pat);
      assert r ==> exists i :: OccursAt(s, pat, i) by {
        if r {
          var i :| OccursAt(s[1..], pat, i);
          assert s[1..][i..i + |pat|] == s[i + 1..i + 1 + |pat|];
          assert OccursAt(s, pat, i + 1);
        }
      }
      assert (exists i :: OccursAt(s, pat, i)) ==> r by {
        if exists i :: OccursAt(s, pat, i) {
          var i :| OccursAt(s, pat, i);
          assert i != 0;
          assert s[1..][i - 1..i - 1 + |pat|] == s[i..i + |pat|];
          assert OccursAt(s[1..], pat, i - 1);
        }
      }
      r
  }

  /** Two consecutive dashes start at index i. */
  predicate DoubleDashAt(s: string, i: int) {
    0 <= i < |s| - 1 && s[i] == '-' && s[i + 1] == '-'
  }

  predicate NoDoubleDash(s: string) {
    forall i :: 0 <= i < |s| - 1 ==> !DoubleDashAt(s, i)
  }

  lemma {:induction false} ContainsDoubleDash(s: string)
    ensures Contains(s, "--") <==> !NoDoubleDash(s)
  {
    if Contains(s, "--") {
      var i :| OccursAt(s, "--", i);
      assert s[i..i + 2][0] == s[i] && s[i..i + 2][1] == s[i + 1];
      assert DoubleDashAt(s, i);
    }
    if !NoDoubleDash(s) {
      var i :| 0 <= i < |s| - 1 && DoubleDashAt(s, i);
      assert s[i] == '-' && s[i + 1] == '-';
      assert s[i..i + 2] == "--";
      assert OccursAt(s, "--", i);
    }
  }

  /** StorageUtils.isClassic. */
  function IsClassic(storageAccountId: string): (r: bool)
    ensures r <==> exists i :: OccursAt(storageAccountId, ClassicStorageMarker, i)
  {
    Contains(storageAccountId, ClassicStorageMarker)
  }

  // ---------------------------------------------------------------------------
  // The fast path

  /** /^[a-z0-9][a-z0-9-]*$/i.test(s). */
  predicate MatchesPermittedPattern(s: string) {
    |s| >= 1 && IsAsciiAlnum(s[0]) && forall i :: 1 <= i < |s| ==> IsAsciiAlnum(s[i]) || s[i] == '-'
  }

  /** s.charAt(s.length - 1) === c; charAt past the end gives "". */
  predicate EndsWithChar(s: string, c: char) {
    |s| > 0 && s[|s| - 1] == c
  }

  /** All three checks of _getUnprefixedSafeContainerName pass: "job-" + id is usable as is. */
  predicate IsDirectlyUsable(id: string) {
    && |id| <= MaxUsableJobIdLength
    && MatchesPermittedPattern(id)
    && !(Contains(id, "--") || EndsWithChar(id, SingleDashChar))
  }

  // ---------------------------------------------------------------------------
  // The fallback path

  /** Removes the run of separators at the front of s. */
  function DropSeparators(s: string): (r: string)
    ensures |r| <= |s|
    decreases |s|
  {
    if s != [] && IsSeparator(s[0]) then DropSeparators(s[1..]) else s
  }

  /** The non-separator characters of s, in order. */
  function NonSeparators(s: string): string
    decreases |s|
  {
    if s == [] then [] else (if IsSeparator(s[0]) then [] else [s[0]]) + NonSeparators(s[1..])
  }

  /**
   * jobId.replace(/[_-]{1,}/g, "-"): every maximal run of hyphens and underscores
   * becomes one hyphen; everything else is kept in order.
   */
  function CollapseSeparators(s: string): string
    decreases |s|
  {
    if s == [] then []
    else if IsSeparator(s[0]) then [SingleDashChar] + CollapseSeparators(DropSeparators(s))
    else [s[0]] + CollapseSeparators(s[1..])
  }

  /** The String.prototype.trimEnd(c) extension: removes every trailing c. */
  function TrimEnd(s: string, c: char): (r: string)
    ensures r <= s
    ensures r == [] || r[|r| - 1] != c
    ensures forall i :: |r| <= i < |s| ==> s[i] == c
    decreases |s|
  {
    if s != [] && s[|s| - 1] == c then TrimEnd(s[..|s| - 1], c) else s
  }

  /** s.replace(/^[-]|[-]+$/g, ""): one leading hyphen and all trailing hyphens go. */
  function TrimStartAndEnd(s: string): string {
    TrimEnd(if |s| > 0 && s[0] == '-' then s[1..] else s, '-')
  }

  /** The collapsed and trimmed job ID, before the replacement of "" and the truncation. */
  function SafeString(id: string): string {
    TrimStartAndEnd(CollapseSeparators(id))
  }

  /** The job-ID part of a munged container name (_mungeToContainerName up to the hash). */
  function MungedJobId(id: string): string {
    var safeString := SafeString(id);
    if |safeString| > MaxJobIdLengthInMungedContainerName then
      TrimEnd(safeString[..MaxJobIdLengthInMungedContainerName], SingleDashChar)
    else if |safeString| == 0 then
      EmptyMungeReplacement
    else
      safeString
  }

  /** _getJobIdHash: the hex rendering of the digest of the job ID. */
  function JobIdHash(id: string, sha1: Sha1): (h: string)
    ensures |h| == HashTextLength
    ensures h == BytesHex(sha1(id))
  {
    HexOfSpec(sha1(id));
    HexOf(sha1(id)).value
  }

  /** StorageUtils._mungeToContainerName. */
  function MungeToContainerName(id: string, sha1: Sha1): string {
    MungedJobId(id) + "-" + JobIdHash(id, sha1)
  }

  // ---------------------------------------------------------------------------
  // The entry points

  /** StorageUtils._getUnprefixedSafeContainerName. */
  function UnprefixedSafeContainerName(jobId: string, sha1: Sha1): string {
    var id := ToLower(jobId);
    if |id| > MaxUsableJobIdLength then MungeToContainerName(id, sha1)
    else if !MatchesPermittedPattern(id) then MungeToContainerName(id, sha1)
    else if Contains(id, "--") || EndsWithChar(id, SingleDashChar) then MungeToContainerName(id, sha1)
    else id
  }

  /** StorageUtils.getSafeContainerName; None stands for null or undefined. */
  function GetSafeContainerName(jobId: Option<string>, sha1: Sha1): (r: Result<string, string>)
    ensures r.Failure? <==> jobId == None || jobId == Some([])
    ensures r.Failure? ==> r.error == NoJobIdMessage
    ensures r.Success? ==> JobPrefix <= r.value
  {
    match jobId
    case None => Failure(NoJobIdMessage)
    case Some(id) =>
      if id == [] then Failure(NoJobIdMessage)
      else Success(JobPrefix + UnprefixedSafeContainerName(id, sha1))
  }
}
