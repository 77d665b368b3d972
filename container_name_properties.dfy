/**
 * What the container name derived by StorageUtils.getSafeContainerName is
 * guaranteed to look like, and how far distinct job IDs get distinct names.
 */
module ContainerNameProperties {
  import opened Wrappers
  import opened HexEncoding
  import opened StorageUtils

  /** The Azure Blob Storage container-name rules this scheme meets, plus the "job-" prefix. */
  predicate MeetsLengthAndHyphenRules(name: string) {
    && |name| <= MaxContainerNameLength
    && JobPrefix <= name
    && |name| > |JobPrefix|
    && name[|JobPrefix|] != '-'
    && NoDoubleDash(name)
    && name[|name| - 1] != '-'
  }

  /** Only lowercase letters, digits and hyphens. */
  predicate OverContainerAlphabet(name: string) {
    forall i :: 0 <= i < |name| ==> IsContainerNameChar(name[i])
  }

  /** No underscore survives the munge. */
  predicate NoUnderscore(s: string) {
    forall i :: 0 <= i < |s| ==> s[i] != '_'
  }

  /** Lowercase letters, digits, hyphens and underscores: a lower-cased job ID. */
  predicate OverLowerJobIdAlphabet(s: string) {
    forall i :: 0 <= i < |s| ==> IsLowerAlnum(s[i]) || IsSeparator(s[i])
  }

  // ---------------------------------------------------------------------------
  // Double dashes

  lemma {:induction false} NoDoubleDashConcat(a: string, b: string)
    requires NoDoubleDash(a) && NoDoubleDash(b)
    requires a == [] || b == [] || a[|a| - 1] != '-' || b[0] != '-'
    ensures NoDoubleDash(a + b)
  {
    var s := a + b;
    forall i | 0 <= i < |s| - 1 ensures !DoubleDashAt(s, i) {
      if i < |a| - 1 {
        assert !DoubleDashAt(a, i);
      } else if i >= |a| {
        assert !DoubleDashAt(b, i - |a|);
      }
    }
  }

  lemma {:induction false} NoDoubleDashSlice(s: string, lo: nat, hi: nat)
    requires lo <= hi <= |s| && NoDoubleDash(s)
    ensures NoDoubleDash(s[lo..hi])
  {
    var t := s[lo..hi];
    forall i | 0 <= i < |t| - 1 ensures !DoubleDashAt(t, i) {
      assert !DoubleDashAt(s, lo + i);
    }
  }

  lemma {:induction false} PrefixHasNoDoubleDash()
    ensures NoDoubleDash(JobPrefix)
  {
    assert !DoubleDashAt(JobPrefix, 0) && !DoubleDashAt(JobPrefix, 1) && !DoubleDashAt(JobPrefix, 2);
  }

  // ---------------------------------------------------------------------------
  // Separators

  /** DropSeparators removes exactly the maximal run of separators at the front. */
  lemma {:induction false} DropSeparatorsSpec(s: string)
    ensures var r := DropSeparators(s);
      && r == s[|s| - |r|..]
      && (forall i :: 0 <= i < |s| - |r| ==> IsSeparator(s[i]))
      && (r == [] || !IsSeparator(r[0]))
    decreases |s|
  {
    if s != [] && IsSeparator(s[0]) {
      DropSeparatorsSpec(s[1..]);
      var r := DropSeparators(s);
      assert s[1..][|s| - 1 - |r|..] == s[|s| - |r|..];
      forall i | 0 <= i < |s| - |r| ensures IsSeparator(s[i]) {
        if i > 0 { assert s[i] == s[1..][i - 1]; }
      }
    }
  }

  lemma {:induction false} NonSeparatorsAppend(a: string, b: string)
    ensures NonSeparators(a + b) == NonSeparators(a) + NonSeparators(b)
    decreases |a|
  {
    if a == [] {
      assert a + b == b;
    } else {
      assert (a + b)[1..] == a[1..] + b;
      NonSeparatorsAppend(a[1..], b);
    }
  }

  lemma {:induction false} NonSeparatorsEmpty(s: string)
    ensures NonSeparators(s) == [] <==> forall i :: 0 <= i < |s| ==> IsSeparator(s[i])
    decreases |s|
  {
    if s != [] {
      NonSeparatorsEmpty(s[1..]);
      assert forall i :: 1 <= i < |s| ==> s[i] == s[1..][i - 1];
    }
  }

  lemma {:induction false} NonSeparatorsPrefix(a: string, b: string)
    requires a <= b
    ensures NonSeparators(a) <= NonSeparators(b)
  {
    assert b == a + b[|a|..];
    NonSeparatorsAppend(a, b[|a|..]);
  }

  lemma {:induction false} NonSeparatorsOfDrop(s: string)
    ensures NonSeparators(DropSeparators(s)) == NonSeparators(s)
  {
    var r := DropSeparators(s);
    DropSeparatorsSpec(s);
    var k := |s| - |r|;
    assert s == s[..k] + r;
    NonSeparatorsAppend(s[..k], r);
    NonSeparatorsEmpty(s[..k]);
  }

  /**
   * Collapsing separators leaves no "--" and no "_", keeps every other character
   * in order, and starts with a hyphen exactly when the input starts with a
   * separator.
   */
  lemma {:induction false} CollapseSeparatorsInvariants(s: string)
    ensures var r := CollapseSeparators(s);
      && (r == [] <==> s == [])
      && (r != [] ==> (r[0] == '-' <==> IsSeparator(s[0])))
      && NoDoubleDash(r)
      && NoUnderscore(r)
      && NonSeparators(r) == NonSeparators(s)
    decreases |s|
  {
    if s != [] {
      var r := CollapseSeparators(s);
      var t := if IsSeparator(s[0]) then DropSeparators(s) else s[1..];
      var c := CollapseSeparators(t);
      CollapseSeparatorsInvariants(t);
      if IsSeparator(s[0]) {
        DropSeparatorsSpec(s);
        NonSeparatorsOfDrop(s);
        assert r == [SingleDashChar] + c;
      } else {
        assert r == [s[0]] + c;
      }
      assert r[1..] == c;
      NoDoubleDashConcat([r[0]], c);
      assert forall i :: 1 <= i < |r| ==> r[i] == c[i - 1];
    }
  }

  /** Collapsing keeps the input's alphabet, less the underscore. */
  lemma {:induction false} CollapseSeparatorsAlphabet(s: string)
    requires OverLowerJobIdAlphabet(s)
    ensures OverContainerAlphabet(CollapseSeparators(s))
    decreases |s|
  {
    if s != [] {
      var r := CollapseSeparators(s);
      var t := if IsSeparator(s[0]) then DropSeparators(s) else s[1..];
      if IsSeparator(s[0]) {
        DropSeparatorsSpec(s);
        assert forall i :: 0 <= i < |t| ==> t[i] == s[i + |s| - |t|];
      }
      CollapseSeparatorsAlphabet(t);
      assert forall i :: 1 <= i < |r| ==> r[i] == CollapseSeparators(t)[i - 1];
    }
  }

  lemma {:induction false} CollapseWithoutSeparators(a: string, b: string)
    requires forall i :: 0 <= i < |a| ==> !IsSeparator(a[i])
    ensures CollapseSeparators(a + b) == a + CollapseSeparators(b)
    decreases |a|
  {
    if a == [] {
      assert a + b == b;
    } else {
      assert (a + b)[1..] == a[1..] + b;
      CollapseWithoutSeparators(a[1..], b);
    }
  }

  lemma {:induction false} DropSeparatorRun(run: string, b: string)
    requires forall i :: 0 <= i < |run| ==> IsSeparator(run[i])
    requires b == [] || !IsSeparator(b[0])
    ensures DropSeparators(run + b) == b
    decreases |run|
  {
    if run == [] {
      assert run + b == b;
    } else {
      assert (run + b)[1..] == run[1..] + b;
      DropSeparatorRun(run[1..], b);
    }
  }

  lemma {:induction false} CollapseSeparatorRun(run: string, b: string)
    requires run != [] && forall i :: 0 <= i < |run| ==> IsSeparator(run[i])
    requires b == [] || !IsSeparator(b[0])
    ensures CollapseSeparators(run + b) == [SingleDashChar] + CollapseSeparators(b)
  {
    DropSeparatorRun(run, b);
    assert (run + b)[0] == run[0];
  }

  // ---------------------------------------------------------------------------
  // Trimming

  /** The ^[-] alternative removes one leading hyphen, which is all there can be after collapsing. */
  lemma {:induction false} LeadingDashDropped(c: string)
    requires NoDoubleDash(c) && NoUnderscore(c)
    ensures var u := if |c| > 0 && c[0] == '-' then c[1..] else c;
      && NoDoubleDash(u) && NoUnderscore(u)
      && (u == [] || u[0] != '-')
      && NonSeparators(u) == NonSeparators(c)
  {
    if |c| > 0 && c[0] == '-' {
      NoDoubleDashSlice(c, 1, |c|);
      assert c[1..|c|] == c[1..];
      if |c| > 1 {
        assert !DoubleDashAt(c, 0);
      }
      assert forall i :: 0 <= i < |c| - 1 ==> c[1..][i] == c[i + 1];
      assert NonSeparators(c) == NonSeparators(c[1..]);
    }
  }

  /** The [-]+$ alternative and trimEnd("-") remove only hyphens, and all trailing ones. */
  lemma {:induction false} TrailingDashesDropped(u: string)
    requires NoDoubleDash(u) && NoUnderscore(u) && (u == [] || u[0] != '-')
    ensures var t := TrimEnd(u, '-');
      && NoDoubleDash(t) && NoUnderscore(t)
      && (t != [] ==> t[0] != '-' && t[|t| - 1] != '-')
      && (u != [] ==> t != [])
      && NonSeparators(t) == NonSeparators(u)
  {
    var t := TrimEnd(u, '-');
    assert t == u[..|t|];
    NoDoubleDashSlice(u, 0, |t|);
    assert u == t + u[|t|..];
    NonSeparatorsAppend(t, u[|t|..]);
    NonSeparatorsEmpty(u[|t|..]);
  }

  /**
   * The collapsed and trimmed job ID: no "--", no "_", no hyphen at either end,
   * the same non-separator characters as the ID, and empty exactly when the ID
   * is made of separators only.
   */
  lemma {:induction false} SafeStringInvariants(id: string)
    ensures var t := SafeString(id);
      && NoDoubleDash(t) && NoUnderscore(t)
      && (t != [] ==> t[0] != '-' && t[|t| - 1] != '-')
      && NonSeparators(t) == NonSeparators(id)
      && (t == [] <==> forall i :: 0 <= i < |id| ==> IsSeparator(id[i]))
  {
    SafeStringShape(id);
    var t := SafeString(id);
    NonSeparatorsEmpty(id);
    NonSeparatorsEmpty(t);
    if t != [] {
      assert !IsSeparator(t[0]);
    }
  }

  lemma {:induction false} SafeStringShape(id: string)
    ensures var t := SafeString(id);
      && NoDoubleDash(t) && NoUnderscore(t)
      && (t != [] ==> t[0] != '-' && t[|t| - 1] != '-')
      && NonSeparators(t) == NonSeparators(id)
  {
    var c := CollapseSeparators(id);
    CollapseSeparatorsInvariants(id);
    LeadingDashDropped(c);
    var u := if |c| > 0 && c[0] == '-' then c[1..] else c;
    TrailingDashesDropped(u);
    assert TrimEnd(u, '-') == SafeString(id);
  }

  lemma {:induction false} SafeStringAlphabet(id: string)
    requires OverLowerJobIdAlphabet(id)
    ensures OverContainerAlphabet(SafeString(id))
  {
    var c := CollapseSeparators(id);
    CollapseSeparatorsAlphabet(id);
    var off := if |c| > 0 && c[0] == '-' then 1 else 0;
    var u := c[off..];
    var t := SafeString(id);
    assert t == u[..|t|];
    assert forall i :: 0 <= i < |t| ==> t[i] == c[i + off];
  }

  // ---------------------------------------------------------------------------
  // The munged job ID

  /** Truncating a collapsed and trimmed ID to 15 characters and trimming again. */
  lemma {:induction false} TruncatedSafeString(t: string)
    requires |t| > MaxJobIdLengthInMungedContainerName
    requires NoDoubleDash(t) && NoUnderscore(t) && t[0] != '-'
    ensures var m := TrimEnd(t[..MaxJobIdLengthInMungedContainerName], SingleDashChar);
      && 1 <= |m| <= MaxJobIdLengthInMungedContainerName
      && m[0] != '-' && m[|m| - 1] != '-'
      && NoDoubleDash(m) && NoUnderscore(m)
      && m <= t
  {
    var p := t[..MaxJobIdLengthInMungedContainerName];
    NoDoubleDashSlice(t, 0, MaxJobIdLengthInMungedContainerName);
    TrailingDashesDropped(p);
  }

  /**
   * A separator right after the 14th character becomes the hyphen at position 15,
   * and the truncation drops it: the body is the first 14 characters.
   */
  lemma {:induction false} CutAtSeparator(a: string, b: string)
    requires |a| == MaxJobIdLengthInMungedContainerName - 1
    requires forall i :: 0 <= i < |a| ==> IsLowerAlnum(a[i])
    requires b != [] && forall i :: 0 <= i < |b| ==> IsLowerAlnum(b[i])
    ensures MungedJobId(a + "_" + b) == a
  {
    var c := a + "-" + b;
    JoinedSafeString(a, b);
    assert c[..MaxJobIdLengthInMungedContainerName] == a + "-";
    assert MungedJobId(a + "_" + b) == TrimEnd(a + "-", SingleDashChar);
    assert (a + "-")[..|a|] == a;
    assert TrimEnd(a + "-", '-') == TrimEnd(a, '-');
    assert a[|a| - 1] != '-';
  }

  lemma {:induction false} JoinedSafeString(a: string, b: string)
    requires a != [] && forall i :: 0 <= i < |a| ==> IsLowerAlnum(a[i])
    requires b != [] && forall i :: 0 <= i < |b| ==> IsLowerAlnum(b[i])
    ensures SafeString(a + "_" + b) == a + "-" + b
  {
    CollapseOneUnderscore(a, b);
    var c := a + "-" + b;
    assert c[0] == a[0] && c[|c| - 1] == b[|b| - 1];
    assert TrimStartAndEnd(c) == TrimEnd(c, '-');
  }

  /** The body between "job-" and the hash on the fallback path. */
  lemma {:induction false} MungedJobIdInvariants(id: string)
    ensures var m := MungedJobId(id);
      && 1 <= |m| <= MaxJobIdLengthInMungedContainerName
      && m[0] != '-' && m[|m| - 1] != '-'
      && NoDoubleDash(m)
      && NoUnderscore(m)
  {
    var t := SafeString(id);
    var m := MungedJobId(id);
    SafeStringShape(id);
    if |t| > MaxJobIdLengthInMungedContainerName {
      TruncatedSafeString(t);
      assert m == TrimEnd(t[..MaxJobIdLengthInMungedContainerName], SingleDashChar);
    } else if t == [] {
      assert m == "job";
      assert !DoubleDashAt(m, 0) && !DoubleDashAt(m, 1);
    } else {
      assert m == t;
    }
  }

  /**
   * Which characters the body keeps: the collapsed and trimmed ID itself when it
   * fits in 15 characters, "job" when the ID is all separators, and otherwise a
   * prefix of the ID's non-separator characters.
   */
  lemma {:induction false} MungedJobIdContent(id: string)
    ensures var m := MungedJobId(id);
      && (0 < |SafeString(id)| <= MaxJobIdLengthInMungedContainerName ==> m == SafeString(id))
      && ((forall i :: 0 <= i < |id| ==> IsSeparator(id[i])) ==> m == EmptyMungeReplacement)
      && (SafeString(id) != [] ==> NonSeparators(m) <= NonSeparators(id))
  {
    var t := SafeString(id);
    SafeStringInvariants(id);
    if |t| > MaxJobIdLengthInMungedContainerName {
      TruncatedSafeString(t);
      NonSeparatorsPrefix(MungedJobId(id), t);
    }
  }

  /** Over the job-ID alphabet, the munged body uses only container-name characters. */
  lemma {:induction false} MungedJobIdAlphabet(id: string)
    requires OverLowerJobIdAlphabet(id)
    ensures OverContainerAlphabet(MungedJobId(id))
  {
    var t := SafeString(id);
    SafeStringAlphabet(id);
    var m := MungedJobId(id);
    if |t| > MaxJobIdLengthInMungedContainerName {
      assert m <= t;
      assert forall i :: 0 <= i < |m| ==> m[i] == t[i];
    } else if t == [] {
      assert m == "job";
    }
  }

  // ---------------------------------------------------------------------------
  // The two paths

  /**
   * The name is "job-" + the lower-cased ID exactly when that ID passes the three
   * checks, and otherwise "job-" + the munged name of the lower-cased ID.
   */
  lemma {:induction false} SafeContainerNameShape(jobId: string, sha1: Sha1)
    requires jobId != []
    ensures var id := ToLower(jobId);
      GetSafeContainerName(Some(jobId), sha1)
        == Success(JobPrefix + if IsDirectlyUsable(id) then id else MungeToContainerName(id, sha1))
  {
  }

  /** The munged name is the body, a hyphen, and the 40-digit hash of that same ID. */
  lemma {:induction false} MungeShape(id: string, sha1: Sha1)
    ensures var name := MungeToContainerName(id, sha1);
      && name == MungedJobId(id) + "-" + JobIdHash(id, sha1)
      && |name| == |MungedJobId(id)| + 1 + HashTextLength
      && name[|name| - HashTextLength..] == BytesHex(sha1(id))
  {
  }

  /** An ID longer than 59 characters never takes the fast path. */
  lemma {:induction false} LongJobIdFallsBack(jobId: string, sha1: Sha1)
    requires |jobId| > MaxUsableJobIdLength
    ensures GetSafeContainerName(Some(jobId), sha1) == Success(JobPrefix + MungeToContainerName(ToLower(jobId), sha1))
  {
    SafeContainerNameShape(jobId, sha1);
  }

  /**
   * For a lower-cased ID, the three checks pass exactly when "job-" + ID is a
   * container name: at most 63 characters, lowercase letters, digits and
   * hyphens only, no hyphen after the prefix, no "--" and no trailing hyphen.
   */
  lemma {:induction false} FastPathWellFormed(id: string)
    requires forall i :: 0 <= i < |id| ==> !IsUpper(id[i])
    ensures IsDirectlyUsable(id)
        <==> MeetsLengthAndHyphenRules(JobPrefix + id) && OverContainerAlphabet(JobPrefix + id)
  {
    var name := JobPrefix + id;
    assert forall i :: 0 <= i < |id| ==> name[i + 4] == id[i];
    ContainsDoubleDash(id);
    if IsDirectlyUsable(id) {
      PrefixHasNoDoubleDash();
      NoDoubleDashConcat(JobPrefix, id);
    }
    if MeetsLengthAndHyphenRules(name) && OverContainerAlphabet(name) {
      assert forall i :: 0 <= i < |id| ==> IsContainerNameChar(id[i]) by {
        forall i | 0 <= i < |id| ensures IsContainerNameChar(id[i]) {
          assert IsContainerNameChar(name[i + 4]);
        }
      }
      assert MatchesPermittedPattern(id);
      assert NoDoubleDash(id) by {
        forall i | 0 <= i < |id| - 1 ensures !DoubleDashAt(id, i) {
          assert !DoubleDashAt(name, i + 4);
        }
      }
    }
  }

  /** "job-" + body + "-" + hash meets the rules for any body and hash of the right shape. */
  lemma {:induction false} AssembledNameWellFormed(m: string, h: string)
    requires 1 <= |m| <= MaxJobIdLengthInMungedContainerName
    requires m[0] != '-' && m[|m| - 1] != '-' && NoDoubleDash(m)
    requires |h| == HashTextLength && forall i :: 0 <= i < |h| ==> IsHexChar(h[i])
    ensures MeetsLengthAndHyphenRules(JobPrefix + m + "-" + h)
  {
    PrefixHasNoDoubleDash();
    assert NoDoubleDash(h) by {
      forall i | 0 <= i < |h| - 1 ensures !DoubleDashAt(h, i) {
        assert IsHexChar(h[i]);
      }
    }
    NoDoubleDashConcat(JobPrefix, m);
    NoDoubleDashConcat(JobPrefix + m, "-");
    assert IsHexChar(h[0]);
    NoDoubleDashConcat(JobPrefix + m + "-", h);
    assert IsHexChar(h[|h| - 1]);
  }

  lemma {:induction false} FallbackWellFormed(id: string, sha1: Sha1)
    ensures MeetsLengthAndHyphenRules(JobPrefix + MungeToContainerName(id, sha1))
  {
    var m := MungedJobId(id);
    var h := JobIdHash(id, sha1);
    MungeShape(id, sha1);
    MungedJobIdInvariants(id);
    AssembledNameWellFormed(m, h);
    assert JobPrefix + (m + "-" + h) == JobPrefix + m + "-" + h;
  }

  lemma {:induction false} LowerCharFacts(c: char)
    ensures !IsUpper(ToLowerChar(c))
    ensures IsJobIdChar(c) ==> IsLowerAlnum(ToLowerChar(c)) || IsSeparator(ToLowerChar(c))
    ensures ToLowerChar(ToUpperChar(c)) == ToLowerChar(c)
  {
  }

  /**
   * Every non-empty job ID, whatever its characters, gets a name of at most 63
   * characters that starts with "job-" and a non-hyphen, has no "--" and does
   * not end in "-".
   */
  lemma {:induction false} SafeContainerNameWellFormed(jobId: string, sha1: Sha1)
    requires jobId != []
    ensures GetSafeContainerName(Some(jobId), sha1).Success?
    ensures MeetsLengthAndHyphenRules(GetSafeContainerName(Some(jobId), sha1).value)
  {
    var id := ToLower(jobId);
    SafeContainerNameShape(jobId, sha1);
    if IsDirectlyUsable(id) {
      forall i | 0 <= i < |id| ensures !IsUpper(id[i]) {
        LowerCharFacts(jobId[i]);
      }
      FastPathWellFormed(id);
    } else {
      FallbackWellFormed(id, sha1);
    }
  }

  /**
   * A job ID over the permitted alphabet (letters, digits, hyphens, underscores)
   * gets a name made of lowercase letters, digits and hyphens only.
   */
  lemma {:induction false} SafeContainerNameAlphabet(jobId: string, sha1: Sha1)
    requires jobId != []
    requires forall i :: 0 <= i < |jobId| ==> IsJobIdChar(jobId[i])
    ensures GetSafeContainerName(Some(jobId), sha1).Success?
    ensures OverContainerAlphabet(GetSafeContainerName(Some(jobId), sha1).value)
  {
    var id := ToLower(jobId);
    forall i | 0 <= i < |id| ensures !IsUpper(id[i]) && (IsLowerAlnum(id[i]) || IsSeparator(id[i])) {
      LowerCharFacts(jobId[i]);
    }
    SafeContainerNameShape(jobId, sha1);
    if IsDirectlyUsable(id) {
      FastPathWellFormed(id);
    } else {
      FallbackAlphabet(id, sha1);
    }
  }

  lemma {:induction false} FallbackAlphabet(id: string, sha1: Sha1)
    requires OverLowerJobIdAlphabet(id)
    ensures OverContainerAlphabet(JobPrefix + MungeToContainerName(id, sha1))
  {
    var m := MungedJobId(id);
    var h := JobIdHash(id, sha1);
    MungeShape(id, sha1);
    MungedJobIdAlphabet(id);
    assert JobPrefix + (m + "-" + h) == JobPrefix + m + "-" + h;
    assert OverContainerAlphabet(h) by {
      forall i | 0 <= i < |h| ensures IsContainerNameChar(h[i]) {
        assert IsHexChar(h[i]);
      }
    }
    assert OverContainerAlphabet(JobPrefix);
    assert OverContainerAlphabet("-");
    AlphabetConcat(JobPrefix, m);
    AlphabetConcat(JobPrefix + m, "-");
    AlphabetConcat(JobPrefix + m + "-", h);
  }

  lemma {:induction false} AlphabetConcat(a: string, b: string)
    requires OverContainerAlphabet(a) && OverContainerAlphabet(b)
    ensures OverContainerAlphabet(a + b)
  {
    assert forall i :: |a| <= i < |a + b| ==> (a + b)[i] == b[i - |a|];
  }

  // ---------------------------------------------------------------------------
  // Case

  /** The name depends on the job ID only through its lower-cased form. */
  lemma {:induction false} SameNameUpToCase(a: string, b: string, sha1: Sha1)
    requires ToLower(a) == ToLower(b)
    ensures GetSafeContainerName(Some(a), sha1) == GetSafeContainerName(Some(b), sha1)
  {
  }

  /** Upper-casing a job ID does not change its container name. */
  lemma {:induction false} UpperCaseSameName(jobId: string, sha1: Sha1)
    ensures GetSafeContainerName(Some(ToUpper(jobId)), sha1) == GetSafeContainerName(Some(jobId), sha1)
  {
    forall i | 0 <= i < |jobId| ensures ToLower(ToUpper(jobId))[i] == ToLower(jobId)[i] {
      LowerCharFacts(jobId[i]);
    }
    assert ToLower(ToUpper(jobId)) == ToLower(jobId);
    SameNameUpToCase(ToUpper(jobId), jobId, sha1);
  }

  // ---------------------------------------------------------------------------
  // Distinct job IDs

  /** Two fast-path names are equal only for the same lower-cased ID. */
  lemma {:induction false} FastPathNamesDistinct(a: string, b: string, sha1: Sha1)
    requires a != [] && b != []
    requires IsDirectlyUsable(ToLower(a)) && IsDirectlyUsable(ToLower(b))
    requires GetSafeContainerName(Some(a), sha1) == GetSafeContainerName(Some(b), sha1)
    ensures ToLower(a) == ToLower(b)
  {
    SafeContainerNameShape(a, sha1);
    SafeContainerNameShape(b, sha1);
    var n := GetSafeContainerName(Some(a), sha1).value;
    assert ToLower(a) == n[4..] == ToLower(b);
  }

  /** Two fallback names are equal only if the digests of the lower-cased IDs are. */
  lemma {:induction false} FallbackNamesShareDigest(a: string, b: string, sha1: Sha1)
    requires a != [] && b != []
    requires !IsDirectlyUsable(ToLower(a)) && !IsDirectlyUsable(ToLower(b))
    requires GetSafeContainerName(Some(a), sha1) == GetSafeContainerName(Some(b), sha1)
    ensures sha1(ToLower(a)) == sha1(ToLower(b))
  {
    var la, lb := ToLower(a), ToLower(b);
    SafeContainerNameShape(a, sha1);
    SafeContainerNameShape(b, sha1);
    var na, nb := MungeToContainerName(la, sha1), MungeToContainerName(lb, sha1);
    assert JobPrefix + na == JobPrefix + nb;
    assert na == (JobPrefix + na)[4..] == nb;
    MungeShape(la, sha1);
    MungeShape(lb, sha1);
    BytesHexInjective(sha1(la), sha1(lb));
  }

  /** A string with no upper-case letter is its own lower-case form. */
  lemma {:induction false} ToLowerWithoutUpper(s: string)
    requires forall i :: 0 <= i < |s| ==> !IsUpper(s[i])
    ensures ToLower(s) == s
  {
    assert forall i :: 0 <= i < |s| ==> ToLower(s)[i] == s[i];
  }

  /** An ID of at most 59 ASCII letters and digits is used as it is, lower-cased. */
  lemma {:induction false} AlnumIdUsedAsIs(jobId: string, sha1: Sha1)
    requires 1 <= |jobId| <= MaxUsableJobIdLength
    requires forall i :: 0 <= i < |jobId| ==> IsAsciiAlnum(jobId[i])
    ensures GetSafeContainerName(Some(jobId), sha1) == Success(JobPrefix + ToLower(jobId))
  {
    var id := ToLower(jobId);
    assert forall i :: 0 <= i < |id| ==> IsLowerAlnum(id[i]) by {
      forall i | 0 <= i < |id| ensures IsLowerAlnum(id[i]) {
        LowerCharFacts(jobId[i]);
      }
    }
    ContainsDoubleDash(id);
    assert NoDoubleDash(id) by {
      forall i | 0 <= i < |id| - 1 ensures !DoubleDashAt(id, i) {
        assert IsLowerAlnum(id[i]);
      }
    }
    assert IsLowerAlnum(id[|id| - 1]);
    SafeContainerNameShape(jobId, sha1);
  }

  /** The fallback path, exactly: the body and the hash both come from the lower-cased ID. */
  lemma {:induction false} FallbackName(jobId: string, sha1: Sha1)
    requires jobId != [] && !IsDirectlyUsable(ToLower(jobId))
    ensures var id := ToLower(jobId);
      GetSafeContainerName(Some(jobId), sha1) == Success(JobPrefix + MungedJobId(id) + "-" + JobIdHash(id, sha1))
  {
    var id := ToLower(jobId);
    SafeContainerNameShape(jobId, sha1);
    MungeShape(id, sha1);
    assert JobPrefix + (MungedJobId(id) + "-" + JobIdHash(id, sha1)) == JobPrefix + MungedJobId(id) + "-" + JobIdHash(id, sha1);
  }

  lemma {:induction false} CollapseWithoutAnySeparator(b: string)
    requires forall i :: 0 <= i < |b| ==> !IsSeparator(b[i])
    ensures CollapseSeparators(b) == b
  {
    CollapseWithoutSeparators(b, []);
    assert b + [] == b;
  }

  /** One underscore between two separator-free parts becomes one hyphen. */
  lemma {:induction false} CollapseOneUnderscore(a: string, b: string)
    requires forall i :: 0 <= i < |a| ==> !IsSeparator(a[i])
    requires forall i :: 0 <= i < |b| ==> !IsSeparator(b[i])
    ensures CollapseSeparators(a + "_" + b) == a + "-" + b
  {
    var c := "_" + b;
    assert a + "_" + b == a + c;
    CollapseWithoutSeparators(a, c);
    assert b == [] || !IsSeparator(b[0]);
    CollapseSeparatorRun("_", b);
    assert CollapseSeparators(c) == "-" + CollapseSeparators(b);
    CollapseWithoutAnySeparator(b);
    assert a + ("-" + b) == a + "-" + b;
  }

  /** When the collapsed ID has no hyphen at either end and fits, it is the body. */
  lemma {:induction false} ShortCollapsedIsBody(id: string)
    requires var c := CollapseSeparators(id);
      0 < |c| <= MaxJobIdLengthInMungedContainerName && c[0] != '-' && c[|c| - 1] != '-'
    ensures MungedJobId(id) == CollapseSeparators(id)
  {
  }

  /**
   * A job ID of 14 lowercase letters or digits, an underscore and more of them
   * takes the fallback, and its body is the first 14 characters: the hyphen the
   * underscore became is cut off with the rest.
   */
  lemma {:induction false} TruncationAtSeparator(a: string, b: string, sha1: Sha1)
    requires |a| == MaxJobIdLengthInMungedContainerName - 1
    requires forall i :: 0 <= i < |a| ==> IsLowerAlnum(a[i])
    requires b != [] && forall i :: 0 <= i < |b| ==> IsLowerAlnum(b[i])
    ensures var id := a + "_" + b;
      GetSafeContainerName(Some(id), sha1) == Success(JobPrefix + a + "-" + JobIdHash(id, sha1))
  {
    var id := a + "_" + b;
    assert forall i :: 0 <= i < |id| ==> !IsUpper(id[i]) by {
      forall i | 0 <= i < |id| ensures !IsUpper(id[i]) {
        if i < |a| { assert id[i] == a[i]; } else if i > |a| { assert id[i] == b[i - |a| - 1]; }
      }
    }
    ToLowerWithoutUpper(id);
    assert !IsAsciiAlnum(id[|a|]);
    CutAtSeparator(a, b);
    FallbackName(id, sha1);
  }

  /**
   * When the munged name of an ID that takes the fallback passes the fast-path
   * checks itself, that munged name, used as a job ID, gets the same container.
   */
  lemma {:induction false} FallbackCollision(jobId: string, sha1: Sha1)
    requires jobId != [] && !IsDirectlyUsable(ToLower(jobId))
    requires var other := MungeToContainerName(ToLower(jobId), sha1);
      ToLower(other) == other && IsDirectlyUsable(other)
    ensures var other := MungeToContainerName(ToLower(jobId), sha1);
      GetSafeContainerName(Some(other), sha1) == GetSafeContainerName(Some(jobId), sha1)
  {
    var other := MungeToContainerName(ToLower(jobId), sha1);
    SafeContainerNameShape(other, sha1);
    SafeContainerNameShape(jobId, sha1);
  }
}
