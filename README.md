# Job output container names

A Batch job keeps its output in an Azure Blob Storage container. The container's
name is derived from the job ID by `StorageUtils.getSafeContainerName`. This
project models that derivation in Dafny and proves what it guarantees:

- An absent or empty job ID is rejected. Every other ID gets a name.
- The ID is lower-cased first.
- **Fast path.** When `"job-"` + the lower-cased ID is already a legal container
  name (at most 59 characters, matching `^[a-z0-9][a-z0-9-]*$`, no `--`, no
  trailing `-`), that is the name.
- **Fallback.** Otherwise the name is `"job-"` + a munged body + `"-"` + the
  40-digit hex rendering of the SHA-1 digest of the lower-cased ID. The body is
  built in four steps:
  - runs of `-`/`_` become one `-`;
  - one leading `-` and all trailing `-` are removed;
  - an empty result becomes `"job"`;
  - a result longer than 15 characters is cut to 15, and any trailing `-` that
    cut exposes is removed.
- `_hex` renders the digest buffer one big-endian 32-bit word at a time, each
  word zero-padded to eight lowercase hex digits.
- `isClassic` tests a storage account ID for the classic-storage provider
  segment.

The project has five modules:

- `Wrappers` (`wrappers.dfy`): `Option` and `Result`.
- `HexEncoding` (`hex_encoding.dfy`): `_hex`, written as a method with a loop.
  It is proved equal to a recursive specification function, and that function
  is proved equal to a byte-by-byte reference rendering.
- `StorageUtils` (`storage_utils.dfy`): the constants, `isClassic`,
  `getSafeContainerName`, `_getUnprefixedSafeContainerName` and
  `_mungeToContainerName`. These are pure functions, as in the source: the
  Promises are flattened.
- `ContainerNameProperties` (`container_name_properties.dfy`): the guarantees.
  They cover the shape of each path, the Azure naming rules, case-insensitivity,
  the invariants of the munged body, and how far distinct IDs get distinct names.
- `ContainerNameExamples` (`container_name_examples.dfy`): concrete IDs, and a
  pair of distinct IDs that share a container.

The SHA-1 digest is the parameter `sha1: Sha1`, an arbitrary function from
strings to 20-byte sequences. Every property holds for every such function. A
JavaScript `null` or `undefined` job ID is `None`.

### Behaviour worth knowing

- **Invalid characters are kept.** The munge collapses and trims hyphens and
  underscores, and nothing else: characters outside `[a-z0-9_-]` pass into the
  fallback body unchanged (app/utils/storage-utils.ts:76-88).
  `IllegalCharactersExample` shows `"My_Job!!"` getting the body `"my-job!!"`.
  The naming-rule guarantees are therefore proved in two parts.
  `SafeContainerNameWellFormed` covers length, prefix and hyphens, for every ID.
  `SafeContainerNameAlphabet` covers the alphabet, only for IDs over
  `[A-Za-z0-9_-]`.
- **The two paths can give the same name.**
  - `"ab_c"` takes the fallback and gets `"job-ab-c-"` + hex(sha1(`"ab_c"`)).
  - The 45-character ID `"ab-c-"` + hex(sha1(`"ab_c"`)) is a legal job ID. It
    passes the checks of app/utils/storage-utils.ts:55-69, takes the fast path
    and gets the same name.

  `FastPathMeetsFallback` and `AbCCollision` prove this for every digest
  function, and `FallbackCollision` states the general condition. Within one
  path, names are distinct: on the fast path outright (`FastPathNamesDistinct`),
  on the fallback path up to digest collisions (`FallbackNamesShareDigest`).

## Model

| member | source | states |
|---|---|---|
| HexEncoding.Hex | app/utils/storage-utils.ts:103-118 | The loop returns the join of one zero-padded 8-digit word per 4 bytes, or RangeError when the byte length is not a multiple of 4. This is exactly `HexOf(buffer)`. |
| HexEncoding.HexOfSpec | app/utils/storage-utils.ts:103-118 | `_hex` succeeds exactly when the length is a multiple of 4. Its output is then two lowercase hex digits per byte, in buffer order, 2 × byteLength long, and uses only `0-9a-f`. |
| HexEncoding.WordsHexIsBytesHex | app/utils/storage-utils.ts:108-117 | Joining the padded big-endian words gives the same text as rendering the bytes one by one. |
| HexEncoding.PaddedWordBytes | app/utils/storage-utils.ts:109-111 | The padded entry for the word at offset i is the two-digit renderings of bytes i..i+3, high byte first. |
| HexEncoding.PaddedWordFixed | app/utils/storage-utils.ts:106-111 | For a 32-bit value, the last 8 characters of `"00000000"` + `toString(16)` are its 8-digit hex rendering: the padding is never too short or too long. |
| HexEncoding.ToBase16Fixed | app/utils/storage-utils.ts:110-111 | `toString(16)` of a value below 16^n has at most n digits, and left-padding it with zeros to n gives the n-digit rendering. |
| HexEncoding.ToBase16 | app/utils/storage-utils.ts:110 | `toString(16)` prints at least one digit, only lowercase hex digits, and no leading zero once the value is at least 16. |
| HexEncoding.GetUint32 | app/utils/storage-utils.ts:109 | The big-endian word read at an offset with four bytes left is below 2^32. |
| HexEncoding.FixedHexSplit | app/utils/storage-utils.ts:109-110 | Appending a byte to a value (x·256 + y) appends that byte's two digits to its rendering. |
| HexEncoding.BytesHexInjective | app/utils/storage-utils.ts:103-118 | Distinct buffers have distinct hex renderings. |
| HexEncoding.HexOfInjective | app/utils/storage-utils.ts:103-118 | Two whole-word buffers that `_hex` renders alike are the same buffer. |
| StorageUtils.GetSafeContainerName | app/utils/storage-utils.ts:23-30 | The result is a rejection exactly for a null, undefined or empty ID, and the rejection carries the message of line 25. Every other ID succeeds: there is no other failure path. Every name starts with `"job-"`. |
| StorageUtils.ToLower | app/utils/storage-utils.ts:51 | Lower-casing keeps the length and maps every character through ASCII lower-casing. |
| StorageUtils.Contains | app/utils/storage-utils.ts:65 | `contains` / `indexOf(...) !== -1` is true exactly when the pattern occurs at some index. |
| StorageUtils.ContainsDoubleDash | app/utils/storage-utils.ts:65 | `indexOf("--") !== -1` holds exactly when two consecutive hyphens occur somewhere. |
| StorageUtils.IsClassic | app/utils/storage-utils.ts:32-34 | True exactly when `"Microsoft.ClassicStorage/storageAccounts"` occurs in the account ID. |
| StorageUtils.TrimEnd | app/utils/storage-utils.ts:83 | `trimEnd(c)` returns a prefix of its input that does not end in c, and removes only occurrences of c. |
| StorageUtils.JobIdHash | app/utils/storage-utils.ts:92-101 | The hash text is 40 characters: the byte-by-byte hex rendering of the 20-byte digest. |
| ContainerNameProperties.SafeContainerNameShape | app/utils/storage-utils.ts:28-69 | For every non-empty ID the two paths are exclusive and exhaustive: the name is exactly `"job-"` + the lower-cased ID when that ID passes the three checks, and `"job-"` + its munged name otherwise. |
| ContainerNameProperties.FallbackName | app/utils/storage-utils.ts:73-89 | On the fallback path, the name is `"job-"` + body + `"-"` + hash, with both the body and the hash taken from the lower-cased ID. |
| ContainerNameProperties.MungeShape | app/utils/storage-utils.ts:88 | The munged name is body + `"-"` + hash. It is 41 characters longer than the body, and its last 40 characters render the digest. |
| ContainerNameProperties.LongJobIdFallsBack | app/utils/storage-utils.ts:55-57 | An ID longer than 59 characters always takes the fallback. |
| ContainerNameProperties.AlnumIdUsedAsIs | app/utils/storage-utils.ts:51-69 | An ID of 1 to 59 ASCII letters and digits is used lower-cased, as it is. |
| ContainerNameProperties.DropSeparatorsSpec | app/utils/storage-utils.ts:40 | Skipping a separator run removes exactly the maximal run of `-`/`_` at the front. |
| ContainerNameProperties.CollapseSeparatorsInvariants | app/utils/storage-utils.ts:76 | The `/[_-]{1,}/g` → `"-"` replacement is empty exactly for the empty ID, and starts with `-` exactly when the ID starts with a separator. It leaves no `--` and no `_`, and keeps every other character in order. |
| ContainerNameProperties.CollapseSeparatorsAlphabet | app/utils/storage-utils.ts:76 | Over `[a-z0-9_-]`, the collapse yields only `[a-z0-9-]`. |
| ContainerNameProperties.CollapseWithoutSeparators | app/utils/storage-utils.ts:76 | A separator-free prefix passes through the collapse unchanged. |
| ContainerNameProperties.CollapseSeparatorRun | app/utils/storage-utils.ts:76 | A whole run of separators, such as `"_-_"`, becomes one hyphen. |
| ContainerNameProperties.CollapseOneUnderscore | app/utils/storage-utils.ts:76 | `a_b` becomes `a-b` when a and b contain no separator. |
| ContainerNameProperties.LeadingDashDropped | app/utils/storage-utils.ts:77 | The `^[-]` alternative leaves a string that starts with no hyphen, and keeps the other invariants of the collapsed string. |
| ContainerNameProperties.TrailingDashesDropped | app/utils/storage-utils.ts:77 | The `[-]+$` alternative removes only hyphens, leaves no hyphen at either end, and empties nothing that was non-empty. |
| ContainerNameProperties.SafeStringInvariants | app/utils/storage-utils.ts:76-77 | The collapsed and trimmed string has no `--`, no `_` and no hyphen at either end. It keeps the ID's non-separator characters, and is empty exactly when the ID is all separators. |
| ContainerNameProperties.SafeStringAlphabet | app/utils/storage-utils.ts:76-77 | Over `[a-z0-9_-]`, the collapsed and trimmed string uses only `[a-z0-9-]`. |
| ContainerNameProperties.JoinedSafeString | app/utils/storage-utils.ts:76-77 | `a_b` with a and b alphanumeric collapses and trims to `a-b`. |
| ContainerNameProperties.TruncatedSafeString | app/utils/storage-utils.ts:79-83 | Cutting a collapsed, trimmed string to 15 characters and trimming trailing hyphens leaves a non-empty prefix of it of at most 15 characters, with no hyphen at either end, no `--` and no `_`. |
| ContainerNameProperties.CutAtSeparator | app/utils/storage-utils.ts:79-83 | When the cut at 15 lands just after a hyphen, that hyphen is removed and the body is the first 14 characters. |
| ContainerNameProperties.MungedJobIdInvariants | app/utils/storage-utils.ts:79-86 | The body is 1 to 15 characters long, has no hyphen at either end, and contains no `--` and no `_`. |
| ContainerNameProperties.MungedJobIdContent | app/utils/storage-utils.ts:79-86 | A collapsed and trimmed string of 1 to 15 characters is the body as it is. An ID of separators only gets `"job"`. Otherwise the body's non-separator characters are a prefix of the ID's. |
| ContainerNameProperties.MungedJobIdAlphabet | app/utils/storage-utils.ts:79-86 | Over `[a-z0-9_-]`, the body uses only `[a-z0-9-]`. |
| ContainerNameProperties.ShortCollapsedIsBody | app/utils/storage-utils.ts:79-86 | A collapse of 1 to 15 characters with no hyphen at either end is the body. |
| ContainerNameProperties.TruncationAtSeparator | app/utils/storage-utils.ts:73-89 | For 14 alphanumerics + `_` + more alphanumerics, the name is `"job-"` + the first 14 characters + `"-"` + hash: the cut drops the hyphen that the underscore became. |
| ContainerNameProperties.FastPathWellFormed | app/utils/storage-utils.ts:55-69 | For a lower-cased ID, the three checks pass if and only if `"job-"` + the ID is a valid container name: at most 63 characters, only `[a-z0-9-]`, no hyphen after the prefix, no `--` and no trailing `-`. So the fast path is taken exactly when prepending `"job-"` gives a valid name, as the doc-comment at line 9 promises. |
| ContainerNameProperties.AssembledNameWellFormed | app/utils/storage-utils.ts:79-88 | `"job-"` + a 1-to-15-character body + `"-"` + 40 hex digits is at most 63 characters. It starts with `"job-"` and a non-hyphen, has no `--`, and does not end in `-`. |
| ContainerNameProperties.FallbackWellFormed | app/utils/storage-utils.ts:73-89 | Every fallback name meets the length, prefix and hyphen rules (at most 63 characters, `"job-"` then a non-hyphen, no `--`, no trailing `-`), whatever the characters of the ID. The alphabet rule holds only for job-ID characters; see `FallbackAlphabet`. |
| ContainerNameProperties.FallbackAlphabet | app/utils/storage-utils.ts:73-89 | Over `[a-z0-9_-]`, a fallback name uses only `[a-z0-9-]`. |
| ContainerNameProperties.SafeContainerNameWellFormed | app/utils/storage-utils.ts:4-22 | Every non-empty ID gets a name that meets the length, prefix and hyphen rules: at most 63 characters, starting with `"job-"` and a non-hyphen, no `--`, and no trailing `-`. |
| ContainerNameProperties.SafeContainerNameAlphabet | app/utils/storage-utils.ts:6-18 | An ID over `[A-Za-z0-9_-]` gets a name of lowercase letters, digits and hyphens only. |
| ContainerNameProperties.SameNameUpToCase | app/utils/storage-utils.ts:47-51 | IDs with the same lower-cased form get the same name. |
| ContainerNameProperties.UpperCaseSameName | app/utils/storage-utils.ts:47-51 | Upper-casing an ID does not change its name. |
| ContainerNameProperties.ToLowerWithoutUpper | app/utils/storage-utils.ts:51 | Lower-casing leaves a string with no upper-case letter unchanged. |
| ContainerNameProperties.LowerCharFacts | app/utils/storage-utils.ts:51 | A lower-cased character is never upper case, and a job-ID character stays in `[a-z0-9_-]`. |
| ContainerNameProperties.FastPathNamesDistinct | app/utils/storage-utils.ts:46-71 | Two fast-path IDs share a name only when their lower-cased forms are equal. |
| ContainerNameProperties.FallbackNamesShareDigest | app/utils/storage-utils.ts:74-88 | Two fallback IDs share a name only when their lower-cased forms have the same digest. |
| ContainerNameProperties.FallbackCollision | app/utils/storage-utils.ts:55-88 | When an ID's munged name itself passes the fast-path checks, that munged name, used as an ID, gets the same container as the original ID. |
| ContainerNameExamples.DashedHexIsDirectlyUsable | app/utils/storage-utils.ts:59-69 | `"ab-c-"` followed by 40 hex digits passes all three fast-path checks. |
| ContainerNameExamples.AbCFallsBack | app/utils/storage-utils.ts:59-86 | `"ab_c"` fails the pattern and gets the body `"ab-c"`. |
| ContainerNameExamples.FastPathMeetsFallback | app/utils/storage-utils.ts:55-88 | A fallback ID with body `"ab-c"` and the different ID `"ab-c-"` + its hash share a container, for any digest function. |
| ContainerNameExamples.AbCCollision | app/utils/storage-utils.ts:55-88 | `"ab_c"` and `"ab-c-"` + hash(`"ab_c"`) share a container. |
| ContainerNameExamples.FastPathExample | app/utils/storage-utils.ts:51-69 | `"MyJob"` gets `"job-myjob"`. |
| ContainerNameExamples.MyJobBangsFallsBack | app/utils/storage-utils.ts:59-86 | `"My_Job!!"` lower-cases to `"my_job!!"`, fails the pattern, and gets the body `"my-job!!"`. |
| ContainerNameExamples.IllegalCharactersExample | app/utils/storage-utils.ts:73-89 | `"My_Job!!"` gets `"job-my-job!!-"` + the hash of `"my_job!!"`: invalid characters are kept. |
| ContainerNameExamples.SeparatorsOnlyName | app/utils/storage-utils.ts:84-85 | An ID made only of `-` and `_` gets `"job-job-"` + its hash. |
| ContainerNameExamples.IsClassicExample | app/utils/storage-utils.ts:32-34 | An account ID containing the classic provider segment is classic. `"Microsoft.Storage/storageAccounts"` is not. |

## Left out

- `_getJobIdHash` (app/utils/storage-utils.ts:92-101) computes SHA-1 through the browser's WebCrypto and `SharedKeyUtils.toSupportedArray`, which is not part of this model. It is the parameter `sha1`: any function returning 20 bytes, with the string-to-bytes encoding folded in. No property depends on which function it is.
- The Promises of `getSafeContainerName`, `_getUnprefixedSafeContainerName`, `_mungeToContainerName` and `_getJobIdHash`: no logic, only sequencing. They are flattened into plain functions, and a rejected Promise is a `Failure`.
- `toLowerCase` and `toUpperCase` are ASCII-only. Non-ASCII case mapping is not modelled; the documented job-ID alphabet is ASCII.
- `String.prototype.trimEnd(char)` and `String.prototype.contains` are extensions defined outside this file, and they are not part of this model. `trimEnd(c)` is taken to remove every trailing c, and `contains` to be a substring test.
- Strings are sequences of Unicode scalar values, not of UTF-16 code units. The source's `.length`, `substr(0, 15)` and `charAt(length - 1)` count code units. For characters outside the Basic Multilingual Plane, the model's lengths, its truncation at 15 and the lone surrogates a cut can leave differ from the program's. All the length bounds here are stated in scalar values.
- `null` and `undefined` are both `None`, since `!jobId` treats them alike.
- The user-interface components, services and data shapes of the repository are not part of this model: they hold no part of the name derivation.
