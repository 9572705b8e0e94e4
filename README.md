# Plate licence registry

A model of `PlateLicense`, a registry of vehicle licence plates. A registry
keeps two pieces of state in step:

- `licenses`, the records `{license, registered, status}` in registration order;
- `licenseSet`, the set of their codes, used for membership checks.

A new registry holds the seed record `6LZD666` (status `REGISTERED`). The
generator builds a random code of shape digit, three upper-case letters, three
digits (`6LZD666`). It retries until the code is not registered, then adds the
code to the set, appends a `REGISTERED` record stamped with the current time,
and returns that record. A batch runs the generator `n` times and returns the
new records in order.

Files:

- `plate_code.dfy` (module `PlateCode`): the code format and the per-position
  alphabets. It holds the random pick of an array item (`RandomItem`) and the
  candidate builder (`BuildLicenseNumber`). It proves that every built code is
  valid and that every valid code can be built.
- `code_space.dfy` (module `CodeSpace`): the sizes of the seven position
  alphabets multiply to 10 * 26^3 * 10^3 = 175,760,000, and at least that many
  distinct valid codes exist. A registry with fewer codes than that always
  leaves a valid code unused.
- `plate_license.dfy` (module `Registry`): records, the registry class
  `PlateLicense` with its invariant `Valid()`, the retry loop and the batch
  loop. It also holds the lemmas about the codes of a record sequence and about
  candidate streams.

Randomness is a parameter. `Math.random()` in the random pick becomes an index
into the array chosen by the caller. One candidate code therefore consumes a
*draw*: seven indices, one per position, in the order the characters are
picked. The generator takes a stream of draws and keeps going until it meets
the first candidate that is not registered. Its precondition requires the
stream to contain such a candidate. `SufficientDraws` proves that a suitable
stream exists for `n` generations whenever `|licenseSet| + n <= 175,760,000`.
The wall clock is a parameter too: `now` for one generation, and `clock`, one
timestamp per generation, for a batch.

## Model

| member | source | states |
|---|---|---|
| Registry.PlateLicense.constructor | plate_license.js:1-14 | A new registry holds exactly the seed record (code `6LZD666`, status `REGISTERED`), and its set is exactly `{"6LZD666"}`; the invariant holds |
| Registry.PlateLicense.GetAllLicenses | plate_license.js:16-18 | Returns the records in registration order; under the invariant there are exactly as many records as registered codes |
| Registry.PlateLicense.HasLicenseNumber | plate_license.js:58-60 | True exactly when the code is in the set; under the invariant, exactly when some record carries the code; changes no state |
| Registry.PlateLicense.GenerateNewLicense | plate_license.js:20-56 | Stops at the first unused candidate of the stream. That code is valid and was not registered before. Exactly one record `(code, now, REGISTERED)` is appended at the end, the set grows by exactly that code, the invariant is kept, and the appended record is the one returned |
| Registry.PlateLicense.PushNextLicense | plate_license.js:69-70 | One pass of the batch loop: generates the next licence stamped with the next clock value and pushes its record onto the batch, which stays the suffix appended to `licenses`. The stamps keep following the clock, the codes keep following those that successive generations take from the draws, the invariant is kept, and what is left of the draws suffices for the remaining generations |
| Registry.PlateLicense.BatchGenerateLicenses | plate_license.js:67-73 | Returns `max(n, 0)` records, which are exactly the records appended to `licenses`, in call order. Their codes are exactly the ones `n` successive generations take from the draws, each the first unused candidate of what is left (`Taken`). They are valid, `REGISTERED`, pairwise distinct and disjoint from the codes registered before. The set grows by exactly their codes, the i-th record carries the i-th clock value, and the invariant is kept; `n <= 0` changes nothing |
| PlateCode.Digits | plate_license.js:21-23 | The digit alphabet has ten characters |
| PlateCode.Letters | plate_license.js:24-28 | The letter alphabet has twenty-six characters |
| PlateCode.DigitsExactly | plate_license.js:21-23 | A character is in the digit alphabet exactly when it is `0`..`9` |
| PlateCode.LettersExactly | plate_license.js:24-28 | A character is in the letter alphabet exactly when it is `A`..`Z` |
| PlateCode.AlphabetClass | plate_license.js:21-38 | Position k picks from the digits at positions 0 and 4-6 and from the letters at positions 1-3: a character is in position k's alphabet exactly when it is of that position's class |
| PlateCode.RandomItem | plate_license.js:62-65 | The item picked at an index inside the array is an element of the array |
| PlateCode.BuildLicenseNumber | plate_license.js:31-38 | A candidate has one character per index, and each character is of its position's class: digit, three letters, three digits |
| PlateCode.BuildSnoc | plate_license.js:31-38 | Each further index appends one character, picked from the next position's alphabet, so characters are concatenated left to right |
| PlateCode.BuildIsValid | plate_license.js:31-38 | Every candidate built from a full draw is a valid code |
| PlateCode.ValidCodeByPositions | plate_license.js:31-38 | A code is valid exactly when it has seven characters, each of its position's class |
| PlateCode.DrawFor | plate_license.js:31-38 | For every string whose characters are of their positions' classes, there are indices that build exactly that string |
| PlateCode.EveryCodeIsDrawable | plate_license.js:31-38 | Every valid code is the candidate of some draw, so the generator can produce any valid code |
| CodeSpace.Encode | plate_license.js:31-38 | The k-th string in mixed-radix order has one character per position, each taken from that position's alphabet |
| CodeSpace.EncodeInjective | plate_license.js:41-44 | Distinct indices below the size of the space give distinct strings |
| CodeSpace.EncodeFresh | plate_license.js:41-44 | The n-th string is not among the first n |
| CodeSpace.ImageMember | plate_license.js:41-44 | Every string among the first n is the j-th for some j < n |
| CodeSpace.ImageSize | plate_license.js:41-44 | The first n strings are n different strings |
| CodeSpace.PositionsCount | plate_license.js:21-38 | The seven position alphabets are non-empty with no repeated character, and the product of their sizes is 175,760,000 |
| CodeSpace.UnusedStringExists | plate_license.js:41-44 | Any set with fewer elements than the space of strings misses one of those strings |
| CodeSpace.UnusedCodeExists | plate_license.js:41-44 | With fewer than 175,760,000 codes registered, some valid code is unused, so the retry loop has something left to find |
| Registry.CodesAppend | plate_license.js:47-54 | Appending a record adds exactly its code to the codes |
| Registry.CodesMember | plate_license.js:58-60 | A code is among the codes of some records exactly when one of those records carries it |
| Registry.CodesConcat | plate_license.js:67-73 | The codes of records laid end to end are the union of the codes of each part |
| Registry.CodesSize | plate_license.js:11-13 | There are never more codes than records |
| Registry.DistinctCodesSize | plate_license.js:11-13 | When no two records share a code, there are exactly as many codes as records |
| Registry.CodesSizeDistinct | plate_license.js:11-13 | When there are as many codes as records, no two records share a code |
| Registry.DistinctIffCodesSize | plate_license.js:11-13 | No two records share a code exactly when the set of codes is as large as the list of records |
| Registry.StampsAt | plate_license.js:49-53 | The i-th registration time is the `registered` field of the i-th record |
| Registry.StampsAppend | plate_license.js:67-73 | Appending a record appends exactly its registration time |
| Registry.LicensesOfAt | plate_license.js:49-53 | The i-th code of a sequence of records is the `license` field of the i-th record |
| Registry.LicensesOfAppend | plate_license.js:67-73 | Appending a record appends exactly its code |
| Registry.AppendedRecords | plate_license.js:67-73 | The records appended after a prefix share no code with each other or with the prefix, and each has a valid code and status `REGISTERED` |
| Registry.RegisterFresh | plate_license.js:47-54 | Appending a record whose valid code is not yet registered grows the set by exactly that code. No two records share a code, and every record keeps a valid code and status `REGISTERED` |
| Registry.Candidates | plate_license.js:41-44 | A stream of draws yields one candidate per draw |
| Registry.CandidateAt | plate_license.js:41-44 | The i-th candidate is the code built from the i-th draw |
| Registry.CandidatesSuffix | plate_license.js:41-44 | Dropping k draws from the stream drops the first k candidates |
| Registry.CandidatesCons | plate_license.js:41-44 | A draw put in front of a stream puts its candidate in front of the candidates |
| Registry.BuildCandidate | plate_license.js:41-43 | Builds the i-th candidate of the stream, which is a valid code |
| Registry.FirstFresh | plate_license.js:41-44 | The candidate the retry loop stops at, when there is one, lies inside the stream and is unused |
| Registry.FirstFreshIsFirst | plate_license.js:41-44 | The retry loop stops at candidate k exactly when candidate k is unused and every earlier candidate is registered |
| Registry.FirstFreshNone | plate_license.js:41-44 | The retry loop finds nothing in the stream exactly when every candidate is registered |
| Registry.SufficesPrepend | plate_license.js:67-73 | An unused candidate in front of a stream that suffices for n - 1 more generations makes a stream that suffices for n |
| Registry.PrependDraw | plate_license.js:67-73 | A draw of an unused valid code in front of a stream that suffices for n - 1 more generations makes a stream of draws that suffices for n |
| Registry.Taken | plate_license.js:67-73 | The codes that n generations in a row take from a candidate stream: `max(n, 0)` of them, none in use before and pairwise distinct |
| Registry.TakenStep | plate_license.js:67-73 | The first generation takes the first unused candidate. The rest of the stream then suffices for the later generations, and they take their codes from it |
| Registry.TakenAfterGeneration | plate_license.js:67-73 | The same step for draws: the draws after the one consumed are well formed, suffice for the later generations, and yield the codes those generations take |
| Registry.BatchStep | plate_license.js:69-70 | Pushing the next record onto a batch extends the stamps by its clock value and the codes by the next code the stream yields, and keeps the batch the suffix of `licenses` |
| Registry.SufficientDraws | plate_license.js:67-73 | While the registered codes plus n stay within 175,760,000, there is a stream of draws that lets n generations in a row each find an unused code |

## Left out

- `Math.random()` and `Math.floor` in the random pick (plate_license.js:62-65): floating-point randomness. The pick takes an index into the array from the caller. Every index inside the array is allowed, and every valid code can be drawn (`EveryCodeIsDrawable`). The model makes no claim about the distribution.
- `new Date().getTime()` (plate_license.js:51): a wall-clock read, modelled as the parameter `now`. A batch takes one timestamp per generation in `clock`, which must hold at least `n` values.
- Registry.PlateLicense.GenerateNewLicense: the source's retry loop has no bound and could in principle run forever. The model requires the stream of draws to contain an unused candidate, which is what makes the loop stop. `SufficientDraws` and `UnusedCodeExists` show that such a stream exists whenever the registry holds fewer than 175,760,000 codes.
- Registry.PlateLicense.BatchGenerateLicenses: `n` is an integer. A non-integer `n` (the JavaScript loop `n-- > 0` then runs ceil(n) times) and a non-numeric `n` are not modelled.
- The alphabet construction with `Array(...).fill().map` and `String.fromCharCode(code + 65)` (plate_license.js:21-28) is modelled directly as the sequences `'0'..'9'` and `'A'..'Z'` (`Digits`, `Letters`).
- Object identity and aliasing: `getAllLicenses` returns the internal array by reference, and the seed object is one module-level object shared by every registry (plate_license.js:1-5, 11, 16-18). Records are values here, and `GetAllLicenses` is a read of the sequence.
- Status is a string, and `REGISTERED` is the only value the registry ever assigns.
- `module.exports` and the test harness are plumbing, so they are not modelled.
- No prefix index, classification queries, status updates, unregistering or snapshot persistence appears in plate_license.js, so none is modelled.
