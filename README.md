# Temporary file sharing: expiry keys and the sweep

A Dafny model of the core of a temporary file-sharing service (a Next.js
app over a Supabase storage bucket). The upload route stores every file
under a key that carries its upload time and its expiry time,
`<now>-<expireAt>-<sanitizedName>`. A cron route lists the bucket, reads
field 1 of each key back as the expiry time and removes every object whose
time has passed, in one batch. `config.ts` parses the size and lifetime
settings from unit strings (`50MB`, `7d`) and trims the CDN URL.

Modules, one per source file, plus shared text operations:

- `Text` (text.dfy): JavaScript strings as sequences of UTF-16 code units.
  It holds `split` on one separator, the decimal rendering of a
  non-negative integer, reading digits back, and ASCII case folding.
- `Config` (config.dfy, from `config.ts`): `parseFileSize`,
  `parseExpireTime`, the environment defaults and the CDN URL strip.
- `Upload` (upload.dfy, from `app/api/upload/route.ts`): validation, the
  expiry time, name sanitisation, the key and the response of `POST`.
- `Sweep` (sweep.dfy, from `app/api/cronjobs/delete-file/route.ts`): the
  loop of `GET` that collects expired names, as a method proved against
  the filter function `Expired`. The storage bucket is a class `Bucket`
  (its names, whether list or remove fail, the names a failing remove still
  deletes (`partialRemoval`), and a log of remove calls), and
  `RunSweep` is the whole handler over it.

`Date.now()` and `new Date().toISOString()` are parameters. The storage
calls are also parameters: `Post` takes the upload's error message and the
public URL, and `RunSweep` works on a `Bucket`.

The key property is a cross-file round trip, `Sweep.UploadedKeySwept`.
Field 1 of a key written by the upload route reads back as its expiry time,
whatever the original name contains, because a decimal rendering never
contains `-`. So a key is swept exactly when `now` is strictly past it.

Two points of the code are easy to misread, and the model follows the code
at both:

- An empty field 1 is not skipped. `Number("")` is 0 in JavaScript, so a
  name such as `1--x` counts as expired at any time after 0
  (`Sweep.EmptyExpiryFieldReadsAsZero`).
- The upload route hard-codes its limits (`50 * 1024 * 1024` bytes, seven
  days) and does not read `Config`. `Upload.RouteLiteralsMatchConfigDefaults`
  proves that they equal the configuration defaults.

## Model

| member | source | states |
|---|---|---|
| `Text.CodeUnitsOf` | app/api/upload/route.ts:30 | a character is one code unit inside the Basic Multilingual Plane, otherwise a high/low surrogate pair that decodes back to it |
| `Text.ToUpper` | config.ts:5 | lower-case ASCII letters map to their upper-case partner; every other unit is unchanged |
| `Text.ToLower` | config.ts:19 | upper-case ASCII letters map to their lower-case partner; every other unit is unchanged |
| `Text.Split` | app/api/cronjobs/delete-file/route.ts:27 | `split("-")` always gives at least one piece; `JoinSplit`, `SplitPiecesAvoidSeparator` and `SplitCount` pin it down |
| `Text.SplitCount` | app/api/cronjobs/delete-file/route.ts:27-28 | a split has exactly one more piece than the name has `-`, so `parts.length < 3` means fewer than two `-` |
| `Text.JoinSplit` | app/api/cronjobs/delete-file/route.ts:27 | joining the pieces of `split("-")` with `-` restores the name |
| `Text.SplitPiecesAvoidSeparator` | app/api/cronjobs/delete-file/route.ts:27 | no piece of a split contains the separator |
| `Text.SplitAfterField` | app/api/cronjobs/delete-file/route.ts:27 | a separator-free field followed by the separator is the first piece, whatever follows |
| `Text.Decimal` | app/api/upload/route.ts:31 | the decimal rendering of a timestamp is non-empty and all digits, so it never contains `-` |
| `Text.DecimalRoundTrip` | app/api/cronjobs/delete-file/route.ts:30 | reading a decimal rendering back with `Number` gives the timestamp rendered |
| `Text.LeadingDigits` | config.ts:2 | the greedy `^\d+` run: all digits, and followed by a non-digit or the end |
| `Text.LeadingDigitsOf` | config.ts:2 | a digit run followed by the end or a non-digit is exactly the run `\d+` matches |
| `Text.LeadingDigitsUpToCase` | config.ts:2 | strings equal up to letter case have the same leading digits |
| `Config.SizeFactor` | config.ts:5-11 | every factor is at least 1, and an accepted suffix is empty or two units that do not start with a digit (the full table is `SizeSuffixes`) |
| `Config.TimeFactor` | config.ts:19-27 | every factor is at least 1, and an accepted suffix is empty or one unit that is not a digit (the full table is `TimeSuffixes`) |
| `Config.SizeSuffixes` | config.ts:2-11 | no suffix gives 1, KB 1024, MB 1024², GB 1024³, each in any letter case, and no other suffix is accepted |
| `Config.TimeSuffixes` | config.ts:16-27 | no suffix gives 1, s 1000, m 60000, h 3600000, d 86400000, each in any letter case, and no other suffix is accepted |
| `Config.ParseFileSize` | config.ts:1-12 | an accepted string starts with a digit and ends with a digit or the `B` of a unit; `FileSizeMatches` and `FileSizeOf` state exactly what it accepts and gives |
| `Config.ParseExpireTime` | config.ts:15-28 | an accepted string starts with a digit and ends with a digit or one of s, m, h, d; `ExpireTimeMatches` and `ExpireTimeOf` state exactly what it accepts and gives |
| `Config.FileSizeOf` | config.ts:1-12 | digits followed by an accepted suffix give the value times 1, 1024, 1024² or 1024³ |
| `Config.ExpireTimeOf` | config.ts:15-28 | digits followed by an accepted suffix give the value times 1, 1000, 60000, 3600000 or 86400000 |
| `Config.FileSizeMatches` | config.ts:2-3 | `parseFileSize` accepts exactly a non-empty digit run followed by an accepted suffix |
| `Config.ExpireTimeMatches` | config.ts:16-17 | `parseExpireTime` accepts exactly a non-empty digit run followed by an accepted suffix |
| `Config.FileSizeIgnoresCase` | config.ts:2-5 | strings equal up to letter case ("50mb", "50MB") give the same size |
| `Config.ExpireTimeIgnoresCase` | config.ts:16-19 | strings equal up to letter case ("7D", "7d") give the same duration |
| `Config.FileSizeMonotone` | config.ts:4-11 | for a fixed suffix the size is at least the number written and grows with it |
| `Config.ExpireTimeMonotone` | config.ts:18-27 | for a fixed suffix the duration is at least the number written and grows with it |
| `Config.DefaultsParse` | config.ts:31-32 | the default "50MB" is 52428800 bytes and the default "7d" is 604800000 ms |
| `Config.StripTrailingSlash` | config.ts:39 | the result is a prefix of the URL; it is shorter exactly when the URL ends in `/`, and then by that one `/` |
| `Config.Load` | config.ts:30-40 | a size or lifetime variable that is set and non-empty is parsed with `ParseFileSize` or `ParseExpireTime`; an unset or empty one gives 52428800 bytes or 604800000 ms; a CDN URL that is set is `StripTrailingSlash` of it (so it loses at most one unit), and an unset one gives the empty URL |
| `Config.LoadDefaults` | config.ts:30-40 | with the variables unset or empty: a 50 MiB limit, a seven-day lifetime and no CDN URL |
| `Config.CdnUrlLosesOneSlash` | config.ts:39 | only one trailing slash is removed: `x//` becomes `x/`, and `x/` becomes `x` |
| `Upload.Sanitize` | app/api/upload/route.ts:30 | the sanitised name is as long as the name and holds only `[A-Za-z0-9._-]`; `SanitizeSpec` gives it position by position |
| `Upload.SanitizeSpec` | app/api/upload/route.ts:30 | sanitising keeps length and positions, keeps `[A-Za-z0-9.-]`, turns every other unit into `_`, and leaves only `[A-Za-z0-9._-]` |
| `Upload.SanitizeIdempotent` | app/api/upload/route.ts:30 | sanitising a sanitised name changes nothing |
| `Upload.AstralCharacterBecomesTwoUnderscores` | app/api/upload/route.ts:30 | a character outside the Basic Multilingual Plane becomes `__` (the pattern has no `u` flag) |
| `Upload.FileKey` | app/api/upload/route.ts:31 | the key starts with a digit, is longer than the name by at least three units, and ends with the sanitised name; `KeyFields` gives its fields |
| `Upload.KeyPieces` | app/api/upload/route.ts:31 | a key splits into its upload time, its expiry time, then exactly the pieces of the name |
| `Upload.KeyFields` | app/api/upload/route.ts:31 | splitting a key on `-` gives at least three pieces: the upload time, the expiry time, then the pieces of the name |
| `Upload.Post` | app/api/upload/route.ts:14-66 | a missing file gets 400 "No file provided" and no upload is attempted; then a size over 52428800 gets 400 and no upload is attempted; otherwise the upload is attempted under the key with expiry now + 604800000; a storage error gives 500 "Upload failed: …"; on success id and fileName are the key, previewUrl is `/api/file/` + key, and isMedia is isImage or isVideo |
| `Upload.UploadKeyExpiresAfterUpload` | app/api/upload/route.ts:26-31 | field 0 of the upload key reads as `now`, field 1 as `now + 604800000`, which is later |
| `Upload.FiftyMebibytesIsTheLimit` | app/api/upload/route.ts:22-24 | a file of exactly 52428800 bytes is accepted and one of 52428801 bytes is refused with 400 |
| `Upload.RouteLiteralsMatchConfigDefaults` | app/api/upload/route.ts:22-27 | the route's literal limits equal what `parseFileSize("50MB")` and `parseExpireTime("7d")` give |
| `Upload.ReportExample` | app/api/upload/route.ts:26-31 | "report.pdf" uploaded at 1000 gets the key "1000-604801000-report.pdf" |
| `Sweep.FieldNumber` | app/api/cronjobs/delete-file/route.ts:30-31 | field 1 is a number exactly when it is all decimal digits (the empty field included) |
| `Sweep.ExpiryOf` | app/api/cronjobs/delete-file/route.ts:27-31 | a name has an expiry time only when it holds at least two `-`; `SelectedExactly` and `UploadedKeySwept` say which time |
| `Sweep.IsExpired` | app/api/cronjobs/delete-file/route.ts:27-34 | an expired name has an expiry time and `now` is past 0; `SelectedExactly` gives the exact condition |
| `Sweep.Expired` | app/api/cronjobs/delete-file/route.ts:21-36 | the batch is no longer than the listing and holds only expired names; `ExpiredMembers` and `ExpiredInListingOrder` complete it |
| `Sweep.Page` | app/api/cronjobs/delete-file/route.ts:10-13 | the listing is a prefix of the bucket's names: the whole bucket when it holds at most 1000 names, otherwise exactly the first 1000 |
| `Sweep.CollectExpired` | app/api/cronjobs/delete-file/route.ts:21-36 | the loop's batch is `Expired(names, now)`, and a name is in it exactly when it is listed and expired |
| `Sweep.ExpiredMembers` | app/api/cronjobs/delete-file/route.ts:23-36 | a name is in the batch exactly when it is listed and expired |
| `Sweep.NothingExpired` | app/api/cronjobs/delete-file/route.ts:39-57 | a listing with no expired name gives an empty batch, so no remove call |
| `Sweep.ExpiredInListingOrder` | app/api/cronjobs/delete-file/route.ts:21-36 | the batch is a subsequence of the listing, picked at increasing positions |
| `Sweep.SelectedExactly` | app/api/cronjobs/delete-file/route.ts:27-34 | a name is swept exactly when it has at least three fields, field 1 is a number, and now is strictly greater; a name expiring at now is kept |
| `Sweep.SweepIdempotent` | app/api/cronjobs/delete-file/route.ts:23-36 | filtering the listing with the batch removed gives an empty batch |
| `Sweep.UploadedKeySwept` | app/api/cronjobs/delete-file/route.ts:27-34 | field 1 of an uploaded key reads back as its expiry time, and the key is swept exactly when now is past it |
| `Sweep.EmptyExpiryFieldReadsAsZero` | app/api/cronjobs/delete-file/route.ts:30-31 | a name whose field 1 is empty reads as expiring at 0 and is swept at any later time |
| `Sweep.SplitWithoutSeparator` | app/api/cronjobs/delete-file/route.ts:27-28 | a name with no `-` splits into one piece, so it is skipped |
| `Sweep.SweepExample` | app/api/cronjobs/delete-file/route.ts:23-36 | of a key expired 1000 ms ago, one expiring in 1000 ms and a name without fields, only the first is swept |
| `Sweep.WithoutMembers` | app/api/cronjobs/delete-file/route.ts:40 | after a remove, a name remains exactly when it was there and was not in the batch |
| `Sweep.WithinMembers` | app/api/cronjobs/delete-file/route.ts:40 | a key is reported exactly when it was asked for and existed |
| `Sweep.FailedRemoveKeepsOthers` | app/api/cronjobs/delete-file/route.ts:40-45 | a remove that fails part-way deletes only names of its batch; every other object stays |
| `Sweep.WithinAllPresent` | app/api/cronjobs/delete-file/route.ts:40-50 | when every key of the batch exists, the remove reports every one of them, so the count is the batch's length |
| `Sweep.Bucket.List` | app/api/cronjobs/delete-file/route.ts:10-13 | the listing fails exactly when the bucket's list fails; otherwise it is the first page `Page(objects)`, a prefix of at most 1000 names |
| `Sweep.Bucket.Remove` | app/api/cronjobs/delete-file/route.ts:40 | every call is logged; a failed remove reports an error and deletes only the batch names in the bucket's `partialRemoval`; otherwise the named objects are gone and those that existed are reported |
| `Sweep.RunSweep` | app/api/cronjobs/delete-file/route.ts:10-57 | the status is 500 exactly when the listing fails or a non-empty batch's remove fails; a failed listing makes no remove call and changes nothing; an empty batch gives "nothing to delete" with no remove call; otherwise exactly one remove call with the whole batch, then a failure (with only part of the batch possibly gone) or the deleted names with count equal to their number |
| `Sweep.SweepTwice` | app/api/cronjobs/delete-file/route.ts:10-57 | on a bucket that fits in one page, a sweep right after one that deleted (or found nothing) finds nothing to delete |

## Left out

- The Supabase storage calls are foreign I/O. `upload` and `getPublicUrl` are parameters of `Upload.Post`. `list` and `remove` are the methods of `Sweep.Bucket`. No object contents are modelled.
- `Date.now()` and `new Date().toISOString()` are parameters, not clocks.
- `Sweep.FieldNumber` and the parsers' fallback leave out JavaScript `Number` coercion. Whitespace, a `+` sign, hexadecimal, exponents, decimals and `Infinity` are all numbers to `Number` but invalid here. For `parseFileSize` and `parseExpireTime`, a string that does not match the pattern gives `None` instead of `Number(size)`.
- JavaScript numbers are doubles. Integers here are unbounded, so rounding above 2^53 is not modelled.
- The `catch` branches (500 "Internal server error", 500 "Unexpected server error") handle exceptions thrown by form parsing or the network. They are not modelled.
- The `formData.get("file") as File` cast is not modelled: the form field is either a file or missing.
- The sweep's JSON messages are not modelled as strings. `Sweep.SweepResult` has one variant per branch and gives its HTTP status.
- Only the first page of 1000 names is listed and swept, as in the source (`Sweep.Page`). The bucket itself may hold more: the names past the first page are neither listed nor removed. So a second sweep can find names the first never saw, and `Sweep.SweepTwice` holds only for a bucket of at most 1000 names.
- Sweep.Bucket.Remove: a successful remove is taken to report exactly the named keys that existed, in the order named. This is what makes `count` the batch's length in `Sweep.RunSweep`; what the Supabase client reports is not part of this model. Which keys a failing remove still deletes is a parameter of the bucket (`partialRemoval`), not a behaviour of the store.
- The `console.error` calls (app/api/upload/route.ts:37 and app/api/cronjobs/delete-file/route.ts:16 and 43) only write to the log. They are not modelled.
- Concurrent sweeps and CORS headers are left out, and so is the `OPTIONS` handler.
- `Config.Load` leaves out `BucketName`, `SupabaseUrl`, `SupabaseAnonymousKey` and `BaseUrl`, which are plain `||` defaults with no parsing. The Supabase client reads the URL and the key. The sweep reads `BucketName` to choose its bucket, and the upload route reads `BUCKET_NAME` directly. None of the modelled routes reads `BaseUrl`. The model has a single bucket, so the bucket name plays no part. In the source the two routes can disagree: with `BUCKET_NAME` unset, the upload route passes `undefined` as the bucket name (app/api/upload/route.ts:34), while the sweep uses the default `"temp-files"` (config.ts:34, app/api/cronjobs/delete-file/route.ts:10).
- The other files of the repository are not part of this model: the upload UI component, the layout, the Supabase client, and the file retrieval and single-file delete routes.
