# IBird photo upload: goal progression model

IBird users go on outdoor trips and photograph birds. A photo's upload is
the one step with real decision logic. It first checks that the file is an
image, that the user has an active trip, and that the trip has edugaming
turned on. It then takes the identified bird and advances the trip's two
goal histories:

- **Specific goals**: find this particular bird. When the identified bird is
  the live goal's bird, that goal succeeds and a goal for a bird of the next
  rarity tier follows. The level stops at 3.
- **Count goals**: find `level * 3` birds of any kind. Every upload counts.
  Reaching the target closes the goal and opens the next level's goal. The
  level stops at 5.

Finally it appends the new image to the trip and adds the bird to the user's
collection (`myBirds`) if it is not there yet.

The modules follow that structure:

- `Records` (records.dfy): ids, Bird/goal/Image documents, errors.
- `FileFilter` (file_filter.dfy): the mimetype check.
- `Catalog` (catalog.dfy): the Bird collection. It holds the tier filter,
  the random draw within a tier, and the random stand-in for identification.
- `Collection` (collection.dfy): adding a bird to `myBirds`.
- `GoalLedger` (goal_ledger.dfy): the two goal transitions as functions on
  values, their invariants, and what repeated uploads do.
- `Upload` (upload.dfy): `Ingest`, the whole upload on values, with its
  properties. It also holds the `Trip` and `User` classes, whose methods
  change the goal, image and `myBirds` sequences in place, and the `Upload`
  method, which performs the step on those objects and is proved to agree
  with `Ingest`.

The model covers the handler's inputs from outside the program in these ways:

- Randomness is an explicit `pick` number: one draw for the bird of the new
  tier, and one for the stand-in identifier.
- The identified bird, the new image's id and the current time are
  parameters (`Draw`).
- The trip lookup reads a sequence of `Trip` objects.

The handler saves the trip, the image and the user separately; the model
treats the upload as one step.

Notes:

- The handler answers only with a status message, so `Upload` returns the
  created image record or an error.
- Version conflicts and partial commits are not modelled.
- When no bird can be drawn at the new tier, the handler throws before the
  trip is saved. `NoBirdAtRarity` models that, and nothing changes.
- The schema is not part of this model. A newly appended goal is assumed to
  start in progress with no birds found.
- Bird ids are compared by value, both in the goal match and in the
  `myBirds` membership test.

## Model

| member | source | states |
|---|---|---|
| `FileFilter.StartsWith` | backend/routes/api/images.js:33 | the character-by-character prefix test agrees with sequence prefix |
| `FileFilter.AcceptsFile` | backend/routes/api/images.js:32-38 | a file passes exactly when its mimetype begins with `image/`, followed by any subtype |
| `FileFilter.FilterExamples` | backend/routes/api/images.js:33 | `image/png` and `image/` pass; `text/plain`, `image` and `IMAGE/PNG` do not (case-sensitive, slash required) |
| `Catalog.BirdsAtRarity` | backend/routes/api/images.js:75-76 | a bird is in the tier's population iff it is in the collection with that rarity |
| `Catalog.SampleByRarity` | backend/routes/api/images.js:75-79 | the draw is empty iff no bird has the tier; otherwise it is a collection bird of that tier |
| `Catalog.SampleReachesEveryBird` | backend/routes/api/images.js:77 | every bird of the tier is a possible draw |
| `Catalog.Identify` | backend/routes/api/images.js:63-64 | the stand-in identifier returns a collection bird's id, and nothing iff the collection is empty |
| `Catalog.IdentifyReachesEveryBird` | backend/routes/api/images.js:63-64 | every bird of the collection can be the one identified |
| `Collection.AddIfAbsent` | backend/routes/api/images.js:123-127 | the bird is present afterwards; the members are the old ones plus it; the old list is a prefix; the list is unchanged iff the bird was already there |
| `Collection.AddIfAbsentKeepsDistinct` | backend/routes/api/images.js:123-127 | a duplicate-free `myBirds` stays duplicate-free |
| `Collection.AddIfAbsentOccursOnce` | backend/routes/api/images.js:123-127 | in a duplicate-free `myBirds` the bird occurs exactly once afterwards |
| `GoalLedger.NextSpecificLevel` | backend/routes/api/images.js:72 | the new level is at most one more than the old and at most 3, and equals one of the two |
| `GoalLedger.NextCountLevel` | backend/routes/api/images.js:96 | the new level is at most one more than the old and at most 5, and equals one of the two |
| `GoalLedger.AdvanceSpecific` | backend/routes/api/images.js:68-88 | an empty list or a different bird leaves the goals unchanged. On a match, it fails iff no bird has the next tier. Otherwise exactly one goal is appended, every earlier entry is unchanged, and the matched goal becomes `Success`. The new goal is in progress, at level min(old+1, 3), for a collection bird of that rarity, with that bird's id, name and first image (none when it has no images) |
| `GoalLedger.AdvanceCount` | backend/routes/api/images.js:90-103 | an empty list is unchanged. Otherwise earlier entries are unchanged and the live goal's `birdsFound` grows by 1. The list grows by one entry iff `birdsFound + 1 >= level * 3`, which then marks the live goal `Success` and appends a goal with level min(level+1, 5), target `newLevel * 3`, no birds found and in progress |
| `GoalLedger.AdvanceCountNeverLowersCounts` | backend/routes/api/images.js:93 | no entry's `birdsFound` decreases |
| `GoalLedger.AdvanceSpecificKeepsCaps` | backend/routes/api/images.js:69-88 | if every specific-goal level lies in 1..3 before the upload, every level does afterwards, with no other assumption on the history |
| `GoalLedger.AdvanceCountKeepsCaps` | backend/routes/api/images.js:91-103 | if every count-goal level lies in 1..5 before the upload, every level does afterwards, with no other assumption on the history |
| `GoalLedger.AdvanceSpecificKeepsValid` | backend/routes/api/images.js:69-88 | levels stay within 1..3 and every entry before the live one has succeeded |
| `GoalLedger.AdvanceCountKeepsValid` | backend/routes/api/images.js:91-103 | levels stay within 1..5 with target `level * 3`. Closed entries found exactly their target. The live entry is in progress and short of its target |
| `GoalLedger.AdvanceCountAddsOne` | backend/routes/api/images.js:91-103 | the birds counted over the whole count history grow by exactly 1 per upload, with or without a level-up |
| `GoalLedger.UploadsAddUp` | backend/routes/api/images.js:91-103 | `k` successive uploads add exactly `k` to the total, and the history never shrinks |
| `GoalLedger.CountingUpToTarget` | backend/routes/api/images.js:92-94 | while short of the target, `k` uploads only raise the live goal's counter by `k` |
| `GoalLedger.TargetReached` | backend/routes/api/images.js:94-101 | if `k` birds are missing, the `k`-th upload after that closes the goal and appends the next level's goal |
| `Upload.RecordedTimestamp` | backend/routes/api/images.js:60 | a present, non-empty request timestamp is the result; a missing or empty one gives the current time |
| `Upload.Ingest` | backend/routes/api/images.js:41-134 | each error holds exactly under its condition, checked in the handler's order: no file, not an image, no active trip, edugaming off, and (for a matching bird) no bird at the new tier, whose rarity the error carries. Every error leaves trip and `myBirds` unchanged. Success advances both histories, appends the image id, adds the bird to `myBirds`, and records the image with the file's key, the user, location, timestamp and bird |
| `Upload.UploadKeepsGoalsValid` | backend/routes/api/images.js:69-103 | goal levels within their caps (and the other history invariants) hold after the upload if they held before |
| `Upload.UploadKeepsLevelCaps` | backend/routes/api/images.js:69-103 | an upload to any trip whose levels lie within 1..3 and 1..5 leaves them within those caps |
| `Upload.OverfullCountGoalLevelsUp` | backend/routes/api/images.js:91-101 | a count goal already past its target (5 of 3, outside the history invariant) is closed by the next upload and followed by a level-2 goal of 6 |
| `Upload.UploadCountsEveryBird` | backend/routes/api/images.js:91-93 | an accepted upload adds exactly one counted bird, whatever the species |
| `Upload.UploadKeepsMyBirdsDistinct` | backend/routes/api/images.js:122-127 | `myBirds` never gains a duplicate, and after success holds the identified bird exactly once |
| `Upload.WrenScenario` | backend/routes/api/images.js:68-103 | a level-1 wren goal with the count goal at 2 of 3. Identifying the wren closes both goals and appends a level-2 goal for the rarity-2 bird and a count goal of 6 |
| `Upload.FindActiveTrip` | backend/routes/api/images.js:48-52 | null iff none of the trips is the user's and active; otherwise a listed trip of the user that is active |
| `Upload.Trip.AdvanceSpecificGoal` | backend/routes/api/images.js:69-88 | the specific goals become `AdvanceSpecific` of the old ones, or stay unchanged with the error; nothing else changes |
| `Upload.Trip.AdvanceCountGoal` | backend/routes/api/images.js:91-103 | the count goals become `AdvanceCount` of the old ones; nothing else changes |
| `Upload.Trip.AddImage` | backend/routes/api/images.js:119 | the images are the old ones plus the new id; the goals are unchanged |
| `Upload.User.AddBird` | backend/routes/api/images.js:122-127 | `myBirds` becomes `AddIfAbsent` of the old list |
| `Upload.Upload` | backend/routes/api/images.js:41-134 | the result, the active trip's new state and the user's new `myBirds` are what `Ingest` gives from the old state. Every other trip is unchanged |

## Left out

- HTTP routing, the auth middleware and the status codes. Each answer is an
  `UploadError` or the created image record.
- The object-storage setup, the storage-key generation from the clock and a
  UUID, and the signed-URL endpoint (backend/routes/api/images.js:10-31,
  137-156). These are calls into foreign libraries. The storage key is an
  opaque string of the uploaded file.
- The storage of a file that is accepted by the filter and then refused by
  the handler. Object storage is outside this model.
- The random choices themselves. They are `pick` parameters, reduced modulo
  the population size.
- Catalog.SampleByRarity: states that the draw is a bird of the tier, not
  that it is uniform, because probabilities are not expressible here.
- Catalog.Identify: states that the result is a collection bird, not that
  the choice is uniform, for the same reason.
- Upload.Upload: takes the identified bird as a parameter rather than
  calling `Catalog.Identify`, so an empty Bird collection is not modelled.
  There the stand-in finds no bird and reading its id throws. With a live
  specific goal, that happens at the goal match, before any write. With no
  specific goal, the count goal is advanced and saved first and the throw
  comes when the image is built: a partial write the model does not
  capture.
- Parsing the location from JSON, and its failure on malformed input. The
  location arrives already parsed, as an opaque string.
- The order of the separate saves of trip, image and user, and a failure
  between them (including a user that cannot be found). Many uploads to the
  same trip at the same time are also left out. The model treats the upload as one
  step.
- Ending or starting a trip and turning edugaming on or off belong to other
  routes. Here a trip's owner, active flag and edugaming flag are
  constants.
- The frontend components (goal progress display, bird table row). They are
  rendering, timers, browser storage and an API fetch, with no logic of
  their own.
