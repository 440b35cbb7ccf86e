# Jobs store — a Dafny model

The jobs contrib of this Evennia game keeps a ticket ("job") store for
staff requests. Tickets live in named categories ("buckets"); every ticket
carries a title, an owner, a list of source players and a list of comments.
A single manager object, `JobsDatabaseManager`, validates bucket names,
hands out job ids from a cached maximum, finds a job across buckets, and
adds and deletes comments. The mutating operations answer with a
`(bool, str)` pair: `(True, "")` on success, a `"#-n REASON"` message on a
checked failure, and `str(e)` on a caught exception. The lookups
`has_bucket` and `find_job_in_all_buckets` answer with a bucket or a job,
or `None`, and a job's own `delete_comment` answers `None` on success.

This project models that store in Dafny and proves what each operation
does, the error path as well as the success path:

- `pytext.dfy` (module `PyText`): the Python built-ins the store relies
  on: `str.isalpha`, `str.upper` and the resolution of a possibly negative
  list index by `lst[i]` and `del lst[i]`.
- `records.dfy` (module `JobsRecords`): `JobsComment` as the datatype
  `Comment`, `JobsJob` as the class `Job` and `JobsBucket` as the class
  `Bucket`, with their in-place updates; the `(bool, str)` answer as the
  datatype `Reply` (`Ok` for `(True, "")`, `Fail(msg)` otherwise).
- `job_ids.dfy` (module `JobIds`): the job ids of the store viewed as a
  map from bucket key to set of ids, the two invariants on that view (the
  cached maximum bounds every id; no id sits in two buckets) and how each
  kind of change affects them.
- `manager.dfy` (module `JobsManager`): `JobsDatabaseManager` as the class
  `DatabaseManager`. The persisted dict of buckets is the field `buckets`;
  its iteration order (Python dicts keep insertion order, and the lookups
  take the first bucket in that order) is the field `order`; `__max_id` is
  the field `maxId`.
- `comment_deletion.dfy` (module `CommentDeletion`): the manager's
  `delete_comment` as written, and the deletion it evidently intends.

The class invariant `DatabaseManager.Valid` states that `order` lists the
dict's keys once each, that every bucket is stored under its own
name, and that a non-zero cache bounds every job id in every
bucket. Every manager operation preserves it, and each one that can change
ids also preserves `UniqueIds` (no id held by two buckets). From the
invariant, `create_job` always issues an id above every id in the store,
so the bucket never refuses it, and an id deleted while the cache is warm
is never issued again. An id deleted while the cache is cold can be issued
again; that is listed under Findings.

Players are their integer object ids (`source: Option<int>`, `None` for
Python's `None`). Timestamps are integers supplied by the caller. Saving to
the game database is a no-op: the manager's fields are the database.

## Model

| member | source | states |
|---|---|---|
| PyText.IsAlpha | evennia/contrib/game_systems/jobs/objects.py:181 | a name passes exactly when it is non-empty and every character is a letter |
| PyText.Upper | evennia/contrib/game_systems/jobs/objects.py:113 | upper-casing keeps the length, maps each character to its capital, yields an upper-case string and keeps an alphabetic string alphabetic |
| PyText.UpperIdempotent | evennia/contrib/game_systems/jobs/objects.py:187-188 | upper-casing an upper-cased name changes nothing, so the bucket built from the upper-cased name is named by its key |
| PyText.PyIndex | evennia/contrib/game_systems/jobs/objects.py:92 | an index resolves exactly when it lies in `-len .. len-1`, to itself or to `len + i` |
| PyText.RemoveAt | evennia/contrib/game_systems/jobs/objects.py:92 | `del lst[k]` leaves one element fewer, the elements before `k` in place, the later ones shifted down, and the same multiset less `lst[k]` |
| JobsRecords.PositionalDelete | evennia/contrib/game_systems/jobs/objects.py:87-94 | an index at or past the end gives `#-1 INVALID COMMENT ID`, an index before the start gives the IndexError message, both with the list unchanged; otherwise the success answer is `None` and exactly the comment at the resolved position is removed |
| JobsRecords.Job.constructor | evennia/contrib/game_systems/jobs/objects.py:52-58 | a new job holds exactly the given id, title, comments, owner, opening time and sources |
| JobsRecords.Job.SetOwner | evennia/contrib/game_systems/jobs/objects.py:64-66 | the owner setter stores the player's id and touches no other field |
| JobsRecords.Job.UpdateSources | evennia/contrib/game_systems/jobs/objects.py:77-78 | the source list is replaced wholesale by the given ids, nothing else changes |
| JobsRecords.Job.AddComment | evennia/contrib/game_systems/jobs/objects.py:80-85 | always succeeds and appends exactly the comment at the end, earlier comments kept |
| JobsRecords.Job.DeleteComment | evennia/contrib/game_systems/jobs/objects.py:87-94 | answer and remaining comments are those of `PositionalDelete` on the old list |
| JobsRecords.Job.IsSource | evennia/contrib/game_systems/jobs/objects.py:96-101 | true exactly when the player's id is among the job's sources |
| JobsRecords.Bucket.constructor | evennia/contrib/game_systems/jobs/objects.py:112-115 | the stored name is the upper-cased name and is upper case; the bucket starts with no jobs |
| JobsRecords.Bucket.AddJob | evennia/contrib/game_systems/jobs/objects.py:117-125 | a taken id is refused with `#-1 JOB ID ALREADY EXISTS` and no change; otherwise exactly that one key is added, mapped to the job |
| JobsRecords.Bucket.DelJob | evennia/contrib/game_systems/jobs/objects.py:127-135 | an absent id is refused with `#-1 JOB ID DOES NOT EXIST` and no change; otherwise exactly that one key is removed |
| JobIds.MaxOf | evennia/contrib/game_systems/jobs/objects.py:162-166 | the value a scan from 0 keeps: at least every element, and either 0 or an element |
| JobIds.ScanIsMax | evennia/contrib/game_systems/jobs/objects.py:162-168 | a value that bounds every id and is 0 or one of the ids is the maximum over all buckets |
| JobIds.MaxBounds | evennia/contrib/game_systems/jobs/objects.py:168 | any value at or above the maximum bounds every id of every bucket |
| JobIds.AddAboveBound | evennia/contrib/game_systems/jobs/objects.py:213-235 | the id one above a bound is in no bucket; after adding it the new bound covers every id and ids stay unique |
| JobIds.RemoveId | evennia/contrib/game_systems/jobs/objects.py:252 | removing an id keeps every bound and uniqueness; with unique ids no bucket holds the removed id afterwards |
| JobIds.ColdRescanReissues | evennia/contrib/game_systems/jobs/objects.py:160-168 | with the cache cold, deleting the largest id `m` from a bucket that also holds `m - 1` makes the rescan end at `m - 1`, so the next id issued is `m` again |
| JobIds.AddEmptyBucket | evennia/contrib/game_systems/jobs/objects.py:188 | a new empty bucket keeps every bound and uniqueness |
| JobIds.DropBucket | evennia/contrib/game_systems/jobs/objects.py:197 | dropping a bucket keeps every bound and uniqueness |
| JobsManager.Without | evennia/contrib/game_systems/jobs/objects.py:197 | deleting a key from the dict drops exactly that name from the iteration order and keeps the order's names distinct |
| JobsManager.WithoutAbsent | evennia/contrib/game_systems/jobs/objects.py:197 | dropping a name the order does not hold leaves the order unchanged |
| JobsManager.WithoutRemovesOne | evennia/contrib/game_systems/jobs/objects.py:197 | in an order of distinct names, dropping the name at position `i` leaves the names before `i` and after `i`, in their order |
| JobsManager.AppendDistinct | evennia/contrib/game_systems/jobs/objects.py:188 | inserting a new key appends a name not yet in the order, which stays distinct |
| JobsManager.DatabaseManager.constructor | evennia/contrib/game_systems/jobs/objects.py:140-146 | the stored dict and its order are taken as found, with the id cache cold (0), and the invariant holds |
| JobsManager.DatabaseManager.MaxIdValue | evennia/contrib/game_systems/jobs/objects.py:160-168 | the value `__MAX_ID` yields: a non-zero cache as it is, a cold one as the largest id over all buckets |
| JobsManager.DatabaseManager.HasBucket | evennia/contrib/game_systems/jobs/objects.py:177-178 | a name resolves exactly when its upper-cased form is a key of the dict (a stored bucket is never falsy) |
| JobsManager.DatabaseManager.FirstHolderFrom | evennia/contrib/game_systems/jobs/objects.py:202-207 | the position found is the first, from `i` on in dict order, whose bucket holds the id; none means no bucket from `i` on holds it |
| JobsManager.DatabaseManager.FindJob | evennia/contrib/game_systems/jobs/objects.py:201-207 | the job of the first bucket in dict order that holds the id; none when no bucket holds it |
| JobsManager.DatabaseManager.CreateBucket | evennia/contrib/game_systems/jobs/objects.py:177-190 | a non-alphabetic name gives `#-1 INVALID BUCKET NAME`, a name whose upper-case form is taken gives `#-2 BUCKET NAME EXISTS`, both with no change; otherwise exactly one new empty bucket, keyed and named by the upper-cased name, is added at the end of the order, `has_bucket` then holds for every casing of the name, and the invariant and unique ids are kept |
| JobsManager.DatabaseManager.AddBucket | evennia/contrib/game_systems/jobs/objects.py:187-188 | the dict gains exactly the new key, mapped to a fresh empty bucket named by it, appended to the order; invariant and unique ids kept |
| JobsManager.DatabaseManager.DeleteBucket | evennia/contrib/game_systems/jobs/objects.py:192-199 | an absent name gives `#-1 INVALID BUCKET` with no change; otherwise exactly the key `name.upper()` leaves the dict and the order, every other bucket stays, and the name no longer resolves |
| JobsManager.DatabaseManager.MaxId | evennia/contrib/game_systems/jobs/objects.py:160-168 | a warm cache is returned unchanged; a cold one becomes the maximum job id over all buckets (0 with no jobs); the result bounds every id |
| JobsManager.DatabaseManager.FindJobInAllBuckets | evennia/contrib/game_systems/jobs/objects.py:201-207 | returns the job of the first bucket in dict order that holds the id; `None` exactly when no bucket holds it |
| JobsManager.DatabaseManager.CreateJob | evennia/contrib/game_systems/jobs/objects.py:209-238 | a missing bucket gives `#-1 INVALID BUCKET` before the cache is read; a missing source gives `#-2 INVALID SOURCE` after it is read (warming it), no job added in either case; only the named bucket's jobs and the cache can change, and on the missing-source path the jobs stay as they were; otherwise the new id is the cached maximum plus one, in no bucket before, added to exactly the named bucket with one visibility-0 comment from the source, the source as only source and owner 0, and becomes the cached maximum; invariant and unique ids kept |
| JobsManager.DatabaseManager.AddNewJob | evennia/contrib/game_systems/jobs/objects.py:218-235 | an id above every id is accepted by the bucket: the bucket gains exactly that key, mapped to a fresh job with the given fields, and the cache becomes that id; only that bucket's jobs and the cache change |
| JobsManager.DatabaseManager.DeleteJob | evennia/contrib/game_systems/jobs/objects.py:240-256 | an id no bucket holds gives `#-1 INVALID JOB ID`; otherwise it leaves exactly the first holding bucket in dict order, whose jobs lose exactly that id and whose name and description stay, no other bucket changing; the answer is Ok exactly when some bucket held the id; the cache stays, and a warm one is at least the deleted id; with unique ids no bucket holds the id afterwards |
| JobsManager.DatabaseManager.DeleteJobWarm | evennia/contrib/game_systems/jobs/objects.py:240-256 | `delete_job` after filling the cache: same answers as `delete_job`, the first holding bucket's jobs lose exactly that id and nothing else, unique ids stay unique and then no bucket holds the id, the cache becomes the `__MAX_ID` value, and a deleted id is at most that value, so the next `create_job` issues a larger id |
| JobsManager.DatabaseManager.AddComment | evennia/contrib/game_systems/jobs/objects.py:258-271 | a missing source gives `#-2 INVALID SOURCE`, then an id no bucket holds gives `#-1 INVALID JOB ID`, both without change; otherwise the found job gains exactly one comment at the end |
| JobsManager.DatabaseManager.DeleteComment | evennia/contrib/game_systems/jobs/objects.py:273-287 | an id no bucket holds gives `#-1 INVALID JOB ID`; otherwise answer and comments of the found job are those of `CommentDeletion.DeleteAsWritten` |
| JobsManager.DatabaseManager.DeleteCommentByNumber | evennia/contrib/game_systems/jobs/objects.py:273-283 | the intended `delete_comment`: an id no bucket holds gives `#-1 INVALID JOB ID`; otherwise answer and comments of the found job are those of `CommentDeletion.DeleteByNumber` |
| CommentDeletion.DeleteAsWritten | evennia/contrib/game_systems/jobs/objects.py:273-287 | the answer is success exactly for numbers `1 - len .. len`, whether or not a comment goes; any other number gives the IndexError message with no change; at most one comment goes |
| CommentDeletion.AsWrittenRefusesOutOfRange | evennia/contrib/game_systems/jobs/objects.py:279 | a comment number outside `1 - len .. len` fails the read with the IndexError message and deletes nothing |
| CommentDeletion.AsWrittenKeepsLastComment | evennia/contrib/game_systems/jobs/objects.py:279-285 | deleting the last comment by its number answers success and deletes nothing |
| CommentDeletion.AsWrittenDeletesNextComment | evennia/contrib/game_systems/jobs/objects.py:279-285 | any other number from 1 on deletes the comment after the one validated |
| CommentDeletion.AsWrittenWrapsAround | evennia/contrib/game_systems/jobs/objects.py:279-285 | numbers `1 - len .. 0` are read from the end: the comment at `len + n - 1` is validated and the next one deleted, number 0 deleting the first comment |
| CommentDeletion.SeedCommentSurvives | evennia/contrib/game_systems/jobs/objects.py:223-225 | a job holding only its seed comment keeps it although the deletion answers success |
| CommentDeletion.DeleteByNumber | evennia/contrib/game_systems/jobs/objects.py:279-283 | numbers `1 .. len` remove exactly the comment at position number - 1, any other number is refused with `#-2 INVALID COMMENT ID` and no change |
| CommentDeletion.CorrectedKeepsLastCommentDeletable | evennia/contrib/game_systems/jobs/objects.py:279-283 | for the last comment the corrected deletion removes it where the code as written keeps it |

## Left out

- Persistence: `search_object`, `create_object`, the `data` property, `__construct_object` and `save()`. The manager's fields stand for the stored `JobsDatabase`; saving is a no-op.
- Player lookups: `__get_player` and the `sources`/`owner` getters. Players are integer ids. Inside the class body the call `__get_player` is name-mangled to `_JobsJob__get_player`, which the module does not define, so `is_source` raises `NameError` on any job that has a source. `JobsRecords.Job.IsSource` models the id comparison the loop evidently intends; the `NameError` is not modelled.
- Time: `datetime.now()` and `fromtimestamp`. Timestamps are integer parameters; `create_job` reads the clock twice, hence two parameters.
- Text: `str.isalpha` and `str.upper` are modelled on ASCII letters only; Unicode letters and case mappings are not.
- The mutable default `jobs={}` of `JobsBucket.__init__`: in CPython every bucket built by `create_bucket` shares one jobs dict. The model gives each bucket its own map, as the code evidently intends; the sharing is not modelled.
- Generic `except Exception` branches: only the exceptions the code can reach are modelled (the IndexError of a comment read or delete). A failure of `save()` or of the host framework is not.
- The `except` branch of the insertion in `create_job` is not modelled. `add_job` never raises: its refusal is a returned tuple, which `create_job` ignores, and the new id is above every id in the store, so it is not refused anyway (the contract of `CreateJob` states this). The branch is reached only by an exception of the host, such as a source without `.id`, which the model's integer players cannot produce.
- Loading the stored dict from the game database: the manager is constructed from a map of buckets plus its key order.
- The `comment is None` test of the manager's `delete_comment` can never succeed (comments are never `None`), so `#-2 INVALID COMMENT ID` never appears on the as-written path; the corrected `CommentDeletion.DeleteByNumber` uses it for out-of-range numbers.
- The manager's `delete_comment` ignores the job's answer: a job-level refusal still answers success, as `CommentDeletion.DeleteAsWritten` shows.
- The commands, character sheet and cmdset modules of the repository are not part of this model: they are command dispatch, screen layout and framework registration.

## Findings

| source | as written | input that shows it | evidently intended | confidence | as-written member | corrected member |
|---|---|---|---|---|---|---|
| evennia/contrib/game_systems/jobs/objects.py:279-283 | the comment at position `comment_id - 1` is validated but position `comment_id` is deleted, and the job's refusal is ignored | a job whose only comment is its seed comment, `delete_comment(job_id, 1)`: answers `(True, "")` and the comment stays | delete the comment numbered `comment_id` (position `comment_id - 1`), refusing numbers outside `1 .. len` | high, not executed | CommentDeletion.AsWrittenKeepsLastComment | CommentDeletion.DeleteByNumber, used by JobsManager.DatabaseManager.DeleteCommentByNumber |
| evennia/contrib/game_systems/jobs/objects.py:160-168 | `delete_job` leaves the id cache as it is, and a cold cache (0) is refilled by a rescan of the ids that remain | a fresh manager over a bucket holding jobs 1 and 2: `delete_job(2)`, then `create_job` issues id 2 again | a deleted id is never issued again: the cache is filled before the deletion, so it stays at or above the deleted id | medium, not executed | JobIds.ColdRescanReissues | JobsManager.DatabaseManager.DeleteJobWarm |
