/**
 * `JobsDatabaseManager`: the single façade over the persisted map of buckets.
 * It validates bucket names, allocates job ids from a cached maximum, finds
 * jobs across buckets and adds or removes comments. Persistence (`save`) is
 * a no-op here: the database is the in-memory state of the manager.
 */
module JobsManager {
  import opened PyText
  import opened JobsRecords
  import CommentDeletion
  import opened JobIds

  const InvalidBucketName := "#-1 INVALID BUCKET NAME"
  const BucketNameExists := "#-2 BUCKET NAME EXISTS"
  const InvalidBucket := "#-1 INVALID BUCKET"
  const InvalidSource := "#-2 INVALID SOURCE"
  const InvalidJobId := "#-1 INVALID JOB ID"

  /** No name occurs twice (the keys of a dict). */
  predicate Distinct(s: seq<string>) {
    s == [] || (s[0] !in s[1..] && Distinct(s[1..]))
  }

  /** A name not yet in a distinct sequence can be appended. */
  lemma {:induction false} AppendDistinct(s: seq<string>, x: string)
    requires Distinct(s) && x !in s
    ensures Distinct(s + [x])
  {
    if s != [] {
      AppendDistinct(s[1..], x);
      assert (s + [x])[1..] == s[1..] + [x];
    }
  }

  /** `s` with every occurrence of `x` dropped, the rest in their order. */
  function Without(s: seq<string>, x: string): (r: seq<string>)
    ensures forall y :: y in r <==> y in s && y != x
    ensures Distinct(s) ==> Distinct(r)
  {
    if s == [] then []
    else if s[0] == x then Without(s[1..], x)
    else
      var r := [s[0]] + Without(s[1..], x);
      assert r[1..] == Without(s[1..], x);
      r
  }

  /** Dropping a name that is not there leaves the order as it is. */
  lemma {:induction false} WithoutAbsent(s: seq<string>, x: string)
    requires x !in s
    ensures Without(s, x) == s
  {
    if s != [] {
      WithoutAbsent(s[1..], x);
    }
  }

  /** Dropping a name that occurs once takes out exactly its position. */
  lemma {:induction false} WithoutRemovesOne(s: seq<string>, x: string, i: nat)
    requires Distinct(s) && i < |s| && s[i] == x
    ensures Without(s, x) == s[..i] + s[i+1..]
  {
    var t := s[1..];
    if i == 0 {
      WithoutAbsent(t, x);
      assert s[..0] + s[1..] == t;
    } else {
      assert t[i - 1] == x;
      assert s[0] != x by { assert x in t; }
      assert Without(s, x) == [s[0]] + Without(t, x);
      WithoutRemovesOne(t, x, i - 1);
      assert s[..i] == [s[0]] + t[..i - 1];
      assert s[i+1..] == t[i..];
    }
  }

  class DatabaseManager {
    /** The keys of the bucket dict in insertion order. */
    var order: seq<string>
    var buckets: map<string, Bucket>
    /** The cached maximum job id; 0 means the cache is cold. */
    var maxId: nat

    /** Bucket `name` holds a job with id `jobId`. */
    predicate Holds(name: string, jobId: int)
      reads this`buckets, buckets.Values`jobs
    {
      name in buckets && jobId in buckets[name].jobs
    }

    /** The job ids each bucket holds, by bucket key. */
    ghost function Ids(): IdMap
      reads this`buckets, buckets.Values`jobs
    {
      map n | n in buckets :: buckets[n].jobs.Keys
    }

    ghost predicate Valid()
      reads this, buckets.Values`name, buckets.Values`jobs
    {
      && Distinct(order)
      && (forall name :: name in buckets <==> name in order)
      && (forall name :: name in buckets ==> buckets[name].name == name)
      && (maxId != 0 ==> Bounded(Ids(), maxId))
    }

    /** No job id is held by two buckets. */
    ghost predicate UniqueIds()
      reads this`buckets, buckets.Values`jobs
    {
      Disjoint(Ids())
    }

    /** The value `__MAX_ID` yields: the cache, or a fresh scan when it is cold. */
    ghost function MaxIdValue(): nat
      reads this, buckets.Values`jobs
    {
      if maxId != 0 then maxId else MaxOf(Flatten(Ids()))
    }

    /** `has_bucket`: a bucket is stored under the upper-cased name. */
    predicate HasBucket(name: string)
      reads this
    {
      Upper(name) in buckets
    }

    /** Position in `order` of the first bucket, from `i` on, holding `jobId`. */
    ghost function FirstHolderFrom(jobId: int, i: nat): (r: Option<nat>)
      reads this`order, this`buckets, buckets.Values`jobs
      ensures r.Some? ==>
        i <= r.value < |order| && Holds(order[r.value], jobId) &&
        forall j :: i <= j < r.value ==> !Holds(order[j], jobId)
      ensures r.None? ==> forall j :: i <= j < |order| ==> !Holds(order[j], jobId)
      decreases |order| - i
    {
      if i >= |order| then None
      else if Holds(order[i], jobId) then Some(i)
      else FirstHolderFrom(jobId, i + 1)
    }

    /** The job `find_job_in_all_buckets` returns: from the first bucket holding the id. */
    ghost function FindJob(jobId: int): Option<Job>
      reads this`order, this`buckets, buckets.Values`jobs
    {
      match FirstHolderFrom(jobId, 0)
      case None => None
      case Some(i) => Some(buckets[order[i]].jobs[jobId])
    }

    ghost function FoundSet(jobId: int): set<Job>
      reads this`order, this`buckets, buckets.Values`jobs
    {
      match FindJob(jobId)
      case None => {}
      case Some(j) => {j}
    }

    ghost function HolderSet(jobId: int): set<Bucket>
      reads this`order, this`buckets, buckets.Values`jobs
    {
      match FirstHolderFrom(jobId, 0)
      case None => {}
      case Some(i) => {buckets[order[i]]}
    }

    /** The bucket stored under `key`, if any, as a frame. */
    ghost function KeySet(key: string): set<Bucket>
      reads this`buckets
    {
      if key in buckets then {buckets[key]} else {}
    }

    /** The bucket `name` resolves to, if any, as a frame. */
    ghost function BucketSet(name: string): set<Bucket>
      reads this`buckets
    {
      KeySet(Upper(name))
    }

    /** The database as found in storage; the id cache starts cold. */
    constructor (order: seq<string>, buckets: map<string, Bucket>)
      requires Distinct(order)
      requires forall name :: name in buckets <==> name in order
      requires forall name :: name in buckets ==> buckets[name].name == name
      ensures Valid()
      ensures this.order == order && this.buckets == buckets && maxId == 0
    {
      this.order := order;
      this.buckets := buckets;
      maxId := 0;
    }

    /**
     * `create_bucket`: refuses a name that is not purely alphabetic, then a
     * name whose upper-case form is taken; otherwise adds exactly one empty
     * bucket, keyed and named by the upper-cased name, at the end of the
     * dict order.
     */
    method CreateBucket(name: string, desc: string) returns (r: Reply)
      requires Valid()
      modifies this
      ensures Valid()
      ensures !IsAlpha(name) ==> r == Fail(InvalidBucketName) && unchanged(this)
      ensures IsAlpha(name) && old(HasBucket(name)) ==> r == Fail(BucketNameExists) && unchanged(this)
      ensures IsAlpha(name) && !old(HasBucket(name)) ==>
        && r == Ok
        && Upper(name) in buckets
        && fresh(buckets[Upper(name)])
        && buckets == old(buckets)[Upper(name) := buckets[Upper(name)]]
        && order == old(order) + [Upper(name)]
        && maxId == old(maxId)
        && buckets[Upper(name)].name == Upper(name)
        && IsAlpha(Upper(name)) && IsUpper(Upper(name))
        && buckets[Upper(name)].desc == desc
        && buckets[Upper(name)].jobs == map[]
      ensures r == Ok ==> forall s :: Upper(s) == Upper(name) ==> HasBucket(s)
      ensures old(UniqueIds()) ==> UniqueIds()
    {
      if !IsAlpha(name) {
        return Fail(InvalidBucketName);
      }
      if HasBucket(name) {
        return Fail(BucketNameExists);
      }
      UpperIdempotent(name);
      AddBucket(Upper(name), desc);
      r := Ok;
    }

    /** Stores a new empty bucket under an upper-case key not yet taken, at the end of the order. */
    method AddBucket(key: string, desc: string)
      requires Valid() && key !in buckets && Upper(key) == key
      modifies this
      ensures Valid()
      ensures key in buckets && fresh(buckets[key])
      ensures buckets == old(buckets)[key := buckets[key]]
      ensures order == old(order) + [key] && maxId == old(maxId)
      ensures buckets[key].name == key && buckets[key].desc == desc && buckets[key].jobs == map[]
      ensures old(UniqueIds()) ==> UniqueIds()
    {
      ghost var ids := Ids();
      var bucket := new Bucket(key, desc);
      AppendDistinct(order, key);
      buckets := buckets[key := bucket];
      order := order + [key];
      SameIds(Ids(), ids[key := {}]);
      AddEmptyBucket(ids, key, maxId);
    }

    /**
     * `delete_bucket`: refuses a name with no bucket; otherwise removes
     * exactly the key `name.upper()`, with the jobs it holds, and nothing else.
     */
    method DeleteBucket(name: string) returns (r: Reply)
      requires Valid()
      modifies this
      ensures Valid()
      ensures !old(HasBucket(name)) ==> r == Fail(InvalidBucket) && unchanged(this)
      ensures old(HasBucket(name)) ==>
        && r == Ok
        && buckets == old(buckets) - {Upper(name)}
        && order == Without(old(order), Upper(name))
        && maxId == old(maxId)
      ensures !HasBucket(name)
      ensures old(UniqueIds()) ==> UniqueIds()
    {
      if !HasBucket(name) {
        return Fail(InvalidBucket);
      }
      var key := Upper(name);
      buckets := buckets - {key};
      order := Without(order, key);
      assert Ids() == old(Ids()) - {key};
      DropBucket(old(Ids()), key, maxId);
      r := Ok;
    }

    /**
     * `__MAX_ID`: a warm cache is returned as it is; a cold one is first
     * filled by scanning every job id of every bucket, keeping the largest
     * one above 0.
     */
    method MaxId() returns (m: nat)
      requires Valid()
      modifies this`maxId
      ensures Valid()
      ensures m == maxId == old(MaxIdValue())
      ensures old(maxId) != 0 ==> maxId == old(maxId)
      ensures old(maxId) <= maxId
      ensures Bounded(Ids(), m)
    {
      ghost var ids := Ids();
      if maxId == 0 {
        var i := 0;
        while i < |order|
          invariant i <= |order|
          invariant forall j, jobId :: 0 <= j < i && jobId in ids[order[j]] ==> jobId <= maxId
          invariant maxId == 0 || exists n :: n in ids && maxId in ids[n]
        {
          var bucket := buckets[order[i]];
          var pending := bucket.jobs.Keys;
          while pending != {}
            invariant pending <= ids[order[i]]
            invariant forall jobId :: jobId in ids[order[i]] && jobId !in pending ==> jobId <= maxId
            invariant forall j, jobId :: 0 <= j < i && jobId in ids[order[j]] ==> jobId <= maxId
            invariant maxId == 0 || exists n :: n in ids && maxId in ids[n]
            decreases pending
          {
            EmptyOrMember(pending);
            var jobId :| jobId in pending;
            if jobId > maxId {
              maxId := jobId;
            }
            pending := pending - {jobId};
          }
          i := i + 1;
        }
        forall n, jobId | n in ids && jobId in ids[n] ensures jobId <= maxId {
          var j :| 0 <= j < |order| && order[j] == n;
        }
        ScanIsMax(ids, maxId);
      } else {
        MaxBounds(ids, maxId);
      }
      m := maxId;
    }

    /** `find_job_in_all_buckets`: the job from the first bucket, in dict order, holding the id. */
    method FindJobInAllBuckets(jobId: int) returns (r: Option<Job>)
      requires Valid()
      ensures r == FindJob(jobId)
      ensures r.None? <==> forall name :: !Holds(name, jobId)
      ensures r.Some? ==> exists name :: Holds(name, jobId) && r.value == buckets[name].jobs[jobId]
    {
      var i := 0;
      while i < |order|
        invariant i <= |order|
        invariant forall j :: 0 <= j < i ==> !Holds(order[j], jobId)
      {
        var bucket := buckets[order[i]];
        if jobId in bucket.jobs {
          return Some(bucket.jobs[jobId]);
        }
        i := i + 1;
      }
      return None;
    }

    /**
     * `create_job`: refuses a missing bucket before touching the id cache;
     * reads `__MAX_ID` (warming a cold cache) BEFORE refusing a missing
     * source; otherwise adds to the bucket a new job whose id is one above
     * the cached maximum, with the source as its only source, owner 0 and a
     * single comment of visibility 0 from the source, and makes that id the
     * new cached maximum. The id is above every id in the store, so the
     * bucket never refuses it.
     */
    method CreateJob(bucketName: string, source: Option<int>, title: string, comment: string,
                     sentAt: int, openedAt: int) returns (r: Reply)
      requires Valid()
      modifies this`maxId, BucketSet(bucketName)`jobs
      ensures Valid()
      ensures order == old(order) && buckets == old(buckets)
      ensures old(maxId) <= maxId
      ensures old(UniqueIds()) ==> UniqueIds()
      ensures !old(HasBucket(bucketName)) ==> r == Fail(InvalidBucket) && maxId == old(maxId)
      ensures old(HasBucket(bucketName)) && source.None? ==>
        && r == Fail(InvalidSource)
        && maxId == old(MaxIdValue())
        && buckets[Upper(bucketName)].jobs == old(buckets[Upper(bucketName)].jobs)
        && Ids() == old(Ids())
      ensures old(HasBucket(bucketName)) && source.Some? ==>
        && r == Ok
        && maxId == old(MaxIdValue()) + 1
        && (forall n :: n in old(Ids()) ==> maxId !in old(Ids())[n])
        && Ids() == old(Ids())[Upper(bucketName) := old(Ids())[Upper(bucketName)] + {maxId}]
        && var job := buckets[Upper(bucketName)].jobs[maxId];
           && buckets[Upper(bucketName)].jobs == old(buckets[Upper(bucketName)].jobs)[maxId := job]
           && fresh(job)
           && job.HasFields(maxId, title, [Comment(comment, 0, source.value, sentAt)], 0, openedAt, [source.value])
    {
      if !HasBucket(bucketName) {
        return Fail(InvalidBucket);
      }
      ghost var ids := Ids();
      var top := MaxId();
      assert Ids() == ids;
      var id := top + 1;
      if source.None? {
        return Fail(InvalidSource);
      }
      r := AddNewJob(Upper(bucketName), id, title, comment, source.value, sentAt, openedAt);
    }

    /**
     * The `try` block of `create_job`: builds the job and adds it to the
     * bucket under `key`, then caches its id as the maximum. An id above
     * every id in the store is never refused by the bucket.
     */
    method AddNewJob(key: string, id: nat, title: string, comment: string, source: int,
                     sentAt: int, openedAt: int) returns (r: Reply)
      requires Valid() && key in buckets && id > 0 && Bounded(Ids(), id - 1)
      modifies this`maxId, KeySet(key)`jobs
      ensures Valid()
      ensures r == Ok && maxId == id
      ensures order == old(order) && buckets == old(buckets)
      ensures old(UniqueIds()) ==> UniqueIds()
      ensures forall n :: n in old(Ids()) ==> id !in old(Ids())[n]
      ensures Ids() == old(Ids())[key := old(Ids())[key] + {id}]
      ensures var job := buckets[key].jobs[id];
        && buckets[key].jobs == old(buckets[key].jobs)[id := job]
        && fresh(job)
        && job.HasFields(id, title, [Comment(comment, 0, source, sentAt)], 0, openedAt, [source])
    {
      ghost var ids := Ids();
      var bucket := buckets[key];
      var job := new Job(id, title, [Comment(comment, 0, source, sentAt)], 0, openedAt, [source]);
      AddAboveBound(ids, key, id - 1);
      var _ := bucket.AddJob(job);
      maxId := id;
      forall n | n in buckets ensures Ids()[n] == ids[key := ids[key] + {id}][n] {
        if n != key {
          assert buckets[n] != bucket;
        }
      }
      SameIds(Ids(), ids[key := ids[key] + {id}]);
      r := Ok;
    }

    /**
     * `delete_job`: removes the id from the first bucket, in dict order,
     * that holds it, or refuses an id no bucket holds. When ids are unique
     * across buckets no bucket holds the id afterwards; the cached maximum
     * is untouched, so a warm cache never hands the id out again.
     */
    method DeleteJob(jobId: int) returns (r: Reply)
      requires Valid()
      modifies HolderSet(jobId)`jobs
      ensures Valid()
      ensures order == old(order) && buckets == old(buckets) && maxId == old(maxId)
      ensures old(FirstHolderFrom(jobId, 0)).None? ==> r == Fail(InvalidJobId) && Ids() == old(Ids())
      ensures old(FirstHolderFrom(jobId, 0)).Some? ==>
        && r == Ok
        && var key := order[old(FirstHolderFrom(jobId, 0)).value];
           && buckets[key].jobs == old(buckets[key].jobs) - {jobId}
           && Ids() == old(Ids())[key := old(Ids())[key] - {jobId}]
      ensures r == Ok <==> exists name :: old(Holds(name, jobId))
      ensures r == Ok && maxId != 0 ==> jobId <= maxId
      ensures old(UniqueIds()) ==> UniqueIds() && forall name :: !Holds(name, jobId)
    {
      var i := 0;
      while i < |order| && jobId !in buckets[order[i]].jobs
        invariant i <= |order|
        invariant forall j :: 0 <= j < i ==> !Holds(order[j], jobId)
      {
        i := i + 1;
      }
      if i == |order| {
        forall name | name in buckets ensures !Holds(name, jobId) {
          var j :| 0 <= j < |order| && order[j] == name;
        }
        return Fail(InvalidJobId);
      }
      assert FirstHolderFrom(jobId, 0) == Some(i);
      ghost var ids := Ids();
      var key := order[i];
      var _ := buckets[key].DelJob(jobId);
      forall n | n in buckets ensures Ids()[n] == ids[key := ids[key] - {jobId}][n] {
        if n != key {
          assert buckets[n] != buckets[key];
        }
      }
      SameIds(Ids(), ids[key := ids[key] - {jobId}]);
      RemoveId(ids, key, jobId, maxId);
      r := Ok;
    }

    /**
     * `delete_job` with the id cache filled first, as `create_job` does: the
     * deleted id is at most the cached maximum, which the deletion leaves in
     * place, so the next job created is given a larger id.
     */
    method DeleteJobWarm(jobId: int) returns (r: Reply)
      requires Valid()
      modifies this`maxId, HolderSet(jobId)`jobs
      ensures Valid()
      ensures order == old(order) && buckets == old(buckets) && maxId == old(MaxIdValue())
      ensures r == Ok <==> exists name :: old(Holds(name, jobId))
      ensures r == Ok ==> Ids() == old(Ids())[order[old(FirstHolderFrom(jobId, 0)).value] :=
                                              old(Ids())[order[old(FirstHolderFrom(jobId, 0)).value]] - {jobId}]
      ensures r == Ok ==>
        var key := order[old(FirstHolderFrom(jobId, 0)).value];
        buckets[key].jobs == old(buckets[key].jobs) - {jobId}
      ensures r.Fail? ==> r == Fail(InvalidJobId) && Ids() == old(Ids())
      ensures r == Ok ==> jobId <= MaxIdValue()
      ensures old(UniqueIds()) ==> UniqueIds() && forall name :: !Holds(name, jobId)
    {
      ghost var ids := Ids();
      ghost var holder := FirstHolderFrom(jobId, 0);
      var top := MaxId();
      assert Ids() == ids && FirstHolderFrom(jobId, 0) == holder;
      r := DeleteJob(jobId);
      if r == Ok {
        assert jobId in ids[order[holder.value]];
        assert jobId <= top;
      }
    }

    /**
     * The manager's `add_comment`: refuses a missing source, then an id no
     * bucket holds; otherwise appends one comment at the end of the found
     * job's list, every other job and every bucket staying as they were.
     */
    method AddComment(jobId: int, text: string, source: Option<int>, vis: int, sentAt: int)
      returns (r: Reply)
      requires Valid()
      modifies FoundSet(jobId)`comments
      ensures Valid()
      ensures source.None? ==> r == Fail(InvalidSource)
      ensures source.Some? && old(FindJob(jobId)).None? ==> r == Fail(InvalidJobId)
      ensures source.Some? && old(FindJob(jobId)).Some? ==>
        && r == Ok
        && var job := old(FindJob(jobId)).value;
           job.comments == old(job.comments) + [Comment(text, vis, source.value, sentAt)]
      ensures r.Fail? ==> forall job :: job in old(FoundSet(jobId)) ==> job.comments == old(job.comments)
    {
      if source.None? {
        return Fail(InvalidSource);
      }
      var job := FindJobInAllBuckets(jobId);
      if job.None? {
        return Fail(InvalidJobId);
      }
      var _ := job.value.AddComment(Comment(text, vis, source.value, sentAt));
      r := Ok;
    }

    /**
     * The manager's `delete_comment`, indices as written: an id no bucket
     * holds is refused; otherwise the comment list of the found job ends up
     * as `CommentDeletion.DeleteAsWritten` describes.
     */
    method DeleteComment(jobId: int, commentId: int) returns (r: Reply)
      requires Valid()
      modifies FoundSet(jobId)`comments
      ensures Valid()
      ensures old(FindJob(jobId)).None? ==> r == Fail(InvalidJobId)
      ensures old(FindJob(jobId)).Some? ==>
        var job := old(FindJob(jobId)).value;
        (r, job.comments) == CommentDeletion.DeleteAsWritten(old(job.comments), commentId)
    {
      var job := FindJobInAllBuckets(jobId);
      if job.None? {
        return Fail(InvalidJobId);
      }
      var j := job.value;
      if PyIndex(commentId - 1, |j.comments|).None? {
        return Fail(CommentDeletion.ListIndexOutOfRange);
      }
      var _ := j.DeleteComment(commentId);
      r := Ok;
    }

    /**
     * `delete_comment` with the numbering its validation step intends: the
     * comment numbered `commentId` (position `commentId - 1`) is deleted and
     * any other number is refused, as `CommentDeletion.DeleteByNumber` says.
     */
    method DeleteCommentByNumber(jobId: int, commentId: int) returns (r: Reply)
      requires Valid()
      modifies FoundSet(jobId)`comments
      ensures Valid()
      ensures old(FindJob(jobId)).None? ==> r == Fail(InvalidJobId)
      ensures old(FindJob(jobId)).Some? ==>
        var job := old(FindJob(jobId)).value;
        (r, job.comments) == CommentDeletion.DeleteByNumber(old(job.comments), commentId)
    {
      var job := FindJobInAllBuckets(jobId);
      if job.None? {
        return Fail(InvalidJobId);
      }
      var j := job.value;
      if !(1 <= commentId <= |j.comments|) {
        return Fail(CommentDeletion.InvalidCommentNumber);
      }
      var _ := j.DeleteComment(commentId - 1);
      r := Ok;
    }
  }
}
