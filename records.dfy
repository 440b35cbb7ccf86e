/**
 * The three records of the jobs store: a comment, a job (ticket) that owns
 * a list of comments, and a bucket (category) that owns a map of jobs.
 * Players are identified by their integer object id; timestamps are opaque
 * integers supplied by the caller.
 */
module JobsRecords {
  import opened PyText

  /** The `(bool, str)` pair every store operation returns; `(True, "")` is Ok. */
  datatype Reply = Ok | Fail(msg: string)

  const InvalidCommentId := "#-1 INVALID COMMENT ID"
  const JobIdAlreadyExists := "#-1 JOB ID ALREADY EXISTS"
  const JobIdDoesNotExist := "#-1 JOB ID DOES NOT EXIST"
  /** `str(e)` of the IndexError raised by `del lst[i]` out of range. */
  const AssignmentIndexOutOfRange := "list assignment index out of range"

  /** One remark on a job; visibility 0 is public. */
  datatype Comment = Comment(text: string, visibility: int, rawSource: int, rawSent: int)

  /**
   * What `JobsJob.delete_comment(index)` returns and leaves behind, the
   * returned None standing for Python's implicit None on success: an index at
   * or past the end is refused, an index before the start raises IndexError
   * (caught into a failure), and any other index, negative ones counted from
   * the end, removes exactly that one comment.
   */
  function PositionalDelete(cs: seq<Comment>, index: int): (r: (Option<Reply>, seq<Comment>))
    ensures |cs| <= index ==> r == (Some(Fail(InvalidCommentId)), cs)
    ensures index < -|cs| ==> r == (Some(Fail(AssignmentIndexOutOfRange)), cs)
    ensures -|cs| <= index < |cs| ==>
      r.0 == None && |r.1| == |cs| - 1 &&
      exists k :: 0 <= k < |cs| && (k == index || k == |cs| + index) && r.1 == RemoveAt(cs, k)
  {
    if |cs| <= index then (Some(Fail(InvalidCommentId)), cs)
    else match PyIndex(index, |cs|)
      case None => (Some(Fail(AssignmentIndexOutOfRange)), cs)
      case Some(k) => (None, RemoveAt(cs, k))
  }

  /** A ticket: `JobsJob`. */
  class Job {
    var id: int
    var title: string
    var comments: seq<Comment>
    var rawOwner: int
    var rawOpenedOn: int
    var rawSources: seq<int>

    /** The job's fields hold exactly these values. */
    predicate HasFields(id: int, title: string, comments: seq<Comment>, rawOwner: int,
                        rawOpenedOn: int, rawSources: seq<int>)
      reads this
    {
      && this.id == id && this.title == title && this.comments == comments
      && this.rawOwner == rawOwner && this.rawOpenedOn == rawOpenedOn
      && this.rawSources == rawSources
    }

    constructor (id: int, title: string, comments: seq<Comment>, rawOwner: int,
                 rawOpenedOn: int, rawSources: seq<int>)
      ensures HasFields(id, title, comments, rawOwner, rawOpenedOn, rawSources)
    {
      this.id := id;
      this.title := title;
      this.comments := comments;
      this.rawOwner := rawOwner;
      this.rawOpenedOn := rawOpenedOn;
      this.rawSources := rawSources;
    }

    /** The `owner` setter: stores the player's id and nothing else. */
    method SetOwner(ownerId: int)
      modifies this`rawOwner
      ensures rawOwner == ownerId
    {
      rawOwner := ownerId;
    }

    /** Replaces the source list wholesale by the given players' ids. */
    method UpdateSources(sourceIds: seq<int>)
      modifies this`rawSources
      ensures rawSources == sourceIds
    {
      rawSources := sourceIds;
    }

    /** Appends the comment at the end; earlier comments keep their positions. */
    method AddComment(c: Comment) returns (r: Reply)
      modifies this`comments
      ensures r == Ok
      ensures comments == old(comments) + [c]
    {
      comments := comments + [c];
      r := Ok;
    }

    /** Deletes by list position, as `del self.comments[index]` does. */
    method DeleteComment(index: int) returns (r: Option<Reply>)
      modifies this`comments
      ensures (r, comments) == PositionalDelete(old(comments), index)
    {
      if |comments| <= index {
        return Some(Fail(InvalidCommentId));
      }
      var k := PyIndex(index, |comments|);
      if k.None? {
        return Some(Fail(AssignmentIndexOutOfRange));
      }
      comments := RemoveAt(comments, k.value);
      r := None;
    }

    /** True exactly when the player's id is among the job's sources. */
    method IsSource(target: int) returns (found: bool)
      ensures found <==> target in rawSources
    {
      var i := 0;
      while i < |rawSources|
        invariant 0 <= i <= |rawSources|
        invariant target !in rawSources[..i]
      {
        if rawSources[i] == target {
          return true;
        }
        i := i + 1;
      }
      return false;
    }
  }

  /** A named category of jobs: `JobsBucket`. */
  class Bucket {
    var name: string
    var desc: string
    var jobs: map<int, Job>

    /** The name is stored upper-cased; the bucket starts with no jobs. */
    constructor (name: string, desc: string)
      ensures this.name == Upper(name) && IsUpper(this.name)
      ensures this.desc == desc && jobs == map[]
    {
      this.name := Upper(name);
      this.desc := desc;
      jobs := map[];
    }

    /** Inserts the job under its own id unless that id is already taken. */
    method AddJob(job: Job) returns (r: Reply)
      modifies this`jobs
      ensures job.id in old(jobs) ==> r == Fail(JobIdAlreadyExists) && jobs == old(jobs)
      ensures job.id !in old(jobs) ==> r == Ok && jobs == old(jobs)[job.id := job]
      ensures job.id in jobs && jobs.Keys == old(jobs).Keys + {job.id}
    {
      if job.id in jobs {
        return Fail(JobIdAlreadyExists);
      }
      jobs := jobs[job.id := job];
      r := Ok;
    }

    /** Removes the job with the given id, or refuses an id the bucket does not hold. */
    method DelJob(jobId: int) returns (r: Reply)
      modifies this`jobs
      ensures jobId !in old(jobs) ==> r == Fail(JobIdDoesNotExist) && jobs == old(jobs)
      ensures jobId in old(jobs) ==> r == Ok && jobs == old(jobs) - {jobId}
      ensures jobId !in jobs && jobs.Keys == old(jobs).Keys - {jobId}
    {
      if jobId !in jobs {
        return Fail(JobIdDoesNotExist);
      }
      jobs := jobs - {jobId};
      r := Ok;
    }
  }
}
