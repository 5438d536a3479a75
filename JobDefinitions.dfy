/** The job-definition service as its tests describe it. Job definitions are
    not stored on their own: a pipeline definition holds an ordered sequence of
    stage definitions and each stage definition an ordered sequence of job
    definitions, and the service reads and rewrites them inside the stored
    pipelines. Every operation is a function from the pipeline store to a
    result and, for the writes, the new store. */
module JobDefinitions {
  import opened Common

  datatype JobDefinition = JobDefinition(id: Id, name: string, pipelineDefinitionId: Id, stageDefinitionId: Id)

  datatype StageDefinition = StageDefinition(id: Id, name: string, pipelineDefinitionId: Id,
                                             jobDefinitions: seq<JobDefinition>)

  datatype PipelineDefinition = PipelineDefinition(id: Id, name: string, stageDefinitions: seq<StageDefinition>)

  /** What a ServiceResult of this service carries. */
  datatype JobPayload = JobObject(job: JobDefinition) | JobsObject(jobs: seq<JobDefinition>)

  /** The result of a write and the pipeline store after it. */
  datatype Transition = Transition(result: ServiceResult<JobPayload>, store: seq<PipelineDefinition>)

  const NotFoundMessage := "JobDefinition not found."
  const ExistingNameMessage := "JobDefinition with the same name exists."
  const RetrievedMessage := "JobDefinitions retrieved successfully."
  const DeletedMessage := "JobDefinition deleted successfully."
  /** The tests never reach a missing stage or pipeline; these two replies are this model's choice. */
  const StageNotFoundMessage := "StageDefinition not found."
  const PipelineNotFoundMessage := "PipelineDefinition not found."

  function RetrievedOne(id: Id): string { "JobDefinition " + id + " retrieved successfully." }
  function Added(id: Id): string { "JobDefinition " + id + " added successfully." }
  function Updated(id: Id): string { "JobDefinition " + id + " updated successfully." }

  // ---------------------------------------------------------------------
  // Traversals.

  /** The job lists of the stages, concatenated in stage order. */
  function JobsOfStages(stages: seq<StageDefinition>): seq<JobDefinition> {
    if stages == [] then [] else stages[0].jobDefinitions + JobsOfStages(stages[1..])
  }

  /** Every embedded job of every pipeline, in store order. */
  function AllJobs(ps: seq<PipelineDefinition>): seq<JobDefinition> {
    if ps == [] then [] else JobsOfStages(ps[0].stageDefinitions) + AllJobs(ps[1..])
  }

  lemma {:induction false} JobsOfStagesConcat(a: seq<StageDefinition>, b: seq<StageDefinition>)
    ensures JobsOfStages(a + b) == JobsOfStages(a) + JobsOfStages(b)
  {
    if a == [] {
      assert a + b == b;
    } else {
      assert (a + b)[0] == a[0];
      assert (a + b)[1..] == a[1..] + b;
      JobsOfStagesConcat(a[1..], b);
    }
  }

  /** A job is among a pipeline's jobs exactly when one of its stages holds it. */
  lemma {:induction false} JobsOfStagesMember(stages: seq<StageDefinition>, j: JobDefinition)
    ensures j in JobsOfStages(stages) <==> exists k :: 0 <= k < |stages| && j in stages[k].jobDefinitions
  {
    if stages != [] {
      JobsOfStagesMember(stages[1..], j);
      if j in JobsOfStages(stages[1..]) {
        var k :| 0 <= k < |stages| - 1 && j in stages[1..][k].jobDefinitions;
        assert j in stages[k + 1].jobDefinitions;
      }
      if j !in stages[0].jobDefinitions && exists k :: 0 <= k < |stages| && j in stages[k].jobDefinitions {
        var k :| 0 <= k < |stages| && j in stages[k].jobDefinitions;
        assert k != 0 && j in stages[1..][k - 1].jobDefinitions;
      }
    }
  }

  /** The list written out n times, one copy after another. */
  function Repeat(jobs: seq<JobDefinition>, n: nat): (r: seq<JobDefinition>)
    ensures |r| == n * |jobs|
  {
    if n == 0 then [] else jobs + Repeat(jobs, n - 1)
  }

  /** When every stage holds the same list, the pipeline lists it once per stage. */
  lemma {:induction false} JobsOfStagesShared(stages: seq<StageDefinition>, jobs: seq<JobDefinition>)
    requires forall k :: 0 <= k < |stages| ==> stages[k].jobDefinitions == jobs
    ensures JobsOfStages(stages) == Repeat(jobs, |stages|)
    ensures |JobsOfStages(stages)| == |stages| * |jobs|
  {
    if stages != [] {
      JobsOfStagesShared(stages[1..], jobs);
    }
  }

  /** The first job with that id, or null. */
  function FirstJob(jobs: seq<JobDefinition>, id: Id): (r: Option<JobDefinition>)
    ensures r.Some? ==> r.value in jobs && r.value.id == id
    ensures r.Some? ==> exists k :: 0 <= k < |jobs| && jobs[k] == r.value && forall k' :: 0 <= k' < k ==> jobs[k'].id != id
    ensures r.None? <==> forall j :: j in jobs ==> j.id != id
  {
    if jobs == [] then None
    else if jobs[0].id == id then Some(jobs[0])
    else
      var r := FirstJob(jobs[1..], id);
      assert forall k :: 1 <= k < |jobs| ==> jobs[k] == jobs[1..][k - 1];
      r
  }

  /** The first pipeline with that id, or null. */
  function FindPipeline(ps: seq<PipelineDefinition>, pid: Id): (r: Option<PipelineDefinition>)
    ensures r.Some? ==> r.value in ps && r.value.id == pid
    ensures r.Some? ==> exists k :: 0 <= k < |ps| && ps[k] == r.value && forall k' :: 0 <= k' < k ==> ps[k'].id != pid
    ensures r.None? <==> forall p :: p in ps ==> p.id != pid
  {
    if ps == [] then None
    else if ps[0].id == pid then Some(ps[0])
    else
      var r := FindPipeline(ps[1..], pid);
      assert forall k :: 1 <= k < |ps| ==> ps[k] == ps[1..][k - 1];
      r
  }

  /** The first stage with that id, or null. */
  function StageById(stages: seq<StageDefinition>, sid: Id): (r: Option<StageDefinition>)
    ensures r.Some? ==> r.value in stages && r.value.id == sid
    ensures r.Some? ==> exists k :: 0 <= k < |stages| && stages[k] == r.value
                                    && forall k' :: 0 <= k' < k ==> stages[k'].id != sid
    ensures r.None? <==> forall s :: s in stages ==> s.id != sid
  {
    if stages == [] then None
    else if stages[0].id == sid then Some(stages[0])
    else
      var r := StageById(stages[1..], sid);
      assert forall k :: 1 <= k < |stages| ==> stages[k] == stages[1..][k - 1];
      r
  }

  /** The stage a job's back-references name: stage sid of pipeline pid. */
  function FindStage(ps: seq<PipelineDefinition>, pid: Id, sid: Id): Option<StageDefinition> {
    match FindPipeline(ps, pid)
    case None => None
    case Some(p) => StageById(p.stageDefinitions, sid)
  }

  /** The first stage with that id in any pipeline, or null. */
  function FindStageIn(ps: seq<PipelineDefinition>, sid: Id): (r: Option<StageDefinition>)
    ensures r.Some? ==> r.value.id == sid
    ensures r.Some? ==> exists k :: 0 <= k < |ps| && StageById(ps[k].stageDefinitions, sid) == r
                                    && forall k' :: 0 <= k' < k ==> StageById(ps[k'].stageDefinitions, sid).None?
    ensures r.None? <==> forall k :: 0 <= k < |ps| ==> StageById(ps[k].stageDefinitions, sid).None?
  {
    FindStageFrom(ps, sid, 0)
  }

  /** The scan behind FindStageIn, from pipeline i on. */
  function FindStageFrom(ps: seq<PipelineDefinition>, sid: Id, i: nat): (r: Option<StageDefinition>)
    requires i <= |ps|
    ensures r.Some? ==> r.value.id == sid
    ensures r.Some? ==> exists k :: i <= k < |ps| && StageById(ps[k].stageDefinitions, sid) == r
                                    && forall k' :: i <= k' < k ==> StageById(ps[k'].stageDefinitions, sid).None?
    ensures r.None? <==> forall k :: i <= k < |ps| ==> StageById(ps[k].stageDefinitions, sid).None?
    decreases |ps| - i
  {
    if i == |ps| then None
    else if StageById(ps[i].stageDefinitions, sid).Some? then StageById(ps[i].stageDefinitions, sid)
    else
      var r := FindStageFrom(ps, sid, i + 1);
      assert r.Some? ==> exists k :: i <= k < |ps| && StageById(ps[k].stageDefinitions, sid) == r
                                     && forall k' :: i <= k' < k ==> StageById(ps[k'].stageDefinitions, sid).None? by {
        if r.Some? {
          var k :| i + 1 <= k < |ps| && StageById(ps[k].stageDefinitions, sid) == r
                   && forall k' :: i + 1 <= k' < k ==> StageById(ps[k'].stageDefinitions, sid).None?;
          assert forall k' :: i <= k' < k ==> StageById(ps[k'].stageDefinitions, sid).None?;
        }
      }
      r
  }

  // ---------------------------------------------------------------------
  // Rewriting one stage's job list inside the store.

  /** The stages with the first stage of id sid given the job list `jobs`. */
  function SetStageJobs(stages: seq<StageDefinition>, sid: Id, jobs: seq<JobDefinition>): (r: seq<StageDefinition>)
    ensures |r| == |stages|
    ensures forall k :: 0 <= k < |stages| ==> r[k].id == stages[k].id
  {
    if stages == [] then []
    else if stages[0].id == sid then [stages[0].(jobDefinitions := jobs)] + stages[1..]
    else [stages[0]] + SetStageJobs(stages[1..], sid, jobs)
  }

  /** The store with stage sid of the first pipeline of id pid given the job list `jobs`. */
  function SetJobs(ps: seq<PipelineDefinition>, pid: Id, sid: Id, jobs: seq<JobDefinition>): (r: seq<PipelineDefinition>)
    ensures |r| == |ps|
    ensures forall k :: 0 <= k < |ps| ==> r[k].id == ps[k].id
  {
    if ps == [] then []
    else if ps[0].id == pid then
      [ps[0].(stageDefinitions := SetStageJobs(ps[0].stageDefinitions, sid, jobs))] + ps[1..]
    else [ps[0]] + SetJobs(ps[1..], pid, sid, jobs)
  }

  lemma {:induction false} StageByIdAfterSet(stages: seq<StageDefinition>, sid: Id, jobs: seq<JobDefinition>, sid': Id)
    ensures StageById(SetStageJobs(stages, sid, jobs), sid') ==
            if sid' == sid then
              (match StageById(stages, sid) case None => None case Some(s) => Some(s.(jobDefinitions := jobs)))
            else StageById(stages, sid')
  {
    if stages != [] && stages[0].id != sid && stages[0].id != sid' {
      StageByIdAfterSet(stages[1..], sid, jobs, sid');
    } else if stages != [] && stages[0].id != sid {
      // stages[0] has id sid' and is the answer on both sides
    } else if stages != [] && stages[0].id == sid && sid' != sid {
      assert SetStageJobs(stages, sid, jobs)[1..] == stages[1..];
    }
  }

  lemma {:induction false} FindPipelineAfterSet(ps: seq<PipelineDefinition>, pid: Id, sid: Id, jobs: seq<JobDefinition>, pid': Id)
    ensures FindPipeline(SetJobs(ps, pid, sid, jobs), pid') ==
            if pid' == pid then
              (match FindPipeline(ps, pid)
               case None => None
               case Some(p) => Some(p.(stageDefinitions := SetStageJobs(p.stageDefinitions, sid, jobs))))
            else FindPipeline(ps, pid')
  {
    if ps != [] && ps[0].id != pid && ps[0].id != pid' {
      FindPipelineAfterSet(ps[1..], pid, sid, jobs, pid');
    } else if ps != [] && ps[0].id == pid && pid' != pid {
      assert SetJobs(ps, pid, sid, jobs)[1..] == ps[1..];
    }
  }

  /** Rewriting a stage that exists: that stage now holds the new list. */
  lemma SetJobsHits(ps: seq<PipelineDefinition>, pid: Id, sid: Id, jobs: seq<JobDefinition>)
    requires FindStage(ps, pid, sid).Some?
    ensures FindStage(SetJobs(ps, pid, sid, jobs), pid, sid) == Some(FindStage(ps, pid, sid).value.(jobDefinitions := jobs))
  {
    FindPipelineAfterSet(ps, pid, sid, jobs, pid);
    StageByIdAfterSet(FindPipeline(ps, pid).value.stageDefinitions, sid, jobs, sid);
  }

  /** Rewriting a stage leaves every other stage as it was. */
  lemma SetJobsFrame(ps: seq<PipelineDefinition>, pid: Id, sid: Id, jobs: seq<JobDefinition>, pid': Id, sid': Id)
    requires pid' != pid || sid' != sid
    ensures FindStage(SetJobs(ps, pid, sid, jobs), pid', sid') == FindStage(ps, pid', sid')
  {
    FindPipelineAfterSet(ps, pid, sid, jobs, pid');
    if pid' == pid && FindPipeline(ps, pid).Some? {
      StageByIdAfterSet(FindPipeline(ps, pid).value.stageDefinitions, sid, jobs, sid');
    }
  }

  lemma {:induction false} StageJobsInAll(stages: seq<StageDefinition>, sid: Id, j: JobDefinition)
    requires StageById(stages, sid).Some? && j in StageById(stages, sid).value.jobDefinitions
    ensures j in JobsOfStages(stages)
  {
    if stages[0].id != sid {
      StageJobsInAll(stages[1..], sid, j);
    }
  }

  /** The jobs of any stage the back-references reach are embedded jobs. */
  lemma {:induction false} FindStageInAll(ps: seq<PipelineDefinition>, pid: Id, sid: Id, j: JobDefinition)
    requires FindStage(ps, pid, sid).Some? && j in FindStage(ps, pid, sid).value.jobDefinitions
    ensures j in AllJobs(ps)
  {
    if ps[0].id == pid {
      StageJobsInAll(ps[0].stageDefinitions, sid, j);
    } else {
      FindStageInAll(ps[1..], pid, sid, j);
    }
  }

  lemma {:induction false} SetStageJobsSource(stages: seq<StageDefinition>, sid: Id, jobs: seq<JobDefinition>, j: JobDefinition)
    requires j in JobsOfStages(SetStageJobs(stages, sid, jobs))
    ensures j in JobsOfStages(stages) || j in jobs
  {
    if stages != [] {
      if stages[0].id == sid {
        assert SetStageJobs(stages, sid, jobs) == [stages[0].(jobDefinitions := jobs)] + stages[1..];
        assert JobsOfStages(SetStageJobs(stages, sid, jobs)) == jobs + JobsOfStages(stages[1..]);
      } else {
        assert SetStageJobs(stages, sid, jobs)[1..] == SetStageJobs(stages[1..], sid, jobs);
        if j !in stages[0].jobDefinitions {
          SetStageJobsSource(stages[1..], sid, jobs, j);
        }
      }
    }
  }

  /** After a rewrite, every embedded job was embedded before or is in the new list. */
  lemma {:induction false} SetJobsSource(ps: seq<PipelineDefinition>, pid: Id, sid: Id, jobs: seq<JobDefinition>, j: JobDefinition)
    requires j in AllJobs(SetJobs(ps, pid, sid, jobs))
    ensures j in AllJobs(ps) || j in jobs
  {
    if ps != [] {
      var r := SetJobs(ps, pid, sid, jobs);
      if ps[0].id == pid {
        assert r[1..] == ps[1..];
        if j in JobsOfStages(r[0].stageDefinitions) {
          SetStageJobsSource(ps[0].stageDefinitions, sid, jobs, j);
        }
      } else {
        assert r[1..] == SetJobs(ps[1..], pid, sid, jobs);
        if j !in JobsOfStages(ps[0].stageDefinitions) {
          SetJobsSource(ps[1..], pid, sid, jobs, j);
        }
      }
    }
  }

  // ---------------------------------------------------------------------
  // Sibling names and edits of one job list.

  predicate NameTaken(jobs: seq<JobDefinition>, name: string) {
    exists j :: j in jobs && j.name == name
  }

  /** A sibling other than the job itself (another id) already has its name. */
  predicate NameTakenByOther(jobs: seq<JobDefinition>, job: JobDefinition) {
    exists j :: j in jobs && j.name == job.name && j.id != job.id
  }

  /** The list with every job of job.id replaced by job. */
  function ReplaceJob(jobs: seq<JobDefinition>, job: JobDefinition): (r: seq<JobDefinition>)
    ensures |r| == |jobs|
    ensures forall k :: 0 <= k < |jobs| ==> r[k] == if jobs[k].id == job.id then job else jobs[k]
    ensures forall j :: j in r <==> (j in jobs && j.id != job.id) || (j == job && FirstJob(jobs, job.id).Some?)
    ensures FirstJob(jobs, job.id).None? ==> r == jobs
  {
    seq(|jobs|, k requires 0 <= k < |jobs| => if jobs[k].id == job.id then job else jobs[k])
  }

  /** The list without the jobs of that id, the others in order. */
  function RemoveJob(jobs: seq<JobDefinition>, id: Id): (r: seq<JobDefinition>)
    ensures forall j :: j in r <==> j in jobs && j.id != id
  {
    if jobs == [] then []
    else (if jobs[0].id == id then [] else [jobs[0]]) + RemoveJob(jobs[1..], id)
  }

  /** A job is replaced only where its id stood: a list holding it yields it first. */
  lemma {:induction false} FirstJobAfterReplace(jobs: seq<JobDefinition>, job: JobDefinition)
    requires FirstJob(jobs, job.id).Some?
    ensures FirstJob(ReplaceJob(jobs, job), job.id) == Some(job)
  {
    if jobs[0].id != job.id {
      ReplaceJobTail(jobs, job);
      FirstJobAfterReplace(jobs[1..], job);
    }
  }

  lemma ReplaceJobTail(jobs: seq<JobDefinition>, job: JobDefinition)
    requires jobs != []
    ensures ReplaceJob(jobs, job)[0] == (if jobs[0].id == job.id then job else jobs[0])
    ensures ReplaceJob(jobs, job)[1..] == ReplaceJob(jobs[1..], job)
  {
    var r, t := ReplaceJob(jobs, job), ReplaceJob(jobs[1..], job);
    assert |r[1..]| == |t|;
    forall k | 0 <= k < |t| ensures r[1..][k] == t[k] {
      assert jobs[1..][k] == jobs[k + 1];
    }
  }

  // ---------------------------------------------------------------------
  // The service.

  /** getById: the first embedded job with that id, or the not-found error. */
  function GetById(ps: seq<PipelineDefinition>, id: Id): (r: ServiceResult<JobPayload>)
    ensures !r.error <==> exists j :: j in AllJobs(ps) && j.id == id
    ensures !r.error ==> r.entity.Some? && r.entity.value.JobObject? && r.entity.value.job in AllJobs(ps)
                         && r.entity.value.job.id == id && r.message == RetrievedOne(id)
    ensures r.error ==> r == ServiceResult(None, true, NotFoundMessage)
  {
    match FirstJob(AllJobs(ps), id)
    case None => ServiceResult(None, true, NotFoundMessage)
    case Some(j) => ServiceResult(Some(JobObject(j)), false, RetrievedOne(id))
  }

  /** getAll: every embedded job of every pipeline, in store order. */
  function GetAll(ps: seq<PipelineDefinition>): (r: ServiceResult<JobPayload>)
    ensures !r.error && r.message == RetrievedMessage && r.entity.Some? && r.entity.value.JobsObject?
    ensures forall j :: j in r.entity.value.jobs <==> exists k :: 0 <= k < |ps| && j in JobsOfStages(ps[k].stageDefinitions)
  {
    assert forall j :: j in AllJobs(ps) <==> exists k :: 0 <= k < |ps| && j in JobsOfStages(ps[k].stageDefinitions) by {
      forall j ensures j in AllJobs(ps) <==> exists k :: 0 <= k < |ps| && j in JobsOfStages(ps[k].stageDefinitions) {
        AllJobsMember(ps, j);
      }
    }
    ServiceResult(Some(JobsObject(AllJobs(ps))), false, RetrievedMessage)
  }

  /** getAllInStage: the job list of the first stage with that id. */
  function GetAllInStage(ps: seq<PipelineDefinition>, sid: Id): (r: ServiceResult<JobPayload>)
    ensures !r.error <==> FindStageIn(ps, sid).Some?
    ensures !r.error ==> r == ServiceResult(Some(JobsObject(FindStageIn(ps, sid).value.jobDefinitions)), false, RetrievedMessage)
  {
    match FindStageIn(ps, sid)
    case None => ServiceResult(None, true, StageNotFoundMessage)
    case Some(s) => ServiceResult(Some(JobsObject(s.jobDefinitions)), false, RetrievedMessage)
  }

  /** getAllInPipeline: the job lists of all the pipeline's stages, concatenated in stage order. */
  function GetAllInPipeline(ps: seq<PipelineDefinition>, pid: Id): (r: ServiceResult<JobPayload>)
    ensures !r.error <==> FindPipeline(ps, pid).Some?
    ensures r.error ==> r.entity.None?
  {
    match FindPipeline(ps, pid)
    case None => ServiceResult(None, true, PipelineNotFoundMessage)
    case Some(p) => ServiceResult(Some(JobsObject(JobsOfStages(p.stageDefinitions))), false, RetrievedMessage)
  }

  /** add: the job joins the end of the list of the stage its back-references
      name, unless a sibling already has its name. */
  function AddJob(ps: seq<PipelineDefinition>, job: JobDefinition): (t: Transition)
    ensures t.result.error ==> t.store == ps
    ensures t.result.entity.Some? ==> t.result.entity.value == JobObject(job)
  {
    match FindStage(ps, job.pipelineDefinitionId, job.stageDefinitionId)
    case None => Transition(ServiceResult(None, true, StageNotFoundMessage), ps)
    case Some(s) =>
      if NameTaken(s.jobDefinitions, job.name) then
        Transition(ServiceResult(Some(JobObject(job)), true, ExistingNameMessage), ps)
      else
        Transition(ServiceResult(Some(JobObject(job)), false, Added(job.id)),
                   SetJobs(ps, job.pipelineDefinitionId, job.stageDefinitionId, s.jobDefinitions + [job]))
  }

  /** update: the stored job of the id is found by scanning; in the stage its
      stored back-references name, the job replaces it, unless another
      sibling already has the new name. */
  function UpdateJob(ps: seq<PipelineDefinition>, job: JobDefinition): (t: Transition)
    ensures t.result.error ==> t.store == ps
    ensures t.result.entity.Some? ==> t.result.entity.value == JobObject(job)
  {
    match FirstJob(AllJobs(ps), job.id)
    case None => Transition(ServiceResult(None, true, NotFoundMessage), ps)
    case Some(stored) =>
      match FindStage(ps, stored.pipelineDefinitionId, stored.stageDefinitionId)
      case None => Transition(ServiceResult(None, true, StageNotFoundMessage), ps)
      case Some(s) =>
        if NameTakenByOther(s.jobDefinitions, job) then
          Transition(ServiceResult(Some(JobObject(job)), true, ExistingNameMessage), ps)
        else
          Transition(ServiceResult(Some(JobObject(job)), false, Updated(job.id)),
                     SetJobs(ps, stored.pipelineDefinitionId, stored.stageDefinitionId, ReplaceJob(s.jobDefinitions, job)))
  }

  /** delete: the stored job is found by id; it is removed from the stage
      its stored back-references name. */
  function DeleteJob(ps: seq<PipelineDefinition>, id: Id): (t: Transition)
    ensures t.result.error ==> t.store == ps
    ensures t.result.entity.None?
  {
    match FirstJob(AllJobs(ps), id)
    case None => Transition(ServiceResult(None, true, NotFoundMessage), ps)
    case Some(j) =>
      match FindStage(ps, j.pipelineDefinitionId, j.stageDefinitionId)
      case None => Transition(ServiceResult(None, true, StageNotFoundMessage), ps)
      case Some(s) =>
        Transition(ServiceResult(None, false, DeletedMessage),
                   SetJobs(ps, j.pipelineDefinitionId, j.stageDefinitionId, RemoveJob(s.jobDefinitions, id)))
  }

  // ---------------------------------------------------------------------
  // What the tests rely on, for every store.

  /** A job is embedded exactly when some pipeline lists it. */
  lemma {:induction false} AllJobsMember(ps: seq<PipelineDefinition>, j: JobDefinition)
    ensures j in AllJobs(ps) <==> exists k :: 0 <= k < |ps| && j in JobsOfStages(ps[k].stageDefinitions)
  {
    if ps != [] {
      AllJobsMember(ps[1..], j);
      if j in AllJobs(ps[1..]) {
        var k :| 0 <= k < |ps| - 1 && j in JobsOfStages(ps[1..][k].stageDefinitions);
        assert ps[1..][k] == ps[k + 1];
      }
      if (exists k :: 0 <= k < |ps| && j in JobsOfStages(ps[k].stageDefinitions)) && j !in JobsOfStages(ps[0].stageDefinitions) {
        var k :| 0 <= k < |ps| && j in JobsOfStages(ps[k].stageDefinitions);
        assert ps[k] == ps[1..][k - 1];
      }
    }
  }

  /** getAllInPipeline returns the pipeline's stages' lists concatenated: a job is
      in the answer exactly when one of the pipeline's stages holds it, and the
      answer's length is the sum of the lists' lengths. */
  lemma GetAllInPipelineConcatenates(ps: seq<PipelineDefinition>, pid: Id, j: JobDefinition)
    requires FindPipeline(ps, pid).Some?
    ensures var stages := FindPipeline(ps, pid).value.stageDefinitions;
            var r := GetAllInPipeline(ps, pid);
            && r == ServiceResult(Some(JobsObject(JobsOfStages(stages))), false, RetrievedMessage)
            && (j in r.entity.value.jobs <==> exists k :: 0 <= k < |stages| && j in stages[k].jobDefinitions)
            && (|stages| > 0 ==>
                  r.entity.value.jobs == JobsOfStages(stages[..|stages| - 1]) + stages[|stages| - 1].jobDefinitions)
  {
    var stages := FindPipeline(ps, pid).value.stageDefinitions;
    JobsOfStagesMember(stages, j);
    if |stages| > 0 {
      assert stages == stages[..|stages| - 1] + [stages[|stages| - 1]];
      JobsOfStagesConcat(stages[..|stages| - 1], [stages[|stages| - 1]]);
      assert JobsOfStages([stages[|stages| - 1]]) == stages[|stages| - 1].jobDefinitions;
    }
  }

  /** getAll lists each pipeline's getAllInPipeline answer in store order: the
      listing of a split store is the listings of its parts, concatenated, and
      a single pipeline's listing is its getAllInPipeline list. */
  lemma {:induction false} GetAllConcatenates(ps: seq<PipelineDefinition>, qs: seq<PipelineDefinition>)
    ensures GetAll(ps + qs).entity.value.jobs == GetAll(ps).entity.value.jobs + GetAll(qs).entity.value.jobs
    ensures |ps| == 1 ==> GetAll(ps).entity.value.jobs == GetAllInPipeline(ps, ps[0].id).entity.value.jobs
  {
    if ps == [] {
      assert ps + qs == qs;
    } else {
      assert (ps + qs)[0] == ps[0];
      assert (ps + qs)[1..] == ps[1..] + qs;
      GetAllConcatenates(ps[1..], qs);
      if |ps| == 1 {
        assert ps[1..] == [];
      }
    }
  }

  /** When all embedded jobs of an id are the same job, getById returns that job. */
  lemma GetByIdEmbedded(ps: seq<PipelineDefinition>, job: JobDefinition)
    requires job in AllJobs(ps)
    requires forall j :: j in AllJobs(ps) && j.id == job.id ==> j == job
    ensures GetById(ps, job.id) == ServiceResult(Some(JobObject(job)), false, RetrievedOne(job.id))
  {
  }

  /** add succeeds exactly when the named stage exists and no sibling has the
      name; then that stage holds its old list followed by the job, every
      other stage is unchanged, and a job of a fresh id is found by getById. */
  lemma AddJobOutcome(ps: seq<PipelineDefinition>, job: JobDefinition, pid': Id, sid': Id)
    ensures var t := AddJob(ps, job);
            var s := FindStage(ps, job.pipelineDefinitionId, job.stageDefinitionId);
            && (!t.result.error <==> s.Some? && !NameTaken(s.value.jobDefinitions, job.name))
            && (t.result.error ==> t.store == ps)
            && (s.Some? && NameTaken(s.value.jobDefinitions, job.name) ==>
                  t.result == ServiceResult(Some(JobObject(job)), true, ExistingNameMessage))
            && (!t.result.error ==>
                  && t.result == ServiceResult(Some(JobObject(job)), false, Added(job.id))
                  && FindStage(t.store, job.pipelineDefinitionId, job.stageDefinitionId)
                     == Some(s.value.(jobDefinitions := s.value.jobDefinitions + [job]))
                  && ((pid' != job.pipelineDefinitionId || sid' != job.stageDefinitionId) ==>
                        FindStage(t.store, pid', sid') == FindStage(ps, pid', sid'))
                  && ((forall j :: j in AllJobs(ps) ==> j.id != job.id) ==>
                        GetById(t.store, job.id) == ServiceResult(Some(JobObject(job)), false, RetrievedOne(job.id))))
  {
    var pid, sid := job.pipelineDefinitionId, job.stageDefinitionId;
    var s := FindStage(ps, pid, sid);
    if s.Some? && !NameTaken(s.value.jobDefinitions, job.name) {
      var jobs := s.value.jobDefinitions + [job];
      var store := SetJobs(ps, pid, sid, jobs);
      SetJobsHits(ps, pid, sid, jobs);
      if pid' != pid || sid' != sid {
        SetJobsFrame(ps, pid, sid, jobs, pid', sid');
      }
      if forall j :: j in AllJobs(ps) ==> j.id != job.id {
        AddedJobFound(ps, job);
      }
    }
  }

  /** A job of a fresh id, once added to an existing stage, is the only job of its id. */
  lemma AddedJobFound(ps: seq<PipelineDefinition>, job: JobDefinition)
    requires FindStage(ps, job.pipelineDefinitionId, job.stageDefinitionId).Some?
    requires forall j :: j in AllJobs(ps) ==> j.id != job.id
    ensures var pid, sid := job.pipelineDefinitionId, job.stageDefinitionId;
            var store := SetJobs(ps, pid, sid, FindStage(ps, pid, sid).value.jobDefinitions + [job]);
            GetById(store, job.id) == ServiceResult(Some(JobObject(job)), false, RetrievedOne(job.id))
  {
    var pid, sid := job.pipelineDefinitionId, job.stageDefinitionId;
    var s := FindStage(ps, pid, sid).value;
    var jobs := s.jobDefinitions + [job];
    var store := SetJobs(ps, pid, sid, jobs);
    SetJobsHits(ps, pid, sid, jobs);
    FindStageInAll(store, pid, sid, job);
    forall j | j in AllJobs(store) && j.id == job.id ensures j == job {
      SetJobsSource(ps, pid, sid, jobs, j);
      if j in s.jobDefinitions {
        FindStageInAll(ps, pid, sid, j);
      }
    }
    GetByIdEmbedded(store, job);
  }

  /** update succeeds exactly when a job of the id is embedded, its stored
      back-references name an existing stage and no other sibling there has
      the new name; then that stage's list has the job wherever the id stood,
      and every other stage is unchanged. */
  lemma UpdateJobOutcome(ps: seq<PipelineDefinition>, job: JobDefinition, pid': Id, sid': Id)
    ensures var t := UpdateJob(ps, job);
            var stored := FirstJob(AllJobs(ps), job.id);
            && (stored.None? ==> t.result == ServiceResult(None, true, NotFoundMessage))
            && (t.result.error ==> t.store == ps)
            && (stored.Some? ==>
                  var pid := stored.value.pipelineDefinitionId;
                  var sid := stored.value.stageDefinitionId;
                  var s := FindStage(ps, pid, sid);
                  && (!t.result.error <==> s.Some? && !NameTakenByOther(s.value.jobDefinitions, job))
                  && (s.Some? && NameTakenByOther(s.value.jobDefinitions, job) ==>
                        t.result == ServiceResult(Some(JobObject(job)), true, ExistingNameMessage))
                  && (!t.result.error ==>
                        && t.result == ServiceResult(Some(JobObject(job)), false, Updated(job.id))
                        && FindStage(t.store, pid, sid) == Some(s.value.(jobDefinitions := ReplaceJob(s.value.jobDefinitions, job)))
                        && (FirstJob(s.value.jobDefinitions, job.id).Some? ==>
                              FirstJob(ReplaceJob(s.value.jobDefinitions, job), job.id) == Some(job))
                        && ((pid' != pid || sid' != sid) ==> FindStage(t.store, pid', sid') == FindStage(ps, pid', sid'))))
  {
    var stored := FirstJob(AllJobs(ps), job.id);
    if stored.Some? {
      var pid, sid := stored.value.pipelineDefinitionId, stored.value.stageDefinitionId;
      var s := FindStage(ps, pid, sid);
      if s.Some? && !NameTakenByOther(s.value.jobDefinitions, job) {
        var jobs := ReplaceJob(s.value.jobDefinitions, job);
        SetJobsHits(ps, pid, sid, jobs);
        if FirstJob(s.value.jobDefinitions, job.id).Some? {
          FirstJobAfterReplace(s.value.jobDefinitions, job);
        }
        if pid' != pid || sid' != sid {
          SetJobsFrame(ps, pid, sid, jobs, pid', sid');
        }
      }
    }
  }

  /** delete succeeds exactly when a job of that id is embedded and its stored
      back-references name an existing stage; then that stage holds no job of
      the id, keeps its other jobs, and every other stage is unchanged. */
  lemma DeleteJobOutcome(ps: seq<PipelineDefinition>, id: Id, pid': Id, sid': Id)
    ensures var t := DeleteJob(ps, id);
            var stored := FirstJob(AllJobs(ps), id);
            && (!t.result.error <==>
                  (stored.Some? && FindStage(ps, stored.value.pipelineDefinitionId, stored.value.stageDefinitionId).Some?))
            && (t.result.error ==> t.store == ps && t.result.entity.None?)
            && (stored.None? ==> t.result == ServiceResult(None, true, NotFoundMessage))
            && (!t.result.error ==>
                  var pid := stored.value.pipelineDefinitionId;
                  var sid := stored.value.stageDefinitionId;
                  var s := FindStage(ps, pid, sid).value;
                  && t.result == ServiceResult(None, false, DeletedMessage)
                  && FindStage(t.store, pid, sid).Some?
                  && (forall j :: j in FindStage(t.store, pid, sid).value.jobDefinitions <==>
                                  j in s.jobDefinitions && j.id != id)
                  && ((pid' != pid || sid' != sid) ==> FindStage(t.store, pid', sid') == FindStage(ps, pid', sid')))
  {
    var stored := FirstJob(AllJobs(ps), id);
    if stored.Some? {
      var pid, sid := stored.value.pipelineDefinitionId, stored.value.stageDefinitionId;
      if FindStage(ps, pid, sid).Some? {
        var jobs := RemoveJob(FindStage(ps, pid, sid).value.jobDefinitions, id);
        SetJobsHits(ps, pid, sid, jobs);
        if pid' != pid || sid' != sid {
          SetJobsFrame(ps, pid, sid, jobs, pid', sid');
        }
      }
    }
  }

  // ---------------------------------------------------------------------
  // The test fixture: n stages named "stage<i>", and m jobs named "job<j>"
  // created per stage, all appended to ONE list that every stage is given.

  function DigitChar(d: nat): char
    requires d < 10
  {
    "0123456789"[d]
  }

  /** Java's decimal rendering of a non-negative int, as in "job" + j. */
  function NatToString(n: nat): (s: string)
    ensures |s| > 0
    decreases n
  {
    if n < 10 then [DigitChar(n)] else NatToString(n / 10) + [DigitChar(n % 10)]
  }

  /** The jobs created for one stage, in creation order. */
  function FixtureRow(pid: Id, sid: Id, jobIds: seq<Id>): (r: seq<JobDefinition>)
    ensures |r| == |jobIds|
  {
    if jobIds == [] then []
    else FixtureRow(pid, sid, jobIds[..|jobIds| - 1])
         + [JobDefinition(jobIds[|jobIds| - 1], "job" + NatToString(|jobIds| - 1), pid, sid)]
  }

  /** The shared list once every stage has appended its jobs. */
  function FixtureJobs(pid: Id, stageIds: seq<Id>, jobIds: seq<seq<Id>>): seq<JobDefinition>
    requires |jobIds| == |stageIds|
  {
    if stageIds == [] then []
    else FixtureJobs(pid, stageIds[..|stageIds| - 1], jobIds[..|jobIds| - 1])
         + FixtureRow(pid, stageIds[|stageIds| - 1], jobIds[|jobIds| - 1])
  }

  /** The pipeline the fixture stores: stage i has id stageIds[i] and is given the whole shared list. */
  function FixturePipeline(pid: Id, stageIds: seq<Id>, jobIds: seq<seq<Id>>): PipelineDefinition
    requires |jobIds| == |stageIds|
  {
    var all := FixtureJobs(pid, stageIds, jobIds);
    PipelineDefinition(pid, "mockedPipelineDefinition",
      seq(|stageIds|, i requires 0 <= i < |stageIds| => StageDefinition(stageIds[i], "stage" + NatToString(i), pid, all)))
  }

  /** Every job list has m ids. */
  predicate Rectangular(jobIds: seq<seq<Id>>, m: nat) {
    forall i :: 0 <= i < |jobIds| ==> |jobIds[i]| == m
  }

  /** The list the fixture's stages share. */
  class JobList {
    var items: seq<JobDefinition>

    constructor ()
      ensures items == []
    {
      items := [];
    }
  }

  /** A stage under construction: its job list is a reference. */
  datatype StageDraft = StageDraft(id: Id, name: string, pipelineDefinitionId: Id, jobDefinitions: JobList)

  /** The stages as persisting the pipeline writes them: each with the current contents of its list. */
  function Persist(drafts: seq<StageDraft>): (r: seq<StageDefinition>)
    reads set d | d in drafts :: d.jobDefinitions
    ensures |r| == |drafts|
    ensures forall k :: 0 <= k < |drafts| ==>
              r[k] == StageDefinition(drafts[k].id, drafts[k].name, drafts[k].pipelineDefinitionId, drafts[k].jobDefinitions.items)
  {
    if drafts == [] then []
    else [StageDefinition(drafts[0].id, drafts[0].name, drafts[0].pipelineDefinitionId, drafts[0].jobDefinitions.items)]
         + Persist(drafts[1..])
  }

  /** The inner loop: stage sid's jobs appended to the shared list. */
  method AppendStageJobs(jobDefinitions: JobList, pid: Id, sid: Id, jobIds: seq<Id>, numberOfJobsToAdd: nat)
    requires |jobIds| == numberOfJobsToAdd
    modifies jobDefinitions
    ensures jobDefinitions.items == old(jobDefinitions.items) + FixtureRow(pid, sid, jobIds)
  {
    for j := 0 to numberOfJobsToAdd
      invariant jobDefinitions.items == old(jobDefinitions.items) + FixtureRow(pid, sid, jobIds[..j])
    {
      assert jobIds[..j + 1][..j] == jobIds[..j];
      jobDefinitions.items := jobDefinitions.items + [JobDefinition(jobIds[j], "job" + NatToString(j), pid, sid)];
    }
    assert jobIds[..|jobIds|] == jobIds;
  }

  /** injectDataForTestingStageDefinitionService: the nested loops that build
      the fixture pipeline; the ids the entity constructors draw are inputs. */
  method InjectFixture(pid: Id, stageIds: seq<Id>, jobIds: seq<seq<Id>>, numberOfJobsToAdd: nat)
    returns (pipeline: PipelineDefinition)
    requires |jobIds| == |stageIds| && Rectangular(jobIds, numberOfJobsToAdd)
    ensures pipeline == FixturePipeline(pid, stageIds, jobIds)
  {
    var stageDefinitions: seq<StageDraft> := [];
    var jobDefinitions := new JobList();
    for i := 0 to |stageIds|
      invariant |stageDefinitions| == i
      invariant jobDefinitions.items == FixtureJobs(pid, stageIds[..i], jobIds[..i])
      invariant forall k :: 0 <= k < i ==> stageDefinitions[k] == FixtureDraft(pid, stageIds, k, jobDefinitions)
    {
      var stageDefinition := StageDraft(stageIds[i], "stage" + NatToString(i), pid, jobDefinitions);
      AppendStageJobs(jobDefinitions, pid, stageIds[i], jobIds[i], numberOfJobsToAdd);
      FixtureJobsStep(pid, stageIds, jobIds, i);
      stageDefinitions := stageDefinitions + [stageDefinition];
    }
    assert stageIds[..|stageIds|] == stageIds && jobIds[..|jobIds|] == jobIds;
    pipeline := PipelineDefinition(pid, "mockedPipelineDefinition", Persist(stageDefinitions));
  }

  /** The draft of stage k: its list is the shared one. */
  function FixtureDraft(pid: Id, stageIds: seq<Id>, k: nat, jobDefinitions: JobList): StageDraft
    requires k < |stageIds|
  {
    StageDraft(stageIds[k], "stage" + NatToString(k), pid, jobDefinitions)
  }

  lemma FixtureJobsStep(pid: Id, stageIds: seq<Id>, jobIds: seq<seq<Id>>, i: nat)
    requires |jobIds| == |stageIds| && i < |stageIds|
    ensures FixtureJobs(pid, stageIds[..i + 1], jobIds[..i + 1])
            == FixtureJobs(pid, stageIds[..i], jobIds[..i]) + FixtureRow(pid, stageIds[i], jobIds[i])
  {
    assert stageIds[..i + 1][..i] == stageIds[..i] && jobIds[..i + 1][..i] == jobIds[..i];
  }

  lemma {:induction false} FixtureRowAt(pid: Id, sid: Id, jobIds: seq<Id>, j: nat)
    requires j < |jobIds|
    ensures FixtureRow(pid, sid, jobIds)[j] == JobDefinition(jobIds[j], "job" + NatToString(j), pid, sid)
  {
    if j < |jobIds| - 1 {
      FixtureRowAt(pid, sid, jobIds[..|jobIds| - 1], j);
    }
  }

  lemma RectangularPrefix(jobIds: seq<seq<Id>>, m: nat, k: nat)
    requires Rectangular(jobIds, m) && k <= |jobIds|
    ensures Rectangular(jobIds[..k], m)
  {
    var prefix := jobIds[..k];
    forall i | 0 <= i < k ensures |prefix[i]| == m {
      assert prefix[i] == jobIds[i];
    }
  }

  lemma {:induction false} FixtureJobsLength(pid: Id, stageIds: seq<Id>, jobIds: seq<seq<Id>>, m: nat)
    requires |jobIds| == |stageIds| && Rectangular(jobIds, m)
    ensures |FixtureJobs(pid, stageIds, jobIds)| == |stageIds| * m
  {
    var n := |stageIds|;
    if n != 0 {
      var stagePrefix, idsPrefix := stageIds[..n - 1], jobIds[..n - 1];
      RectangularPrefix(jobIds, m, n - 1);
      FixtureJobsLength(pid, stagePrefix, idsPrefix, m);
      assert FixtureJobs(pid, stageIds, jobIds)
             == FixtureJobs(pid, stagePrefix, idsPrefix) + FixtureRow(pid, stageIds[n - 1], jobIds[n - 1]);
      MulSucc(n - 1, m);
    }
  }

  lemma MulSucc(k: nat, m: nat)
    ensures (k + 1) * m == k * m + m
  {
  }

  lemma {:induction false} MulMono(a: nat, b: nat, m: nat)
    requires a <= b
    ensures a * m <= b * m
    decreases b - a
  {
    if a < b {
      MulMono(a, b - 1, m);
      MulSucc(b - 1, m);
    }
  }

  lemma MulStep(i: nat, n: nat, m: nat, j: nat)
    requires i < n && j < m
    ensures i * m + j < n * m
  {
    MulSucc(i, m);
    MulMono(i + 1, n, m);
  }

  /** Job j of stage i sits at position i*m + j of the shared list. */
  lemma {:induction false} FixtureJobsAt(pid: Id, stageIds: seq<Id>, jobIds: seq<seq<Id>>, m: nat, i: nat, j: nat)
    requires |jobIds| == |stageIds| && Rectangular(jobIds, m)
    requires i < |stageIds| && j < m
    ensures i * m + j < |FixtureJobs(pid, stageIds, jobIds)|
    ensures FixtureJobs(pid, stageIds, jobIds)[i * m + j]
            == JobDefinition(jobIds[i][j], "job" + NatToString(j), pid, stageIds[i])
  {
    var n := |stageIds|;
    FixtureJobsLength(pid, stageIds, jobIds, m);
    MulStep(i, n, m, j);
    FixtureJobsLength(pid, stageIds[..n - 1], jobIds[..n - 1], m);
    if i == n - 1 {
      FixtureRowAt(pid, stageIds[n - 1], jobIds[n - 1], j);
    } else {
      MulStep(i, n - 1, m, j);
      FixtureJobsAt(pid, stageIds[..n - 1], jobIds[..n - 1], m, i, j);
    }
  }

  /** Job j of stage i is in the shared list. */
  lemma FixtureJobIn(pid: Id, stageIds: seq<Id>, jobIds: seq<seq<Id>>, m: nat, i: nat, j: nat)
    requires |jobIds| == |stageIds| && Rectangular(jobIds, m)
    requires i < |stageIds| && j < m
    ensures JobDefinition(jobIds[i][j], "job" + NatToString(j), pid, stageIds[i]) in FixtureJobs(pid, stageIds, jobIds)
  {
    var k := i * m + j;
    FixtureJobsAt(pid, stageIds, jobIds, m, i, j);
    assert FixtureJobs(pid, stageIds, jobIds)[k] == JobDefinition(jobIds[i][j], "job" + NatToString(j), pid, stageIds[i]);
  }

  /** Every fixture job names the fixture pipeline and one of its stages, and is called "job<j>". */
  lemma {:induction false} FixtureJobsShape(pid: Id, stageIds: seq<Id>, jobIds: seq<seq<Id>>, job: JobDefinition)
    requires |jobIds| == |stageIds|
    requires job in FixtureJobs(pid, stageIds, jobIds)
    ensures job.pipelineDefinitionId == pid && job.stageDefinitionId in stageIds
    ensures |job.name| > 3 && job.name[..3] == "job"
  {
    var n := |stageIds|;
    if job in FixtureRow(pid, stageIds[n - 1], jobIds[n - 1]) {
      var j :| 0 <= j < |jobIds[n - 1]| && FixtureRow(pid, stageIds[n - 1], jobIds[n - 1])[j] == job;
      FixtureRowAt(pid, stageIds[n - 1], jobIds[n - 1], j);
    } else {
      FixtureJobsShape(pid, stageIds[..n - 1], jobIds[..n - 1], job);
    }
  }

  lemma FixturePipelineStages(pid: Id, stageIds: seq<Id>, jobIds: seq<seq<Id>>, sid: Id)
    requires |jobIds| == |stageIds| && sid in stageIds
    ensures FindStage([FixturePipeline(pid, stageIds, jobIds)], pid, sid)
            == StageById(FixturePipeline(pid, stageIds, jobIds).stageDefinitions, sid)
    ensures StageById(FixturePipeline(pid, stageIds, jobIds).stageDefinitions, sid).Some?
    ensures StageById(FixturePipeline(pid, stageIds, jobIds).stageDefinitions, sid).value.jobDefinitions
            == FixtureJobs(pid, stageIds, jobIds)
  {
    var stages := FixturePipeline(pid, stageIds, jobIds).stageDefinitions;
    var k :| 0 <= k < |stageIds| && stageIds[k] == sid;
    assert stages[k] in stages && stages[k].id == sid;
  }

  /** The counts the tests assert: every stage holds n*m jobs (25 for n = m = 5),
      the pipeline n*n*m (125), and getAll over the store of that one pipeline as many. */
  lemma FixtureCounts(pid: Id, stageIds: seq<Id>, jobIds: seq<seq<Id>>, m: nat, sid: Id)
    requires |jobIds| == |stageIds| && Rectangular(jobIds, m) && sid in stageIds
    ensures var ps := [FixturePipeline(pid, stageIds, jobIds)];
            && GetAllInStage(ps, sid).entity.Some?
            && |GetAllInStage(ps, sid).entity.value.jobs| == |stageIds| * m
            && |GetAllInPipeline(ps, pid).entity.value.jobs| == |stageIds| * (|stageIds| * m)
            && GetAll(ps).entity == GetAllInPipeline(ps, pid).entity
    ensures |stageIds| == 5 && m == 5 ==>
              |GetAllInStage([FixturePipeline(pid, stageIds, jobIds)], sid).entity.value.jobs| == 25
              && |GetAll([FixturePipeline(pid, stageIds, jobIds)]).entity.value.jobs| == 125
  {
    var p := FixturePipeline(pid, stageIds, jobIds);
    var all := FixtureJobs(pid, stageIds, jobIds);
    FixtureJobsLength(pid, stageIds, jobIds, m);
    FixturePipelineStages(pid, stageIds, jobIds, sid);
    JobsOfStagesShared(p.stageDefinitions, all);
    assert AllJobs([p]) == JobsOfStages(p.stageDefinitions) by {
      assert [p][1..] == [];
    }
  }

  /** add_existingObject: adding a job the fixture stored fails on its name. */
  lemma FixtureAddStoredJobFails(pid: Id, stageIds: seq<Id>, jobIds: seq<seq<Id>>, job: JobDefinition)
    requires |jobIds| == |stageIds|
    requires job in FixtureJobs(pid, stageIds, jobIds)
    ensures AddJob([FixturePipeline(pid, stageIds, jobIds)], job).result
            == ServiceResult(Some(JobObject(job)), true, ExistingNameMessage)
  {
    FixtureJobsShape(pid, stageIds, jobIds, job);
    FixturePipelineStages(pid, stageIds, jobIds, job.stageDefinitionId);
  }

  /** add_validObject: a job named "fakeObject" for a fixture stage is added. */
  lemma FixtureAddFreshNameSucceeds(pid: Id, stageIds: seq<Id>, jobIds: seq<seq<Id>>, job: JobDefinition)
    requires |jobIds| == |stageIds|
    requires job.name == "fakeObject" && job.pipelineDefinitionId == pid && job.stageDefinitionId in stageIds
    ensures AddJob([FixturePipeline(pid, stageIds, jobIds)], job).result
            == ServiceResult(Some(JobObject(job)), false, Added(job.id))
  {
    FixturePipelineStages(pid, stageIds, jobIds, job.stageDefinitionId);
    assert job.name[..3] == "fak";
    FixtureNameFree(pid, stageIds, jobIds, job.name);
  }

  /** No fixture job has a name that does not start with "job", such as
      "fakeObject" or "NameNotPresent": they are all called "job<j>". */
  lemma FixtureNameFree(pid: Id, stageIds: seq<Id>, jobIds: seq<seq<Id>>, name: string)
    requires |jobIds| == |stageIds| && |name| >= 3 && name[..3] != "job"
    ensures !NameTaken(FixtureJobs(pid, stageIds, jobIds), name)
  {
    forall j | j in FixtureJobs(pid, stageIds, jobIds) ensures j.name != name {
      FixtureJobsShape(pid, stageIds, jobIds, j);
    }
  }

  /** update_withValidName: a stored job renamed to "NameNotPresent" is updated
      with the updated message for its id, and returned as passed. */
  lemma FixtureUpdateFreshNameSucceeds(pid: Id, stageIds: seq<Id>, jobIds: seq<seq<Id>>, job: JobDefinition)
    requires |jobIds| == |stageIds|
    requires job in FixtureJobs(pid, stageIds, jobIds)
    ensures var renamed := job.(name := "NameNotPresent");
            UpdateJob([FixturePipeline(pid, stageIds, jobIds)], renamed).result
            == ServiceResult(Some(JobObject(renamed)), false, Updated(job.id))
  {
    var ps := [FixturePipeline(pid, stageIds, jobIds)];
    var renamed := job.(name := "NameNotPresent");
    FixtureStoredJob(pid, stageIds, jobIds, job);
    var stored := FirstJob(AllJobs(ps), job.id).value;
    FixturePipelineStages(pid, stageIds, jobIds, stored.stageDefinitionId);
    assert renamed.name[..3] == "Nam";
    FixtureNameFree(pid, stageIds, jobIds, renamed.name);
    assert !NameTakenByOther(FixtureJobs(pid, stageIds, jobIds), renamed);
    UpdateJobOutcome(ps, renamed, pid, stored.stageDefinitionId);
  }

  /** update_withInValidName: because every stage shares the one list, a
      stored job updated under its own name meets another job of that name
      (the one stage i' created) and the update fails, when there are at
      least two stages and the drawn ids are distinct. */
  lemma FixtureUpdateSameNameFails(pid: Id, stageIds: seq<Id>, jobIds: seq<seq<Id>>, m: nat, i: nat, i': nat, j: nat)
    requires |jobIds| == |stageIds| && Rectangular(jobIds, m)
    requires i < |stageIds| && i' < |stageIds| && i != i' && j < m
    requires jobIds[i][j] != jobIds[i'][j]
    ensures var job := JobDefinition(jobIds[i][j], "job" + NatToString(j), pid, stageIds[i]);
            && job in FixtureJobs(pid, stageIds, jobIds)
            && UpdateJob([FixturePipeline(pid, stageIds, jobIds)], job).result
               == ServiceResult(Some(JobObject(job)), true, ExistingNameMessage)
  {
    var all := FixtureJobs(pid, stageIds, jobIds);
    var job := JobDefinition(jobIds[i][j], "job" + NatToString(j), pid, stageIds[i]);
    var other := JobDefinition(jobIds[i'][j], "job" + NatToString(j), pid, stageIds[i']);
    FixtureJobIn(pid, stageIds, jobIds, m, i, j);
    FixtureJobIn(pid, stageIds, jobIds, m, i', j);
    var ps := [FixturePipeline(pid, stageIds, jobIds)];
    FixtureStoredJob(pid, stageIds, jobIds, job);
    var stored := FirstJob(AllJobs(ps), job.id).value;
    FixturePipelineStages(pid, stageIds, jobIds, stored.stageDefinitionId);
    assert NameTakenByOther(all, job);
    UpdateJobOutcome(ps, job, pid, stageIds[i]);
  }

  /** getById_validId: a stored job is returned when the drawn ids are distinct. */
  lemma FixtureGetById(pid: Id, stageIds: seq<Id>, jobIds: seq<seq<Id>>, job: JobDefinition)
    requires |jobIds| == |stageIds| && |stageIds| > 0
    requires job in FixtureJobs(pid, stageIds, jobIds)
    requires forall a, b :: 0 <= a < b < |FixtureJobs(pid, stageIds, jobIds)| ==>
               FixtureJobs(pid, stageIds, jobIds)[a].id != FixtureJobs(pid, stageIds, jobIds)[b].id
    ensures GetById([FixturePipeline(pid, stageIds, jobIds)], job.id)
            == ServiceResult(Some(JobObject(job)), false, RetrievedOne(job.id))
  {
    var p := FixturePipeline(pid, stageIds, jobIds);
    var all := FixtureJobs(pid, stageIds, jobIds);
    assert AllJobs([p]) == JobsOfStages(p.stageDefinitions) by { assert [p][1..] == []; }
    forall x | x in AllJobs([p]) && x.id == job.id ensures x == job {
      JobsOfStagesMember(p.stageDefinitions, x);
      var k :| 0 <= k < |p.stageDefinitions| && x in p.stageDefinitions[k].jobDefinitions;
      var a :| 0 <= a < |all| && all[a] == x;
      var b :| 0 <= b < |all| && all[b] == job;
    }
    JobsOfStagesMember(p.stageDefinitions, job);
    assert job in p.stageDefinitions[0].jobDefinitions;
    GetByIdEmbedded([p], job);
  }

  /** The stored job a fixture job's id finds names the fixture pipeline and one of its stages. */
  lemma FixtureStoredJob(pid: Id, stageIds: seq<Id>, jobIds: seq<seq<Id>>, job: JobDefinition)
    requires |jobIds| == |stageIds|
    requires job in FixtureJobs(pid, stageIds, jobIds)
    ensures var ps := [FixturePipeline(pid, stageIds, jobIds)];
            var stored := FirstJob(AllJobs(ps), job.id);
            && stored.Some? && stored.value.pipelineDefinitionId == pid && stored.value.stageDefinitionId in stageIds
            && FindStage(ps, pid, stored.value.stageDefinitionId).Some?
  {
    var p := FixturePipeline(pid, stageIds, jobIds);
    var ps := [p];
    assert AllJobs(ps) == JobsOfStages(p.stageDefinitions) by { assert ps[1..] == []; }
    FixtureJobsShape(pid, stageIds, jobIds, job);
    FixturePipelineStages(pid, stageIds, jobIds, job.stageDefinitionId);
    var k0 :| 0 <= k0 < |stageIds| && stageIds[k0] == job.stageDefinitionId;
    JobsOfStagesMember(p.stageDefinitions, job);
    assert job in p.stageDefinitions[k0].jobDefinitions;
    var stored := FirstJob(AllJobs(ps), job.id).value;
    JobsOfStagesMember(p.stageDefinitions, stored);
    var k :| 0 <= k < |p.stageDefinitions| && stored in p.stageDefinitions[k].jobDefinitions;
    FixtureJobsShape(pid, stageIds, jobIds, stored);
    FixturePipelineStages(pid, stageIds, jobIds, stored.stageDefinitionId);
  }

  /** delete_validObject: deleting a stored job succeeds with a null object and
      the deleted message, and the stage the stored job names holds no job of the id. */
  lemma FixtureDeleteSucceeds(pid: Id, stageIds: seq<Id>, jobIds: seq<seq<Id>>, job: JobDefinition)
    requires |jobIds| == |stageIds|
    requires job in FixtureJobs(pid, stageIds, jobIds)
    ensures var ps := [FixturePipeline(pid, stageIds, jobIds)];
            var t := DeleteJob(ps, job.id);
            var sid := FirstJob(AllJobs(ps), job.id).value.stageDefinitionId;
            && t.result == ServiceResult(None, false, DeletedMessage)
            && sid in stageIds && FindStage(t.store, pid, sid).Some?
            && forall j :: j in FindStage(t.store, pid, sid).value.jobDefinitions ==> j.id != job.id
  {
    var ps := [FixturePipeline(pid, stageIds, jobIds)];
    FixtureStoredJob(pid, stageIds, jobIds, job);
    var stored := FirstJob(AllJobs(ps), job.id).value;
    DeleteJobOutcome(ps, job.id, pid, stored.stageDefinitionId);
  }
}
