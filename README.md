# hawkcd core, modelled in Dafny

This project models five pieces of the hawkcd continuous-delivery server.

- **User-group membership (`UserGroupService`).** Membership is recorded on both sides of a link. The user keeps `userGroupIds` and the group keeps `userIds`, in two separately stored collections.
  - Assign needs the user side present and the group side absent. Unassign needs the reverse. Any other state is an error.
  - Deleting a group strips its id from every user, stops at the first user update that fails, and only then deletes the group.
  - The model is a class. Its fields are the user store and the group store, both sequences in store order. Two ghost logs record the sessions told to reload a user and the results passed to the websocket endpoint.
- **The job-definition service, as its tests describe it.** The service is not part of this model; `JobDefinitionServiceTests` states its contract.
  - Jobs live inside stages, and stages live inside pipelines.
  - Every operation is a function from the pipeline store to the service result and, for a write, the new store.
  - The test fixture builds one job list and hands that same list to every stage. It is modelled as a method with nested loops over a shared `JobList` object. This sharing explains the counts the tests assert: 25 jobs per stage and 125 per pipeline.
- **The Mongo repository (`MongoDbRepository`).** It is a class whose field is the collection's documents, in natural order. Every lookup by id takes the first matching document.
- **`MessageConverter`.** It copies fields between a service result, a `Message` and the websocket contract `WsContractDto`.
- **`EnvironmentVariable`.** It is a class with four fields, two constructors and a setter for each field.

Java's `null` is modelled by `Common.Option`, whose `None` stands for null. An exception that escapes a call is modelled by `Common.Outcome.Throws`. A service result is the triple of the carried object, the error flag and the message.

Calls into code the model cannot see become inputs:
- `userUpdate` is the user service's answer to an update.
- `groupDeleteReply` is the result of the inherited `CrudService.delete`.
- `newId` is the id a new `UserGroup` draws.
- The fixture's pipeline, stage and job ids stand for the UUIDs each constructor draws.

Paths below are relative to the repository root. `UGS` stands for `Server/src/main/java/net/hawkengine/services/UserGroupService.java` in the prose only; the table writes every path in full.

Two behaviours of the code shape the contracts:
- `assignUserToGroup` and `unassignUserFromGroup` ignore the results of both `update` calls and report success (UGS lines 128-129 and 161-162). `UserGroups.UserGroupService.AssignUserToGroup` and `UnassignUserFromGroup` therefore promise the success result whatever `userUpdate` answers. The user store changes only when the update is accepted.
- A missing group makes `assignUserToGroup`, `unassignUserFromGroup` and `updateUserGroupDto` dereference null. `MongoDbRepository.getById` lets the `IllegalArgumentException` of a malformed id escape. Both cases are modelled as `Throws`.

## Model

| member | source | states |
|---|---|---|
| MongoDb.IndexOf | Server/src/main/java/io/hawkcd/db/mongodb/MongoDbRepository.java:65 | the position of the first document with the id, or -1 exactly when no document has it |
| MongoDb.IsUuid | Server/src/main/java/io/hawkcd/db/mongodb/MongoDbRepository.java:61 | the ids UUID.fromString accepts without throwing, taken as the canonical 8-4-4-4-12 hexadecimal form; it has no contract of its own and is the guard GetById and Delete test |
| MongoDb.Find | Server/src/main/java/io/hawkcd/db/mongodb/MongoDbRepository.java:65-72 | a lookup by id yields a stored document with that id, and yields null exactly when no stored document has it |
| MongoDb.ReplaceFirst | Server/src/main/java/io/hawkcd/db/mongodb/MongoDbRepository.java:129 | replaceOne: when no document has the id the collection is unchanged; otherwise the length is kept, the new entity is stored, every other position keeps its document, and every document of the result is the new entity or was stored before |
| MongoDb.RemoveFirst | Server/src/main/java/io/hawkcd/db/mongodb/MongoDbRepository.java:154 | findOneAndDelete: when no document has the id the collection is unchanged; otherwise the first document of the id is cut out and the others keep their order (one shorter, and one fewer of that document as a multiset) |
| MongoDb.AddThenFind | Server/src/main/java/io/hawkcd/db/mongodb/MongoDbRepository.java:103-108 | after inserting an entity whose id was absent, a lookup by that id yields the entity, and ids stay unique |
| MongoDb.UpdateThenFind | Server/src/main/java/io/hawkcd/db/mongodb/MongoDbRepository.java:129-133 | after the replace, a lookup yields the new entity; the length and every document's id are kept; uniqueness is kept |
| MongoDb.DeleteThenFind | Server/src/main/java/io/hawkcd/db/mongodb/MongoDbRepository.java:154-161 | in a collection with unique ids, the deleted id is absent afterwards, every other document remains, and ids stay unique |
| MongoDb.MongoDbRepository.constructor | Server/src/main/java/io/hawkcd/db/mongodb/MongoDbRepository.java:46-50 | the repository works on the collection it is handed |
| MongoDb.MongoDbRepository.First | Server/src/main/java/io/hawkcd/db/mongodb/MongoDbRepository.java:65 | the scan stops at the first document with the id, or reports that there is none |
| MongoDb.MongoDbRepository.GetById | Server/src/main/java/io/hawkcd/db/mongodb/MongoDbRepository.java:53-77 | a null id gives null; a non-UUID id throws an uncaught IllegalArgumentException; otherwise the stored entity with the id, or null |
| MongoDb.MongoDbRepository.GetAll | Server/src/main/java/io/hawkcd/db/mongodb/MongoDbRepository.java:80-95 | one entity per stored document, in collection order; an empty collection gives an empty list |
| MongoDb.MongoDbRepository.Add | Server/src/main/java/io/hawkcd/db/mongodb/MongoDbRepository.java:98-117 | a null entry gives null; the id check may throw; an id already stored gives null and no change; otherwise the entry is appended, returned and then found by id |
| MongoDb.MongoDbRepository.Update | Server/src/main/java/io/hawkcd/db/mongodb/MongoDbRepository.java:120-140 | the entry is returned exactly when a stored document with its id was replaced; otherwise null and the collection is unchanged |
| MongoDb.MongoDbRepository.Delete | Server/src/main/java/io/hawkcd/db/mongodb/MongoDbRepository.java:143-166 | a null or malformed id gives null with no change; otherwise the first document with the id is removed and returned, or null if there is none |
| UserGroups.CanAssign | Server/src/main/java/net/hawkengine/services/UserGroupService.java:122-126 | the guard of assign: the user lists the group and the group does not list the user; it has no contract of its own, and AssignEnablesUnassign relates it to the unassign guard |
| UserGroups.CanUnassign | Server/src/main/java/net/hawkengine/services/UserGroupService.java:155-159 | the guard of unassign: the user no longer lists the group and the group lists the user; it has no contract of its own |
| UserGroups.AssignEnablesUnassign | Server/src/main/java/net/hawkengine/services/UserGroupService.java:122-127 | the two guards never hold together, and after an accepted assign (group id dropped by the user, user id added to the group) the unassign guard holds |
| UserGroups.FindUser | Server/src/main/java/net/hawkengine/services/UserGroupService.java:221 | the user service's lookup yields a stored user with the id, or null exactly when none has it |
| UserGroups.FindGroup | Server/src/main/java/net/hawkengine/services/UserGroupService.java:120 | the group lookup yields a stored group with the id, or null exactly when none has it |
| UserGroups.PutUser | Server/src/main/java/net/hawkengine/services/UserGroupService.java:109 | a user write keeps the store's length and every position's id |
| UserGroups.PutGroup | Server/src/main/java/net/hawkengine/services/UserGroupService.java:129 | a group write keeps the store's length and every position's id; PutGroupAt pins which position changes |
| UserGroups.DropGroup | Server/src/main/java/net/hawkengine/services/UserGroupService.java:115 | a group delete keeps every group of another id and adds none |
| UserGroups.PutUserAt | Server/src/main/java/net/hawkengine/services/UserGroupService.java:109 | with unique ids, writing a user replaces exactly the position that held its id |
| UserGroups.PutGroupAt | Server/src/main/java/net/hawkengine/services/UserGroupService.java:129 | with unique ids, writing a group replaces exactly the position that held its id, so every other group keeps its contents |
| UserGroups.FindGroupAfterPut | Server/src/main/java/net/hawkengine/services/UserGroupService.java:129 | after a group write, a lookup by its id yields the written group |
| UserGroups.FindUserAfterPut | Server/src/main/java/net/hawkengine/services/UserGroupService.java:128 | after a user write, a lookup by its id yields the written user |
| UserGroups.DropGroupRemoves | Server/src/main/java/net/hawkengine/services/UserGroupService.java:115 | with unique ids, no group of the deleted id remains, and ids stay unique |
| UserGroups.RemoveAll | Server/src/main/java/net/hawkengine/services/UserGroupService.java:101-106 | the id is absent afterwards, and an id remains exactly when it was present and is another id |
| UserGroups.RemoveAllConcat | Server/src/main/java/net/hawkengine/services/UserGroupService.java:101-106 | removal distributes over concatenation, so the other group ids keep their relative order |
| UserGroups.RemoveAllAbsent | Server/src/main/java/net/hawkengine/services/UserGroupService.java:101-106 | a list without the id is left as it is |
| UserGroups.RemoveFirstId | Server/src/main/java/net/hawkengine/services/UserGroupService.java:160 | List.remove(Object) drops exactly one occurrence when the id is present (as a multiset), and changes nothing otherwise |
| UserGroups.UnassignUndoesAssign | Server/src/main/java/net/hawkengine/services/UserGroupService.java:127 | removing the user id right after appending it restores the group's list of user ids |
| UserGroups.RemoveFirstIdRemoves | Server/src/main/java/net/hawkengine/services/UserGroupService.java:160 | in a list without duplicates, unassign leaves the user id nowhere in the list and keeps every other id |
| UserGroups.RemoveGroupId | Server/src/main/java/net/hawkengine/services/UserGroupService.java:99-108 | the iterator loop leaves the user's group ids less that id, in their order |
| UserGroups.StripUser | Server/src/main/java/net/hawkengine/services/UserGroupService.java:99-108 | the user with the group id removed from its list; it has no contract of its own, StripUserKeepsOthers states what it keeps |
| UserGroups.StripUserKeepsOthers | Server/src/main/java/net/hawkengine/services/UserGroupService.java:99-108 | a stripped user keeps its id and email, lists no more the group id, and keeps exactly its other group ids |
| UserGroups.FirstRejected | Server/src/main/java/net/hawkengine/services/UserGroupService.java:98-113 | the users before this position are all accepted by the user service, and the user at it (if any) is rejected |
| UserGroups.LookupUsers | Server/src/main/java/net/hawkengine/services/UserGroupService.java:219-223 | one looked-up user or null per user id, in the same order |
| UserGroups.DtoOf | Server/src/main/java/net/hawkengine/services/UserGroupService.java:212-226 | the dto copies the group's id, name, user ids and permissions and holds one user entry per user id |
| UserGroups.UserGroupService.constructor | Server/src/main/java/net/hawkengine/services/UserGroupService.java:30-34 | the service starts over the given stores, with empty logs; it requires the stores' ids to be unique (see "## Left out") |
| UserGroups.UserGroupService.GetUserGroupDto | Server/src/main/java/net/hawkengine/services/UserGroupService.java:212-226 | the dto copies the group's fields and holds one user per user id, in order |
| UserGroups.UserGroupService.GetAllUserGroups | Server/src/main/java/net/hawkengine/services/UserGroupService.java:185-210 | one dto per stored group, in store order, each with its users looked up; never an error |
| UserGroups.UserGroupService.AddUserGroupDto | Server/src/main/java/net/hawkengine/services/UserGroupService.java:52-65 | a group with the dto's name, a fresh id and no users or permissions is stored when the id is free; success is reported in every case |
| UserGroups.UserGroupService.UpdateUserGroupDto | Server/src/main/java/net/hawkengine/services/UserGroupService.java:73-92 | a missing group throws; otherwise exactly name, userIds and permissions are overwritten; the result is always a success; every listed user's session is refreshed |
| UserGroups.UserGroupService.StripGroupFromUsers | Server/src/main/java/net/hawkengine/services/UserGroupService.java:96-113 | the loop of delete: users up to the first rejected update are stripped of the id, the later ones are untouched, and the rejected reply is returned exactly when some update is rejected; the group store does not change |
| UserGroups.UserGroupService.Delete | Server/src/main/java/net/hawkengine/services/UserGroupService.java:95-116 | users are stripped in order up to the first rejected update, which is returned with the group kept; otherwise the group delete's reply is returned, and the group is dropped exactly when that reply reports success; on success no user lists the group and it is gone |
| UserGroups.UserGroupService.WriteMembership | Server/src/main/java/net/hawkengine/services/UserGroupService.java:127-141 | the common tail of assign and unassign: the user store changes only if the user service accepts, the group is rewritten and read back, the user is broadcast and refreshed, and the dto is returned as a success whatever the writes answered |
| UserGroups.UserGroupService.AssignUserToGroup | Server/src/main/java/net/hawkengine/services/UserGroupService.java:119-149 | succeeds exactly when the user lists the group and the group does not list the user; then both edges are present and success is reported whatever the writes answer; otherwise an error with no change |
| UserGroups.UserGroupService.UnassignUserFromGroup | Server/src/main/java/net/hawkengine/services/UserGroupService.java:152-182 | succeeds exactly when the group lists the user and the user no longer lists the group; one occurrence of the user id is removed; an accepted update of a stored user is read back; otherwise an error with no change |
| UserGroups.UserGroupService.AssignTwice | Server/src/main/java/net/hawkengine/services/UserGroupService.java:122-127 | after a successful assign, the same assign fails with the already-assigned message |
| JobDefinitions.JobsOfStages | src/hawkengine/src/test/java/net/hawkengine/services/tests/JobDefinitionServiceTests.java:237-251 | the job lists of a pipeline's stages concatenated in stage order; it has no contract of its own, JobsOfStagesConcat, JobsOfStagesMember and JobsOfStagesShared state its properties |
| JobDefinitions.AllJobs | src/hawkengine/src/test/java/net/hawkengine/services/tests/JobDefinitionServiceTests.java:117-130 | every embedded job of every pipeline in store order; it has no contract of its own, AllJobsMember states its membership |
| JobDefinitions.JobsOfStagesConcat | src/hawkengine/src/test/java/net/hawkengine/services/tests/JobDefinitionServiceTests.java:237-251 | the pipeline's job list of two runs of stages is the concatenation of their lists |
| JobDefinitions.JobsOfStagesMember | src/hawkengine/src/test/java/net/hawkengine/services/tests/JobDefinitionServiceTests.java:237-251 | a job is among the pipeline's jobs exactly when one of its stages holds it |
| JobDefinitions.Repeat | src/hawkengine/src/test/java/net/hawkengine/services/tests/JobDefinitionServiceTests.java:63-76 | the one shared list written out once per stage; its length is the number of copies times the list's length |
| JobDefinitions.JobsOfStagesShared | src/hawkengine/src/test/java/net/hawkengine/services/tests/JobDefinitionServiceTests.java:63-76 | stages that all hold one list are listed as that list repeated once per stage (`Repeat`), so the listing's length is the number of stages times the list's length |
| JobDefinitions.FirstJob | src/hawkengine/src/test/java/net/hawkengine/services/tests/JobDefinitionServiceTests.java:90 | a job of the list with the id, with no job of that id before it, or null exactly when none has it |
| JobDefinitions.FindPipeline | src/hawkengine/src/test/java/net/hawkengine/services/tests/JobDefinitionServiceTests.java:242 | a stored pipeline of the id with none of that id before it, or null exactly when none has it |
| JobDefinitions.StageById | src/hawkengine/src/test/java/net/hawkengine/services/tests/JobDefinitionServiceTests.java:226 | a stage of the id among the given stages with none of that id before it, or null exactly when none has it |
| JobDefinitions.FindStageIn | src/hawkengine/src/test/java/net/hawkengine/services/tests/JobDefinitionServiceTests.java:226 | the stage of the id that StageById finds in some stored pipeline, every earlier pipeline having none, or null exactly when no pipeline has a stage of the id |
| JobDefinitions.SetJobsHits | src/hawkengine/src/test/java/net/hawkengine/services/tests/JobDefinitionServiceTests.java:143 | rewriting an existing stage's list makes that stage hold the new list |
| JobDefinitions.SetJobsFrame | src/hawkengine/src/test/java/net/hawkengine/services/tests/JobDefinitionServiceTests.java:143 | rewriting one stage's list leaves every other stage as it was |
| JobDefinitions.SetJobsSource | src/hawkengine/src/test/java/net/hawkengine/services/tests/JobDefinitionServiceTests.java:143 | after a rewrite, every embedded job was embedded before or is in the new list |
| JobDefinitions.FindStageInAll | src/hawkengine/src/test/java/net/hawkengine/services/tests/JobDefinitionServiceTests.java:90 | the jobs of a stage that back-references reach are embedded jobs |
| JobDefinitions.RemoveJob | src/hawkengine/src/test/java/net/hawkengine/services/tests/JobDefinitionServiceTests.java:209 | a job remains exactly when it was there and has another id |
| JobDefinitions.ReplaceJob | src/hawkengine/src/test/java/net/hawkengine/services/tests/JobDefinitionServiceTests.java:176 | a job is in the new list exactly when it is a job of another id from the old list, or the new job where the id occurred; a list without the id is unchanged; the length is kept |
| JobDefinitions.FirstJobAfterReplace | src/hawkengine/src/test/java/net/hawkengine/services/tests/JobDefinitionServiceTests.java:170-185 | after the replace, the first job of the id in the list is the new job |
| JobDefinitions.GetById | src/hawkengine/src/test/java/net/hawkengine/services/tests/JobDefinitionServiceTests.java:84-114 | no error exactly when some embedded job has the id; then an embedded job of that id with the retrieved message; otherwise null, error and "JobDefinition not found." |
| JobDefinitions.GetAllInStage | src/hawkengine/src/test/java/net/hawkengine/services/tests/JobDefinitionServiceTests.java:220-234 | no error exactly when some pipeline has the stage; then the job list of that stored stage, from the first pipeline holding it, with the retrieved message |
| JobDefinitions.GetAllInPipeline | src/hawkengine/src/test/java/net/hawkengine/services/tests/JobDefinitionServiceTests.java:237-251 | no error exactly when the pipeline exists; an error carries no object |
| JobDefinitions.GetAll | src/hawkengine/src/test/java/net/hawkengine/services/tests/JobDefinitionServiceTests.java:117-130 | getAll never errs, carries the retrieved message, and lists exactly the jobs of the stage listings of the pipelines |
| JobDefinitions.AllJobsMember | src/hawkengine/src/test/java/net/hawkengine/services/tests/JobDefinitionServiceTests.java:117-130 | a job is embedded exactly when the stage listing of some pipeline holds it |
| JobDefinitions.GetAllInPipelineConcatenates | src/hawkengine/src/test/java/net/hawkengine/services/tests/JobDefinitionServiceTests.java:237-251 | getAllInPipeline returns the concatenation of the pipeline's stage lists, and a job is in it exactly when a stage holds it |
| JobDefinitions.GetAllConcatenates | src/hawkengine/src/test/java/net/hawkengine/services/tests/JobDefinitionServiceTests.java:117-130 | getAll's list for a store split in two is the two parts' lists concatenated, and for one pipeline it is that pipeline's getAllInPipeline list, so the listing is the pipelines' getAllInPipeline lists in store order |
| JobDefinitions.GetByIdEmbedded | src/hawkengine/src/test/java/net/hawkengine/services/tests/JobDefinitionServiceTests.java:84-101 | an embedded job whose id no different job shares is returned by getById, with its message |
| JobDefinitions.AddJob | src/hawkengine/src/test/java/net/hawkengine/services/tests/JobDefinitionServiceTests.java:133-167 | a failed add leaves the store unchanged, and any object returned is the job passed in; AddJobOutcome states when it succeeds |
| JobDefinitions.AddJobOutcome | src/hawkengine/src/test/java/net/hawkengine/services/tests/JobDefinitionServiceTests.java:133-167 | add succeeds exactly when the named stage exists and no sibling has the name; a name clash returns the object with the same-name error; on success the stage holds its list plus the job, other stages are unchanged, and a fresh id is found by getById |
| JobDefinitions.AddedJobFound | src/hawkengine/src/test/java/net/hawkengine/services/tests/JobDefinitionServiceTests.java:133-151 | a job of a fresh id added to an existing stage is then the only job of its id, so getById returns it |
| JobDefinitions.UpdateJob | src/hawkengine/src/test/java/net/hawkengine/services/tests/JobDefinitionServiceTests.java:170-201 | a failed update leaves the store unchanged, and any object returned is the job passed in; UpdateJobOutcome states when it succeeds |
| JobDefinitions.UpdateJobOutcome | src/hawkengine/src/test/java/net/hawkengine/services/tests/JobDefinitionServiceTests.java:170-201 | update succeeds exactly when the stored job's stage exists and no other sibling has the new name; a clash returns the object with the same-name error; on success the job takes the old one's place and other stages are unchanged |
| JobDefinitions.DeleteJob | src/hawkengine/src/test/java/net/hawkengine/services/tests/JobDefinitionServiceTests.java:204-217 | delete never returns an object, and a failed delete leaves the store unchanged; DeleteJobOutcome states when it succeeds |
| JobDefinitions.DeleteJobOutcome | src/hawkengine/src/test/java/net/hawkengine/services/tests/JobDefinitionServiceTests.java:204-217 | delete succeeds exactly when the job and its stage exist, with a null object and the deleted message; the stage then holds its other jobs and none of the id; other stages are unchanged |
| JobDefinitions.NatToString | src/hawkengine/src/test/java/net/hawkengine/services/tests/JobDefinitionServiceTests.java:71 | the decimal rendering of a number is never empty |
| JobDefinitions.FixtureRow | src/hawkengine/src/test/java/net/hawkengine/services/tests/JobDefinitionServiceTests.java:69-75 | each stage contributes one job per drawn id |
| JobDefinitions.Persist | src/hawkengine/src/test/java/net/hawkengine/services/tests/JobDefinitionServiceTests.java:76-80 | each stored stage holds what its list object holds at the time of storing |
| JobDefinitions.AppendStageJobs | src/hawkengine/src/test/java/net/hawkengine/services/tests/JobDefinitionServiceTests.java:69-75 | the inner loop appends the stage's jobs "job0", "job1", … to the shared list |
| JobDefinitions.InjectFixture | src/hawkengine/src/test/java/net/hawkengine/services/tests/JobDefinitionServiceTests.java:60-81 | the stored pipeline has one stage per stage id, named "stage<i>", and every stage holds the whole shared list of all stages' jobs |
| JobDefinitions.FixtureJobsLength | src/hawkengine/src/test/java/net/hawkengine/services/tests/JobDefinitionServiceTests.java:65-79 | the shared list holds n*m jobs |
| JobDefinitions.FixtureJobsAt | src/hawkengine/src/test/java/net/hawkengine/services/tests/JobDefinitionServiceTests.java:65-79 | job j of stage i sits at position i*m+j of the shared list, with its id, name "job<j>" and back-references |
| JobDefinitions.FixtureJobIn | src/hawkengine/src/test/java/net/hawkengine/services/tests/JobDefinitionServiceTests.java:65-79 | job j of stage i is in the shared list |
| JobDefinitions.FixtureJobsShape | src/hawkengine/src/test/java/net/hawkengine/services/tests/JobDefinitionServiceTests.java:70-73 | every fixture job refers to the fixture pipeline and one of its stages, and its name begins with "job" |
| JobDefinitions.FixturePipelineStages | src/hawkengine/src/test/java/net/hawkengine/services/tests/JobDefinitionServiceTests.java:76-77 | a lookup of any fixture stage finds a stage holding the whole shared list |
| JobDefinitions.FixtureCounts | src/hawkengine/src/test/java/net/hawkengine/services/tests/JobDefinitionServiceTests.java:220-251 | a stage holds n*m jobs and the pipeline and getAll n*n*m: 25 and 125 for five stages of five jobs |
| JobDefinitions.FixtureAddStoredJobFails | src/hawkengine/src/test/java/net/hawkengine/services/tests/JobDefinitionServiceTests.java:154-167 | adding a stored fixture job fails with the same-name error and returns that job |
| JobDefinitions.FixtureAddFreshNameSucceeds | src/hawkengine/src/test/java/net/hawkengine/services/tests/JobDefinitionServiceTests.java:133-151 | adding "fakeObject" to a fixture stage succeeds with the added message for its id |
| JobDefinitions.FixtureNameFree | src/hawkengine/src/test/java/net/hawkengine/services/tests/JobDefinitionServiceTests.java:133-151 | no fixture job has a name that does not start with "job" (such as "fakeObject" or "NameNotPresent"), since all are named "job<j>" |
| JobDefinitions.FixtureUpdateFreshNameSucceeds | src/hawkengine/src/test/java/net/hawkengine/services/tests/JobDefinitionServiceTests.java:170-185 | a fixture job renamed to "NameNotPresent" is updated: the passed object, no error and "JobDefinition <id> updated successfully." |
| JobDefinitions.FixtureUpdateSameNameFails | src/hawkengine/src/test/java/net/hawkengine/services/tests/JobDefinitionServiceTests.java:187-201 | updating a fixture job under its own name fails with the same-name error, because the shared list holds another stage's job of that name |
| JobDefinitions.FixtureGetById | src/hawkengine/src/test/java/net/hawkengine/services/tests/JobDefinitionServiceTests.java:83-101 | with distinct drawn ids, getById of a fixture job returns that job with its retrieved message |
| JobDefinitions.FixtureStoredJob | src/hawkengine/src/test/java/net/hawkengine/services/tests/JobDefinitionServiceTests.java:204-217 | the stored job that a fixture job's id finds names the fixture pipeline and an existing stage of it |
| JobDefinitions.FixtureDeleteSucceeds | src/hawkengine/src/test/java/net/hawkengine/services/tests/JobDefinitionServiceTests.java:204-217 | deleting a fixture job returns a null object, no error and "JobDefinition deleted successfully.", and the stage named by the stored job that the id finds is a fixture stage that then holds no job of the id |
| Messaging.ConvertMessage | Server/src/main/java/io/hawkcd/core/MessageConverter.java:24-32 | convert(Message); it has no contract of its own, ContractOfMessage states what it copies |
| Messaging.ToMessage | Server/src/main/java/io/hawkcd/core/MessageConverter.java:34-45 | the five-argument convert; it has no contract of its own, MessageCarriesResult states what it carries |
| Messaging.MessageCarriesResult | Server/src/main/java/io/hawkcd/core/MessageConverter.java:34-45 | the Message carries the call's names, the result's entity, notification type and message, and the user, unchanged |
| Messaging.ContractOfMessage | Server/src/main/java/io/hawkcd/core/MessageConverter.java:24-32 | the contract copies the message's six fields, and the owner plays no part in it |
| Messaging.TwoStepRoundTrip | Server/src/main/java/io/hawkcd/core/MessageConverter.java:24-45 | the five-argument convert followed by convert(Message) yields the contract of the call and the result, for any user; the corrected four-argument convert agrees with it |
| Messaging.ConvertResultAsWritten | Server/src/main/java/io/hawkcd/core/MessageConverter.java:12-22 | the four-argument convert answers null whatever its arguments |
| Messaging.ConvertResult | Server/src/main/java/io/hawkcd/core/MessageConverter.java:12-22 | the corrected four-argument convert returns a contract with the call's names and the result's three parts |
| Messaging.AsWrittenLosesContract | Server/src/main/java/io/hawkcd/core/MessageConverter.java:12-22 | the as-written four-argument convert never yields the contract the two-step route yields |
| EnvironmentVariables.EnvironmentVariable.constructor | Server/src/main/java/io/hawkcd/model/EnvironmentVariable.java:31-33 | the no-argument constructor leaves key and value null and isSecured false, and sets isDeletable |
| EnvironmentVariables.EnvironmentVariable.WithKeyValue | Server/src/main/java/io/hawkcd/model/EnvironmentVariable.java:35-39 | the key and value are stored, isDeletable is set and isSecured is false |
| EnvironmentVariables.EnvironmentVariable.GetKey | Server/src/main/java/io/hawkcd/model/EnvironmentVariable.java:41-43 | returns the key; it has no contract of its own, and the matching setter's ensures is stated through it |
| EnvironmentVariables.EnvironmentVariable.GetValue | Server/src/main/java/io/hawkcd/model/EnvironmentVariable.java:49-51 | returns the value; it has no contract of its own, and the matching setter's ensures is stated through it |
| EnvironmentVariables.EnvironmentVariable.IsSecured | Server/src/main/java/io/hawkcd/model/EnvironmentVariable.java:57-59 | returns the secured flag; it has no contract of its own, and the matching setter's ensures is stated through it |
| EnvironmentVariables.EnvironmentVariable.IsDeletable | Server/src/main/java/io/hawkcd/model/EnvironmentVariable.java:66-68 | returns the deletable flag; it has no contract of its own, and the matching setter's ensures is stated through it |
| EnvironmentVariables.EnvironmentVariable.SetKey | Server/src/main/java/io/hawkcd/model/EnvironmentVariable.java:45-47 | the getter then returns the new key, and the other fields are unchanged |
| EnvironmentVariables.EnvironmentVariable.SetValue | Server/src/main/java/io/hawkcd/model/EnvironmentVariable.java:53-55 | the getter then returns the new value, and the other fields are unchanged |
| EnvironmentVariables.EnvironmentVariable.SetSecured | Server/src/main/java/io/hawkcd/model/EnvironmentVariable.java:62-64 | isSecured then returns the new flag, and the other fields are unchanged |
| EnvironmentVariables.EnvironmentVariable.SetDeletable | Server/src/main/java/io/hawkcd/model/EnvironmentVariable.java:71-73 | isDeletable then returns the new flag, and the other fields are unchanged |
| EnvironmentVariables.UnsecuredUntilSet | Server/src/main/java/io/hawkcd/model/EnvironmentVariable.java:35-64 | a variable built from a key and a value is unsecured after edits of both, and secured once SetSecured(true) is called |

## Left out

- UserGroups.UserGroupService.constructor: requires that no two stored users and no two stored groups share an id, which the source constructor (Server/src/main/java/net/hawkengine/services/UserGroupService.java:30-34) does not check. The repository enforces it: its add refuses an id already stored (Server/src/main/java/io/hawkcd/db/mongodb/MongoDbRepository.java:103-108), and `MongoDb.AddThenFind`, `UpdateThenFind` and `DeleteThenFind` prove that adds, updates and deletes keep ids unique. Every service method relies on it through `Valid()`.
- The pass-through overrides `getById`, `getAll`, `add` and `update` of `UserGroupService` (lines 36-49 and 67-70) are left out. They only call `CrudService`, which is not part of this model. The model reads and writes the group store directly.
- `CrudService` is not part of this model. Its reply to the group delete is the input `groupDeleteReply`. Its replies to the add and update that `addUserGroupDto`, `updateUserGroupDto`, `assignUserToGroup` and `unassignUserFromGroup` issue are discarded by those methods, so the model keeps only their effect on the store.
- The user service is not part of this model. Its acceptance of an update is the input `userUpdate`, applied to the user being written. Its lookups are first-match scans of the user store.
- `UserGroups.UserGroupService.AddUserGroupDto` takes the new group's id as an input, because the id is a random UUID. A group with an id already stored is not added, as the repository's add does.
- UserGroups.UserGroupService.AddUserGroupDto: builds the new group with empty user-id and permission lists. This assumes that the `UserGroup` no-argument constructor starts both lists empty; the `UserGroup` class is not part of this model.
- Group lookups in `UserGroupService` do not model the exception a malformed id would raise in the repository beneath `CrudService`.
- The session refresh (`SessionPool.updateUserObjects`) and the endpoint broadcast (`EndpointConnector.passResultToEndpoint`) are kept only as the ghost logs `refreshed` and `published`. They are process-wide concurrent fan-out.
- `JobDefinitionService` itself is not part of this model; its contract comes from its tests. The tests never reach a missing stage or pipeline. For those cases the model chooses an error with the messages "StageDefinition not found." and "PipelineDefinition not found.".
- `JobDefinitions.ReplaceJob` and `JobDefinitions.RemoveJob` act on every job of the id in the stage's list. The service's behaviour when one list holds the id twice is not shown.
- The fixture's random stage and job indices (`Random.nextInt`) are left out. The fixture lemmas hold for every index.
- The fixture's Redis-backed services and mocked pool are left out. Storing the pipeline is modelled as copying each stage's list contents (`JobDefinitions.Persist`).
- Gson and BSON serialisation in `MongoDbRepository` are left out. A document is its id and the entity's other state.
- `MongoDbRepository.QueryExecutor` and `QueryUnifier` (lines 168-217) are left out. They are Mongo filter, sort, skip and limit semantics and are not named by the operations modelled.
- `MongoDb.IsUuid` checks the canonical 8-4-4-4-12 hexadecimal form. Java's `UUID.fromString` also accepts some shorter non-canonical groups.
- Storage failures are left out: the caught `RuntimeException`s, an `insertOne` that fails, and logging. The collection is taken to answer every call.
- `MongoDb.MongoDbRepository.Update` follows the replaceOne filter, which matches at most one document. "Exactly one match" therefore becomes "some document has the id".
- Null arguments other than those the code tests for are not modelled as NullPointerExceptions. Examples are a null `sResult`, a null `user`, or null lists inside a user or group.
- The `Entity` base class (id and timestamps) is not part of this model. `EnvironmentVariable` is modelled by its own four fields. The `@Authorization` and `@JsonProperty` annotations are left out.
- `AuthController`, `viewModel.service.js`, `IPipelineDefinitionService` and `MaterialUpdaterFactory` are left out. They are HTTP, OAuth, hashing and JWT I/O, UI state, an interface without behaviour, and a dispatch to source-control pollers.
- Concurrency is left out. Nothing in the modelled code locks.

## Findings

| source | as written | input that shows it | evidently intended | confidence | as-written member | corrected member |
|---|---|---|---|---|---|---|
| Server/src/main/java/io/hawkcd/core/MessageConverter.java:12-22 | builds the WsContractDto from its arguments, then returns null | any call, e.g. convert("UserService", "io.hawkcd.services", "update", a result with message "ok") | return the contract it built | not executed | Messaging.ConvertResultAsWritten (and Messaging.AsWrittenLosesContract) | Messaging.ConvertResult (agreement proved in Messaging.TwoStepRoundTrip) |
