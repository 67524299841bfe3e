/** The two-tier lookup of a job's files (socorro/processor/processor.py lines 327-346):
    standard storage first, deferred storage second, `UuidNotFoundException` when
    neither has the job. */
module Storage {

  import opened Wrappers

  /** A job storage as the processor sees it: for each uuid it holds, the path of the
      JSON metadata file and the path of the dump. A uuid missing from a map stands for
      a lookup that raises `OSError` or `IOError`. */
  datatype JobStorage = JobStorage(jsonPaths: map<string, string>, dumpPaths: map<string, string>)

  datatype UuidNotFound = UuidNotFound(message: string)

  function NotFoundMessage(uuid: string): string {
    uuid + " cannot be found in standard or deferred storage"
  }

  /** Try the standard table, then the deferred one. */
  function LookupWithFallback(standard: map<string, string>, deferred: map<string, string>, uuid: string)
    : (r: Result<string, UuidNotFound>)
    ensures r.Success? <==> uuid in standard || uuid in deferred
    ensures r.Success? ==>
      (uuid in standard && r.value == standard[uuid])
      || (uuid !in standard && uuid in deferred && r.value == deferred[uuid])
    ensures r.Failure? ==> r.error == UuidNotFound(NotFoundMessage(uuid))
  {
    if uuid in standard then Success(standard[uuid])
    else if uuid in deferred then Success(deferred[uuid])
    else Failure(UuidNotFound(NotFoundMessage(uuid)))
  }

  /** `jsonPathForUuidInJsonDumpStorage`. */
  function JsonPathForUuid(standard: JobStorage, deferred: JobStorage, uuid: string)
    : (r: Result<string, UuidNotFound>)
    ensures r.Success? <==> uuid in standard.jsonPaths || uuid in deferred.jsonPaths
  {
    LookupWithFallback(standard.jsonPaths, deferred.jsonPaths, uuid)
  }

  /** `dumpPathForUuidInJsonDumpStorage`. */
  function DumpPathForUuid(standard: JobStorage, deferred: JobStorage, uuid: string)
    : (r: Result<string, UuidNotFound>)
    ensures r.Success? <==> uuid in standard.dumpPaths || uuid in deferred.dumpPaths
  {
    LookupWithFallback(standard.dumpPaths, deferred.dumpPaths, uuid)
  }

  /** When standard storage has the job, deferred storage is never consulted: any
      deferred storage gives the same answer. */
  lemma StandardShadowsDeferred(standard: JobStorage, deferred: JobStorage, other: JobStorage, uuid: string)
    requires uuid in standard.jsonPaths
    ensures JsonPathForUuid(standard, deferred, uuid) == JsonPathForUuid(standard, other, uuid)
    ensures JsonPathForUuid(standard, deferred, uuid) == Success(standard.jsonPaths[uuid])
  {
  }

  /** Finding the job in deferred storage does not depend on which other uuids standard
      storage holds. */
  lemma DeferredFoundWhenStandardMisses(standard: JobStorage, deferred: JobStorage, uuid: string)
    requires uuid !in standard.dumpPaths && uuid in deferred.dumpPaths
    ensures DumpPathForUuid(standard, deferred, uuid) == Success(deferred.dumpPaths[uuid])
    ensures DumpPathForUuid(standard, deferred, uuid)
            == DumpPathForUuid(JobStorage(standard.jsonPaths, map[]), deferred, uuid)
  {
  }
}
