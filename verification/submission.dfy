/** The stored record (the `Submission` interface) and the five fields a
    client sends to create or edit one. */
module Submissions {

  /** A timestamp as the caller's clock reports it; the model never reads a
      clock itself. */
  type Time = int

  /** One stored form submission. `githubLink` and `stopwatchTime` are the
      source's `github_link` and `stopwatch_time`; `createdAt` and
      `updatedAt` its `created_at` and `updated_at`. */
  datatype Submission = Submission(
    id: string,
    name: string,
    email: string,
    phone: string,
    githubLink: string,
    stopwatchTime: string,
    createdAt: Time,
    updatedAt: Time)

  /** The client-supplied fields of a submit or edit request. A field the
      request leaves out is the empty string. */
  datatype Fields = Fields(
    name: string,
    email: string,
    phone: string,
    githubLink: string,
    stopwatchTime: string)

  /** The client-supplied part of a stored record. */
  function FieldsOf(x: Submission): Fields {
    Fields(x.name, x.email, x.phone, x.githubLink, x.stopwatchTime)
  }

  /** A record holding `f` verbatim, with server-assigned id and times. */
  function NewRecord(f: Fields, id: string, createdAt: Time, updatedAt: Time): (x: Submission)
    ensures FieldsOf(x) == f
  {
    Submission(id, f.name, f.email, f.phone, f.githubLink, f.stopwatchTime, createdAt, updatedAt)
  }

  /** No record of the store carries `id`. */
  predicate FreshId(store: seq<Submission>, id: string) {
    forall i :: 0 <= i < |store| ==> store[i].id != id
  }

  /** No two records of the store share an id. */
  predicate DistinctIds(store: seq<Submission>) {
    forall i, j :: 0 <= i < j < |store| ==> store[i].id != store[j].id
  }
}
