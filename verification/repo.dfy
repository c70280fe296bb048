/**
 The repository as the two core algorithms see it: a finite commit graph,
 each commit with its parent ids and (when it can be read) its author's
 e-mail and authored time, plus the list of references the walk starts from.
 */
module Repo {

  datatype Option<T> = None | Some(value: T)

  /** Object ids are opaque; only equality between them matters. */
  type CommitId = nat

  /** The author e-mail, compared byte for byte; it is the grouping key. */
  type Email = string

  /** An author line that could be read: e-mail and authored time in whole
      seconds since the epoch (the timezone offset plays no part). */
  datatype Signature = Signature(email: Email, seconds: int)

  /** `author` is None when the author line or its time cannot be read. */
  datatype Commit = Commit(parents: seq<CommitId>, author: Option<Signature>)

  /** Looking up an id that is not a key is a failed commit lookup. */
  type Graph = map<CommitId, Commit>

  /** A reference as listed by the repository; `target` is None when the
      reference itself cannot be loaded. */
  datatype Reference = Reference(name: string, target: Option<CommitId>)

  /** A merge commit is one with more than one parent. */
  predicate IsMerge(c: Commit)
  {
    |c.parents| > 1
  }
}
