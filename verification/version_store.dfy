/** The file `latest_version.txt`, seen as an abstract store of one string:
    `readVersionFromFile` and `writeVersionToFile`. */
module VersionStore {
  import opened Wrappers

  /** Why the store could not be read (the file is missing or unreadable). */
  datatype ReadError = Unreadable

  /** The file's whole contents, or None when it cannot be read. */
  datatype Store = Store(contents: Option<string>)

  /** How an attempted write ended. A failed `ioutil.WriteFile` may already
      have truncated or partly written the file, so it leaves an arbitrary store. */
  datatype WriteOutcome = Written | WriteFailed(leftBehind: Store)

  /** `readVersionFromFile`: the raw contents, untrimmed, or an error. */
  function Read(s: Store): (r: Result<string, ReadError>)
    ensures r.Success? <==> s.contents.Some?
    ensures r.Success? ==> r.value == s.contents.value
  {
    match s.contents
    case None => Failure(Unreadable)
    case Some(text) => Success(text)
  }

  /** `writeVersionToFile`: replaces the whole contents with `version`. */
  function Write(s: Store, version: string, outcome: WriteOutcome): (s': Store)
    ensures outcome.Written? ==> Read(s') == Success(version)
    ensures outcome.WriteFailed? ==> s' == outcome.leftBehind
  {
    match outcome
    case Written => Store(Some(version))
    case WriteFailed(left) => left
  }

  /** Writing and reading back gives exactly the string written, with nothing
      added, whatever the store held before. */
  lemma WriteThenRead(s: Store, version: string)
    ensures Read(Write(s, version, Written)) == Success(version)
  {
  }
}
