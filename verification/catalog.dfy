/** The recordings listed by the backend. A listing is an immutable
    snapshot: a refresh replaces the whole sequence. */
module Catalog {

  /** One recording on the backend; `filename` is its natural key.
      `start` is kept as an opaque timestamp, `duration` in seconds and
      `filesize` in bytes. `channame`, `start` and `description` are only
      shown in the listing and are not read by this model. */
  datatype Recording = Recording(
    filename: string,
    title: string,
    subtitle: string,
    channame: string,
    start: int,
    duration: int,
    filesize: int,
    description: string)
}
