/** Values the EpLfs union policy works with: Go's int64, nil, error returns,
    and the two kinds of candidate (upstream handles and directory entries). */
module Values {

  /** Go's int64. */
  newtype int64 = x: int | -0x8000_0000_0000_0000 <= x < 0x8000_0000_0000_0000

  /** math.MaxInt64 */
  const MaxInt64: int64 := 0x7fff_ffff_ffff_ffff

  /** A Go pointer or interface value that may be nil. */
  datatype Option<T> = None | Some(value: T)

  /** fs.ErrorObjectNotFound, or any other error value that an upstream's
      free-space query or an existing-path filter reports. */
  datatype Error = ObjectNotFound | Other(message: string)

  /** The outcome of a call into a collaborator: a value or an error. */
  datatype Result<T> = Ok(value: T) | Err(error: Error)

  /** A Go return pair `(value, error)`; a nil error is `None`. */
  datatype Outcome<V> = Outcome(value: V, err: Option<Error>)

  /** An upstream handle (`*upstream.Fs`). What this policy consumes of it is
      the answer its `GetFreeSpace()` gives: a number of bytes or an error. */
  datatype Upstream = Upstream(name: string, freeSpace: Result<int64>)

  /** A directory entry (`upstream.Entry`), tied to the upstream it came
      from (`UpstreamFs()`). */
  datatype Entry = Entry(remote: string, upstream: Upstream)

  /** The free-space answers of a sequence of upstreams, in order. */
  function Spaces(upstreams: seq<Upstream>): seq<Result<int64>>
  {
    seq(|upstreams|, i requires 0 <= i < |upstreams| => upstreams[i].freeSpace)
  }

  /** The free-space answers of the upstreams of a sequence of entries, in order. */
  function EntrySpaces(entries: seq<Entry>): seq<Result<int64>>
  {
    seq(|entries|, i requires 0 <= i < |entries| => entries[i].upstream.freeSpace)
  }
}
