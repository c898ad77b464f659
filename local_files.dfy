/**
 * The local download directory as the downloaders use it: which files
 * exist, and their sizes in bytes. Fetching a URL is an oracle.
 */
module LocalFiles {
  import opened Wrappers

  /** `os.path.join(folder, file)`, kept as its two parts. */
  datatype Path = Path(folder: string, file: string)

  /**
   * What a streamed `requests.get` plus write does: the whole body saved
   * (its size), or an exception; `partial` is the size of the file left
   * behind when the failure came after the file had been opened.
   */
  datatype FetchResult = Saved(size: nat) | Failed(partial: Option<nat>)

  type Fetcher = string -> FetchResult

  /** The files after a fetch into `p`: the file written by the attempt, if any. */
  function AfterFetch(files: map<Path, nat>, p: Path, r: FetchResult): (after: map<Path, nat>)
    ensures forall q :: q != p ==> (q in after <==> q in files) && (q in files ==> after[q] == files[q])
    ensures r.Saved? ==> p in after && after[p] == r.size
    ensures r.Failed? && r.partial.None? ==> after == files
    ensures r.Failed? && r.partial.Some? ==> p in after && after[p] == r.partial.value
  {
    match r
    case Saved(n) => files[p := n]
    case Failed(None) => files
    case Failed(Some(n)) => files[p := n]
  }

  /** The file system: every existing file and its size. */
  class Disk {
    var files: map<Path, nat>

    constructor (initial: map<Path, nat>)
      ensures files == initial
    {
      files := initial;
    }
  }
}
