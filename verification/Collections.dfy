/** What several modules need of options and sequences. */
module Collections {
  datatype Option<+T> = None | Some(value: T)

  /** A sequence without its k-th element. */
  function Removed<T>(s: seq<T>, k: nat): (r: seq<T>)
    requires k < |s|
    ensures |r| == |s| - 1
  {
    s[..k] + s[k + 1..]
  }
}
