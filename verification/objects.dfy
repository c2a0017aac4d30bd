/**
 * The four object kinds and the format tag each one carries
 * (`GitObject(repo, fmt)` in GitObject.cpp, passed by each subclass's
 * constructor).
 */
module Objects {
  import opened Bytes

  datatype Kind = BlobKind | TreeKind | CommitKind | TagKind

  function Format(k: Kind): (tag: bytes)
    ensures |tag| > 0
  {
    match k
    case BlobKind => Ascii("blob")
    case TreeKind => Ascii("tree")
    case CommitKind => Ascii("commit")
    case TagKind => Ascii("tag")
  }
}
