/**
 * Blob objects (GitBlob.cpp): the object's content is an opaque byte buffer
 * that serialize hands out and deserialize replaces.
 */
module Blob {
  import opened Bytes
  import opened Objects

  class Blob {
    const kind: Kind
    /** `m_blobdata`. */
    var data: bytes

    /** A new blob carries the format tag "blob" and an empty buffer. */
    constructor ()
      ensures kind == BlobKind && Format(kind) == Ascii("blob")
      ensures data == []
    {
      kind := BlobKind;
      data := [];
    }

    /** serialize: the stored buffer, byte for byte; the blob is left as it was. */
    method Serialize() returns (r: bytes)
      ensures r == data
    {
      r := data;
    }

    /**
     * deserialize: the buffer becomes `d`, whatever it held before, so a
     * serialize that follows returns exactly `d`.
     */
    method Deserialize(d: bytes)
      modifies this
      ensures data == d
    {
      data := d;
    }
  }

  /** serialize after deserialize(d) yields d, and asking twice gives the same bytes. */
  method Reserialize(b: Blob, d: bytes) returns (first: bytes, second: bytes)
    modifies b
    ensures first == d && second == d && b.data == d
  {
    b.Deserialize(d);
    first := b.Serialize();
    second := b.Serialize();
  }
}
