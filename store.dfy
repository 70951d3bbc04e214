/**
 * What the recognition core sees of its collaborators: the rows the record
 * store lists, what a reference photo yields when the face library is run on
 * it, and the writes the core makes to the store and the filesystem.
 */
module Store {

  import opened Wrappers
  import opened EmbeddingCodec
  import opened Annotation

  /** An authorized person as the store lists it. */
  datatype AuthRow = AuthRow(id: int, nombre: string, filename: string, embeddingHex: Option<string>)

  /** An intruder record as the store lists it; only its embedding column is read. */
  datatype IntrusoRow = IntrusoRow(embeddingHex: Option<string>)

  /** The truth value of the embedding_hex column: neither NULL nor empty. */
  predicate HasHex(hx: Option<string>) {
    hx.Some? && hx.value != ""
  }

  /**
   * Running the face library on an authorized person's reference photo:
   * the file is absent, loading or encoding raised, or the encodings found
   * (possibly none).
   */
  datatype ImageProbe = Missing | Unreadable | Faces(encodings: seq<Embedding>)

  /** The reference photos, by file name under the authorized-images directory. */
  type ReferencePhotos = string -> ImageProbe

  const IntrusosDir: string := "data/intrusos"

  /** A write the core makes; its success is never observed by the core. */
  datatype Effect =
    | UpdateEmbedding(id: int, embeddingHex: string)
    | WriteImage(path: string, frame: Frame)
    | AddIntruso(filename: string, fechaHora: string, embeddingHex: string)

}
