/** The limits of chunk sizes. */
module ChunkSizes {
  const MIN_CHUNK_SIZE := 32

  /** Chunks from this size on are large. */
  const MIN_LARGE_SIZE := 256

  /** Chunk sizes from here on may be indexed into a wrong bin; the heap stays below. */
  const INDEX_LIMIT := 0x100_0000_0000
}
