/** Constants and data of the on-disk format: what a block says once it has been decoded. */
module Format {
  type Byte = bv8
  type Bytes = seq<bv8>

  const TYPE_HEADER: Byte := 0x01
  const TYPE_DESCRIPTOR: Byte := 0x02
  const TYPE_CHUNK: Byte := 0x03
  const DESCRIPTOR_HEADER: nat := 32
  const CHUNK_HEADER: nat := 20
  const CRC_SIZE: nat := 4
  const NULL_BLOCK: nat := 0xFFFF_FFFF
  const U16_LIMIT: nat := 0x1_0000
  const U32_LIMIT: nat := 0x1_0000_0000

  datatype Option<+T> = None | Some(value: T)

  /** A key: the bytes stored on disk, and the string by which the index knows it. */
  datatype Key = Key(raw: Bytes, id: Bytes)

  datatype DescHeader = DescHeader(generation: nat, totalSize: nat, chunkCount: nat, next: nat,
                                   flags: nat, userFlags: nat)

  datatype ChunkHeader = ChunkHeader(flags: nat, owner: nat, index: nat, next: nat)

  /** A decoded block. `Bad` is every occupied block that no reader accepts. */
  datatype Block =
    | Free
    | Bad
    | Head
    | Desc(hdr: DescHeader, key: Key, payload: Bytes)
    | Chunk(chdr: ChunkHeader, payload: Bytes)
  {
    predicate Readable() { !Free? && !Bad? }
  }

  type Disk = seq<Block>

  /** A record as the reader returns it; `chunks` lists the value chunk blocks in chain order. */
  datatype Record = Record(block: nat, hdr: DescHeader, key: Key, chunks: seq<nat>, value: Bytes)

  datatype Entry = Entry(generation: nat, block: nat, totalSize: nat)

  type Index = map<Bytes, Entry>

  function EntryOf(r: Record): Entry { Entry(r.hdr.generation, r.block, r.hdr.totalSize) }

  /** Capacity of a descriptor block for value bytes. */
  function FirstCapacity(blockSize: nat, keySize: nat): (c: nat)
    requires keySize + 36 <= blockSize
  {
    blockSize - DESCRIPTOR_HEADER - keySize - CRC_SIZE
  }

  /** Capacity of a value chunk block. */
  function ChunkCapacity(blockSize: nat): (c: nat)
    requires blockSize >= 36
  {
    blockSize - CHUNK_HEADER - CRC_SIZE
  }
}
