/**
 * The reader of the kvrs data file (`Storage` in the library's root
 * module): the check of the 9-byte prefix (identifier and format version),
 * the loading of the length-framed index whose position the header
 * records, opening a store from an in-memory buffer, and serializing a store.
 *
 * The postcard codec the index and the vacant blocks are encoded with is a
 * foreign library; it is a parameter here (`Postcard`), so the framing is
 * verified for every encoder and decoder.
 */
module Kvrs {
  import opened Format
  import opened Errors
  import opened Io

  /** No key occurs twice. */
  predicate UniqueKeys(entries: seq<(seq<uint8>, uint64)>) {
    forall i, j :: 0 <= i < j < |entries| ==> entries[i].0 != entries[j].0
  }

  /**
   * The index (`IndexMap<Vec<u8>, u64>`): keys with the position of their
   * value, in insertion order, each key once.
   */
  type Index = entries: seq<(seq<uint8>, uint64)> | UniqueKeys(entries)

  /** A free range of the data file. */
  datatype VacantBlock = VacantBlock(pos: uint64, size: uint64) {
    /** `VacantBlock::serialize`: the block's encoding, or `SerializationError`. */
    function Serialize(encode: VacantBlock -> Option<seq<uint8>>): (r: Result<seq<uint8>, StorageError>)
      ensures r.Ok? <==> encode(this).Some?
      ensures r.Ok? ==> r.value == encode(this).value
      ensures r.Err? ==> r.error == SerializationError
    {
      match encode(this)
      case Some(bytes) => Ok(bytes)
      case None => Err(SerializationError)
    }
  }

  /** The postcard encoders and decoder the store uses; `None` is a codec failure. */
  datatype Postcard = Postcard(
    encodeU64: uint64 -> Option<seq<uint8>>,
    encodeU8: uint8 -> Option<seq<uint8>>,
    encodeIndex: Index -> Option<seq<uint8>>,
    encodeBlock: VacantBlock -> Option<seq<uint8>>,
    decodeIndex: seq<uint8> -> Option<Index>)

  // ---------------------------------------------------------------------------
  // Specification of the reader.

  /** The outcome of `check_prefix` on a stream whose unread bytes are `s`. */
  function PrefixCheck(s: seq<uint8>): Result<(), StorageError> {
    if |s| < 8 then Err(IO(UnexpectedEof))
    else if BigEndian(s[..8]) != IDENTIFIER then Err(DataFormat(MissedIdentifier))
    else if |s| < 9 then Err(IO(UnexpectedEof))
    else if s[8] > OLDEST_VERSION then Err(DataFormat(IncorrectVersion(s[8])))
    else Ok(())
  }

  /**
   * How many bytes `check_prefix` consumes from unread bytes `s`: none when
   * the identifier cannot be read, the 8 identifier bytes when it is wrong or
   * no version byte follows, and all 9 otherwise.
   */
  function PrefixConsumed(s: seq<uint8>): nat {
    if |s| < 8 then 0
    else if BigEndian(s[..8]) != IDENTIFIER || |s| < 9 then 8
    else 9
  }

  /** The index position the header records at bytes 9..17. */
  function IndexPosition(data: seq<uint8>): nat
    requires |data| >= 17
  {
    BigEndian(data[9..17])
  }

  /** The length the index section starts with. */
  function IndexLength(data: seq<uint8>): nat
    requires |data| >= 17 && IndexPosition(data) + 8 <= |data|
  {
    var p := IndexPosition(data);
    BigEndian(data[p..p + 8])
  }

  /** The outcome of `load_index` on the buffer `data`. */
  function IndexLoad(data: seq<uint8>, decode: seq<uint8> -> Option<Index>): Result<Index, StorageError> {
    if |data| < 17 then Err(IO(UnexpectedEof))
    else
      var p := IndexPosition(data);
      if |data| < p + 8 then Err(IO(UnexpectedEof))
      else
        var len := IndexLength(data);
        if |data| < p + 8 + len then Err(IO(UnexpectedEof))
        else
          match decode(data[p + 8..p + 8 + len])
          case None => Err(FailedLoadIndex)
          case Some(index) => Ok(index)
  }

  /** The outcome of decoding an index payload, as `load_index` reports it. */
  function DecodedIndex(payload: seq<uint8>, decode: seq<uint8> -> Option<Index>): Result<Index, StorageError> {
    match decode(payload)
    case None => Err(FailedLoadIndex)
    case Some(index) => Ok(index)
  }

  /** The encodings of `blocks` one after another, or `None` when one of them fails. */
  function EncodeBlocks(encode: VacantBlock -> Option<seq<uint8>>, blocks: seq<VacantBlock>): Option<seq<uint8>> {
    if blocks == [] then Some([])
    else
      match EncodeBlocks(encode, blocks[..|blocks| - 1])
      case None => None
      case Some(init) =>
        match encode(blocks[|blocks| - 1])
        case None => None
        case Some(last) => Some(init + last)
  }

  // ---------------------------------------------------------------------------
  // The store.

  class Storage {
    var inner: Cursor
    var index: Index
    var vacantBlocks: seq<VacantBlock>

    constructor (inner: Cursor, index: Index)
      ensures this.inner == inner && this.index == index && vacantBlocks == []
    {
      this.inner := inner;
      this.index := index;
      vacantBlocks := [];
    }

    /**
     * `Storage::from_vec`: checks the prefix, then loads the index, and
     * returns the first error unchanged. A store opened this way has the
     * loaded index and no vacant blocks.
     */
    static method FromVec(buf: seq<uint8>, codec: Postcard) returns (r: Result<Storage, StorageError>)
      ensures PrefixCheck(buf).Err? ==> r == Err(PrefixCheck(buf).error)
      ensures PrefixCheck(buf).Ok? && IndexLoad(buf, codec.decodeIndex).Err? ==>
        r == Err(IndexLoad(buf, codec.decodeIndex).error)
      ensures PrefixCheck(buf).Ok? && IndexLoad(buf, codec.decodeIndex).Ok? ==>
        r.Ok? && fresh(r.value) && fresh(r.value.inner) && r.value.inner.data == buf &&
        r.value.inner.pos == IndexPosition(buf) + 8 + IndexLength(buf) &&
        r.value.index == IndexLoad(buf, codec.decodeIndex).value && r.value.vacantBlocks == []
    {
      var data := new Cursor(buf);
      var prefix := CheckPrefix(data);
      if prefix.Err? {
        return Err(prefix.error);
      }
      var index := LoadIndex(data, codec);
      if index.Err? {
        return Err(index.error);
      }
      var s := new Storage(data, index.value);
      return Ok(s);
    }

    /**
     * `Storage::check_prefix`: reads the identifier and the version byte
     * from the stream's current position.
     */
    static method CheckPrefix(data: Cursor) returns (r: Result<(), StorageError>)
      modifies data
      ensures r == PrefixCheck(old(data.Unread()))
      ensures data.pos == old(data.pos) + PrefixConsumed(old(data.Unread()))
      ensures r.Ok? ==> data.pos == old(data.pos) + 9
    {
      ghost var s := data.Unread();
      var ind := data.ReadU64BigEndian();
      if ind.Err? {
        return Err(IO(ind.error));
      }
      if ind.value != IDENTIFIER {
        return Err(DataFormat(MissedIdentifier));
      }
      assert data.Unread() == s[8..];
      var version := data.ReadU8();
      if version.Err? {
        return Err(IO(version.error));
      }
      if version.value > OLDEST_VERSION {
        return Err(DataFormat(IncorrectVersion(version.value)));
      }
      return Ok(());
    }

    /**
     * `Storage::load_index`: seeks to offset 9, reads the index position,
     * seeks there, reads the payload length and then the payload, and
     * decodes it. The stream's starting position does not matter.
     */
    static method LoadIndex(data: Cursor, codec: Postcard) returns (r: Result<Index, StorageError>)
      modifies data
      ensures r == IndexLoad(data.data, codec.decodeIndex)
      ensures r.Ok? ==> data.pos == IndexPosition(data.data) + 8 + IndexLength(data.data)
    {
      ghost var bytes := data.data;
      data.SeekFromStart(9);
      var indexPos := data.ReadU64BigEndian();
      if indexPos.Err? {
        assert |bytes| < 17;
        return Err(IO(indexPos.error));
      }
      assert bytes[9..][..8] == bytes[9..17];
      ghost var p: nat := indexPos.value;
      assert p == IndexPosition(bytes);
      data.SeekFromStart(indexPos.value);
      ghost var unread := data.Unread();
      assert |unread| >= 8 <==> p + 8 <= |bytes|;
      var indexLen := data.ReadU64BigEndian();
      if indexLen.Err? {
        assert |bytes| < p + 8;
        return Err(IO(indexLen.error));
      }
      assert p + 8 <= |bytes| && unread == bytes[p..];
      assert unread[..8] == bytes[p..p + 8];
      ghost var len: nat := indexLen.value;
      assert len == IndexLength(bytes);
      var buf := data.ReadExact(indexLen.value);
      if buf.Err? {
        assert |bytes| < p + 8 + len;
        return Err(IO(buf.error));
      }
      assert bytes[p + 8..][..len] == bytes[p + 8..p + 8 + len];
      assert IndexLoad(bytes, codec.decodeIndex) == DecodedIndex(buf.value, codec.decodeIndex);
      match codec.decodeIndex(buf.value)
      case None =>
        return Err(FailedLoadIndex);
      case Some(index) =>
        return Ok(index);
    }

    /**
     * `Storage::serialize`: the encodings of the identifier, the version,
     * the index and every vacant block in list order, concatenated; any
     * encoder failure is `SerializationError`.
     */
    method Serialize(codec: Postcard) returns (r: Result<seq<uint8>, StorageError>)
      ensures r.Ok? <==>
        codec.encodeU64(IDENTIFIER).Some? && codec.encodeU8(OLDEST_VERSION).Some? &&
        codec.encodeIndex(index).Some? && EncodeBlocks(codec.encodeBlock, vacantBlocks).Some?
      ensures r.Err? ==> r.error == SerializationError
      ensures r.Ok? ==>
        r.value == codec.encodeU64(IDENTIFIER).value + codec.encodeU8(OLDEST_VERSION).value +
                   codec.encodeIndex(index).value + EncodeBlocks(codec.encodeBlock, vacantBlocks).value
    {
      var identifier := codec.encodeU64(IDENTIFIER);
      if identifier.None? {
        return Err(SerializationError);
      }
      var version := codec.encodeU8(OLDEST_VERSION);
      if version.None? {
        return Err(SerializationError);
      }
      var indexBytes := codec.encodeIndex(index);
      if indexBytes.None? {
        return Err(SerializationError);
      }
      var blockBytes: seq<uint8> := [];
      for i := 0 to |vacantBlocks|
        invariant EncodeBlocks(codec.encodeBlock, vacantBlocks[..i]) == Some(blockBytes)
      {
        var block := vacantBlocks[i].Serialize(codec.encodeBlock);
        if block.Err? {
          EncodeBlocksSucceedsIff(codec.encodeBlock, vacantBlocks);
          return Err(block.error);
        }
        assert vacantBlocks[..i + 1][..i] == vacantBlocks[..i];
        blockBytes := blockBytes + block.value;
      }
      assert vacantBlocks[..|vacantBlocks|] == vacantBlocks;
      return Ok(identifier.value + version.value + indexBytes.value + blockBytes);
    }
  }

  // ---------------------------------------------------------------------------
  // Properties of the prefix check.

  /**
   * The prefix is accepted exactly when the first 8 bytes are the
   * identifier's and the version byte after them is at most the oldest version.
   */
  lemma PrefixAcceptedExactly(s: seq<uint8>)
    ensures PrefixCheck(s).Ok? <==> |s| >= 9 && s[..8] == IDENTIFIER_BYTES && s[8] <= OLDEST_VERSION
  {
    if |s| >= 8 {
      IdentifierBytesExactly(s[..8]);
    }
  }

  /** A wrong identifier is reported as such, whatever follows it. */
  lemma PrefixMissedIdentifier(s: seq<uint8>)
    requires |s| >= 8 && s[..8] != IDENTIFIER_BYTES
    ensures PrefixCheck(s) == Err(DataFormat(MissedIdentifier))
  {
    IdentifierBytesExactly(s[..8]);
  }

  /** After the right identifier, a too-new version is reported with the byte read. */
  lemma PrefixIncorrectVersion(s: seq<uint8>)
    requires |s| >= 9 && s[..8] == IDENTIFIER_BYTES && s[8] > OLDEST_VERSION
    ensures PrefixCheck(s) == Err(DataFormat(IncorrectVersion(s[8])))
  {
    IdentifierBytesExactly(s[..8]);
  }

  /**
   * The check runs out of input exactly when there are fewer than 8 bytes,
   * or when the 8 bytes of the identifier are all there is.
   */
  lemma PrefixShortInput(s: seq<uint8>)
    ensures PrefixCheck(s) == Err(IO(UnexpectedEof)) <==> |s| < 8 || s == IDENTIFIER_BYTES
  {
    if |s| >= 8 {
      IdentifierBytesExactly(s[..8]);
      if |s| == 8 {
        assert s[..8] == s;
      }
    }
  }

  /** Bytes after the version byte do not change the outcome. */
  lemma PrefixIgnoresTail(s: seq<uint8>, tail: seq<uint8>)
    requires |s| >= 9
    ensures PrefixCheck(s + tail) == PrefixCheck(s)
  {
    assert (s + tail)[..8] == s[..8];
  }

  /** The test vectors of the prefix check, each with and without trailing bytes. */
  lemma PrefixCheckExamples()
    ensures var tail := [73, 42, 255, 0, 0, 123, 64, 90, 17, 48, 33];
      var correct := IDENTIFIER_BYTES + [1];
      var wrongVersion := IDENTIFIER_BYTES + [123];
      var wrongIdentifier := [0x10, 0x20, 0x30, 0x40, 0x50, 0x60, 0x70, 0x80, 1];
      && PrefixCheck(correct) == Ok(()) && PrefixCheck(correct + tail) == Ok(())
      && PrefixCheck(wrongVersion) == Err(DataFormat(IncorrectVersion(123)))
      && PrefixCheck(wrongVersion + tail) == Err(DataFormat(IncorrectVersion(123)))
      && PrefixCheck(wrongIdentifier) == Err(DataFormat(MissedIdentifier))
      && PrefixCheck(wrongIdentifier + tail) == Err(DataFormat(MissedIdentifier))
  {
    var tail: seq<uint8> := [73, 42, 255, 0, 0, 123, 64, 90, 17, 48, 33];
    var correct := IDENTIFIER_BYTES + [1];
    var wrongVersion := IDENTIFIER_BYTES + [123];
    var wrongIdentifier: seq<uint8> := [0x10, 0x20, 0x30, 0x40, 0x50, 0x60, 0x70, 0x80, 1];
    assert correct[..8] == IDENTIFIER_BYTES && wrongVersion[..8] == IDENTIFIER_BYTES;
    PrefixAcceptedExactly(correct);
    PrefixIncorrectVersion(wrongVersion);
    assert wrongIdentifier[..8][0] != IDENTIFIER_BYTES[0];
    PrefixMissedIdentifier(wrongIdentifier);
    PrefixIgnoresTail(correct, tail);
    PrefixIgnoresTail(wrongVersion, tail);
    PrefixIgnoresTail(wrongIdentifier, tail);
  }

  // ---------------------------------------------------------------------------
  // Properties of index loading.

  /**
   * When bytes 9..17 hold a position `p` and the section at `p` holds the
   * length of `payload` followed by `payload`, loading decodes exactly
   * `payload`.
   */
  lemma IndexLoadReadsSection(data: seq<uint8>, p: uint64, payload: seq<uint8>, decode: seq<uint8> -> Option<Index>)
    requires |payload| < 0x1_0000_0000_0000_0000
    requires |data| >= 17 && data[9..17] == U64ToBigEndian(p)
    requires p + 8 + |payload| <= |data|
    requires data[p..p + 8] == U64ToBigEndian(|payload|)
    requires data[p + 8..p + 8 + |payload|] == payload
    ensures IndexLoad(data, decode) == DecodedIndex(payload, decode)
  {
    BigEndianOfU64ToBigEndian(p);
    assert IndexPosition(data) == p;
    BigEndianOfU64ToBigEndian(|payload|);
    assert IndexLength(data) == |payload|;
  }

  /** Once every read fits in `data`, bytes appended after it do not change the outcome. */
  lemma IndexLoadIgnoresTail(data: seq<uint8>, tail: seq<uint8>, decode: seq<uint8> -> Option<Index>)
    requires !(IndexLoad(data, decode).Err? && IndexLoad(data, decode).error.IO?)
    ensures IndexLoad(data + tail, decode) == IndexLoad(data, decode)
  {
    var d := data + tail;
    assert d[9..17] == data[9..17];
    var p := IndexPosition(data);
    assert d[p..p + 8] == data[p..p + 8];
    var len := IndexLength(data);
    assert d[p + 8..p + 8 + len] == data[p + 8..p + 8 + len];
  }

  /**
   * Cutting the buffer anywhere before the end of the index payload makes
   * loading run out of input.
   */
  lemma IndexLoadTruncated(data: seq<uint8>, k: nat, decode: seq<uint8> -> Option<Index>)
    requires !(IndexLoad(data, decode).Err? && IndexLoad(data, decode).error.IO?)
    requires k < IndexPosition(data) + 8 + IndexLength(data)
    ensures IndexLoad(data[..k], decode) == Err(IO(UnexpectedEof))
  {
    var d := data[..k];
    if |d| >= 17 {
      assert d[9..17] == data[9..17];
      var p := IndexPosition(data);
      if p + 8 <= |d| {
        assert d[p..p + 8] == data[p..p + 8];
      }
    }
  }

  /** The decoder's failure is `FailedLoadIndex`, and only then is that error returned. */
  lemma IndexLoadFailedDecode(data: seq<uint8>, decode: seq<uint8> -> Option<Index>)
    ensures IndexLoad(data, decode) == Err(FailedLoadIndex) <==>
      |data| >= 17 && IndexPosition(data) + 8 <= |data| &&
      IndexPosition(data) + 8 + IndexLength(data) <= |data| &&
      decode(data[IndexPosition(data) + 8..IndexPosition(data) + 8 + IndexLength(data)]).None?
  {
  }

  /**
   * A data file laid out as the loader expects (identifier, version, index
   * position, any bytes up to the index section, the section, trailing
   * bytes) passes the prefix check and loads the encoded index.
   */
  lemma WellFormedFileLoads(version: uint8, gap: seq<uint8>, payload: seq<uint8>, tail: seq<uint8>,
                            decode: seq<uint8> -> Option<Index>)
    requires version <= OLDEST_VERSION
    requires 17 + |gap| < 0x1_0000_0000_0000_0000 && |payload| < 0x1_0000_0000_0000_0000
    ensures var data := IDENTIFIER_BYTES + [version] + U64ToBigEndian(17 + |gap|) + gap +
                        U64ToBigEndian(|payload|) + payload + tail;
      PrefixCheck(data) == Ok(()) && IndexLoad(data, decode) == DecodedIndex(payload, decode)
  {
    var p := 17 + |gap|;
    var header := IDENTIFIER_BYTES + [version] + U64ToBigEndian(p);
    var data := header + gap + U64ToBigEndian(|payload|) + payload + tail;
    assert data[..8] == IDENTIFIER_BYTES && data[8] == version;
    PrefixAcceptedExactly(data);
    assert data[9..17] == U64ToBigEndian(p);
    assert data[p..p + 8] == U64ToBigEndian(|payload|);
    assert data[p + 8..p + 8 + |payload|] == payload;
    IndexLoadReadsSection(data, p, payload, decode);
  }

  // ---------------------------------------------------------------------------
  // Properties of the vacant-block encoding.

  /** The blocks encode exactly when every single block encodes. */
  lemma {:induction false} EncodeBlocksSucceedsIff(encode: VacantBlock -> Option<seq<uint8>>, blocks: seq<VacantBlock>)
    ensures EncodeBlocks(encode, blocks).Some? <==> forall i :: 0 <= i < |blocks| ==> encode(blocks[i]).Some?
  {
    if blocks != [] {
      var init := blocks[..|blocks| - 1];
      EncodeBlocksSucceedsIff(encode, init);
      assert forall i :: 0 <= i < |init| ==> init[i] == blocks[i];
    }
  }

  /** The encoding of two lists one after the other is the two encodings in that order. */
  lemma {:induction false} EncodeBlocksAppend(encode: VacantBlock -> Option<seq<uint8>>, a: seq<VacantBlock>, b: seq<VacantBlock>)
    requires EncodeBlocks(encode, a).Some? && EncodeBlocks(encode, b).Some?
    ensures EncodeBlocks(encode, a + b) == Some(EncodeBlocks(encode, a).value + EncodeBlocks(encode, b).value)
  {
    if b == [] {
      assert a + b == a;
      assert EncodeBlocks(encode, a).value + [] == EncodeBlocks(encode, a).value;
    } else {
      var init := b[..|b| - 1];
      assert (a + b)[..|a + b| - 1] == a + init;
      assert (a + b)[|a + b| - 1] == b[|b| - 1];
      var x, y := EncodeBlocks(encode, a).value, EncodeBlocks(encode, init).value;
      var z := encode(b[|b| - 1]).value;
      EncodeBlocksAppend(encode, a, init);
      assert EncodeBlocks(encode, b).value == y + z;
      assert x + y + z == x + (y + z);
    }
  }

  /** A single block's part of the encoding is that block's own encoding. */
  lemma EncodeBlocksSingle(encode: VacantBlock -> Option<seq<uint8>>, block: VacantBlock)
    ensures EncodeBlocks(encode, [block]) == encode(block)
  {
    assert [block][..0] == [];
    if encode(block).Some? {
      assert [] + encode(block).value == encode(block).value;
    }
  }
}
