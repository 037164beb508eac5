/**
 * The header of a ProDOS directory key block (js/formats/prodos/directory.ts):
 * `read` decodes the header fields of the 512-byte block at fixed offsets,
 * `write` encodes them back into the block in place. The layout is the
 * directory header of Apple's ProDOS Technical Reference Manual, Appendix B.
 *
 * The block is the one the volume's disk returns for the directory's key
 * pointer; it is a parameter here. The file-name helpers (`readFileName`,
 * `writeFileName`), the date helpers and the entry list that follows the
 * header are not part of this model: the name decoder is a parameter of
 * `Read`, the case bits `writeFileName` returns are a parameter of `Write`,
 * and the creation stamp is kept as its raw 32-bit word.
 */
module ProdosDirectory {
  import Screen

  type byte = Screen.byte

  const BlockSize: int := 512

  /** `DIRECTORY_OFFSETS`. */
  const PREV: int := 0x00
  const NEXT: int := 0x02
  const STORAGE_TYPE: int := 0x04
  const NAME_LENGTH: int := 0x04
  const DIRECTORY_NAME: int := 0x05
  const CREATION: int := 0x1c
  const CASE_BITS: int := 0x20
  const ACCESS: int := 0x22
  const ENTRY_LENGTH: int := 0x23
  const ENTRIES_PER_BLOCK: int := 0x24
  const FILE_COUNT: int := 0x25
  const PARENT: int := 0x27
  const PARENT_ENTRY_NUMBER: int := 0x29
  const PARENT_ENTRY_LENGTH: int := 0x2a

  /** The end of the header fields. */
  const HEADER_END: int := 0x2b

  /** The header fields, as `read` finds them in a block or as `write` is
      given them. `nameLength` is the name's length; `caseBits` is the byte
      at 0x20 when read and the word `writeFileName` returns when written. */
  datatype Header = Header(
    prev: nat, next: nat, storageType: nat, nameLength: nat, caseBits: nat,
    creation: nat, access: nat, entryLength: nat, entriesPerBlock: nat,
    fileCount: nat, parent: nat, parentEntryNumber: nat, parentEntryLength: nat)

  /** `getUint8`. */
  function GetUint8(s: seq<byte>, off: int): (v: nat)
    requires 0 <= off < |s|
    ensures v < 0x100
  {
    s[off] as nat
  }

  /** `getUint16(off, true)`: low byte first. */
  function GetUint16LE(s: seq<byte>, off: int): (v: nat)
    requires 0 <= off && off + 2 <= |s|
    ensures v < 0x1_0000 && v % 0x100 == s[off] as nat && v / 0x100 == s[off + 1] as nat
  {
    s[off] as nat + 0x100 * s[off + 1] as nat
  }

  /** `getUint32(off, true)`: low byte first. */
  function GetUint32LE(s: seq<byte>, off: int): (v: nat)
    requires 0 <= off && off + 4 <= |s|
    ensures v < 0x1_0000_0000
    ensures v % 0x1_0000 == GetUint16LE(s, off) && v / 0x1_0000 == GetUint16LE(s, off + 2)
  {
    GetUint16LE(s, off) + 0x1_0000 * GetUint16LE(s, off + 2)
  }

  /** `setUint8`: the value is stored modulo 256. */
  function SetUint8(s: seq<byte>, off: int, v: nat): (r: seq<byte>)
    requires 0 <= off < |s|
    ensures |r| == |s| && GetUint8(r, off) == v % 0x100
    ensures forall i :: 0 <= i < |s| && i != off ==> r[i] == s[i]
  {
    s[off := (v % 0x100) as byte]
  }

  /** `setUint16`, low byte first when `little` holds, high byte first
      otherwise; the value is stored modulo 2^16. */
  function SetUint16(s: seq<byte>, off: int, v: nat, little: bool): (r: seq<byte>)
    requires 0 <= off && off + 2 <= |s|
    ensures |r| == |s|
    ensures little ==> GetUint16LE(r, off) == v % 0x1_0000
    ensures !little ==> r[off] as nat == (v / 0x100) % 0x100 && r[off + 1] as nat == v % 0x100
    ensures forall i :: 0 <= i < |s| && i != off && i != off + 1 ==> r[i] == s[i]
  {
    var lo, hi := (v % 0x100) as byte, ((v / 0x100) % 0x100) as byte;
    if little then s[off := lo][off + 1 := hi] else s[off := hi][off + 1 := lo]
  }

  /** A 32-bit value is its low 16-bit half plus 2^16 times its high one. */
  lemma Split32(v: nat)
    ensures v % 0x1_0000_0000 == v % 0x1_0000 + 0x1_0000 * ((v / 0x1_0000) % 0x1_0000)
  {
    var q, r := v / 0x1_0000, v % 0x1_0000;
    var q2, r2 := q / 0x1_0000, q % 0x1_0000;
    assert v == q2 * 0x1_0000_0000 + (r2 * 0x1_0000 + r);
    assert 0 <= r2 * 0x1_0000 + r < 0x1_0000_0000;
  }

  /** `setUint32(off, v, true)`: the value is stored modulo 2^32. */
  function SetUint32LE(s: seq<byte>, off: int, v: nat): (r: seq<byte>)
    requires 0 <= off && off + 4 <= |s|
    ensures |r| == |s| && GetUint32LE(r, off) == v % 0x1_0000_0000
    ensures forall i :: 0 <= i < |s| && !(off <= i < off + 4) ==> r[i] == s[i]
  {
    var r := SetUint16(SetUint16(s, off, v % 0x1_0000, true), off + 2, v / 0x1_0000, true);
    assert GetUint16LE(r, off) == v % 0x1_0000;
    Split32(v);
    r
  }

  /** The byte at 0x04 as `write` computes it: `(storageType << 4) &
      nameLength`, stored modulo 256. */
  function StorageByteAsWritten(storageType: nat, nameLength: nat): (b: byte)
  {
    ((((storageType % 0x10) as bv8) << 4) & ((nameLength % 0x10) as bv8)) as byte
  }

  /** The shifted storage type has no bit in common with the name-length
      nibble, so the byte `write` stores at 0x04 is always 0. */
  lemma AsWrittenStorageByteIsZero(storageType: nat, nameLength: nat)
    ensures StorageByteAsWritten(storageType, nameLength) == 0
  {
    var t, n := (storageType % 0x10) as bv8, (nameLength % 0x10) as bv8;
    assert n < 0x10;
    assert (t << 4) & n == 0;
  }

  /** A subdirectory header (storage type 0xE) named "Untitled" is written
      with 0 at 0x04 instead of 0xE8, so it reads back as storage type 0 and
      an empty name. */
  lemma AsWrittenStorageByteLosesFields()
    ensures StorageByteAsWritten(0xE, 8) == 0
    ensures StorageByte(0xE, 8) == 0xE8
  {
    AsWrittenStorageByteIsZero(0xE, 8);
  }

  /** The byte at 0x04 as intended: `(storageType << 4) | nameLength`, the
      storage type in the high nibble and the name length in the low one
      (the two nibbles are disjoint, so the OR is their sum). */
  function StorageByte(storageType: nat, nameLength: nat): (b: byte)
  {
    ((storageType % 0x10) * 0x10 + nameLength % 0x10) as byte
  }

  /** `read`'s split of byte 0x04 undoes the intended join. */
  lemma StorageByteRoundTrip(storageType: nat, nameLength: nat)
    ensures StorageByte(storageType, nameLength) as nat / 0x10 == storageType % 0x10
    ensures StorageByte(storageType, nameLength) as nat % 0x10 == nameLength % 0x10
  {
    var t, n := storageType % 0x10, nameLength % 0x10;
    assert StorageByte(storageType, nameLength) as nat == t * 0x10 + n;
  }

  /** Each field cut to the width it has in the block; the case bits to
      the one byte `read` takes. */
  function Truncate(h: Header): (t: Header)
    ensures Fits(t)
  {
    Header(
      h.prev % 0x1_0000, h.next % 0x1_0000, h.storageType % 0x10, h.nameLength % 0x10,
      h.caseBits % 0x100, h.creation % 0x1_0000_0000, h.access % 0x100, h.entryLength % 0x100,
      h.entriesPerBlock % 0x100, h.fileCount % 0x1_0000, h.parent % 0x1_0000,
      h.parentEntryNumber % 0x100, h.parentEntryLength % 0x100)
  }

  /** Every field within its width. */
  predicate Fits(h: Header) {
    h.prev < 0x1_0000 && h.next < 0x1_0000 && h.fileCount < 0x1_0000 && h.parent < 0x1_0000 &&
    h.storageType < 0x10 && h.nameLength < 0x10 && h.creation < 0x1_0000_0000 &&
    h.caseBits < 0x100 && h.access < 0x100 && h.entryLength < 0x100 && h.entriesPerBlock < 0x100 &&
    h.parentEntryNumber < 0x100 && h.parentEntryLength < 0x100
  }

  /** Cutting to width keeps a header that fits, and only such a one. */
  lemma TruncateFits(h: Header)
    ensures Truncate(h) == h <==> Fits(h)
  {
    if Fits(h) {
      assert h.creation % 0x1_0000_0000 == h.creation;
    }
  }

  /** The fields `read` takes from a block. */
  function Decode(s: seq<byte>): (h: Header)
    requires |s| >= HEADER_END
    ensures h.storageType < 0x10 && h.nameLength < 0x10
    ensures h.storageType * 0x10 + h.nameLength == s[STORAGE_TYPE] as nat
    ensures Fits(h)
  {
    Header(
      GetUint16LE(s, PREV),
      GetUint16LE(s, NEXT),
      GetUint8(s, STORAGE_TYPE) / 0x10,
      GetUint8(s, NAME_LENGTH) % 0x10,
      GetUint8(s, CASE_BITS),
      GetUint32LE(s, CREATION),
      GetUint8(s, ACCESS),
      GetUint8(s, ENTRY_LENGTH),
      GetUint8(s, ENTRIES_PER_BLOCK),
      GetUint16LE(s, FILE_COUNT),
      GetUint16LE(s, PARENT),
      GetUint8(s, PARENT_ENTRY_NUMBER),
      GetUint8(s, PARENT_ENTRY_LENGTH))
  }

  /** The block `write` leaves (with the intended byte at 0x04): each field
      set in the order `write` sets them. `prev` and `next` are not written. */
  function Encode(s: seq<byte>, h: Header): (r: seq<byte>)
    requires |s| >= HEADER_END
    ensures |r| == |s|
  {
    var s1 := SetUint8(s, STORAGE_TYPE, StorageByte(h.storageType, h.nameLength) as nat);
    var s2 := SetUint32LE(s1, CREATION, h.creation);
    var s3 := SetUint16(s2, CASE_BITS, h.caseBits, false);
    var s4 := SetUint8(s3, ACCESS, h.access);
    var s5 := SetUint8(s4, ENTRY_LENGTH, h.entryLength);
    var s6 := SetUint8(s5, ENTRIES_PER_BLOCK, h.entriesPerBlock);
    var s7 := SetUint16(s6, FILE_COUNT, h.fileCount, true);
    var s8 := SetUint16(s7, PARENT, h.parent, true);
    var s9 := SetUint8(s8, PARENT_ENTRY_NUMBER, h.parentEntryNumber);
    SetUint8(s9, PARENT_ENTRY_LENGTH, h.parentEntryLength)
  }

  /** The offsets `write` stores to: 0x04 and everything from the creation
      stamp to the end of the header. */
  predicate Written(i: int) {
    i == STORAGE_TYPE || CREATION <= i < HEADER_END
  }

  /** `write` touches no byte outside its fields: in particular the `prev`
      and `next` links at 0x00-0x03 and the name at 0x05-0x13 stay. */
  lemma EncodeKeeps(s: seq<byte>, h: Header, i: int)
    requires |s| >= HEADER_END && 0 <= i < |s| && !Written(i)
    ensures Encode(s, h)[i] == s[i]
  {
  }

  /** Write-then-read: `read` finds each field `write` stored, modulo its
      width; the storage type and name length come back as their low
      nibbles; `prev` and `next` are whatever the block held; and the case
      bits come back as the high byte of the big-endian word `write`
      stored at 0x20, whose low byte lands on the minimum-version byte. */
  lemma {:induction false} DecodeEncode(s: seq<byte>, h: Header)
    requires |s| >= HEADER_END
    ensures Decode(Encode(s, h)) == Truncate(h).(
      prev := GetUint16LE(s, PREV), next := GetUint16LE(s, NEXT), caseBits := (h.caseBits / 0x100) % 0x100)
    ensures Encode(s, h)[CASE_BITS + 1] as nat == h.caseBits % 0x100
  {
    var r := Encode(s, h);
    StorageByteRoundTrip(h.storageType, h.nameLength);
    assert r[STORAGE_TYPE] == StorageByte(h.storageType, h.nameLength);
    assert r[PREV] == s[PREV] && r[PREV + 1] == s[PREV + 1];
    assert r[NEXT] == s[NEXT] && r[NEXT + 1] == s[NEXT + 1];
    var s1 := SetUint8(s, STORAGE_TYPE, StorageByte(h.storageType, h.nameLength) as nat);
    var s2 := SetUint32LE(s1, CREATION, h.creation);
    assert GetUint32LE(r, CREATION) == GetUint32LE(s2, CREATION) by {
      assert forall i :: CREATION <= i < CREATION + 4 ==> r[i] == s2[i];
    }
  }

  /** Two blocks with the same decoded header agree on every header byte
      `read` looks at: all but the name and the minimum-version byte. */
  lemma DecodeDetermines(r: seq<byte>, s: seq<byte>)
    requires |r| >= HEADER_END && |s| >= HEADER_END && Decode(r) == Decode(s)
    ensures forall i :: 0 <= i < HEADER_END && !(DIRECTORY_NAME <= i < CREATION) && i != CASE_BITS + 1 ==> r[i] == s[i]
  {
    var hr, hs := Decode(r), Decode(s);
    assert r[STORAGE_TYPE] == s[STORAGE_TYPE] by {
      assert hr.storageType * 0x10 + hr.nameLength == r[STORAGE_TYPE] as nat;
    }
    assert GetUint32LE(r, CREATION) == GetUint32LE(s, CREATION);
    assert GetUint16LE(r, CREATION) == GetUint16LE(s, CREATION);
    assert GetUint16LE(r, CREATION + 2) == GetUint16LE(s, CREATION + 2);
  }

  /** Writing back the fields just read, with the case bits as the high
      byte of their word, and reading again gives the same header. */
  lemma RereadHeader(s: seq<byte>)
    requires |s| >= HEADER_END
    ensures Decode(Encode(s, Decode(s).(caseBits := Decode(s).caseBits * 0x100))) == Decode(s)
  {
    var h := Decode(s);
    var w := h.(caseBits := h.caseBits * 0x100);
    DecodeEncode(s, w);
    TruncateFits(h);
    assert (h.caseBits * 0x100) / 0x100 == h.caseBits;
    assert Truncate(w) == Truncate(h).(caseBits := (h.caseBits * 0x100) % 0x100);
  }

  /** Read-then-write: writing back the fields just read restores every
      header byte but the minimum-version byte, which the case-bits word
      overwrites with 0 when the case bits read were a single byte; bytes
      outside the fields stay as they were. */
  lemma EncodeDecode(s: seq<byte>)
    requires |s| >= HEADER_END
    ensures forall i :: 0 <= i < |s| && i != CASE_BITS + 1 ==>
      Encode(s, Decode(s).(caseBits := Decode(s).caseBits * 0x100))[i] == s[i]
    ensures Encode(s, Decode(s).(caseBits := Decode(s).caseBits * 0x100))[CASE_BITS + 1] == 0
  {
    var h := Decode(s);
    var h' := h.(caseBits := h.caseBits * 0x100);
    var r := Encode(s, h');
    RereadHeader(s);
    DecodeDetermines(r, s);
    forall i | 0 <= i < |s| && i != CASE_BITS + 1
      ensures r[i] == s[i]
    {
      if !Written(i) {
        EncodeKeeps(s, h', i);
      }
    }
  }

  /** A `Directory`'s header fields. */
  class Directory {
    var prev: nat
    var next: nat
    var storageType: nat
    var name: string
    /** The creation stamp as its 32-bit ProDOS date/time word. */
    var creation: nat
    var access: nat
    var entryLength: nat
    var entriesPerBlock: nat
    var fileCount: nat
    var parent: nat
    var parentEntryNumber: nat
    var parentEntryLength: nat

    /** The field defaults: an empty "Untitled" directory, 0x27-byte entries,
        23 to a block, with the given storage type, access and creation. */
    constructor (storageType: nat, access: nat, creation: nat)
      ensures this.storageType == storageType && this.access == access && this.creation == creation
      ensures prev == 0 && next == 0 && name == "Untitled" && fileCount == 0 && parent == 0
      ensures entryLength == 0x27 && entriesPerBlock == 23
      ensures parentEntryLength == 0 && parentEntryNumber == 0
    {
      this.storageType, this.access, this.creation := storageType, access, creation;
      prev, next, name, fileCount, parent := 0, 0, "Untitled", 0, 0;
      entryLength, entriesPerBlock := 0x27, 23;
      parentEntryLength, parentEntryNumber := 0, 0;
    }

    /** The header `write` stores, given the case bits `writeFileName`
        returned for the name. */
    function Fields(caseBits: nat): (h: Header)
      reads this
      ensures h.nameLength == |name| && h.caseBits == caseBits
    {
      Header(prev, next, storageType, |name|, caseBits, creation, access, entryLength,
        entriesPerBlock, fileCount, parent, parentEntryNumber, parentEntryLength)
    }

    /** `read`: set the fields from the header of the block. The name is
        what `readFileName` makes of the block, its name length and its
        case bits. */
    method Read(block: array<byte>, readFileName: (seq<byte>, nat, nat) -> string)
      requires block.Length == BlockSize
      modifies this
      ensures var h := Decode(block[..]);
        prev == h.prev && next == h.next && storageType == h.storageType &&
        name == readFileName(block[..], h.nameLength, h.caseBits) &&
        creation == h.creation && access == h.access && entryLength == h.entryLength &&
        entriesPerBlock == h.entriesPerBlock && fileCount == h.fileCount && parent == h.parent &&
        parentEntryNumber == h.parentEntryNumber && parentEntryLength == h.parentEntryLength
    {
      var s := block[..];
      prev := GetUint16LE(s, PREV);
      next := GetUint16LE(s, NEXT);
      storageType := GetUint8(s, STORAGE_TYPE) / 0x10;
      var nameLength := GetUint8(s, NAME_LENGTH) % 0x10;
      var caseBits := GetUint8(s, CASE_BITS);
      name := readFileName(s, nameLength, caseBits);
      creation := GetUint32LE(s, CREATION);
      access := GetUint8(s, ACCESS);
      entryLength := GetUint8(s, ENTRY_LENGTH);
      entriesPerBlock := GetUint8(s, ENTRIES_PER_BLOCK);
      fileCount := GetUint16LE(s, FILE_COUNT);
      parent := GetUint16LE(s, PARENT);
      parentEntryNumber := GetUint8(s, PARENT_ENTRY_NUMBER);
      parentEntryLength := GetUint8(s, PARENT_ENTRY_LENGTH);
    }

    /** `write`, with the byte at 0x04 joined by OR: store the fields into
        the block field by field. `caseBits` is what `writeFileName`
        returned; the name bytes it writes are not modelled. */
    method Write(block: array<byte>, caseBits: nat)
      requires block.Length == BlockSize
      modifies block
      ensures block[..] == Encode(old(block[..]), Fields(caseBits))
    {
      var nameLength := |name| % 0x10;
      assert StorageByte(storageType, nameLength) == StorageByte(storageType, |name|);
      SetByte(block, STORAGE_TYPE, StorageByte(storageType, nameLength) as nat);
      SetWord32LE(block, CREATION, creation);
      SetWord16(block, CASE_BITS, caseBits, false);
      SetByte(block, ACCESS, access);
      SetByte(block, ENTRY_LENGTH, entryLength);
      SetByte(block, ENTRIES_PER_BLOCK, entriesPerBlock);
      SetWord16(block, FILE_COUNT, fileCount, true);
      SetWord16(block, PARENT, parent, true);
      SetByte(block, PARENT_ENTRY_NUMBER, parentEntryNumber);
      SetByte(block, PARENT_ENTRY_LENGTH, parentEntryLength);
    }
  }

  /** `DataView.setUint8` on the block. */
  method SetByte(block: array<byte>, off: int, v: nat)
    requires 0 <= off < block.Length
    modifies block
    ensures block[..] == SetUint8(old(block[..]), off, v)
  {
    block[off] := (v % 0x100) as byte;
  }

  /** `DataView.setUint16` on the block. */
  method SetWord16(block: array<byte>, off: int, v: nat, little: bool)
    requires 0 <= off && off + 2 <= block.Length
    modifies block
    ensures block[..] == SetUint16(old(block[..]), off, v, little)
  {
    var lo, hi := (v % 0x100) as byte, ((v / 0x100) % 0x100) as byte;
    if little {
      block[off] := lo;
      block[off + 1] := hi;
    } else {
      block[off] := hi;
      block[off + 1] := lo;
    }
  }

  /** `DataView.setUint32(off, v, true)` on the block. */
  method SetWord32LE(block: array<byte>, off: int, v: nat)
    requires 0 <= off && off + 4 <= block.Length
    modifies block
    ensures block[..] == SetUint32LE(old(block[..]), off, v)
  {
    SetWord16(block, off, v % 0x1_0000, true);
    SetWord16(block, off + 2, v / 0x1_0000, true);
  }
}
