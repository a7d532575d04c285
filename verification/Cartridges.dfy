/** The cartridge format: header validation, and the memory layout the runtime gives an accepted cartridge. */
module Cartridges {
  import opened Words
  import opened Crc

  const HEADER_BYTES: nat := 72
  const EXTENDED_HEADER_BYTES: nat := 100
  const MAXIMUM_GUEST_BYTES: nat := 64 * 1024 * 1024
  const STACK_BYTES: nat := 128 * 1024
  const MINIMUM_GUEST_BYTES: nat := 256 * 1024
  const PAGE_BYTES: nat := 4096
  const DEFAULT_BASE: uint32 := 0x4080_0000
  const IMPORT_MODEL_ABI_TABLE: uint32 := 1
  const MAGIC: seq<uint8> := [0x50, 0x52, 0x47, 0x32]
  const AUDIO_MAGIC: seq<uint8> := [0x41, 0x55, 0x44, 0x30]
  const AUDIO_HEADER_BYTES: nat := 40

  datatype Header = Header(
    abiMajor: uint16, headerSize: uint16, flags: uint16, loadAddr: uint32, codeSize: uint32, memSize: uint32,
    initOffset: uint32, updateOffset: uint32, drawOffset: uint32, payloadCrc32: uint32)

  datatype Cartridge = Cartridge(
    header: Header, abiHash: uint32, requiredFeatures: uint32, importModel: uint32, payload: seq<uint8>,
    audio: Option<seq<uint8>>)

  datatype ParseError = NotPrg2 | UnsupportedMajor | BadSize | BadMemorySize | Wraps | BadEntry | CrcMismatch
    | BadAudioBlock | UnreadableAudio
  datatype ParseResult = Parsed(cart: Cartridge) | Rejected(error: ParseError)

  function HeaderOf(b: seq<uint8>): Header
    requires HEADER_BYTES <= |b|
  {
    Header(Le16(b, 4), Le16(b, 8), Le16(b, 10), Le32(b, 12), Le32(b, 16), Le32(b, 20),
           Le32(b, 24), Le32(b, 28), Le32(b, 32), Le32(b, 36))
  }

  function GuestBytes(h: Header): nat {
    Max(h.codeSize + h.memSize + STACK_BYTES, MINIMUM_GUEST_BYTES)
  }

  predicate GoodSizes(h: Header, size: nat) {
    HEADER_BYTES <= h.headerSize <= size && 0 < h.codeSize <= size - h.headerSize
  }

  predicate GoodMemory(h: Header) {
    h.memSize <= MAXIMUM_GUEST_BYTES && h.codeSize + h.memSize + STACK_BYTES <= MAXIMUM_GUEST_BYTES
  }

  predicate GoodEntries(h: Header) {
    h.initOffset < h.codeSize && h.updateOffset < h.codeSize && h.drawOffset < h.codeSize
  }

  /** What a package of `size` bytes with this header must satisfy to be accepted. */
  predicate Acceptable(h: Header, size: nat) {
    && h.abiMajor == 1 && GoodSizes(h, size) && GoodMemory(h)
    && h.loadAddr + GuestBytes(h) <= TWO32 && GoodEntries(h)
  }

  function PayloadOf(b: seq<uint8>): seq<uint8>
    requires HEADER_BYTES <= |b| && GoodSizes(HeaderOf(b), |b|)
  {
    b[HeaderOf(b).headerSize..HeaderOf(b).headerSize + HeaderOf(b).codeSize]
  }

  /** The payload is intact as far as the header can tell. */
  predicate GoodCrc(b: seq<uint8>)
    requires HEADER_BYTES <= |b| && GoodSizes(HeaderOf(b), |b|)
  {
    HeaderOf(b).payloadCrc32 == 0 || Checksum(Bits(PayloadOf(b))) == HeaderOf(b).payloadCrc32
  }

  /** An audio block is announced by the header and stands right behind the payload. */
  predicate HasAudio(b: seq<uint8>)
    requires HEADER_BYTES <= |b| && GoodSizes(HeaderOf(b), |b|)
  {
    var o := HeaderOf(b).headerSize + HeaderOf(b).codeSize;
    HeaderOf(b).flags % 2 == 1 && o + AUDIO_HEADER_BYTES <= |b| && b[o..o + 4] == AUDIO_MAGIC
  }

  function AudioSize(b: seq<uint8>): uint32
    requires HEADER_BYTES <= |b| && GoodSizes(HeaderOf(b), |b|) && HasAudio(b)
  {
    Le32(b, HeaderOf(b).headerSize + HeaderOf(b).codeSize + 36)
  }

  predicate GoodAudioSize(b: seq<uint8>)
    requires HEADER_BYTES <= |b| && GoodSizes(HeaderOf(b), |b|)
  {
    HasAudio(b) ==>
      AUDIO_HEADER_BYTES <= AudioSize(b) <= |b| - HeaderOf(b).headerSize - HeaderOf(b).codeSize
  }

  function AudioOf(b: seq<uint8>): Option<seq<uint8>>
    requires HEADER_BYTES <= |b| && GoodSizes(HeaderOf(b), |b|) && GoodAudioSize(b)
  {
    var o := HeaderOf(b).headerSize + HeaderOf(b).codeSize;
    if HasAudio(b) then Some(b[o..o + AudioSize(b)]) else None
  }

  function CartridgeOf(b: seq<uint8>): Cartridge
    requires HEADER_BYTES <= |b| && GoodSizes(HeaderOf(b), |b|) && GoodAudioSize(b)
  {
    var h := HeaderOf(b);
    if h.headerSize < EXTENDED_HEADER_BYTES then Cartridge(h, 0, 0, 0, PayloadOf(b), AudioOf(b))
    else Cartridge(h, Le32(b, 72), Le32(b, 76), Le32(b, 96), PayloadOf(b), AudioOf(b))
  }

  predicate IsPackage(b: seq<uint8>) {
    HEADER_BYTES <= |b| && b[..4] == MAGIC
  }

  /** Everything up to the entry points holds, and the payload is intact where that is asked for. */
  predicate PassesHeader(b: seq<uint8>, validateCrc: bool) {
    IsPackage(b) && Acceptable(HeaderOf(b), |b|) && (validateCrc ==> GoodCrc(b))
  }

  /**
   * Package parsing up to the metadata trailer: accepted exactly when every check holds, else the first failed
   * check. `readable` is the audio parser's verdict on a block.
   */
  method Parse(b: seq<uint8>, validateCrc: bool, readable: seq<uint8> -> bool) returns (r: ParseResult)
    ensures r.Parsed? <==>
      && PassesHeader(b, validateCrc) && GoodAudioSize(b) && (AudioOf(b).Some? ==> readable(AudioOf(b).value))
    ensures r.Parsed? ==> r.cart == CartridgeOf(b) && |r.cart.payload| == r.cart.header.codeSize
    ensures r == Rejected(NotPrg2) <==> !IsPackage(b)
    ensures r == Rejected(UnsupportedMajor) <==> IsPackage(b) && HeaderOf(b).abiMajor != 1
    ensures r == Rejected(BadSize) <==> IsPackage(b) && HeaderOf(b).abiMajor == 1 && !GoodSizes(HeaderOf(b), |b|)
    ensures r == Rejected(BadMemorySize) <==>
      && IsPackage(b) && HeaderOf(b).abiMajor == 1 && GoodSizes(HeaderOf(b), |b|) && !GoodMemory(HeaderOf(b))
    ensures r == Rejected(Wraps) <==>
      && IsPackage(b) && HeaderOf(b).abiMajor == 1 && GoodSizes(HeaderOf(b), |b|) && GoodMemory(HeaderOf(b))
      && HeaderOf(b).loadAddr + GuestBytes(HeaderOf(b)) > TWO32
    ensures r == Rejected(BadEntry) <==>
      && IsPackage(b) && !GoodEntries(HeaderOf(b))
      && Acceptable(HeaderOf(b).(initOffset := 0, updateOffset := 0, drawOffset := 0), |b|)
    ensures r == Rejected(CrcMismatch) <==>
      IsPackage(b) && Acceptable(HeaderOf(b), |b|) && validateCrc && !GoodCrc(b)
    ensures r == Rejected(BadAudioBlock) <==> PassesHeader(b, validateCrc) && !GoodAudioSize(b)
  {
    hide Le16, Le32, Checksum, Bits;
    if |b| < HEADER_BYTES || b[..4] != MAGIC { return Rejected(NotPrg2); }
    var h := HeaderOf(b);
    if h.abiMajor != 1 { return Rejected(UnsupportedMajor); }
    if h.headerSize < 72 || h.headerSize > |b| || h.codeSize == 0 || h.codeSize > |b| - h.headerSize {
      return Rejected(BadSize);
    }
    if h.memSize > MAXIMUM_GUEST_BYTES || h.codeSize + h.memSize + STACK_BYTES > MAXIMUM_GUEST_BYTES {
      return Rejected(BadMemorySize);
    }
    if h.loadAddr + Max(h.codeSize + h.memSize + STACK_BYTES, MINIMUM_GUEST_BYTES) > TWO32 {
      return Rejected(Wraps);
    }
    var entries := [h.initOffset, h.updateOffset, h.drawOffset];
    for i := 0 to |entries|
      invariant forall k | 0 <= k < i :: entries[k] < h.codeSize
    {
      if entries[i] >= h.codeSize { return Rejected(BadEntry); }
    }
    assert entries[0] < h.codeSize && entries[1] < h.codeSize && entries[2] < h.codeSize;
    var payload := b[h.headerSize..h.headerSize + h.codeSize];
    if validateCrc && h.payloadCrc32 != 0 {
      var crc := CartridgeCrc32(Bits(payload));
      if crc != h.payloadCrc32 { return Rejected(CrcMismatch); }
    }
    var trailing := h.headerSize + h.codeSize;
    if h.flags % 2 == 1 && trailing + AUDIO_HEADER_BYTES <= |b| && b[trailing..trailing + 4] == AUDIO_MAGIC {
      var size := Le32(b, trailing + 36);
      if size < AUDIO_HEADER_BYTES || trailing + size > |b| { return Rejected(BadAudioBlock); }
      if !readable(b[trailing..trailing + size]) { return Rejected(UnreadableAudio); }
    }
    return Parsed(CartridgeOf(b));
  }

  // Building a package.

  const NAME_BYTES: nat := 32

  /** The fixed header: magic, four halfwords, seven words and the name. */
  function PackHeader(h: Header, minor: uint16, name: seq<uint8>): (b: seq<uint8>)
    requires |name| == NAME_BYTES
    ensures |b| == HEADER_BYTES
  {
    MAGIC + Bytes16(h.abiMajor) + Bytes16(minor) + Bytes16(h.headerSize) + Bytes16(h.flags) + PackWords(HeaderWords(h))
    + name
  }

  function HeaderWords(h: Header): seq<uint32> {
    [h.loadAddr, h.codeSize, h.memSize, h.initOffset, h.updateOffset, h.drawOffset, h.payloadCrc32]
  }

  /** The extension: hash, features, four words that the runtime does not look at, and the import model. */
  function PackExtension(c: Cartridge, unused: seq<uint32>): (b: seq<uint8>)
    requires |unused| == 4
    ensures |b| == EXTENDED_HEADER_BYTES - HEADER_BYTES
  {
    PackWords([c.abiHash, c.requiredFeatures] + unused + [c.importModel])
  }

  lemma HeaderHalves(h: Header, minor: uint16, more: seq<uint8>)
    ensures var b := MAGIC + Bytes16(h.abiMajor) + Bytes16(minor) + Bytes16(h.headerSize) + Bytes16(h.flags) + more;
      && b[..4] == MAGIC && b[4..6] == Bytes16(h.abiMajor) && b[8..10] == Bytes16(h.headerSize)
      && b[10..12] == Bytes16(h.flags) && b[12..] == more
  {
    hide Bytes16;
  }

  /** A word inside the middle part of three. */
  lemma WordInside(before: seq<uint8>, a: seq<uint8>, more: seq<uint8>, t: nat, v: uint32)
    requires t + 4 <= |a| && a[t..t + 4] == Bytes32(v)
    ensures Le32(before + a + more, |before| + t) == v
  {
    hide Bytes32, Le32;
    var b, o := before + a + more, |before| + t;
    assert b[o..o + 4] == a[t..t + 4];
    FieldReads32(b, o, v);
  }

  /** The words of a packed list, wherever it stands. */
  lemma WordsInside(before: seq<uint8>, ws: seq<uint32>, more: seq<uint8>)
    requires |ws| == 7
    ensures var b, o := before + PackWords(ws) + more, |before|;
      && Le32(b, o) == ws[0] && Le32(b, o + 4) == ws[1] && Le32(b, o + 8) == ws[2] && Le32(b, o + 12) == ws[3]
      && Le32(b, o + 16) == ws[4] && Le32(b, o + 20) == ws[5] && Le32(b, o + 24) == ws[6]
  {
    hide PackWords, Bytes32, Le32;
    WordAtIndex(before, ws, more, 0);
    WordAtIndex(before, ws, more, 1);
    WordAtIndex(before, ws, more, 2);
    WordAtIndex(before, ws, more, 3);
    WordAtIndex(before, ws, more, 4);
    WordAtIndex(before, ws, more, 5);
    WordAtIndex(before, ws, more, 6);
  }

  lemma WordAtIndex(before: seq<uint8>, ws: seq<uint32>, more: seq<uint8>, i: nat)
    requires i < |ws|
    ensures Le32(before + PackWords(ws) + more, |before| + 4 * i) == ws[i]
  {
    hide PackWords, Bytes32, Le32;
    PackedWordAt(ws, i);
    WordInside(before, PackWords(ws), more, 4 * i, ws[i]);
  }

  /** A header is read back field by field, whatever follows it. */
  lemma HeaderReadsBack(h: Header, minor: uint16, name: seq<uint8>, more: seq<uint8>)
    requires |name| == NAME_BYTES
    ensures var b := PackHeader(h, minor, name) + more; IsPackage(b) && HeaderOf(b) == h
  {
    hide PackWords, Le16, Le32, Bytes16;
    var halves := MAGIC + Bytes16(h.abiMajor) + Bytes16(minor) + Bytes16(h.headerSize) + Bytes16(h.flags);
    var tail := PackWords(HeaderWords(h)) + (name + more);
    var b := PackHeader(h, minor, name) + more;
    HeaderHalves(h, minor, tail);
    assert b == halves + tail && b == halves + PackWords(HeaderWords(h)) + (name + more);
    FieldReads16(b, 4, h.abiMajor);
    FieldReads16(b, 8, h.headerSize);
    FieldReads16(b, 10, h.flags);
    WordsInside(halves, HeaderWords(h), name + more);
  }

  lemma ExtensionReadsBack(c: Cartridge, unused: seq<uint32>, header: seq<uint8>, more: seq<uint8>)
    requires |unused| == 4 && |header| == HEADER_BYTES
    ensures var b := header + PackExtension(c, unused) + more;
      Le32(b, 72) == c.abiHash && Le32(b, 76) == c.requiredFeatures && Le32(b, 96) == c.importModel
  {
    hide PackWords, Le32;
    var ws := [c.abiHash, c.requiredFeatures] + unused + [c.importModel];
    WordsInside(header, ws, more);
  }

  /** An audio block as it stands in a package. */
  predicate AudioBlock(a: seq<uint8>) {
    |a| >= AUDIO_HEADER_BYTES && a[..4] == AUDIO_MAGIC && Le32(a, 36) == |a|
  }

  /** The rest of a package, where it does not read as an audio block. */
  predicate NoAudio(h: Header, rest: seq<uint8>) {
    h.flags % 2 == 0 || |rest| < AUDIO_HEADER_BYTES || rest[..4] != AUDIO_MAGIC
  }

  /** What a packing tool can put into a package. */
  predicate Packable(c: Cartridge, gap: nat, trailer: seq<uint8>) {
    && c.header.headerSize == EXTENDED_HEADER_BYTES + gap && |c.payload| == c.header.codeSize > 0
    && match c.audio
       case None => NoAudio(c.header, trailer)
       case Some(a) => c.header.flags % 2 == 1 && AudioBlock(a)
  }

  function Pack(c: Cartridge, minor: uint16, name: seq<uint8>, unused: seq<uint32>, gap: seq<uint8>,
                trailer: seq<uint8>): seq<uint8>
    requires |name| == NAME_BYTES && |unused| == 4
  {
    PackHeader(c.header, minor, name) + PackExtension(c, unused) + gap + c.payload
    + (match c.audio case None => [] case Some(a) => a) + trailer
  }

  /** Packing a cartridge and reading the package gives it back: header, extension, payload and audio block. */
  lemma PackReadsBack(c: Cartridge, minor: uint16, name: seq<uint8>, unused: seq<uint32>, gap: seq<uint8>,
                      trailer: seq<uint8>)
    requires |name| == NAME_BYTES && |unused| == 4 && Packable(c, |gap|, trailer)
    ensures var b := Pack(c, minor, name, unused, gap, trailer);
      && IsPackage(b) && HeaderOf(b) == c.header && GoodSizes(HeaderOf(b), |b|) && GoodAudioSize(b)
      && CartridgeOf(b) == c
      && (GoodCrc(b) <==> c.header.payloadCrc32 == 0 || Checksum(Bits(c.payload)) == c.header.payloadCrc32)
  {
    hide HeaderOf, PackHeader, PackExtension, IsPackage, Le32, Checksum, Bits, Pack, AudioOf, GoodAudioSize;
    var b := Pack(c, minor, name, unused, gap, trailer);
    var header := PackHeader(c.header, minor, name);
    var more := PackLayout(c, minor, name, unused, gap, trailer);
    HeaderReadsBack(c.header, minor, name, PackExtension(c, unused) + more);
    ExtensionReadsBack(c, unused, header, more);
    AudioReadsBack(b, EXTENDED_HEADER_BYTES + |gap| + |c.payload|, c, trailer);
  }

  lemma PackLayout(c: Cartridge, minor: uint16, name: seq<uint8>, unused: seq<uint32>, gap: seq<uint8>,
                   trailer: seq<uint8>)
    returns (more: seq<uint8>)
    requires |name| == NAME_BYTES && |unused| == 4
    ensures var b := Pack(c, minor, name, unused, gap, trailer);
      var p := EXTENDED_HEADER_BYTES + |gap|;
      && b == PackHeader(c.header, minor, name) + (PackExtension(c, unused) + more)
      && b == PackHeader(c.header, minor, name) + PackExtension(c, unused) + more
      && p + |c.payload| <= |b| && b[p..p + |c.payload|] == c.payload
      && b[p + |c.payload|..] == (match c.audio case None => [] case Some(a) => a) + trailer
  {
    hide PackHeader, PackExtension;
    more := gap + c.payload + (match c.audio case None => [] case Some(a) => a) + trailer;
  }

  lemma AudioReadsBack(b: seq<uint8>, o: nat, c: Cartridge, trailer: seq<uint8>)
    requires HEADER_BYTES <= |b| && HeaderOf(b) == c.header && GoodSizes(c.header, |b|)
    requires o == c.header.headerSize + c.header.codeSize && o <= |b|
    requires b[o..] == (match c.audio case None => [] case Some(a) => a) + trailer
    requires match c.audio
      case None => NoAudio(c.header, trailer)
      case Some(a) => c.header.flags % 2 == 1 && AudioBlock(a)
    ensures GoodAudioSize(b) && AudioOf(b) == c.audio
  {
    hide HeaderOf;
    match c.audio
    case None =>
      assert b[o..] == trailer;
      if |trailer| >= 4 { assert b[o..o + 4] == trailer[..4]; }
    case Some(a) =>
      assert b[o..o + |a|] == a;
      assert b[o..o + 4] == a[..4];
      assert Le32(b, o + 36) == Le32(a, 36) by { SameField(b, o, a); }
  }

  lemma SameField(b: seq<uint8>, o: nat, a: seq<uint8>)
    requires |a| >= AUDIO_HEADER_BYTES && o + |a| <= |b| && b[o..o + |a|] == a
    ensures Le32(b, o + 36) == Le32(a, 36)
  {
    assert a[36] == b[o + 36] && a[37] == b[o + 37] && a[38] == b[o + 38] && a[39] == b[o + 39];
  }

  // The memory layout.
  function BaseOf(h: Header): uint32 {
    if h.loadAddr != 0 then h.loadAddr else DEFAULT_BASE
  }

  function AbiOffset(h: Header): nat {
    GuestBytes(h) + 15 - (GuestBytes(h) + 15) % 16
  }

  function ScratchOffset(h: Header): nat {
    AbiOffset(h) + PAGE_BYTES
  }

  function Allocated(h: Header): nat {
    ScratchOffset(h) + PAGE_BYTES
  }

  /**
   * The layout in bytes: at least 256 KiB, or code, data and 128 KiB of stack if that is more, up to the next multiple
   * of 16; then a page for the ABI table and a page that tops the stack.
   */
  lemma LayoutExactly(h: Header)
    ensures var guest := if h.codeSize + h.memSize + 131072 > 262144 then h.codeSize + h.memSize + 131072 else 262144;
      && guest <= AbiOffset(h) < guest + 16 && AbiOffset(h) % 16 == 0
      && ScratchOffset(h) == AbiOffset(h) + 4096 && Allocated(h) == AbiOffset(h) + 8192
    ensures BaseOf(h) == if h.loadAddr == 0 then 0x4080_0000 else h.loadAddr
  {
  }

  /** The whole allocation lies below the end of the address space: the check the loader does not make. */
  predicate Placed(h: Header) {
    BaseOf(h) + Allocated(h) <= TWO32
  }

  /**
   * The loader checks the guest part of the allocation, not the table and scratch pages after it: whether an
   * accepted package fits whole is the same as whether the check with those pages added holds.
   */
  lemma PlacedExactly(h: Header, size: nat)
    requires Acceptable(h, size)
    ensures Placed(h) <==> h.loadAddr == 0 || h.loadAddr + AbiOffset(h) + 2 * PAGE_BYTES <= TWO32
  {
  }
}
