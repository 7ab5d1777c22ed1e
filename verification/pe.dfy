/**
 * The parts of a parsed PE32+ image that the unpacker reads, as an abstract
 * view. Parsing and validation belong to the PE library and are not
 * modelled: the view hands over the header records as raw little-endian
 * bytes and answers the two queries the unpacker makes of the library,
 * `rva_to_file_offset` and `get_section_bytes`, through function fields.
 */
module Pe {
  import opened Wrappers
  import opened LittleEndian

  /** The error values of the PE library that the unpacker can return. */
  datatype Error = Null | Bounds | Unmapped | Misaligned | BadMagic | PeMagic | Insanity | Invalid | Overflow | Encoding | Aliasing

  /** `IMAGE_DOS_HEADER`. */
  const DosHeaderSize: nat := 64
  /** `IMAGE_NT_HEADERS64` without the data directories: signature, file header, optional header. */
  const NtHeadersSize: nat := 136
  /** `IMAGE_DATA_DIRECTORY`. */
  const DirectorySize: nat := 8
  /** `IMAGE_SECTION_HEADER`. */
  const SectionHeaderSize: nat := 40

  /** Offset of `e_lfanew` in the DOS header. */
  const LfanewOffset: nat := 60
  /** Offset of `OptionalHeader.AddressOfEntryPoint` in the NT headers. */
  const EntryPointOffset: nat := 40
  /** Offset of `OptionalHeader.CheckSum` in the NT headers. */
  const CheckSumOffset: nat := 88

  /** A section header, as its 40 bytes. */
  type SectionHeader = seq<byte>

  function Name(s: SectionHeader): seq<byte>
    requires |s| == SectionHeaderSize
  {
    s[..8]
  }

  function VirtualSize(s: SectionHeader): bv32
    requires |s| == SectionHeaderSize
  {
    U32At(s, 8)
  }

  function VirtualAddress(s: SectionHeader): bv32
    requires |s| == SectionHeaderSize
  {
    U32At(s, 12)
  }

  function SizeOfRawData(s: SectionHeader): bv32
    requires |s| == SectionHeaderSize
  {
    U32At(s, 16)
  }

  function PointerToRawData(s: SectionHeader): bv32
    requires |s| == SectionHeaderSize
  {
    U32At(s, 20)
  }

  /**
   * A parsed image: the file bytes, the header records, and the library's
   * answers to `rva_to_file_offset` and `get_section_bytes`.
   */
  datatype Image = Image(
    data: seq<byte>,
    dos: seq<byte>,
    nt: seq<byte>,
    directories: seq<seq<byte>>,
    sections: seq<SectionHeader>,
    rvaToFileOffset: bv32 -> Result<nat, Error>,
    sectionBytes: SectionHeader -> Result<seq<byte>, Error>)

  /** Every record has the size of its type. */
  predicate WellSized(img: Image) {
    && |img.dos| == DosHeaderSize
    && |img.nt| == NtHeadersSize
    && (forall k :: 0 <= k < |img.directories| ==> |img.directories[k]| == DirectorySize)
    && (forall k :: 0 <= k < |img.sections| ==> |img.sections[k]| == SectionHeaderSize)
  }

  function ELfanew(img: Image): bv32
    requires WellSized(img)
  {
    U32At(img.dos, LfanewOffset)
  }

  function AddressOfEntryPoint(img: Image): bv32
    requires WellSized(img)
  {
    U32At(img.nt, EntryPointOffset)
  }
}
