/** One image, one verdict: the raw, the HEX and the ELF form of an image are judged alike. */
module OneVerdict {
  import opened Bytes
  import opened Validation
  import opened Wrappers
  import Elf
  import IntelHex

  /** A file chosen for flashing, by its extension. */
  datatype ImageFile = Hex(lines: seq<IntelHex.Line>) | ElfFile(bytes: Data) | Raw(bytes: Data)

  function SwdVerdict(file: ImageFile, maxSize: nat, expected: Option<nat>): Verdict {
    match file
    case Hex(lines) => IntelHex.HexVerdict(lines, maxSize, expected)
    case ElfFile(bytes) => Elf.ElfVerdict(bytes, maxSize, expected)
    case Raw(bytes) => RawVerdict(bytes, maxSize, expected)
  }

  /** The file holds exactly this image, to be placed at this address. */
  ghost predicate Holds(file: ImageFile, base: nat, image: Data) {
    match file
    case Raw(bytes) => bytes == image
    case ElfFile(bytes) => Elf.HeaderFault(bytes).None? && exists k: nat :: Elf.LoadsOnly(bytes, k, base, image)
    case Hex(lines) => exists records :: HexOf(lines, records, base, image)
  }

  /** The lines are those of records that cover the image, in any split, order and segments. */
  ghost predicate HexOf(lines: seq<IntelHex.Line>, records: seq<IntelHex.Record>, base: nat, image: Data) {
    && (forall r :: r in records ==> IntelHex.Writable(r) && r.kind != IntelHex.EOF_RECORD)
    && lines == IntelHex.ToFile(records)
    && IntelHex.Covers(records, base, image)
  }

  lemma VerdictOfImage(file: ImageFile, base: nat, image: Data, maxSize: nat, expected: Option<nat>)
    requires Holds(file, base, image) && |image| >= 8 && (expected.None? || expected == Some(base))
    ensures Accepts(SwdVerdict(file, maxSize, expected)) <==> Accepts(RawVerdict(image, maxSize, expected))
  {
    hide RawVerdict, IntelHex.HexVerdict, Elf.ElfVerdict, Elf.LoadsOnly, IntelHex.Covers, IntelHex.ToFile, IntelHex.Writable;
    match file
    case Raw(_) =>
    case ElfFile(bytes) =>
      var k: nat :| Elf.LoadsOnly(bytes, k, base, image);
      Elf.ElfVerdictIsRawVerdict(bytes, k, base, image, maxSize, expected);
    case Hex(lines) =>
      var records :| HexOf(lines, records, base, image);
      IntelHex.HexVerdictIsRawVerdict(records, base, image, maxSize, expected);
  }

  /**
   validate_swd_image_file, on a file that can be read and is not empty: whatever image
   the file holds for the expected address is what is judged.
   */
  method ValidateSwdImage(file: ImageFile, maxSize: nat, expected: Option<nat>) returns (v: Verdict)
    ensures forall base: nat, image: Data :: Holds(file, base, image) && |image| >= 8 && (expected.None? || expected == Some(base)) ==>
              (Accepts(v) <==> PlausibleFor(image, maxSize, expected))
    ensures v == SwdVerdict(file, maxSize, expected)
  {
    match file {
      case Hex(lines) => v := IntelHex.ValidateIntelHex(lines, maxSize, expected);
      case ElfFile(bytes) => v := Elf.ValidateElf(bytes, maxSize, expected);
      case Raw(bytes) => v := ValidateRaw(bytes, maxSize, expected);
    }
    assert v == SwdVerdict(file, maxSize, expected);
    hide SwdVerdict, Holds, PlausibleFor;
    forall base: nat, image: Data | Holds(file, base, image) && |image| >= 8 && (expected.None? || expected == Some(base))
      ensures Accepts(v) <==> PlausibleFor(image, maxSize, expected)
    {
      VerdictOfImage(file, base, image, maxSize, expected);
    }
  }

  /**
   Two files of any form that hold one image for one address are accepted or rejected
   together; and what is accepted fits its slot and starts with a plausible vector table.
   */
  lemma OneImageOneVerdict(file: ImageFile, other: ImageFile, base: nat, image: Data, maxSize: nat, expected: Option<nat>)
    requires Holds(file, base, image) && Holds(other, base, image) && |image| >= 8 && (expected.None? || expected == Some(base))
    ensures Accepts(SwdVerdict(file, maxSize, expected)) <==> Accepts(SwdVerdict(other, maxSize, expected))
    ensures Accepts(SwdVerdict(file, maxSize, expected)) <==> PlausibleFor(image, maxSize, expected)
  {
    VerdictOfImage(file, base, image, maxSize, expected);
    VerdictOfImage(other, base, image, maxSize, expected);
  }

  /** Every image that ends within reach can be had in all forms: raw, ELF, and HEX with either kind of segment. */
  lemma EveryImageHasAllForms(image: Data, base: nat, virtualAddress: nat, segmented: bool)
    requires image != [] && base < 0x1_0000_0000 && virtualAddress < 0x1_0000_0000
    ensures Holds(Raw(image), base, image)
    ensures |image| < 0x1_0000_0000 - 84 ==>
              Holds(ElfFile(Elf.ToElf([Elf.Part(Elf.PT_LOAD, virtualAddress, base, image)])), base, image)
    ensures base + |image| <= IntelHex.Reach(segmented) ==> Holds(Hex(IntelHex.ToFile(HexRecords(base, image, segmented))), base, image)
  {
    hide IntelHex.Covers, IntelHex.ToFile, IntelHex.Writable, IntelHex.Listing, Elf.ToElf, Elf.LoadsOnly, Elf.HeaderFault;
    if |image| < 0x1_0000_0000 - 84 {
      Elf.ToElfLoads(base, virtualAddress, image);
    }
    if base + |image| <= IntelHex.Reach(segmented) {
      var records := HexRecords(base, image, segmented);
      IntelHex.ListingCovers(base, image, segmented);
      assert HexOf(IntelHex.ToFile(records), records, base, image);
    }
  }

  function HexRecords(base: nat, image: Data, segmented: bool): (records: seq<IntelHex.Record>)
    requires base + |image| <= IntelHex.Reach(segmented)
    ensures forall r :: r in records ==> IntelHex.Writable(r)
  {
    IntelHex.ListingCovers(base, image, segmented);
    IntelHex.Listing(base, image, segmented)
  }
}
