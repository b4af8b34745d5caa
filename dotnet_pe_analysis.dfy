/**
 * The decode sequence of the .NET PE analysis example: check the COFF
 * machine, take the optional header and its CLR runtime directory, map the
 * directory's RVA to a file offset and decode the CLI header there, then map
 * the CLI header's metadata RVA and decode the metadata root there. Each step
 * stops the analysis at its first failure.
 *
 * The PE parser, the RVA-to-offset mapping and UTF-8 validation are library
 * code and are parameters: `parse`, `findOffset` and `validText`.
 */
module DotnetPeAnalysis {
  import opened Wrappers
  import opened Bytes
  import opened Reader
  import opened CliHeaders
  import opened MetadataRoots

  /** A section header, as the RVA mapping consults it. */
  datatype SectionTable = SectionTable(
    virtualAddress: u32,
    virtualSize: u32,
    sizeOfRawData: u32,
    pointerToRawData: u32)

  /** The parts of the optional header the analysis reads. */
  datatype OptionalHeader = OptionalHeader(fileAlignment: u32, clrRuntimeHeader: Option<DataDirectory>)

  /** The parts of a parsed PE image the analysis reads. */
  datatype PeImage = PeImage(machine: u16, optionalHeader: Option<OptionalHeader>, sections: seq<SectionTable>)

  /** IMAGE_FILE_MACHINE_I386 in the PE/COFF machine-type table. */
  const ImageFileMachineI386: u16 := 0x14c

  datatype AnalysisError =
    | ParseFailed          // PE::parse rejected the file
    | NotDotNet            // "Is not a .Net executable"
    | NoOptionalHeader     // "No optional header"
    | NoCliHeader          // "No CLI header"
    | CannotMapRva         // "Cannot map rva into offset"
    | Scroll(err: ScrollError)

  /**
   * The first three checks of `main` pass: the machine is I386, the optional
   * header is present and it has a CLR runtime directory.
   */
  predicate ClrDirectoryPresent(pe: PeImage)
  {
    pe.machine == ImageFileMachineI386
    && pe.optionalHeader.Some?
    && pe.optionalHeader.value.clrRuntimeHeader.Some?
  }

  /**
   * The analysis performed by `main`: on success, the decoded CLI header and
   * metadata root (the records it prints), the root's version view lying in
   * `file`.
   */
  function Analyze(
    file: seq<u8>,
    parse: seq<u8> -> Option<PeImage>,
    findOffset: (nat, seq<SectionTable>, u32) -> Option<nat>,
    validText: seq<u8> -> bool)
    : (r: Result<(CliHeader, MetadataRoot), AnalysisError>)
    // The checks run in source order; each error names the first one that failed.
    ensures r == Err(ParseFailed) <==> parse(file).None?
    ensures r == Err(NotDotNet) <==> parse(file).Some? && parse(file).value.machine != ImageFileMachineI386
    ensures r == Err(NoOptionalHeader)
            <==> parse(file).Some? && parse(file).value.machine == ImageFileMachineI386
                 && parse(file).value.optionalHeader.None?
    ensures r == Err(NoCliHeader)
            <==> parse(file).Some? && parse(file).value.machine == ImageFileMachineI386
                 && parse(file).value.optionalHeader.Some?
                 && parse(file).value.optionalHeader.value.clrRuntimeHeader.None?
    // The remaining failures, from the two mappings and the two decodes.
    ensures (r.Ok? || r == Err(CannotMapRva) || r.error.Scroll?)
            <==> parse(file).Some? && ClrDirectoryPresent(parse(file).value)
    ensures parse(file).Some? && ClrDirectoryPresent(parse(file).value) ==>
              var pe := parse(file).value;
              var fa := pe.optionalHeader.value.fileAlignment;
              var rva := pe.optionalHeader.value.clrRuntimeHeader.value.virtualAddress;
              && (findOffset(rva, pe.sections, fa).None? ==> r == Err(CannotMapRva))
              && (findOffset(rva, pe.sections, fa).Some? ==>
                    var at := findOffset(rva, pe.sections, fa).value;
                    && (r == Err(Scroll(BadOffset(at))) <== at >= |file|)
                    && (r == Err(Scroll(PreadCliHeader(file, at, Little).error)) <== at < |file| < at + CliHeaderSize)
                    && (at + CliHeaderSize <= |file| ==>
                          var cli := PreadCliHeader(file, at, Little).value;
                          var next := findOffset(cli.metadata.virtualAddress, pe.sections, fa);
                          && (next.None? ==> r == Err(CannotMapRva))
                          && (next.Some? ==>
                                match PreadMetadataRoot(file, next.value, Little, validText)
                                case Ok(root) => r == Ok((cli, root))
                                case Err(err) => r == Err(Scroll(err)))))
    // On success, the records are the bytes at the two mapped offsets, the
    // second offset being the mapping of the first record's metadata RVA.
    ensures r.Ok? ==>
              var pe := parse(file).value;
              var fa := pe.optionalHeader.value.fileAlignment;
              var (cli, root) := r.value;
              && findOffset(pe.optionalHeader.value.clrRuntimeHeader.value.virtualAddress, pe.sections, fa).Some?
              && findOffset(cli.metadata.virtualAddress, pe.sections, fa).Some?
              && var at := findOffset(pe.optionalHeader.value.clrRuntimeHeader.value.virtualAddress, pe.sections, fa).value;
                 var rootAt := findOffset(cli.metadata.virtualAddress, pe.sections, fa).value;
                 && at + CliHeaderSize <= |file|
                 && EncodeCliHeader(cli, Little) == file[at..at + CliHeaderSize]
                 && rootAt + FixedPartSize < |file|
                 && EncodeFixedPart(root, Little) == file[rootAt..rootAt + FixedPartSize]
                 && root.version.start == rootAt + FixedPartSize
  {
    match parse(file)
    case None => Err(ParseFailed)
    case Some(pe) =>
      if pe.machine != ImageFileMachineI386 then Err(NotDotNet)
      else
        match pe.optionalHeader
        case None => Err(NoOptionalHeader)
        case Some(optionalHeader) =>
          var fileAlignment := optionalHeader.fileAlignment;
          match optionalHeader.clrRuntimeHeader
          case None => Err(NoCliHeader)
          case Some(cliDirectory) =>
            match findOffset(cliDirectory.virtualAddress, pe.sections, fileAlignment)
            case None => Err(CannotMapRva)
            case Some(offset) =>
              match PreadCliHeader(file, offset, Little)
              case Err(err) => Err(Scroll(err))
              case Ok(cliHeader) =>
                match findOffset(cliHeader.metadata.virtualAddress, pe.sections, fileAlignment)
                case None => Err(CannotMapRva)
                case Some(rootOffset) =>
                  match PreadMetadataRoot(file, rootOffset, Little, validText)
                  case Err(err) => Err(Scroll(err))
                  case Ok(root) => Ok((cliHeader, root))
  }

  /**
   * A well-formed image: when the CLR directory maps to an encoded CLI header
   * and that header's metadata RVA maps to an encoded metadata root with a
   * terminated valid version text, the analysis returns exactly those records.
   */
  lemma AnalyzeWellFormed(
    file: seq<u8>,
    parse: seq<u8> -> Option<PeImage>,
    findOffset: (nat, seq<SectionTable>, u32) -> Option<nat>,
    validText: seq<u8> -> bool,
    cli: CliHeader, root: MetadataRoot, text: seq<u8>, at: nat, rootAt: nat)
    requires parse(file).Some? && ClrDirectoryPresent(parse(file).value)
    requires var pe := parse(file).value;
             var fa := pe.optionalHeader.value.fileAlignment;
             && findOffset(pe.optionalHeader.value.clrRuntimeHeader.value.virtualAddress, pe.sections, fa) == Some(at)
             && findOffset(cli.metadata.virtualAddress, pe.sections, fa) == Some(rootAt)
    requires at + CliHeaderSize <= |file| && file[at..at + CliHeaderSize] == EncodeCliHeader(cli, Little)
    requires rootAt + FixedPartSize + |text| < |file|
    requires file[rootAt..rootAt + FixedPartSize] == EncodeFixedPart(root, Little)
    requires file[rootAt + FixedPartSize..rootAt + FixedPartSize + |text| + 1] == text + [0]
    requires forall i | 0 <= i < |text| :: text[i] != 0
    requires validText(text)
    ensures Analyze(file, parse, findOffset, validText)
            == Ok((cli, root.(version := StrView(rootAt + FixedPartSize, |text|))))
  {
    var before, after := file[..at], file[at + CliHeaderSize..];
    assert file == before + EncodeCliHeader(cli, Little) + after;
    PreadCliHeaderRoundTrip(before, cli, after, Little);
    assert PreadCliHeader(file, at, Little) == Ok(cli);

    PreadMetadataRootRoundTrip(file, rootAt, root, text, Little, validText);
  }
}
