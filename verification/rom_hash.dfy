/** ROM type detection, hashing and payload reading (src/rom/hash.rs).
    The file system is reduced to the bytes of the one file read (None when
    it cannot be opened) and SHA-256 is a parameter. */
module RomHash {
  import opened Wrappers
  import opened Ascii
  import opened Hex
  import opened Errors
  import opened RomTypes
  import opened Nes

  /** SHA-256 over a byte sequence. */
  type Digest = seq<Byte> -> Hash

  /** The three views of a `std::path::Path` that the code reads: its
      display text, `file_name()` and `extension()`. */
  datatype RomPath = RomPath(text: string, fileName: Option<string>, extension: Option<string>)

  /** `detect_rom_type`: the extension, lowercased, must be "nes". */
  function DetectRomType(extension: Option<string>): (r: Option<RomType>)
    ensures r.Some? <==> extension.Some? && ToLower(extension.value) == "nes"
    ensures r.Some? ==> r.value == Nes
  {
    match extension
    case None => None
    case Some(e) => if ToLower(e) == "nes" then Some(Nes) else None
  }

  /** Detection by lowercasing agrees with `RomType::from_str`, which
      uppercases, on every extension but one family: "nes" in any letter
      case with its last letter a long s, which uppercases to "NES" but
      lowercases to itself. */
  lemma DetectAgreesWithFromStr(e: string)
    ensures DetectRomType(Some(e)) == FromStr(e)
            <==> !(|e| == 3 && e[0] in "nN" && e[1] in "eE" && e[2] == LongS)
  {
    if |e| == 3 && e[0] in "nN" && e[1] in "eE" && e[2] in "sS" {
      assert ToLower(e) == "nes";
    }
    if |e| == 3 && e[2] == LongS {
      assert ToLower(e)[2] == LongS;
    }
  }

  /** The extension "ne" followed by a long s names the NES type for
      `from_str` but is not detected as a ROM extension. */
  lemma LongSExtension()
    ensures FromStr("ne" + [LongS]) == Some(Nes)
    ensures DetectRomType(Some("ne" + [LongS])).None?
  {
    assert ToLower("ne" + [LongS])[2] == LongS;
  }

  /** `hash_rom_file`. */
  function HashRomFile(sha: Digest, path: RomPath, file: Option<seq<Byte>>): (r: Outcome<RomMetadata>)
    ensures file.None? ==> r == Err(Io(NotFound))
    ensures file.Some? && DetectRomType(path.extension).None? ==>
              r == Err(UnsupportedRomType(path.extension.GetOr("none")))
    ensures file.Some? && DetectRomType(path.extension).Some? && |file.value| < HeaderSize ==>
              r == Err(Io(UnexpectedEof))
    ensures (file.Some? && DetectRomType(path.extension).Some? && |file.value| >= HeaderSize
             && file.value[..4] != Magic) ==> r == Err(InvalidNesFile(path.text))
    ensures r.Ok? ==>
              && file.Some? && DetectRomType(path.extension) == Some(Nes)
              && r.value.romType == Nes && r.value.filename == path.fileName
              && r.value.nesHeader == ParseNesHeader(file.value).value
              && r.value.nesHeader.Some?
              && r.value.sha256 == sha(Payload(file.value, r.value.nesHeader.value))
              && r.value.sourceFileHeader.None?
  {
    if file.None? then Err(Io(NotFound))
    else
      match DetectRomType(path.extension)
      case None => Err(UnsupportedRomType(path.extension.GetOr("none")))
      case Some(Nes) =>
        var header :- ParseNesHeader(file.value);
        match header
        case None => Err(InvalidNesFile(path.text))
        case Some(h) =>
          Ok(RomMetadata(Nes, sha(Payload(file.value, h)), path.fileName, Some(h), None))
  }

  /** `read_rom_bytes`: the payload of an iNES file, or the whole file for
      any other extension. */
  function ReadRomBytes(path: RomPath, file: Option<seq<Byte>>): (r: Outcome<seq<Byte>>)
    ensures file.None? ==> r == Err(Io(NotFound))
    ensures file.Some? && DetectRomType(path.extension).None? ==> r == Ok(file.value)
    ensures file.Some? && DetectRomType(path.extension).Some? ==>
              && (|file.value| < HeaderSize ==> r == Err(Io(UnexpectedEof)))
              && (|file.value| >= HeaderSize && file.value[..4] != Magic ==>
                    r == Err(InvalidNesFile(path.text)))
              && (|file.value| >= HeaderSize && file.value[..4] == Magic ==>
                    r.Ok? && |r.value| <= |file.value| - HeaderSize
                    && r.value == file.value[|file.value| - |r.value|..])
  {
    if file.None? then Err(Io(NotFound))
    else
      match DetectRomType(path.extension)
      case None => Ok(file.value)
      case Some(Nes) =>
        var header :- ParseNesHeader(file.value);
        match header
        case None => Err(InvalidNesFile(path.text))
        case Some(h) => Ok(Payload(file.value, h))
  }

  /** For a file `hash_rom_file` accepts, `read_rom_bytes` returns exactly
      the bytes it hashed. */
  lemma HashCoversReadBytes(sha: Digest, path: RomPath, file: Option<seq<Byte>>)
    requires HashRomFile(sha, path, file).Ok?
    ensures ReadRomBytes(path, file).Ok?
    ensures HashRomFile(sha, path, file).value.sha256 == sha(ReadRomBytes(path, file).value)
  {
  }

  /** The bytes read from an iNES file skip the header and, exactly when
      bit 2 of byte 6 is set, the 512-byte trainer. */
  lemma ReadBytesSkipHeaderAndTrainer(path: RomPath, file: seq<Byte>)
    requires DetectRomType(path.extension).Some?
    requires |file| >= HeaderSize + TrainerSize && file[..4] == Magic
    ensures (file[6] / 4) % 2 == 1 ==> ReadRomBytes(path, Some(file)) == Ok(file[528..])
    ensures (file[6] / 4) % 2 == 0 ==> ReadRomBytes(path, Some(file)) == Ok(file[16..])
  {
  }
}
