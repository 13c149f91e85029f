/** The stand-alone hashing entry point of src/main.rs: which byte region
    of the named file it hashes. Printing is left out. */
module HashTool {
  import opened Wrappers
  import opened Hex
  import opened Errors
  import opened Nes
  import opened RomHash

  /** The bytes `main` feeds to SHA-256, or the I/O error it stops on.
      Unlike `hash_rom_file`, an unknown extension or a missing magic
      falls back to hashing the whole file. */
  function HashedRegion(path: RomPath, file: Option<seq<Byte>>): (r: Outcome<seq<Byte>>)
    ensures file.None? ==> r == Err(Io(NotFound))
    ensures file.Some? && DetectRomType(path.extension).None? ==> r == Ok(file.value)
    ensures file.Some? && DetectRomType(path.extension).Some? && |file.value| < HeaderSize ==>
              r == Err(Io(UnexpectedEof))
    ensures (file.Some? && DetectRomType(path.extension).Some? && |file.value| >= HeaderSize
             && file.value[..4] != Magic) ==> r == Ok(file.value)
    ensures r.Err? ==> r.error.Io?
  {
    if file.None? then Err(Io(NotFound))
    else
      match DetectRomType(path.extension)
      case None => Ok(file.value)
      case Some(_) =>
        var header :- ParseNesHeader(file.value);
        match header
        case None => Ok(file.value)
        case Some(h) => Ok(Payload(file.value, h))
  }

  /** A file with the magic is hashed from byte 16, or from byte 528 when
      the trainer bit is set. */
  lemma HashedFromHeaderEnd(path: RomPath, file: seq<Byte>)
    requires DetectRomType(path.extension).Some?
    requires |file| >= HeaderSize && file[..4] == Magic
    ensures (file[6] / 4) % 2 == 0 ==> HashedRegion(path, Some(file)) == Ok(file[16..])
    ensures (file[6] / 4) % 2 == 1 ==> HashedRegion(path, Some(file)) == Ok(Remaining(file, 528))
  {
  }

  /** Wherever the library hashes a file, `main` hashes the same bytes;
      a `.nes` file without the magic is where they part: the library
      refuses it and `main` hashes it whole. */
  lemma AgreesWithLibrary(sha: Digest, path: RomPath, file: Option<seq<Byte>>)
    ensures HashRomFile(sha, path, file).Ok? ==>
              HashedRegion(path, file).Ok?
              && sha(HashedRegion(path, file).value) == HashRomFile(sha, path, file).value.sha256
    ensures HashRomFile(sha, path, file).Err? && HashRomFile(sha, path, file).error.InvalidNesFile? ==>
              HashedRegion(path, file) == Ok(file.value)
  {
  }
}
