/** The root-ROM argument of src/cli/commands.rs: a hash when it reads as
    one, a file path otherwise. */
module Commands {
  import opened Wrappers
  import opened Ascii
  import opened Hex

  /** `RootRef`: a ROM named by its digest, or by the path of its file. */
  datatype RootRef = HashRef(hash: Hash) | FileRef(path: string)

  /** `RootRef::parse`: 64 hex digits, in either case, name a digest; any
      other text is a path. */
  function ParseRootRef(s: string): (r: RootRef)
    ensures r.HashRef? <==> |s| == 64 && AllHex(s)
    ensures r.HashRef? ==> r.hash == Decode(s) && FormatHash(r.hash) == ToLower(s)
    ensures r.FileRef? ==> r.path == s
  {
    if |s| == 64 && AllHex(s) then
      match ParseHash(s)
      case Some(h) =>
        FormatParse(s);
        HashRef(h)
      case None => FileRef(s)
    else FileRef(s)
  }

  /** The text form of a digest parses back to the digest. */
  lemma ParseFormattedHash(h: Hash)
    ensures ParseRootRef(FormatHash(h)) == HashRef(h)
  {
    ParseFormat(h);
  }

  /** Upper- and lower-case spellings of a digest name the same ROM. */
  lemma ParseIgnoresCase(s: string)
    requires |s| == 64 && AllHex(s)
    ensures ParseRootRef(ToUpper(s)) == ParseRootRef(ToLower(s))
  {
    assert AllHex(ToUpper(s)) && AllHex(ToLower(s));
    FormatParse(ToUpper(s));
    FormatParse(ToLower(s));
    assert ToLower(ToUpper(s)) == ToLower(ToLower(s));
    var a, b := ParseRootRef(ToUpper(s)).hash, ParseRootRef(ToLower(s)).hash;
    FormatHashInjective(a, b);
  }

  /** A file name that is not 64 hex digits stays a path. */
  lemma NotAHashIsAPath(s: string, i: nat)
    requires i < |s| && !IsHexDigit(s[i])
    ensures ParseRootRef(s) == FileRef(s)
  {
  }
}
