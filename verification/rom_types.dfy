/** The ROM type enumeration and the metadata records of src/rom/types.rs. */
module RomTypes {
  import opened Wrappers
  import opened Ascii
  import opened Hex

  datatype RomType = Nes

  /** `RomType::as_str`. */
  function AsStr(t: RomType): (s: string)
    ensures |s| == 3 && forall i :: 0 <= i < 3 ==> IsUpper(s[i])
  {
    match t
    case Nes => "NES"
  }

  /** The text the `Display` implementation writes. */
  function Display(t: RomType): string {
    match t
    case Nes => "NES"
  }

  /** U+017F LATIN SMALL LETTER LONG S, which Unicode uppercases to 'S'. */
  const LongS: char := '\U{017F}'

  /** `str::to_uppercase` as far as a comparison with a type name can
      tell: ASCII letters become capitals and the long s becomes 'S'. No
      other character uppercases to 'N', 'E' or 'S', nor to a longer text
      made only of them, so an uppercased text equals "NES" exactly when
      this one does. */
  function NameUpper(s: string): (r: string)
    ensures |r| == |s|
    ensures forall i :: 0 <= i < |s| && s[i] != LongS ==> r[i] == UpperChar(s[i])
    ensures forall i :: 0 <= i < |s| && s[i] == LongS ==> r[i] == 'S'
  {
    seq(|s|, i requires 0 <= i < |s| => if s[i] == LongS then 'S' else UpperChar(s[i]))
  }

  /** `RomType::from_str`: the uppercased text must be a known name. Next
      to "nes" in any letter case this accepts "ne" and "NE" (in any case)
      followed by the long s. */
  function FromStr(s: string): (r: Option<RomType>)
    ensures r.Some? <==> |s| == 3 && s[0] in "nN" && s[1] in "eE" && s[2] in "sS" + [LongS]
    ensures r.Some? ==> r.value == Nes
  {
    if NameUpper(s) == "NES" then Some(Nes) else None
  }

  /** Display prints exactly `as_str`. */
  lemma DisplayIsAsStr(t: RomType)
    ensures Display(t) == AsStr(t)
  {
  }

  /** `from_str(as_str(t)) == Some(t)`. */
  lemma FromStrAsStr(t: RomType)
    ensures FromStr(AsStr(t)) == Some(t)
  {
  }

  /** The decoded part of an iNES header (types.rs `NesHeader`). */
  datatype NesHeader = NesHeader(prgRomSize: nat, chrRomSize: nat, hasTrainer: bool)

  /** What hashing a ROM file yields (types.rs `RomMetadata`). The
      `sourceFileHeader` field is read by the exchange code although the
      shown types.rs lacks it; the importer fills it in. */
  datatype RomMetadata = RomMetadata(
    romType: RomType,
    sha256: Hash,
    filename: Option<string>,
    nesHeader: Option<NesHeader>,
    sourceFileHeader: Option<seq<Byte>>)
}
