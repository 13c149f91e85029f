/** iNES header decoding (src/rom/nes.rs), on a whole file given as bytes
    and a reader position into it. */
module Nes {
  import opened Wrappers
  import opened Hex
  import opened Errors
  import opened RomTypes

  /** "NES" followed by MS-DOS end-of-file. */
  const Magic: seq<Byte> := [0x4E, 0x45, 0x53, 0x1A]
  const HeaderSize := 16
  const TrainerSize := 512
  const PrgBank := 16 * 1024
  const ChrBank := 8 * 1024

  /** `(b & 0x04) != 0`. */
  predicate TrainerFlag(b: Byte) {
    (b as bv8) & 0x04 != 0
  }

  /** `parse_nes_header`: reads 16 bytes from the start of the file. */
  function ParseNesHeader(file: seq<Byte>): (r: Outcome<Option<NesHeader>>)
    ensures r.Err? <==> |file| < HeaderSize
    ensures r.Err? ==> r.error == Io(UnexpectedEof)
    ensures r.Ok? ==> (r.value.None? <==> file[..4] != Magic)
    ensures r.Ok? && r.value.Some? ==>
              && r.value.value.prgRomSize == file[4] as int * 16384
              && r.value.value.chrRomSize == file[5] as int * 8192
              && (r.value.value.hasTrainer <==> (file[6] / 4) % 2 == 1)
  {
    if |file| < HeaderSize then Err(Io(UnexpectedEof))
    else if file[..4] != Magic then Ok(None)
    else
      TrainerFlagIsBit2(file[6]);
      Ok(Some(NesHeader(file[4] * PrgBank, file[5] * ChrBank, TrainerFlag(file[6]))))
  }

  /** The mask test agrees with the arithmetic reading of bit 2. */
  lemma TrainerFlagIsBit2(b: Byte)
    ensures TrainerFlag(b) <==> (b / 4) % 2 == 1
  {
  }

  /** `skip_trainer_if_present`: the reader position after the trainer. */
  function SkipTrainer(pos: nat, h: NesHeader): (p: nat)
    ensures h.hasTrainer ==> p == pos + TrainerSize
    ensures !h.hasTrainer ==> p == pos
  {
    if h.hasTrainer then pos + TrainerSize else pos
  }

  /** What reading to the end yields from a reader at `pos`: seeking past
      the end is allowed and then reads nothing. */
  function Remaining(file: seq<Byte>, pos: nat): (r: seq<Byte>)
    ensures pos <= |file| ==> r == file[pos..]
    ensures pos > |file| ==> r == []
  {
    if pos <= |file| then file[pos..] else []
  }

  /** The hashed and diffed region of an iNES file: everything after the
      16-byte header and, when flagged, the 512-byte trainer. */
  function Payload(file: seq<Byte>, h: NesHeader): seq<Byte> {
    Remaining(file, SkipTrainer(HeaderSize, h))
  }
}
