/**
 * A PMP configuration byte (pmpNcfg) and its bit fields:
 * bit 7 = L (lock), bits 4..3 = A (address-matching mode),
 * bit 2 = X, bit 1 = W, bit 0 = R. Bits 5 and 6 are ignored.
 */
module PmpConfig {
  import opened Bits

  /** The number of PMP entries; entry index is priority (lower wins). */
  const Entries: nat := 64

  /** The A field: how an entry's address register describes its region. */
  datatype AddressMode = Off | Tor | Na4 | Napot

  /** The (L, R, W, X) tuple that a matching entry hands to the resolver. */
  datatype Permissions = Permissions(locked: bool, read: bool, write: bool, execute: bool)

  /** A decoded configuration byte. */
  datatype Config = Config(mode: AddressMode, perms: Permissions)

  /** The two-bit A field value of each mode. */
  function ModeField(m: AddressMode): (f: nat)
    ensures f < 4
  {
    match m
    case Off => 0
    case Tor => 1
    case Na4 => 2
    case Napot => 3
  }

  /** The mode named by a two-bit A field value. */
  function ModeOf(field: nat): (m: AddressMode)
    requires field < 4
    ensures ModeField(m) == field
  {
    if field == 0 then Off
    else if field == 1 then Tor
    else if field == 2 then Na4
    else Napot
  }

  /** A flag as the 0/1 bit the byte holds. */
  function Flag(b: bool): (f: nat)
    ensures f < 2 && (f == 1 <==> b)
  {
    if b then 1 else 0
  }

  /**
   * Field extraction as the checker does it: (cfg >> 7) & 1, (cfg >> 3) & 3,
   * (cfg >> 2) & 1, (cfg >> 1) & 1 and cfg & 1.
   */
  function Decode(cfg: nat): (c: Config)
    ensures ModeField(c.mode) == 2 * Bit(cfg, 4) + Bit(cfg, 3)
  {
    assert Pow2(4) == 16 && Pow2(3) == 8;
    DivDiv(cfg / 8, 2, 2);
    DivDiv(cfg, 8, 2);
    Config(ModeOf((cfg / 8) % 4),
           Permissions(locked := (cfg / 128) % 2 == 1,
                       read := cfg % 2 == 1,
                       write := (cfg / 2) % 2 == 1,
                       execute := (cfg / 4) % 2 == 1))
  }

  /** The configuration byte that holds the given fields, reserved bits clear. */
  function Encode(c: Config): (cfg: nat)
    ensures cfg < 256
  {
    Flag(c.perms.read) + 2 * Flag(c.perms.write) + 4 * Flag(c.perms.execute)
      + 8 * ModeField(c.mode) + 128 * Flag(c.perms.locked)
  }

  /**
   * Each decoded field sits at its documented bit position. For L, X, W and
   * R this is the extraction itself written with Bit; the A line is the one
   * that takes proof (a two-bit field read as two single bits). The evidence
   * that no field is lost or moved is the round trip DecodeEncode /
   * EncodeDecode.
   */
  lemma DecodeFields(cfg: nat)
    ensures Decode(cfg).perms.locked <==> Bit(cfg, 7) == 1
    ensures ModeField(Decode(cfg).mode) == 2 * Bit(cfg, 4) + Bit(cfg, 3)
    ensures Decode(cfg).perms.execute <==> Bit(cfg, 2) == 1
    ensures Decode(cfg).perms.write <==> Bit(cfg, 1) == 1
    ensures Decode(cfg).perms.read <==> Bit(cfg, 0) == 1
  {
    assert Pow2(7) == 128 && Pow2(4) == 16 && Pow2(3) == 8 && Pow2(2) == 4 && Pow2(1) == 2;
    DivDiv(cfg / 8, 2, 2);
    DivDiv(cfg, 8, 2);
  }

  /** Decoding undoes encoding: no field is lost or moved. */
  lemma DecodeEncode(c: Config)
    ensures Decode(Encode(c)) == c
  {
    var v := Encode(c);
    var low := Flag(c.perms.read) + 2 * Flag(c.perms.write) + 4 * Flag(c.perms.execute);
    assert v == low + 8 * (ModeField(c.mode) + 16 * Flag(c.perms.locked));
    DivModUnique(v, 8, ModeField(c.mode) + 16 * Flag(c.perms.locked), low);
    DivModUnique(v, 128, Flag(c.perms.locked), low + 8 * ModeField(c.mode));
  }

  /**
   * Encoding a decoded byte gives the byte back with only bits 0..4 and 7
   * kept: bits 5 and 6 and everything above bit 7 play no part in decoding.
   */
  lemma EncodeDecode(cfg: nat)
    ensures Encode(Decode(cfg)) == cfg % 32 + 128 * Bit(cfg, 7)
  {
    assert Pow2(7) == 128;
    DivDiv(cfg, 8, 4);
    DivDiv(cfg, 2, 4);
    DivDiv(cfg / 2, 2, 2);
    DivDiv(cfg, 2, 2);
  }
}
