/** The 40-bit nRF24L01 pipe address derived from a (unit ID, channel) pair. */
module AddressCodec {
  import opened Protocol

  /** Conversion of an `int` to `uint8_t`: keep the low eight bits. */
  function Lo8(x: int): Byte
  {
    x % 256
  }

  /** The five address bytes in memory order, as the source assigns them; the
      complements are C's `~` on an `int` (that is `-x - 1`) truncated to a byte. */
  function AddressFields(unitID: int, channelID: int): seq<Byte>
  {
    [Lo8(channelID), Lo8(unitID), Lo8(-channelID - 1), Lo8(-unitID - 1), Lo8(channelID + unitID)]
  }

  /** The byte of `~x` is 255 minus the byte of `x`. */
  lemma ComplementByte(x: int)
    ensures Lo8(-x - 1) == 255 - x % 256
  {
    var q := x / 256;
    assert -x - 1 == 256 * (-q - 1) + (255 - x % 256);
  }

  /** `_getAddress(unitID, channelID)`: the address bytes packed little-endian
      into a 40-bit value. */
  function GetAddress(unitID: int, channelID: int): (a: nat)
    ensures a < 0x100_0000_0000
    ensures UnpackLE(a, 5) == [channelID % 256, unitID % 256, 255 - channelID % 256,
                               255 - unitID % 256, (channelID + unitID) % 256]
  {
    var fields := AddressFields(unitID, channelID);
    ComplementByte(channelID);
    ComplementByte(unitID);
    UnpackPackLE(fields);
    Pow256Values();
    PackLE(fields)
  }

  /** Bytes 2..4 are consistent with bytes 0 and 1. */
  predicate Consistent(b: seq<Byte>)
    requires |b| == 5
  {
    b[2] == 255 - b[0] && b[3] == 255 - b[1] && b[4] == (b[0] as int + b[1]) % 256
  }

  lemma ConsistentFields(b: seq<Byte>)
    requires |b| == 5 && Consistent(b)
    ensures AddressFields(b[1], b[0]) == b
  {
  }

  /** The inverse of GetAddress on consistent addresses: recovers (unit ID,
      channel) when the complement and sum bytes agree with bytes 0 and 1. */
  function DecodeAddress(a: nat): (r: Option<(int, int)>)
    ensures r.Some? ==> 0 <= r.value.0 < 256 && 0 <= r.value.1 < 256
    ensures r.Some? ==> GetAddress(r.value.0, r.value.1) == a
  {
    if a >= 0x100_0000_0000 then None
    else
      var b := UnpackLE(a, 5);
      if Consistent(b) then
        Pow256Values();
        PackUnpackLE(a, 5);
        ConsistentFields(b);
        Some((b[1], b[0]))
      else None
  }

  datatype Option<T> = None | Some(value: T)

  /** Decoding the address of an in-range pair gives the pair back. */
  lemma DecodeGetAddress(unitID: int, channelID: int)
    requires 0 <= unitID < 256 && 0 <= channelID < 256
    ensures DecodeAddress(GetAddress(unitID, channelID)) == Some((unitID, channelID))
  {
    var a := GetAddress(unitID, channelID);
    var b := UnpackLE(a, 5);
    assert b[0] == channelID && b[1] == unitID;
  }

  /** Distinct (channel, unit ID) pairs that fit in a byte, in particular all of
      [0, 126) x [1, 7], get distinct pipe addresses. */
  lemma {:induction false} GetAddressInjective(u1: int, c1: int, u2: int, c2: int)
    requires 0 <= u1 < 256 && 0 <= c1 < 256 && 0 <= u2 < 256 && 0 <= c2 < 256
    ensures (u1, c1) != (u2, c2) ==> GetAddress(u1, c1) != GetAddress(u2, c2)
  {
    DecodeGetAddress(u1, c1);
    DecodeGetAddress(u2, c2);
  }
}
