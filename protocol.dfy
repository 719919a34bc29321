/** Constants, unit IDs and the over-the-air frame layout of the "wireless DMX"
    nRF24L01 protocol, as the receiver's header declares them. */
module Protocol {

  /** An unsigned 8-bit value (`uint8_t`). */
  type Byte = x: int | 0 <= x < 256

  /** Number of channels in a DMX universe (`DMX_BUFSIZE`). */
  const DMX_BUFSIZE := 512
  /** Fixed radio payload size (`WDMX_PAYLOAD_SIZE`). */
  const PAYLOAD_SIZE := 32
  /** Bytes of the payload taken by the frame header (`WDMX_HEADER_SIZE`). */
  const HEADER_SIZE := 4
  /** DMX bytes carried by one frame: the size of `dmxData`. */
  const DATA_SIZE := PAYLOAD_SIZE - HEADER_SIZE

  /** The two magic bytes a valid frame starts with. */
  const MAGIC_1: Byte := 0x80
  const MAGIC_2: Byte := 0xA0
  const ACCEPTED_MAGIC: set<Byte> := {MAGIC_1, MAGIC_2}

  /** `wdmxID_t`: AUTO (0) asks for a scan, 1..7 are the concrete unit IDs. */
  type UnitId = x: int | 0 <= x < 8
  const AUTO: UnitId := 0
  const RED: UnitId := 1
  const GREEN: UnitId := 2
  const YELLOW: UnitId := 3
  const BLUE: UnitId := 4
  const MAGENTA: UnitId := 5
  const CYAN: UnitId := 6
  const WHITE: UnitId := 7

  /** The value `operator++` stores: the next unit ID, modulo 8. */
  function Succ(id: UnitId): (r: UnitId)
    ensures r != id
    ensures r == AUTO <==> id == WHITE
    ensures id != WHITE ==> r == id + 1
  {
    (id + 1) % 8
  }

  /** `n` applications of `operator++`. */
  function SuccN(id: UnitId, n: nat): UnitId
  {
    if n == 0 then id else Succ(SuccN(id, n - 1))
  }

  /** Incrementing `n` times adds `n` modulo 8; in particular 8 increments
      come back to the start and AUTO is reached only from WHITE. */
  lemma {:induction false} SuccNAdds(id: UnitId, n: nat)
    ensures SuccN(id, n) == (id + n) % 8
  {
    if n > 0 {
      SuccNAdds(id, n - 1);
      ModEightStep(id + n - 1);
    }
  }

  lemma ModEightStep(x: nat)
    ensures (x + 1) % 8 == if x % 8 == 7 then 0 else x % 8 + 1
  {
    var q := x / 8;
    assert x == 8 * q + x % 8;
    if x % 8 == 7 {
      assert x + 1 == 8 * (q + 1);
    } else {
      assert x + 1 == 8 * q + (x % 8 + 1);
    }
  }

  /** A variable of type `wdmxID_t`, the target of the reference argument of
      `operator++`. */
  class UnitIdVar {
    var id: UnitId

    constructor (init: UnitId)
      ensures id == init
    {
      id := init;
    }
  }

  /** Prefix `operator++`: stores the successor into its argument and returns
      exactly the stored value. */
  method Increment(v: UnitIdVar) returns (r: UnitId)
    modifies v
    ensures v.id == Succ(old(v.id))
    ensures r == v.id
  {
    v.id := (v.id + 1) % 8;
    r := v.id;
  }

  /** 256 to the power `n`. */
  function Pow256(n: nat): (p: nat)
    ensures p >= 1
  {
    if n == 0 then 1 else 256 * Pow256(n - 1)
  }

  lemma Pow256Values()
    ensures Pow256(2) == 0x1_0000 && Pow256(5) == 0x100_0000_0000
  {
    assert Pow256(1) == 0x100;
    assert Pow256(3) == 0x100_0000;
    assert Pow256(4) == 0x1_0000_0000;
  }

  /** The unsigned integer whose little-endian byte representation is `b`. */
  function PackLE(b: seq<Byte>): (v: nat)
    ensures v < Pow256(|b|)
  {
    if b == [] then 0 else b[0] + 256 * PackLE(b[1..])
  }

  /** The `n` low-order bytes of `v`, least significant first. */
  function UnpackLE(v: nat, n: nat): (b: seq<Byte>)
    ensures |b| == n
  {
    if n == 0 then [] else [v % 256] + UnpackLE(v / 256, n - 1)
  }

  lemma {:induction false} UnpackPackLE(b: seq<Byte>)
    ensures UnpackLE(PackLE(b), |b|) == b
  {
    if b != [] {
      var rest := PackLE(b[1..]);
      assert (b[0] + 256 * rest) % 256 == b[0];
      assert (b[0] + 256 * rest) / 256 == rest;
      UnpackPackLE(b[1..]);
    }
  }

  lemma {:induction false} PackUnpackLE(v: nat, n: nat)
    requires v < Pow256(n)
    ensures PackLE(UnpackLE(v, n)) == v
  {
    if n > 0 {
      assert v / 256 < Pow256(n - 1);
      PackUnpackLE(v / 256, n - 1);
      assert UnpackLE(v, n)[1..] == UnpackLE(v / 256, n - 1);
    }
  }

  /** `wdmxReceiveBuffer`: the 32-byte radio payload viewed as a structure. */
  datatype Frame = Frame(magic: Byte, payloadID: Byte, highestChannelID: nat, dmxData: seq<Byte>)

  ghost predicate WellFormed(f: Frame)
  {
    f.highestChannelID < 0x1_0000 && |f.dmxData| == DATA_SIZE
  }

  /** Reads a raw payload as a frame: magic at offset 0, payload ID at 1, the
      little-endian 16-bit highest channel ID at 2..4, DMX data at 4..32. */
  function ParseFrame(raw: seq<Byte>): (f: Frame)
    requires |raw| == PAYLOAD_SIZE
    ensures WellFormed(f)
    ensures SerializeFrame(f) == raw
  {
    var f := Frame(raw[0], raw[1], PackLE(raw[2..4]), raw[4..]);
    UnpackPackLE(raw[2..4]);
    assert SerializeFrame(f) == raw[..2] + raw[2..4] + raw[4..];
    f
  }

  /** The raw payload that carries frame `f`. */
  function SerializeFrame(f: Frame): (raw: seq<Byte>)
    requires WellFormed(f)
    ensures |raw| == PAYLOAD_SIZE
  {
    [f.magic, f.payloadID] + UnpackLE(f.highestChannelID, 2) + f.dmxData
  }

  lemma ParseSerialize(f: Frame)
    requires WellFormed(f)
    ensures ParseFrame(SerializeFrame(f)) == f
  {
    var raw := SerializeFrame(f);
    assert raw[2..4] == UnpackLE(f.highestChannelID, 2);
    Pow256Values();
    PackUnpackLE(f.highestChannelID, 2);
    assert raw[4..] == f.dmxData;
  }
}
