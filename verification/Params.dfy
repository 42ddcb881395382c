/** The value types of common/utilities/Params.h and Entity.h, and their images inside a message body. */
module Params {
  import opened Bytes

  type uint16 = n: int | 0 <= n < 0x1_0000
  type uint64 = n: int | 0 <= n < 0x1_0000_0000_0000_0000

  // MessageType, in declaration order from zero.
  const SERVER_ACCEPT: byte := 6
  const SERVER_DENIAL: byte := 7
  const SEND_MAP_CONSOLE_LAYOUT: byte := 9
  const SEND_MAP_LAYOUT: byte := 10
  const SEND_ENTITIES_SIZE: byte := 11
  const SEND_ENTITIES: byte := 12

  // MapType.
  const NO_WALLS: uint16 := 0
  const RIGHT_WALL: uint16 := 1
  const LEFT_WALL: uint16 := 2
  const TOP_WALL: uint16 := 3
  const BOTTOM_WALL: uint16 := 4

  // EntityStyle and EntityType of food.
  const FOOD_STYLE: byte := 46
  const FOOD_TYPE: byte := 2

  datatype WinConsoleLayout = WinConsoleLayout(
    xpos: uint16, ypos: uint16, screenWidth: uint16, screenHeight: uint16, fontWidth: uint16, fontHeight: uint16)

  datatype MapConfig = MapConfig(
    x: uint16, y: uint16, width: uint16, height: uint16,
    wallOne: uint16, wallTwo: uint16, wallThree: uint16, wallFour: uint16)

  datatype Entity = Entity(
    id: uint64, x: uint16, y: uint16, veloX: uint16, veloY: uint16, style: byte, kind: byte)

  const LAYOUT_WIDTH: nat := 12
  const CONFIG_WIDTH: nat := 16
  const ENTITY_WIDTH: nat := 18
  const COUNT_WIDTH: nat := 8

  function Image16(n: uint16): (s: seq<byte>)
    ensures |s| == 2
  {
    [n % 256, n / 256]
  }

  function Read16(s: seq<byte>, at: nat): uint16
    requires at + 2 <= |s|
  {
    s[at] as int + 256 * (s[at + 1] as int)
  }

  function EncodeLayout(l: WinConsoleLayout): (s: seq<byte>)
    ensures |s| == 12
  {
    Image16(l.xpos) + Image16(l.ypos) + Image16(l.screenWidth) + Image16(l.screenHeight)
    + Image16(l.fontWidth) + Image16(l.fontHeight)
  }

  function DecodeLayout(s: seq<byte>): (l: WinConsoleLayout)
    requires |s| == 12
  {
    WinConsoleLayout(Read16(s, 0), Read16(s, 2), Read16(s, 4), Read16(s, 6), Read16(s, 8), Read16(s, 10))
  }

  function EncodeConfig(c: MapConfig): (s: seq<byte>)
    ensures |s| == 16
  {
    Image16(c.x) + Image16(c.y) + Image16(c.width) + Image16(c.height)
    + Image16(c.wallOne) + Image16(c.wallTwo) + Image16(c.wallThree) + Image16(c.wallFour)
  }

  function DecodeConfig(s: seq<byte>): (c: MapConfig)
    requires |s| == 16
  {
    MapConfig(Read16(s, 0), Read16(s, 2), Read16(s, 4), Read16(s, 6),
              Read16(s, 8), Read16(s, 10), Read16(s, 12), Read16(s, 14))
  }

  function EncodeEntity(e: Entity): (s: seq<byte>)
    ensures |s| == 18
  {
    ToBytes(e.id, 8) + Image16(e.x) + Image16(e.y) + Image16(e.veloX) + Image16(e.veloY) + [e.style, e.kind]
  }

  function DecodeEntity(s: seq<byte>): (e: Entity)
    requires |s| == 18
  {
    var id := FromBytes(s[..8]);
    assert id < Pow256(8) == 0x1_0000_0000_0000_0000;
    Entity(id, Read16(s, 8), Read16(s, 10), Read16(s, 12), Read16(s, 14), s[16], s[17])
  }

  // The images byte by byte, fields in declaration order, the low-order byte of each first.

  lemma LayoutImage(l: WinConsoleLayout)
    ensures EncodeLayout(l) ==
            [l.xpos % 256, l.xpos / 256, l.ypos % 256, l.ypos / 256,
             l.screenWidth % 256, l.screenWidth / 256, l.screenHeight % 256, l.screenHeight / 256,
             l.fontWidth % 256, l.fontWidth / 256, l.fontHeight % 256, l.fontHeight / 256]
  {
  }

  lemma ConfigImage(c: MapConfig)
    ensures EncodeConfig(c) ==
            [c.x % 256, c.x / 256, c.y % 256, c.y / 256, c.width % 256, c.width / 256, c.height % 256, c.height / 256,
             c.wallOne % 256, c.wallOne / 256, c.wallTwo % 256, c.wallTwo / 256,
             c.wallThree % 256, c.wallThree / 256, c.wallFour % 256, c.wallFour / 256]
  {
  }

  lemma EntityImage(e: Entity)
    ensures EncodeEntity(e)[..8] == ToBytes(e.id, 8)
    ensures EncodeEntity(e)[8..] ==
            [e.x % 256, e.x / 256, e.y % 256, e.y / 256, e.veloX % 256, e.veloX / 256, e.veloY % 256, e.veloY / 256,
             e.style, e.kind]
  {
  }

  lemma LayoutRoundTrip(l: WinConsoleLayout)
    ensures DecodeLayout(EncodeLayout(l)) == l
  {
  }

  lemma ConfigRoundTrip(c: MapConfig)
    ensures DecodeConfig(EncodeConfig(c)) == c
  {
  }

  lemma EntityRoundTrip(e: Entity)
    ensures DecodeEntity(EncodeEntity(e)) == e
  {
    assert Pow256(8) == 0x1_0000_0000_0000_0000;
    FromToBytes(e.id, 8);
    assert EncodeEntity(e)[..8] == ToBytes(e.id, 8);
  }

  function EncodeEntities(es: seq<Entity>): (images: seq<seq<byte>>)
    ensures |images| == |es|
    ensures AllWide(images, ENTITY_WIDTH)
  {
    seq(|es|, k requires 0 <= k < |es| => EncodeEntity(es[k]))
  }

  function DecodeEntities(images: seq<seq<byte>>): (es: seq<Entity>)
    requires AllWide(images, ENTITY_WIDTH)
    ensures |es| == |images|
  {
    seq(|images|, k requires 0 <= k < |images| => DecodeEntity(images[k]))
  }

  /** In a message entity k stands at k times the width. */
  lemma EntitiesImage(es: seq<Entity>, k: nat)
    requires k < |es|
    ensures |Flatten(EncodeEntities(es))| == 18 * |es|
    ensures Flatten(EncodeEntities(es))[18 * k..18 * k + 18] == EncodeEntity(es[k])
  {
    hide EncodeEntity, Flatten;
    FlattenAt(EncodeEntities(es), ENTITY_WIDTH, k);
  }

  /** The fixed-width encoding of an entity vector is injective: decoding gives the vector back. */
  lemma EntitiesRoundTrip(es: seq<Entity>)
    ensures DecodeEntities(EncodeEntities(es)) == es
  {
    forall k | 0 <= k < |es| ensures DecodeEntities(EncodeEntities(es))[k] == es[k] {
      EntityRoundTrip(es[k]);
    }
  }
}
