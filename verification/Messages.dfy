/** The message container of common/network/NetMsg.h: a typed header and a byte body used as a stack. */
module Messages {
  import opened Bytes
  import opened Vectors

  type uint32 = n: int | 0 <= n < 0x1_0000_0000

  /** A size_t stored in the header's 32-bit size. */
  function Low32(n: nat): uint32 {
    n % 0x1_0000_0000
  }

  /** A message value: the header's id and 32-bit size, and the body. */
  datatype Msg = Msg(id: byte, size: uint32, body: seq<byte>)

  /** The header announces exactly the body: what the receiving side relies on. */
  predicate WellFramed(m: Msg) {
    m.size == |m.body|
  }

  /** The header holds the body's length cut to 32 bits: what every operator leaves behind. */
  predicate Stamped(m: Msg) {
    m.size == Low32(|m.body|)
  }

  // std::memcpy on the body.

  function Overwrite(body: seq<byte>, at: nat, data: seq<byte>): (r: seq<byte>)
    requires at + |data| <= |body|
    ensures |r| == |body|
    ensures r[..at] == body[..at] && r[at..at + |data|] == data
  {
    body[..at] + data + body[at + |data|..]
  }

  // One push and one pull, on values.

  function Push(m: Msg, data: seq<byte>): Msg {
    Msg(m.id, Low32(|m.body| + |data|), m.body + data)
  }

  function Popped(m: Msg, n: nat): Msg
    requires n <= |m.body|
  {
    Msg(m.id, Low32(|m.body| - n), m.body[..|m.body| - n])
  }

  function Top(m: Msg, n: nat): seq<byte>
    requires n <= |m.body|
  {
    m.body[|m.body| - n..]
  }

  /** The message object itself; every operator rewrites the body and the size in place. */
  class MessageBuffer {
    var id: byte
    var size: uint32
    var body: seq<byte>

    ghost function Value(): Msg
      reads this
    {
      Msg(id, size, body)
    }

    constructor (id: byte)
      ensures Value() == Msg(id, 0, [])
    {
      this.id := id;
      size := 0;
      body := [];
    }

    method Clear()
      modifies this
      ensures Value() == Msg(old(id), 0, []) && WellFramed(Value())
    {
      body := [];
      size := 0;
    }

    /** operator<< : data is the object representation of the value pushed. */
    method PushValue(data: seq<byte>)
      modifies this
      ensures Value() == Push(old(Value()), data) && Stamped(Value())
    {
      var currentBodySize := |body|;
      body := Resized(body, currentBodySize + |data|, 0);
      body := Overwrite(body, currentBodySize, data);
      assert body == old(body) + data;
      size := Low32(|body|);
    }

    method PushBackComplex(elements: seq<seq<byte>>, width: nat)
      requires AllWide(elements, width)
      modifies this
      ensures Value() == Push(old(Value()), Flatten(elements)) && Stamped(Value())
    {
      FlattenLength(elements, width);
      var currentBodySize := |body|;
      body := Resized(body, currentBodySize + width * |elements|, 0);
      body := Overwrite(body, currentBodySize, Flatten(elements));
      assert body == old(body) + Flatten(elements);
      size := Low32(|body|);
    }

    /** operator>> : the source reads past the body when it is too short, so it must not be. */
    method PullValue(width: nat) returns (data: seq<byte>)
      requires width <= |body|
      modifies this
      ensures data == Top(old(Value()), width)
      ensures Value() == Popped(old(Value()), width) && Stamped(Value())
    {
      var cachedLocation := |body| - width;
      data := body[cachedLocation..cachedLocation + width];
      body := Resized(body, cachedLocation, 0);
      assert body == old(body)[..cachedLocation];
      size := Low32(|body|);
    }

    method PullComplex(width: nat, count: nat) returns (elements: seq<seq<byte>>)
      requires width * count <= |body|
      modifies this
      ensures elements == Chop(Top(old(Value()), width * count), width, count)
      ensures Value() == Popped(old(Value()), width * count) && Stamped(Value())
    {
      var cachedLocation := |body| - width * count;
      elements := Chop(body[cachedLocation..], width, count);
      body := Resized(body, cachedLocation, 0);
      assert body == old(body)[..cachedLocation];
      size := Low32(|body|);
    }
  }

  // Serialising a heterogeneous list of values and arrays, and reading it back from the end.

  datatype Item =
    | Scalar(image: seq<byte>)
    | Array(width: nat, images: seq<seq<byte>>)

  datatype Shape =
    | ScalarOf(width: nat)
    | ArrayOf(width: nat, count: nat)

  datatype Pulled = OutOfBounds | Pulled(items: seq<Item>, rest: Msg)

  predicate ValidItem(item: Item) {
    item.Array? ==> AllWide(item.images, item.width)
  }

  predicate ValidItems(items: seq<Item>) {
    forall k :: 0 <= k < |items| ==> ValidItem(items[k])
  }

  function ItemBytes(item: Item): seq<byte> {
    match item
    case Scalar(image) => image
    case Array(_, images) => Flatten(images)
  }

  function ShapeOf(item: Item): Shape {
    match item
    case Scalar(image) => ScalarOf(|image|)
    case Array(width, images) => ArrayOf(width, |images|)
  }

  function ShapesOf(items: seq<Item>): (shapes: seq<Shape>)
    ensures |shapes| == |items|
  {
    if items == [] then [] else ShapesOf(items[..|items| - 1]) + [ShapeOf(items[|items| - 1])]
  }

  function ShapeBytes(shape: Shape): nat {
    match shape
    case ScalarOf(width) => width
    case ArrayOf(width, count) => width * count
  }

  function PullItem(m: Msg, shape: Shape): Item
    requires ShapeBytes(shape) <= |m.body|
  {
    match shape
    case ScalarOf(width) => Scalar(Top(m, width))
    case ArrayOf(width, count) => Array(width, Chop(Top(m, width * count), width, count))
  }

  function PushAll(m: Msg, items: seq<Item>): Msg {
    if items == [] then m
    else Push(PushAll(m, items[..|items| - 1]), ItemBytes(items[|items| - 1]))
  }

  /** Pulls the last shape first, as a reader must, and lists the items in pushing order. */
  function PullAll(m: Msg, shapes: seq<Shape>): Pulled
    decreases |shapes|
  {
    if shapes == [] then Pulled([], m)
    else
      var shape := shapes[|shapes| - 1];
      if ShapeBytes(shape) > |m.body| then OutOfBounds
      else
        match PullAll(Popped(m, ShapeBytes(shape)), shapes[..|shapes| - 1])
        case OutOfBounds => OutOfBounds
        case Pulled(items, rest) => Pulled(items + [PullItem(m, shape)], rest)
  }

  function AllBytes(items: seq<Item>): seq<byte> {
    if items == [] then [] else AllBytes(items[..|items| - 1]) + ItemBytes(items[|items| - 1])
  }

  lemma {:induction false} PushAllBody(m: Msg, items: seq<Item>)
    ensures PushAll(m, items).body == m.body + AllBytes(items)
    ensures PushAll(m, items).id == m.id
    ensures items != [] ==> Stamped(PushAll(m, items))
  {
    if items != [] {
      PushAllBody(m, items[..|items| - 1]);
    }
  }

  lemma PullUndoesPush(m: Msg, item: Item)
    requires ValidItem(item)
    ensures var p := Push(m, ItemBytes(item));
            && ShapeBytes(ShapeOf(item)) == |ItemBytes(item)|
            && PullItem(p, ShapeOf(item)) == item
            && Popped(p, |ItemBytes(item)|) == m.(size := Low32(|m.body|))
  {
    var p := Push(m, ItemBytes(item));
    assert Top(p, |ItemBytes(item)|) == ItemBytes(item);
    assert p.body[..|m.body|] == m.body;
    match item
    case Scalar(image) =>
    case Array(width, images) =>
      FlattenLength(images, width);
      ChopFlatten(images, width);
  }

  lemma PullAllIgnoresSize(m: Msg, n: uint32, shapes: seq<Shape>)
    requires shapes != []
    ensures PullAll(m.(size := n), shapes) == PullAll(m, shapes)
  {
    var shape := shapes[|shapes| - 1];
    if ShapeBytes(shape) <= |m.body| {
      assert Popped(m.(size := n), ShapeBytes(shape)) == Popped(m, ShapeBytes(shape));
      assert PullItem(m.(size := n), shape) == PullItem(m, shape);
    }
  }

  /** The message left by pulling everything back: the original one, its size brought up to date. */
  function Restored(m: Msg, items: seq<Item>): Msg {
    if items == [] then m else m.(size := Low32(|m.body|))
  }

  lemma RoundTripStep(before: Msg, item: Item, shapes: seq<Shape>, items: seq<Item>, rest: Msg)
    requires ValidItem(item)
    requires PullAll(before, shapes) == Pulled(items, rest)
    ensures PullAll(Push(before, ItemBytes(item)), shapes + [ShapeOf(item)])
         == Pulled(items + [item], if shapes == [] then before.(size := Low32(|before.body|)) else rest)
  {
    PullUndoesPush(before, item);
    var all := shapes + [ShapeOf(item)];
    assert all[..|all| - 1] == shapes;
    if shapes != [] {
      PullAllIgnoresSize(before, Low32(|before.body|), shapes);
    }
  }

  predicate ComesBack(m: Msg, items: seq<Item>) {
    PullAll(PushAll(m, items), ShapesOf(items)) == Pulled(items, Restored(m, items))
  }

  lemma ComesBackNext(m: Msg, front: seq<Item>, item: Item)
    requires ValidItem(item) && ComesBack(m, front)
    ensures ComesBack(m, front + [item])
  {
    hide PullAll, Push, ShapeOf, ItemBytes, Low32, ValidItem;
    var items := front + [item];
    assert items[..|items| - 1] == front;
    RoundTripStep(PushAll(m, front), item, ShapesOf(front), front, Restored(m, front));
  }

  /** Reading back in reverse order returns every value and leaves the original body. */
  lemma {:induction false} RoundTrip(m: Msg, items: seq<Item>)
    requires ValidItems(items)
    ensures ComesBack(m, items)
  {
    if items != [] {
      hide ComesBack, ValidItem;
      var front, item := items[..|items| - 1], items[|items| - 1];
      RoundTrip(m, front);
      ComesBackNext(m, front, item);
      assert front + [item] == items;
    }
  }

  /** The original message is restored exactly when its header already held its truncated length. */
  lemma RoundTripRestoresIff(m: Msg, items: seq<Item>)
    requires ValidItems(items) && items != []
    ensures PullAll(PushAll(m, items), ShapesOf(items)) == Pulled(items, m) <==> Stamped(m)
  {
    RoundTrip(m, items);
  }

  /** After any non-empty series of pushes the header announces the body exactly when it is below 4 GiB. */
  lemma WellFramedIff(m: Msg, items: seq<Item>)
    requires items != []
    ensures WellFramed(PushAll(m, items)) <==> |m.body| + |AllBytes(items)| < 0x1_0000_0000
  {
    PushAllBody(m, items);
  }
}
