/**
 * Splitting a body into gRPC messages (framed.rs, client.rs): the state machine that buffers DATA chunks, against
 * the parse of all the bytes at once.
 */
module Deframer {
  import opened WireBasics
  import opened GrpcFrame

  /** What polling the body yields next; a body with no event left has ended. */
  datatype Event = Chunk(data: bytes) | Wait | Broken(cause: string)

  datatype Fault =
    | TooBig(declared: nat) | BadFrame(error: FrameError) | Partial | BodyError(cause: string) | Terminal(status: int)

  datatype Item = Message(message: bytes) | Error(fault: Fault)

  datatype Poll = Done | Ready(item: Item) | Pending

  datatype Config = Config(z: Codec, encoding: Compression, max: nat)

  // ------------------------------------------------------------------- all bytes at once

  datatype Front = Short | Oversize(declared: nat) | Whole(total: nat)

  function Look(cfg: Config, buf: bytes): (f: Front)
    ensures f.Whole? ==> 5 <= f.total <= |buf|
  {
    if |buf| < 5 then Short
    else if Declared(buf) > cfg.max then Oversize(Declared(buf))
    else if |buf| >= 5 + Declared(buf) then Whole(5 + Declared(buf))
    else Short
  }

  function ItemOf(cfg: Config, frame: bytes): Item {
    match DecodeMessage(cfg.z, frame, cfg.encoding, cfg.max)
    case Success(m) => Message(m)
    case Failure(e) => Error(BadFrame(e))
  }

  /** The items of the whole frames at the front, and the bytes left. */
  function Frames(cfg: Config, data: bytes): (r: (seq<Item>, bytes))
    ensures |r.1| <= |data| && !Look(cfg, r.1).Whole?
  {
    var front := Look(cfg, data);
    if front.Whole? then
      var (items, rest) := Frames(cfg, data[front.total..]);
      ([ItemOf(cfg, data[..front.total])] + items, rest)
    else ([], data)
  }

  /** How a body ends that leaves these bytes unframed. */
  function Ending(cfg: Config, rest: bytes): seq<Item> {
    var front := Look(cfg, rest);
    if front.Oversize? then [Error(TooBig(front.declared))]
    else if rest == [] then []
    else [Error(Partial)]
  }

  /** The items of a body, all its bytes given at once, up to the first error that repeats for ever. */
  function OneShot(cfg: Config, data: bytes): seq<Item> {
    var (items, rest) := Frames(cfg, data);
    items + Ending(cfg, rest)
  }

  // ------------------------------------------------------------------- the state machine

  datatype State = State(buf: bytes, eof: bool, body: seq<Event>)

  function Start(body: seq<Event>): State {
    State([], false, body)
  }

  /** One call of `poll_next`. */
  function Next(cfg: Config, s: State): (r: (Poll, State))
    decreases |s.body|, if s.eof then 0 else 1
  {
    var front := Look(cfg, s.buf);
    match front
    case Oversize(declared) => (Ready(Error(TooBig(declared))), s)
    case Whole(total) => (Ready(ItemOf(cfg, s.buf[..total])), s.(buf := s.buf[total..]))
    case Short =>
      if s.eof then (if s.buf == [] then Done else Ready(Error(Partial)), s)
      else if s.body == [] then Next(cfg, s.(eof := true))
      else
        match s.body[0]
        case Chunk(data) => Next(cfg, s.(buf := s.buf + data, body := s.body[1..]))
        case Wait => (Pending, s.(body := s.body[1..]))
        case Broken(e) => (Ready(Error(BodyError(e))), s.(body := s.body[1..]))
  }

  /** Errors after which polling again gives the same error and changes nothing. */
  predicate Repeats(item: Item) {
    item.Error? && (item.fault.TooBig? || item.fault.Partial?)
  }

  function Bytes(body: seq<Event>): nat {
    if body == [] then 0
    else (if body[0].Chunk? then |body[0].data| else 0) + 1 + Bytes(body[1..])
  }

  function Weight(s: State): nat {
    |s.buf| + Bytes(s.body) + if s.eof then 0 else 1
  }

  lemma {:induction false} NextWeight(cfg: Config, s: State)
    ensures var (p, s') := Next(cfg, s);
            Weight(s') <= Weight(s) && (p.Pending? || (p.Ready? && !Repeats(p.item)) ==> Weight(s') < Weight(s))
    decreases |s.body|, if s.eof then 0 else 1
  {
    if Look(cfg, s.buf).Short? && !s.eof {
      if s.body == [] {
        NextWeight(cfg, s.(eof := true));
      } else if s.body[0].Chunk? {
        NextWeight(cfg, s.(buf := s.buf + s.body[0].data, body := s.body[1..]));
      }
    }
  }

  /** Everything a caller sees that polls until the end or until an error that repeats. */
  function Drained(cfg: Config, s: State): seq<Item>
    decreases Weight(s)
  {
    var (p, s') := Next(cfg, s);
    NextWeight(cfg, s);
    match p
    case Done => []
    case Pending => Drained(cfg, s')
    case Ready(item) => if Repeats(item) then [item] else [item] + Drained(cfg, s')
  }

  /** The sticky errors: the state is left as it is, so the next poll gives the same item. */
  lemma {:induction false} RepeatsForever(cfg: Config, s: State)
    requires var (p, _) := Next(cfg, s); p.Ready? && Repeats(p.item)
    ensures var (p, s') := Next(cfg, s); Next(cfg, s') == (p, s')
    decreases |s.body|, if s.eof then 0 else 1
  {
    if Look(cfg, s.buf).Short? && !s.eof {
      if s.body == [] {
        RepeatsForever(cfg, s.(eof := true));
      } else if s.body[0].Chunk? {
        RepeatsForever(cfg, s.(buf := s.buf + s.body[0].data, body := s.body[1..]));
      }
    }
  }

  // ------------------------------------------------------------------ chunk independence

  /** What should be seen: frames as bytes arrive, body errors in between, the ending at the end. */
  function Expected(cfg: Config, buf: bytes, body: seq<Event>): seq<Item>
    decreases |body|
  {
    var (items, rest) := Frames(cfg, buf);
    if Look(cfg, rest).Oversize? || body == [] then items + Ending(cfg, rest)
    else
      match body[0]
      case Chunk(data) => items + Expected(cfg, rest + data, body[1..])
      case Wait => items + Expected(cfg, rest, body[1..])
      case Broken(e) => items + [Error(BodyError(e))] + Expected(cfg, rest, body[1..])
  }

  function AllBytes(body: seq<Event>): bytes {
    if body == [] then [] else (if body[0].Chunk? then body[0].data else []) + AllBytes(body[1..])
  }

  predicate Unbroken(body: seq<Event>) {
    forall i :: 0 <= i < |body| ==> !body[i].Broken?
  }

  lemma LookMore(cfg: Config, a: bytes, b: bytes)
    ensures !Look(cfg, a).Short? ==> Look(cfg, a + b) == Look(cfg, a)
  {
    if |a| >= 5 { assert (a + b)[1..5] == a[1..5]; }
  }

  /** Frames found in a prefix stay found, and the rest goes on from what was left. */
  lemma {:induction false} FramesAppend(cfg: Config, a: bytes, b: bytes)
    ensures var (items, rest) := Frames(cfg, a);
            Frames(cfg, a + b) == (items + Frames(cfg, rest + b).0, Frames(cfg, rest + b).1)
    decreases |a|
  {
    hide ItemOf;
    LookMore(cfg, a, b);
    var front := Look(cfg, a);
    if front.Whole? {
      FramesAppend(cfg, a[front.total..], b);
      assert (a + b)[front.total..] == a[front.total..] + b;
      assert (a + b)[..front.total] == a[..front.total];
      var (items, rest) := Frames(cfg, a[front.total..]);
      Assoc([ItemOf(cfg, a[..front.total])], items, Frames(cfg, rest + b).0);
    } else {
      assert [] + Frames(cfg, a + b).0 == Frames(cfg, a + b).0;
    }
  }

  lemma OneShotAppend(cfg: Config, a: bytes, b: bytes)
    ensures var (items, rest) := Frames(cfg, a); OneShot(cfg, a + b) == items + OneShot(cfg, rest + b)
  {
    FramesAppend(cfg, a, b);
    var (items, rest) := Frames(cfg, a);
    var r := Frames(cfg, rest + b);
    Assoc(items, r.0, Ending(cfg, r.1));
  }

  /** Bytes after an oversize header change nothing. */
  lemma OversizeStays(cfg: Config, rest: bytes, b: bytes)
    requires Look(cfg, rest).Oversize?
    ensures OneShot(cfg, rest + b) == Ending(cfg, rest)
  {
    LookMore(cfg, rest, b);
  }

  lemma {:induction false} ExpectedIsOneShot(cfg: Config, buf: bytes, body: seq<Event>)
    requires Unbroken(body)
    ensures Expected(cfg, buf, body) == OneShot(cfg, buf + AllBytes(body))
    decreases |body|
  {
    hide Ending, Frames, OneShot;
    var all := AllBytes(body);
    var (items, rest) := Frames(cfg, buf);
    OneShotAppend(cfg, buf, all);
    if Look(cfg, rest).Oversize? {
      OversizeStays(cfg, rest, all);
    } else if body == [] {
      LeftOver(cfg, buf);
      assert rest + all == rest;
    } else {
      assert forall i :: 0 <= i < |body| - 1 ==> body[1..][i] == body[i + 1];
      var rest' := if body[0].Chunk? then rest + body[0].data else rest;
      ExpectedIsOneShot(cfg, rest', body[1..]);
      assert rest' + AllBytes(body[1..]) == rest + all;
    }
  }

  /** What is left holds no whole frame, so parsing it again gives only the ending. */
  lemma LeftOver(cfg: Config, buf: bytes)
    ensures var rest := Frames(cfg, buf).1; Frames(cfg, rest) == ([], rest) && OneShot(cfg, rest) == Ending(cfg, rest)
  {
  }

  predicate Sane(s: State) {
    s.eof ==> s.body == []
  }

  lemma FramesOne(cfg: Config, buf: bytes)
    requires Look(cfg, buf).Whole?
    ensures var total := Look(cfg, buf).total;
            Frames(cfg, buf) == ([ItemOf(cfg, buf[..total])] + Frames(cfg, buf[total..]).0, Frames(cfg, buf[total..]).1)
  {
  }

  lemma ExpectedOne(cfg: Config, buf: bytes, body: seq<Event>)
    requires Look(cfg, buf).Whole?
    ensures var total := Look(cfg, buf).total;
            Expected(cfg, buf, body) == [ItemOf(cfg, buf[..total])] + Expected(cfg, buf[total..], body)
  {
    hide ItemOf, Ending, Frames;
    FramesOne(cfg, buf);
    var total := Look(cfg, buf).total;
    var (items, rest) := Frames(cfg, buf[total..]);
    var head := [ItemOf(cfg, buf[..total])];
    if Look(cfg, rest).Oversize? || body == [] {
      Assoc(head, items, Ending(cfg, rest));
    } else {
      match body[0]
      case Chunk(data) => Assoc(head, items, Expected(cfg, rest + data, body[1..]));
      case Wait => Assoc(head, items, Expected(cfg, rest, body[1..]));
      case Broken(e) =>
        Assoc(head, items, [Error(BodyError(e))]);
        Assoc(head, items + [Error(BodyError(e))], Expected(cfg, rest, body[1..]));
    }
  }

  /** The first poll yields the first expected item, and leaves the others to be expected. */
  lemma {:induction false} NextExpected(cfg: Config, s: State)
    requires Sane(s)
    ensures var (p, s') := Next(cfg, s);
            Sane(s') && Expected(cfg, s.buf, s.body) ==
              (match p
               case Done => []
               case Pending => Expected(cfg, s'.buf, s'.body)
               case Ready(item) => if Repeats(item) then [item] else [item] + Expected(cfg, s'.buf, s'.body))
    decreases |s.body|, if s.eof then 0 else 1
  {
    hide ItemOf;
    var front := Look(cfg, s.buf);
    if front.Whole? {
      ExpectedOne(cfg, s.buf, s.body);
      ItemNeverRepeats(cfg, s.buf[..front.total]);
    } else if front.Short? && !s.eof {
      if s.body == [] {
        NextExpected(cfg, s.(eof := true));
      } else if s.body[0].Chunk? {
        NextExpected(cfg, s.(buf := s.buf + s.body[0].data, body := s.body[1..]));
      }
    }
  }

  lemma ItemNeverRepeats(cfg: Config, frame: bytes)
    ensures !Repeats(ItemOf(cfg, frame))
  {
  }

  lemma {:induction false} DrainedIsExpected(cfg: Config, s: State)
    requires Sane(s)
    ensures Drained(cfg, s) == Expected(cfg, s.buf, s.body)
    decreases Weight(s)
  {
    hide Next, Expected, Weight;
    NextWeight(cfg, s);
    NextExpected(cfg, s);
    var (p, s') := Next(cfg, s);
    if p.Pending? || (p.Ready? && !Repeats(p.item)) { DrainedIsExpected(cfg, s'); }
  }

  /**
   * However the bytes are cut into chunks and wherever polling has to wait, a body that does not break yields the
   * items of one parse of all its bytes.
   */
  lemma ChunkIndependence(cfg: Config, body: seq<Event>)
    requires Unbroken(body)
    ensures Drained(cfg, Start(body)) == OneShot(cfg, AllBytes(body))
  {
    hide Drained, Expected, OneShot;
    DrainedIsExpected(cfg, Start(body));
    ExpectedIsOneShot(cfg, [], body);
    assert [] + AllBytes(body) == AllBytes(body);
  }
}
