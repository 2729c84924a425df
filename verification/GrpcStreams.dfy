/** The two polling loops over a body (framed.rs, client.rs) and what a caller gets out of them. */
module GrpcStreams {
  import opened Wrappers
  import opened WireBasics
  import opened GrpcFrame
  import opened Deframer

  // ------------------------------------------------------------------------ whole frames

  /** One whole frame and then more: its item comes first, and the stream goes on even when it cannot be decoded. */
  lemma FrameThenRest(cfg: Config, frame: bytes, data: bytes)
    requires |frame| >= 5 && |frame| == 5 + Declared(frame) && Declared(frame) <= cfg.max
    ensures OneShot(cfg, frame + data) == [ItemOf(cfg, frame)] + OneShot(cfg, data)
  {
    hide ItemOf, Ending;
    assert frame[1..5] == (frame + data)[1..5];
    assert (frame + data)[..|frame|] == frame && (frame + data)[|frame|..] == data;
    FramesOne(cfg, frame + data);
    Assoc([ItemOf(cfg, frame)], Frames(cfg, data).0, Ending(cfg, Frames(cfg, data).1));
  }

  /**
   * The items of a body, byte by byte: a frame over the limit ends them; another one gives its message, or the error
   * `decode_message` has for it, and the bytes behind it go on; a frame that is not complete is an error of its own.
   */
  lemma BodyOnWire(cfg: Config, flag: byte, payload: bytes, data: bytes, part: bytes)
    requires |payload| < 0x1_0000_0000 && part <= OnWire(flag, payload) && part != OnWire(flag, payload)
    ensures var n := |payload|;
            var frame := [flag, n / 0x100_0000, n / 0x1_0000 % 256, n / 256 % 256, n % 256] + payload;
            && frame == OnWire(flag, payload)
            && OneShot(cfg, frame + data) ==
               (if n > cfg.max then [Error(TooBig(n))]
                else
                  match DecodeMessage(cfg.z, frame, cfg.encoding, cfg.max)
                  case Success(m) => [Message(m)] + OneShot(cfg, data)
                  case Failure(e) => [Error(BadFrame(e))] + OneShot(cfg, data))
            && OneShot(cfg, part) ==
               (if |part| == 0 then [] else if |part| >= 5 && n > cfg.max then [Error(TooBig(n))] else [Error(Partial)])
  {
    hide DecodeMessage, OneShot, Packed, OnWire, Declared, ItemOf;
    OnWireUnfolds(flag, payload);
    OnWirePacked(flag, payload);
    PackedParts(flag, payload);
    var frame := OnWire(flag, payload);
    if |payload| > cfg.max { OversizeFirst(cfg, frame, data); } else { FrameThenRest(cfg, frame, data); }
    assert ItemOf(cfg, frame) == match DecodeMessage(cfg.z, frame, cfg.encoding, cfg.max)
                                 case Success(m) => Message(m)
                                 case Failure(e) => Error(BadFrame(e)) by { ItemUnfolds(cfg, frame); }
    if |part| >= 5 { SameLength(frame, part); }
    PartOfFrame(cfg, frame, part);
  }

  lemma ItemUnfolds(cfg: Config, frame: bytes)
    ensures ItemOf(cfg, frame) == match DecodeMessage(cfg.z, frame, cfg.encoding, cfg.max)
                                  case Success(m) => Message(m)
                                  case Failure(e) => Error(BadFrame(e))
  {
  }

  lemma SameLength(frame: bytes, part: bytes)
    requires |part| >= 5 && part <= frame
    ensures Declared(part) == Declared(frame)
  {
    assert part[1..5] == frame[1..5];
  }

  lemma PartOfFrame(cfg: Config, frame: bytes, part: bytes)
    requires part <= frame && part != frame && |frame| >= 5 && |frame| == 5 + Declared(frame)
    requires |part| >= 5 ==> Declared(part) == Declared(frame)
    ensures OneShot(cfg, part) ==
            if |part| == 0 then []
            else if |part| >= 5 && Declared(frame) > cfg.max then [Error(TooBig(Declared(frame)))]
            else [Error(Partial)]
  {
    hide Declared;
    assert Frames(cfg, part) == ([], part);
  }

  /** Every message is accepted by a sender with the limit `sendMax`, and its payload by the length field. */
  ghost predicate Sendable(cfg: Config, sendMax: nat, messages: seq<bytes>) {
    forall i :: 0 <= i < |messages| ==>
      && Encoded(cfg.z, messages[i], cfg.encoding, sendMax).Success?
      && Inverse(cfg.z, messages[i], cfg.encoding)
      && |Payload(cfg.z, messages[i], cfg.encoding)| < U32
  }

  /** The limit of the receiver has room for every message. */
  predicate AllReceivable(cfg: Config, messages: seq<bytes>) {
    forall i :: 0 <= i < |messages| ==> Receivable(cfg.z, messages[i], cfg.encoding, cfg.max)
  }

  function Sent(cfg: Config, sendMax: nat, messages: seq<bytes>): bytes {
    if |messages| == 0 then []
    else
      var frame := Encoded(cfg.z, messages[0], cfg.encoding, sendMax);
      (if frame.Success? then frame.value else []) + Sent(cfg, sendMax, messages[1..])
  }

  function Received(messages: seq<bytes>): (items: seq<Item>)
    ensures |items| == |messages| && forall i :: 0 <= i < |items| ==> items[i] == Message(messages[i])
  {
    seq(|messages|, i requires 0 <= i < |messages| => Message(messages[i]))
  }

  /** The frame of a message that can be sent has the length it declares, and gives the message if there is room. */
  lemma SentFrame(cfg: Config, sendMax: nat, m: bytes)
    requires Sendable(cfg, sendMax, [m])
    ensures var frame := Encoded(cfg.z, m, cfg.encoding, sendMax);
            && frame.Success? && |frame.value| >= 5 && |frame.value| == 5 + Declared(frame.value)
            && (ItemOf(cfg, frame.value) == Message(m) <==> Receivable(cfg.z, m, cfg.encoding, cfg.max))
            && (Declared(frame.value) > cfg.max ==> !Receivable(cfg.z, m, cfg.encoding, cfg.max))
  {
    hide DecodeMessage, Packed, Declared, ItemOf;
    assert [m][0] == m;
    FrameRoundTrip(cfg.z, m, cfg.encoding, sendMax, cfg.max);
    PackedParts(if cfg.encoding.Identity? then UNCOMPRESSED else COMPRESSED, Payload(cfg.z, m, cfg.encoding));
    ItemUnfolds(cfg, Encoded(cfg.z, m, cfg.encoding, sendMax).value);
  }

  /** A frame over the limit is the last thing found. */
  lemma OversizeFirst(cfg: Config, frame: bytes, data: bytes)
    requires |frame| >= 5 && Declared(frame) > cfg.max
    ensures OneShot(cfg, frame + data) == [Error(TooBig(Declared(frame)))]
  {
    assert frame[1..5] == (frame + data)[1..5];
    assert Frames(cfg, frame + data) == ([], frame + data);
  }

  lemma SendableParts(cfg: Config, sendMax: nat, messages: seq<bytes>)
    requires Sendable(cfg, sendMax, messages) && |messages| > 0
    ensures Sendable(cfg, sendMax, [messages[0]]) && Sendable(cfg, sendMax, messages[1..])
    ensures AllReceivable(cfg, messages) <==>
            Receivable(cfg.z, messages[0], cfg.encoding, cfg.max) && AllReceivable(cfg, messages[1..])
  {
    hide Encoded, Inverse, Payload, Receivable;
    var rest := messages[1..];
    assert forall i :: 0 <= i < |rest| ==> rest[i] == messages[i + 1];
    if Receivable(cfg.z, messages[0], cfg.encoding, cfg.max) && AllReceivable(cfg, rest) {
      forall i | 0 <= i < |messages|
        ensures Receivable(cfg.z, messages[i], cfg.encoding, cfg.max)
      {
        if i > 0 { assert messages[i] == rest[i - 1]; }
      }
    }
  }

  lemma ReceivedFirst(messages: seq<bytes>)
    requires |messages| > 0
    ensures Received(messages) == [Message(messages[0])] + Received(messages[1..])
  {
  }

  lemma NothingSent(cfg: Config, sendMax: nat)
    ensures OneShot(cfg, Sent(cfg, sendMax, [])) == Received([])
  {
  }

  lemma SameTail<T>(x: T, a: seq<T>, b: seq<T>)
    ensures [x] + a == [x] + b <==> a == b
  {
    if [x] + a == [x] + b { assert a == ([x] + a)[1..] == ([x] + b)[1..] == b; }
  }

  lemma {:induction false} FramedList(cfg: Config, sendMax: nat, messages: seq<bytes>)
    requires Sendable(cfg, sendMax, messages)
    ensures OneShot(cfg, Sent(cfg, sendMax, messages)) == Received(messages) <==> AllReceivable(cfg, messages)
  {
    hide Encoded, Sendable, Received, OneShot, ItemOf, Declared, Receivable, AllReceivable;
    if |messages| == 0 {
      assert messages == [];
      NothingSent(cfg, sendMax);
      assert AllReceivable(cfg, []) by { NoneReceivable(cfg); }
    } else {
      var (m, rest) := (messages[0], messages[1..]);
      SendableParts(cfg, sendMax, messages);
      SentFrame(cfg, sendMax, m);
      FramedList(cfg, sendMax, rest);
      ReceivedFirst(messages);
      var (frame, data) := (Encoded(cfg.z, m, cfg.encoding, sendMax).value, Sent(cfg, sendMax, rest));
      if Declared(frame) > cfg.max {
        OversizeFirst(cfg, frame, data);
        assert ([Message(m)] + Received(rest))[0] == Message(m);
      } else {
        FrameThenRest(cfg, frame, data);
        if ItemOf(cfg, frame) == Message(m) {
          SameTail(Message(m), OneShot(cfg, data), Received(rest));
        } else {
          assert ([ItemOf(cfg, frame)] + OneShot(cfg, data))[0] == ItemOf(cfg, frame);
          assert ([Message(m)] + Received(rest))[0] == Message(m);
        }
      }
    }
  }

  lemma NoneReceivable(cfg: Config)
    ensures AllReceivable(cfg, [])
  {
  }

  /**
   * A list of messages comes back unchanged, however the framed bytes are cut up and delayed, if and only if the limit
   * of the receiver has room for each of them; the sender may have another limit.
   */
  lemma StreamedList(cfg: Config, sendMax: nat, messages: seq<bytes>, body: seq<Event>)
    requires Sendable(cfg, sendMax, messages) && Unbroken(body) && AllBytes(body) == Sent(cfg, sendMax, messages)
    ensures Drained(cfg, Start(body)) == Received(messages) <==> AllReceivable(cfg, messages)
  {
    ChunkIndependence(cfg, body);
    FramedList(cfg, sendMax, messages);
  }

  // ------------------------------------------------------------------------- body errors

  /** Up to a body error the items are those of the bytes before it; the bytes left over are kept for what follows. */
  lemma {:induction false} UpToBreak(cfg: Config, buf: bytes, pre: seq<Event>, e: string, post: seq<Event>)
    requires Unbroken(pre)
    ensures var (items, rest) := Frames(cfg, buf + AllBytes(pre));
            Expected(cfg, buf, pre + [Broken(e)] + post) ==
            if Look(cfg, rest).Oversize? then items + Ending(cfg, rest)
            else items + [Error(BodyError(e))] + Expected(cfg, rest, post)
    decreases |pre|
  {
    hide Ending, Look, ItemOf;
    var body := pre + [Broken(e)] + post;
    var (items0, rest0) := Frames(cfg, buf);
    FramesAppend(cfg, buf, AllBytes(pre));
    if pre == [] {
      assert body[0] == Broken(e) && body[1..] == post;
      assert buf + AllBytes(pre) == buf;
    } else {
      assert body[1..] == pre[1..] + [Broken(e)] + post;
      assert forall i :: 0 <= i < |pre| - 1 ==> pre[1..][i] == pre[i + 1];
      var rest' := if pre[0].Chunk? then rest0 + pre[0].data else rest0;
      assert rest' + AllBytes(pre[1..]) == rest0 + AllBytes(pre);
      if Look(cfg, rest0).Oversize? {
        StillOversize(cfg, rest0, AllBytes(pre));
      } else {
        UpToBreak(cfg, rest', pre[1..], e, post);
        var (items, rest) := Frames(cfg, rest0 + AllBytes(pre));
        Assoc(items0, items, Ending(cfg, rest));
        Assoc(items0, items, [Error(BodyError(e))]);
        Assoc(items0, items + [Error(BodyError(e))], Expected(cfg, rest, post));
      }
    }
  }

  lemma StillOversize(cfg: Config, rest: bytes, b: bytes)
    requires Look(cfg, rest).Oversize?
    ensures Frames(cfg, rest + b) == ([], rest + b) && Look(cfg, rest + b).Oversize?
    ensures Ending(cfg, rest + b) == Ending(cfg, rest)
  {
    LookMore(cfg, rest, b);
  }

  // ---------------------------------------------------------------------- DeframeStream

  class DeframeStream {
    const cfg: Config
    var body: seq<Event>
    var buf: bytes
    var eof: bool

    ghost function St(): State
      reads this
    {
      State(buf, eof, body)
    }

    constructor (cfg: Config, body: seq<Event>)
      ensures this.cfg == cfg && St() == Start(body)
    {
      this.cfg, this.body, buf, eof := cfg, body, [], false;
    }

    /** `poll_next` */
    method PollNext() returns (p: Poll)
      modifies this
      ensures (p, St()) == Next(cfg, old(St()))
    {
      hide DecodeMessage, FromBigEndian;
      while true
        invariant Next(cfg, St()) == Next(cfg, old(St()))
        decreases |body|, if eof then 0 else 1
      {
        if |buf| >= 5 {
          var declared := Declared(buf);
          if declared > cfg.max { return Ready(Error(TooBig(declared))); }
          var total := 5 + declared;
          if |buf| >= total {
            var frame := buf[..total];
            buf := buf[total..];
            match DecodeMessage(cfg.z, frame, cfg.encoding, cfg.max) {
              case Success(raw) => return Ready(Message(raw));
              case Failure(e) => return Ready(Error(BadFrame(e)));
            }
          }
        }
        if eof { return if buf == [] then Done else Ready(Error(Partial)); }
        if body == [] {
          eof := true;
        } else {
          var event := body[0];
          body := body[1..];
          match event {
            case Chunk(data) => buf := buf + data;
            case Broken(e) => return Ready(Error(BodyError(e)));
            case Wait => return Pending;
          }
        }
      }
    }
  }

  /** The first error of a list of items, or its last message. */
  function LastMessage(items: seq<Item>): Result<Option<bytes>, Fault> {
    if |items| == 0 then Success(None)
    else if items[0].Error? then Failure(items[0].fault)
    else
      var rest := LastMessage(items[1..]);
      if rest == Success(None) then Success(Some(items[0].message)) else rest
  }

  /** No item gives nothing, messages alone give the last of them, and any error the first error. */
  lemma {:induction false} LastMessageMeaning(items: seq<Item>)
    ensures LastMessage(items) == Success(None) <==> |items| == 0
    ensures |items| > 0 && (forall i :: 0 <= i < |items| ==> items[i].Message?) ==>
              LastMessage(items) == Success(Some(items[|items| - 1].message))
    ensures forall i :: 0 <= i < |items| && items[i].Error? && (forall k :: 0 <= k < i ==> items[k].Message?) ==>
              LastMessage(items) == Failure(items[i].fault)
  {
    if |items| > 0 && items[0].Message? {
      LastMessageMeaning(items[1..]);
      assert forall i :: 1 <= i < |items| ==> items[i] == items[1..][i - 1];
    }
  }

  function After(last: Option<bytes>, items: seq<Item>): Result<Option<bytes>, Fault> {
    var r := LastMessage(items);
    if r == Success(None) then Success(last) else r
  }

  /** `read_single_message`: the outcome of a body that does not break depends on its bytes alone. */
  method ReadSingleMessage(cfg: Config, body: seq<Event>) returns (r: Result<Option<bytes>, Fault>)
    ensures r == LastMessage(Expected(cfg, [], body))
    ensures Unbroken(body) ==> r == LastMessage(OneShot(cfg, AllBytes(body)))
  {
    hide Next, Weight, OneShot, Expected;
    if Unbroken(body) { ChunkIndependence(cfg, body); }
    DrainedIsExpected(cfg, Start(body));
    var stream := new DeframeStream(cfg, body);
    var last: Option<bytes> := None;
    while true
      invariant stream.cfg == cfg && fresh(stream)
      invariant After(last, Drained(cfg, stream.St())) == LastMessage(Expected(cfg, [], body))
      decreases Weight(stream.St())
    {
      ghost var before := stream.St();
      NextWeight(cfg, before);
      var p := stream.PollNext();
      match p {
        case Done => return Success(last);
        case Pending =>
        case Ready(Error(fault)) => return Failure(fault);
        case Ready(Message(m)) =>
          assert Drained(cfg, before)[1..] == Drained(cfg, stream.St());
          last := Some(m);
      }
    }
  }

  // ------------------------------------------------------------------- GrpcResponseBody

  /** What polling the trailers yields: not there yet, or the status code they carry, if any. */
  datatype TrailerPoll = NotYet | Arrived(status: Option<int>)

  datatype Response = Response(stream: State, checked: bool, trailers: seq<TrailerPoll>)

  const OK := 0

  predicate Fails(t: TrailerPoll) {
    t.Arrived? && t.status.Some? && t.status.value != OK
  }

  /** What a finished body says: the failing status its trailers carry, if they are there and not asked for yet. */
  function Ask(r: Response): (Poll, Response) {
    if r.checked then (Done, r)
    else
      var asked := r.(checked := true, trailers := if r.trailers == [] then [] else r.trailers[1..]);
      if r.trailers == [] then (Done, asked)
      else if Fails(r.trailers[0]) then (Ready(Error(Terminal(r.trailers[0].status.value))), asked)
      else if r.trailers[0].NotYet? then (Pending, asked)
      else (Done, asked)
  }

  /** One call of `poll_next` of a response body. */
  function NextOf(cfg: Config, r: Response): (Poll, Response) {
    var (p, s) := Next(cfg, r.stream);
    var r' := r.(stream := s);
    if p != Done then (p, r') else Ask(r')
  }

  function DrainedOf(cfg: Config, r: Response): seq<Item>
    decreases Weight(r.stream), if r.checked then 0 else 1
  {
    var (p, r') := NextOf(cfg, r);
    NextWeight(cfg, r.stream);
    match p
    case Done => []
    case Pending => DrainedOf(cfg, r')
    case Ready(item) => if Repeats(item) then [item] else [item] + DrainedOf(cfg, r')
  }

  /** The status the reader reports: one that is not 0, and only when the very first poll of the trailers has it. */
  function Reported(r: Response): seq<Item> {
    if r.checked || |r.trailers| == 0 then []
    else
      match r.trailers[0]
      case Arrived(Some(code)) => if code == 0 then [] else [Error(Terminal(code))]
      case _ => []
  }

  /** The body ended without leaving an error that repeats. */
  predicate EndsWell(items: seq<Item>) {
    |items| > 0 ==> !Repeats(items[|items| - 1])
  }

  /** Nothing is left in a finished stream, and it stays so. */
  lemma {:induction false} DoneStays(cfg: Config, s: State)
    requires Next(cfg, s).0.Done?
    ensures Next(cfg, Next(cfg, s).1) == (Done, Next(cfg, s).1)
    decreases |s.body|, if s.eof then 0 else 1
  {
    if !s.eof {
      if s.body == [] {
        DoneStays(cfg, s.(eof := true));
      } else if s.body[0].Chunk? {
        DoneStays(cfg, s.(buf := s.buf + s.body[0].data, body := s.body[1..]));
      }
    }
  }

  /** After the trailers have been asked for, only the end is left. */
  lemma AskedIsOver(cfg: Config, r: Response)
    requires Next(cfg, r.stream).0.Done? && !r.checked
    ensures DrainedOf(cfg, NextOf(cfg, r).1) == []
  {
    DoneStays(cfg, r.stream);
  }

  lemma {:induction false} ResponseItems(cfg: Config, r: Response)
    ensures var items := Drained(cfg, r.stream);
            DrainedOf(cfg, r) == items + if EndsWell(items) then Reported(r) else []
    decreases Weight(r.stream)
  {
    hide Next, Weight;
    NextWeight(cfg, r.stream);
    var (p, s) := Next(cfg, r.stream);
    match p
    case Done =>
      if !r.checked { AskedIsOver(cfg, r); }
    case Pending =>
      ResponseItems(cfg, r.(stream := s));
    case Ready(item) =>
      if !Repeats(item) {
        ResponseItems(cfg, r.(stream := s));
        Assoc([item], Drained(cfg, s), if EndsWell(Drained(cfg, s)) then Reported(r) else []);
      }
  }

  /**
   * A response yields the items of one parse of its bytes, and then the failing status of its trailers if the bytes
   * were whole frames and the trailers were there the first time they were asked for.
   */
  lemma ResponseChunkIndependence(cfg: Config, body: seq<Event>, trailers: seq<TrailerPoll>)
    requires Unbroken(body)
    ensures var items := OneShot(cfg, AllBytes(body));
            var r := Response(Start(body), false, trailers);
            DrainedOf(cfg, r) == items + if EndsWell(items) then Reported(r) else []
  {
    ChunkIndependence(cfg, body);
    ResponseItems(cfg, Response(Start(body), false, trailers));
  }

  /** Trailers that are not there yet when the data ends are never read: the call looks successful. */
  lemma LateStatusIsLost(cfg: Config, sendMax: nat, messages: seq<bytes>, body: seq<Event>, code: int)
    requires Sendable(cfg, sendMax, messages) && AllReceivable(cfg, messages)
    requires Unbroken(body) && AllBytes(body) == Sent(cfg, sendMax, messages) && code != 0
    ensures DrainedOf(cfg, Response(Start(body), false, [NotYet, Arrived(Some(code))])) == Received(messages)
    ensures DrainedOf(cfg, Response(Start(body), false, [Arrived(Some(code))]))
            == Received(messages) + [Error(Terminal(code))]
  {
    FramedList(cfg, sendMax, messages);
    ResponseChunkIndependence(cfg, body, [NotYet, Arrived(Some(code))]);
    ResponseChunkIndependence(cfg, body, [Arrived(Some(code))]);
  }

  class GrpcResponseBody {
    const cfg: Config
    var body: seq<Event>
    var trailers: seq<TrailerPoll>
    var buf: bytes
    var eof: bool
    var trailersChecked: bool
    var terminalStatus: Option<int>

    ghost function St(): Response
      reads this
    {
      Response(State(buf, eof, body), trailersChecked, trailers)
    }

    constructor (cfg: Config, body: seq<Event>, trailers: seq<TrailerPoll>)
      ensures this.cfg == cfg && St() == Response(Start(body), false, trailers) && terminalStatus == None
    {
      this.cfg, this.body, this.trailers := cfg, body, trailers;
      buf, eof, trailersChecked, terminalStatus := [], false, false, None;
    }

    /** The part of `poll_next` that looks at the trailers. */
    method AskTrailers() returns (p: Poll)
      modifies `trailers, `trailersChecked, `terminalStatus
      ensures (p, St()) == Ask(old(St()))
      ensures terminalStatus ==
              if p.Ready? && p.item.Error? && p.item.fault.Terminal? then Some(p.item.fault.status)
              else old(terminalStatus)
    {
      if !trailersChecked {
        trailersChecked := true;
        if trailers != [] {
          var t := trailers[0];
          trailers := trailers[1..];
          if Fails(t) {
            terminalStatus := t.status;
            return Ready(Error(Terminal(t.status.value)));
          }
          if t.NotYet? { return Pending; }
        }
      }
      p := Done;
    }

    /** `poll_next` */
    method PollNext() returns (p: Poll)
      modifies this
      ensures (p, St()) == NextOf(cfg, old(St()))
      ensures terminalStatus ==
              if p.Ready? && p.item.Error? && p.item.fault.Terminal? then Some(p.item.fault.status)
              else old(terminalStatus)
    {
      hide DecodeMessage, FromBigEndian, Ask;
      ghost var start := St();
      while true
        invariant Next(cfg, St().stream) == Next(cfg, start.stream)
        invariant trailersChecked == start.checked && trailers == start.trailers
        invariant terminalStatus == old(terminalStatus)
        decreases |body|, if eof then 0 else 1
      {
        if |buf| >= 5 {
          var declared := Declared(buf);
          if declared > cfg.max { return Ready(Error(TooBig(declared))); }
          var total := 5 + declared;
          if |buf| >= total {
            var frame := buf[..total];
            buf := buf[total..];
            match DecodeMessage(cfg.z, frame, cfg.encoding, cfg.max) {
              case Success(raw) => return Ready(Message(raw));
              case Failure(e) => return Ready(Error(BadFrame(e)));
            }
          }
        }
        if eof {
          if buf != [] { return Ready(Error(Partial)); }
          assert Next(cfg, start.stream) == (Done, St().stream);
          p := AskTrailers();
          return;
        }
        if body == [] {
          eof := true;
        } else {
          var event := body[0];
          body := body[1..];
          match event {
            case Chunk(data) => buf := buf + data;
            case Broken(e) => return Ready(Error(BodyError(e)));
            case Wait => return Pending;
          }
        }
      }
    }
  }
}
