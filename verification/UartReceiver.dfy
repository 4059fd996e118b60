/** The receive thread of the UART touch service: headers are classified, touch frames
    are checked against their checksum, and after an error the thread hunts for the next
    touch header byte by byte. */
module UartReceiver {
  import opened Bytes
  import opened Serial

  const HEAD_1: byte := 0x1f
  const HEAD_2: byte := 0xf7
  const MAX_PACKAGE_LEN := 67
  const MAX_HEAD_LEN := 6

  // -------------------------------------------------------------- headers

  /** What six header bytes announce: a touch frame, an acknowledgement with so many
      further bytes, or nothing known. */
  datatype Head = Touch | Ack(more: nat) | Unknown

  function HeadOf(h: seq<byte>): Head
    requires |h| == MAX_HEAD_LEN
  {
    if h[0] != HEAD_1 || h[1] != HEAD_2 then Unknown
    else if h[2] == 0x43 then
      if h[3] == 0x00 && h[4] == 0x02 then Touch else Unknown
    else if h[2] != 0xfc then Unknown
    else if h[3] == 0xfe then
      if h[4] == 0x81 && h[5] == 0x02 then Ack(4) else Unknown
    else if h[3] != 0xb4 then Unknown
    else if (h[4] == 0x81 || h[4] == 0x82) && h[5] == 0x02 then Ack(4)
    else if h[4] == 0x83 && h[5] == 0x0A then Ack(8)
    else Unknown
  }

  function Remaining(h: Head): nat {
    match h
    case Touch => 61
    case Ack(more) => more
    case Unknown => 0
  }

  /** getHeadData. */
  method GetHeadData(data: array<byte>) returns (remainLen: nat, touchData: bool)
    requires data.Length >= MAX_HEAD_LEN
    ensures remainLen == Remaining(HeadOf(data[..MAX_HEAD_LEN]))
    ensures touchData == HeadOf(data[..MAX_HEAD_LEN]).Touch?
    ensures touchData <==> data[..5] == [0x1f, 0xf7, 0x43, 0x00, 0x02]
    ensures remainLen == if data[..5] == [0x1f, 0xf7, 0x43, 0x00, 0x02] then 61
                         else if ShortAck(data[..6]) then 4
                         else if QueryAck(data[..6]) then 8
                         else 0
  {
    remainLen, touchData := 0, false;
    if data[0] == 0x1f && data[1] == 0xf7 && data[2] == 0xfc && data[3] == 0xfe && data[4] == 0x81 && data[5] == 0x02 {
      remainLen := 4;
    }
    if data[0] == 0x1f && data[1] == 0xf7 && data[2] == 0xfc && data[3] == 0xb4 && data[4] == 0x81 && data[5] == 0x02 {
      remainLen := 4;
    }
    if data[0] == 0x1f && data[1] == 0xf7 && data[2] == 0xfc && data[3] == 0xb4 && data[4] == 0x82 && data[5] == 0x02 {
      remainLen := 4;
    }
    if data[0] == 0x1f && data[1] == 0xf7 && data[2] == 0xfc && data[3] == 0xb4 && data[4] == 0x83 && data[5] == 0x0A {
      remainLen := 8;
    }
    if data[0] == 0x1f && data[1] == 0xf7 && data[2] == 0x43 && data[3] == 0x00 && data[4] == 0x02 {
      remainLen := 61;
      touchData := true;
    }
  }

  // --------------------------------------------------------------- frames

  /** 67 bytes: the touch header, 61 bytes, and the sum of the 66 before it. */
  predicate TouchFrame(f: seq<byte>) {
    |f| == 67 && f[..5] == [0x1f, 0xf7, 0x43, 0x00, 0x02] && f[66] == Total(f[..66]) % 0x100
  }

  /** The acknowledgements that set a source, add a region and delete one. */
  predicate ShortAck(h: seq<byte>) {
    || h == [0x1f, 0xf7, 0xfc, 0xfe, 0x81, 0x02]
    || h == [0x1f, 0xf7, 0xfc, 0xb4, 0x81, 0x02]
    || h == [0x1f, 0xf7, 0xfc, 0xb4, 0x82, 0x02]
  }

  /** The acknowledgement of a query. */
  predicate QueryAck(h: seq<byte>) {
    h == [0x1f, 0xf7, 0xfc, 0xb4, 0x83, 0x0a]
  }

  predicate AckFrame(f: seq<byte>) {
    (|f| == 10 && ShortAck(f[..6])) || (|f| == 14 && QueryAck(f[..6]))
  }

  /** Touch frames of 67 bytes, and acknowledgements of 10 or 14. */
  predicate WellFormed(f: seq<byte>) {
    TouchFrame(f) || AckFrame(f)
  }

  /** Bytes at which a receiver gives up: six of no known header, or a touch frame with a
      wrong last byte. */
  predicate Rejected(h: seq<byte>) {
    || (|h| == 6 && h[..5] != [0x1f, 0xf7, 0x43, 0x00, 0x02] && !ShortAck(h) && !QueryAck(h))
    || (|h| == 67 && h[..5] == [0x1f, 0xf7, 0x43, 0x00, 0x02] && h[66] != Total(h[..66]) % 0x100)
  }

  lemma HeadsOf(h: seq<byte>)
    requires |h| == 6
    ensures HeadOf(h).Touch? <==> h[..5] == [0x1f, 0xf7, 0x43, 0x00, 0x02]
    ensures HeadOf(h) == Ack(4) <==> ShortAck(h)
    ensures HeadOf(h) == Ack(8) <==> QueryAck(h)
    ensures HeadOf(h).Ack? ==> ShortAck(h) || QueryAck(h)
  {
    assert h[..5] == [h[0], h[1], h[2], h[3], h[4]];
    assert h == [h[0], h[1], h[2], h[3], h[4], h[5]];
  }

  // ------------------------------------- one pass of the receive loop, on a stream

  /** What a pass comes to: the mode and position after it, whether a touch frame ending
      at that position was handed on, and whether an error made it start hunting. */
  datatype Pass = Pass(hunting: bool, pos: nat, handed: bool, failed: bool)

  /** The outcome of the byte-wise hunt: the stream ran out, some bytes were dropped, or
      six bytes with a touch header were read. */
  datatype Hunt = Starved | Dropped(pos: nat) | Found

  function HuntAt(s: seq<byte>, pos: nat): Hunt
    requires pos <= |s|
  {
    if |s| < pos + 1 then Starved
    else if s[pos] != HEAD_1 then Dropped(pos + 1)
    else if |s| < pos + 2 then Starved
    else if s[pos + 1] != HEAD_2 then Dropped(pos + 2)
    else if |s| < pos + 6 then Starved
    else if s[pos + 2] == 0x43 && s[pos + 3] == 0x00 && s[pos + 4] == 0x02 then Found
    else Dropped(pos + 6)
  }

  /** The part of a pass that follows six header bytes read at `pos`. */
  function BodyAt(s: seq<byte>, pos: nat): Option<Pass>
    requires pos + 6 <= |s|
  {
    match HeadOf(s[pos..pos + 6])
    case Unknown => Some(Pass(true, pos + 6, false, true))
    case Ack(more) => if |s| < pos + 6 + more then None else Some(Pass(false, pos + 6 + more, false, false))
    case Touch =>
      if |s| < pos + 67 then None
      else if s[pos + 66] == Sum8(s[pos..pos + 66]) then Some(Pass(false, pos + 67, true, false))
      else Some(Pass(true, pos + 67, false, true))
  }

  /** One pass, or None when a read in it has to wait for more bytes. */
  function PassAt(s: seq<byte>, hunting: bool, pos: nat): (p: Option<Pass>)
    requires pos <= |s|
    ensures p.Some? ==> pos < p.value.pos <= |s|
    ensures p.Some? && p.value.handed ==> pos + 67 == p.value.pos && TouchFrame(s[pos..pos + 67])
  {
    WindowOf(s, pos);
    if hunting then
      match HuntAt(s, pos)
      case Starved => None
      case Dropped(next) => Some(Pass(true, next, false, false))
      case Found => BodyAt(s, pos)
    else if |s| < pos + 6 then None
    else BodyAt(s, pos)
  }

  /** When 67 bytes of a stream are a touch frame. */
  lemma WindowOf(s: seq<byte>, pos: nat)
    ensures pos + 67 <= |s| ==>
      (TouchFrame(s[pos..pos + 67])
       <==> HeadOf(s[pos..pos + 6]).Touch? && s[pos + 66] == Sum8(s[pos..pos + 66]))
  {
    if pos + 67 <= |s| {
      var f := s[pos..pos + 67];
      assert f[..6] == s[pos..pos + 6] && f[..66] == s[pos..pos + 66] && f[..6][..5] == f[..5];
      HeadsOf(s[pos..pos + 6]);
      SumIsTotal(s[pos..pos + 66]);
    }
  }

  /** A receiver: its mode and position, where the frames it handed on start, and how
      many errors it met. */
  datatype Rx = Rx(hunting: bool, pos: nat, starts: seq<nat>, errors: nat) {
    function Then(p: Pass): Rx
      requires p.handed ==> p.pos >= 67
    {
      Rx(p.hunting, p.pos, starts + (if p.handed then [p.pos - 67] else []), errors + if p.failed then 1 else 0)
    }

    predicate HandedOn(at: nat) {
      at in starts
    }

    /** The receiver once it has handed on the frame that starts at `at`. */
    function HandsOn(at: nat): Rx {
      Rx(false, at + 67, starts + [at], errors)
    }
  }

  const START := Rx(false, 0, [], 0)

  /** All passes the bytes of `s` allow. */
  function Run(s: seq<byte>, r: Rx): (r': Rx)
    requires r.pos <= |s|
    ensures r'.pos <= |s|
    decreases |s| - r.pos
  {
    match PassAt(s, r.hunting, r.pos)
    case None => r
    case Some(p) => Run(s, r.Then(p))
  }

  lemma FrameFront(f: seq<byte>, s: seq<byte>, at: nat)
    requires at + 67 <= |s| && f == s[at..at + 67]
    ensures f[..66] == s[at..at + 66] && f[66] == s[at + 66]
  {}

  /** The first bytes of a buffer that n bytes of the stream were written to. */
  lemma HeadBytes(was: seq<byte>, now: seq<byte>, s: seq<byte>, p: nat, n: nat)
    requires p + n <= |s| && n <= |was| && now == Splice(was, 0, s[p..p + n])
    ensures now[..n] == s[p..p + n]
    ensures forall k | 0 <= k < n :: now[k] == s[p + k]
  {
    forall k | 0 <= k < n ensures now[k] == s[p + k] {
      StretchIndex(s, p, p + n, k);
      assert now[k] == s[p..p + n][k];
    }
  }

  /** A header in the buffer and the body read behind it. */
  lemma BodyBytes(was: seq<byte>, now: seq<byte>, s: seq<byte>, p: nat, n: nat)
    requires p + 6 + n <= |s| && 6 + n <= |was| && was[..6] == s[p..p + 6] && now == Splice(was, 6, s[p + 6..p + 6 + n])
    ensures now[..6 + n] == s[p..p + 6 + n]
  {
    assert now[..6 + n] == was[..6] + s[p + 6..p + 6 + n];
  }

  // ------------------------------------------------------------ the thread

  class Receiver {
    const port: Port
    const data: array<byte>
    var needFindHead: bool
    var delivered: seq<seq<byte>>  // what work_handler was called with

    ghost predicate Valid()
      reads this, port
    {
      data.Length == MAX_PACKAGE_LEN && port.Valid() && !port.faulty
    }

    constructor (port: Port)
      requires port.Valid() && !port.faulty
      ensures this.port == port && fresh(data)
      ensures Valid() && !needFindHead && delivered == []
    {
      this.port := port;
      data := new byte[MAX_PACKAGE_LEN](_ => 0);
      needFindHead := false;
      delivered := [];
    }

    /** The branch for needFindHead. Yields the source's datalen; `waiting` stands for a
        read that blocks for good because the stream has ended. */
    method FindHead() returns (datalen: int, waiting: bool)
      requires Valid() && needFindHead
      modifies this`needFindHead, port, data
      ensures Valid()
      ensures match old(HuntAt(port.input, port.pos))
        case Starved => waiting
        case Dropped(next) => !waiting && datalen < MAX_HEAD_LEN && needFindHead && port.pos == next
        case Found => (
          && !waiting && datalen == MAX_HEAD_LEN && !needFindHead
          && port.pos == old(port.pos) + 6 && data[..6] == port.input[old(port.pos)..port.pos])
    {
      hide Splice;
      ghost var s, p, d := port.input, port.pos, data[..];
      waiting := true;
      datalen := Treadn(port, data, 0, 1);
      if datalen < 1 { return; }
      HeadBytes(d, data[..], s, p, 1);
      if data[0] == HEAD_1 {
        datalen := Treadn(port, data, 1, 1);
        if datalen < 1 { return; }
        SpliceStream(d, s, p, p + 1, p + 2);
        HeadBytes(d, data[..], s, p, 2);
        if data[1] == HEAD_2 {
          datalen := Treadn(port, data, 2, 4);
          if datalen < 4 { return; }
          SpliceStream(d, s, p, p + 2, p + 6);
          HeadBytes(d, data[..], s, p, 6);
          assert data[..6] == data[..][..6];
          if data[2] == MAX_PACKAGE_LEN && data[3] == 0x00 && data[4] == 0x02 {
            datalen := MAX_HEAD_LEN;
            needFindHead := false;
          }
        }
      }
      waiting := false;
    }

    /** What follows once six header bytes are in the buffer. */
    method TakeBody() returns (waiting: bool)
      requires Valid() && !needFindHead
      requires 6 <= port.pos && data[..6] == port.input[port.pos - 6..port.pos]
      modifies this`needFindHead, this`delivered, port, data
      ensures Valid()
      ensures match BodyAt(port.input, old(port.pos) - 6)
        case None => waiting && delivered == old(delivered)
        case Some(p) => (
          && !waiting && needFindHead == p.hunting && port.pos == p.pos
          && delivered == old(delivered) + if p.handed then [port.input[old(port.pos) - 6..p.pos]] else [])
    {
      ghost var s, p, d := port.input, port.pos - 6, data[..];
      assert d[..6] == data[..6];
      waiting := false;
      var datalen, isTouchData := GetHeadData(data);
      if datalen == 0 {
        needFindHead := true;
        return;
      }
      var got := Treadn(port, data, 6, datalen);
      if got < datalen {
        waiting := true;
        return;
      }
      BodyBytes(d, data[..], s, p, datalen);
      if isTouchData {
        var checkSum := AddUp(data, MAX_PACKAGE_LEN - 1);
        assert data[..] == data[..][..67];
        FrameFront(data[..], s, p);
        assert data[..66] == data[..][..66];
        if checkSum != data[MAX_PACKAGE_LEN - 1] {
          needFindHead := true;
          return;
        }
        assert data[..] == s[p..p + 67];
        delivered := delivered + [data[..]];
      }
    }

    /** One turn of the thread's endless loop. */
    method Turn() returns (waiting: bool)
      requires Valid()
      modifies this`needFindHead, this`delivered, port, data
      ensures Valid()
      ensures match PassAt(port.input, old(needFindHead), old(port.pos))
        case None => waiting && delivered == old(delivered)
        case Some(p) => (
          && !waiting && needFindHead == p.hunting && port.pos == p.pos
          && delivered == old(delivered) + if p.handed then [port.input[p.pos - 67..p.pos]] else [])
    {
      hide HuntAt, BodyAt, HeadOf, TouchFrame, Sum8;
      var datalen;
      if needFindHead {
        datalen, waiting := FindHead();
        if waiting { return; }
      } else {
        ghost var p, d := port.pos, data[..];
        datalen := Treadn(port, data, 0, MAX_HEAD_LEN);
        if datalen < MAX_HEAD_LEN { return true; }
        HeadBytes(d, data[..], port.input, p, 6);
        assert data[..6] == data[..][..6];
      }
      waiting := false;
      if datalen >= MAX_HEAD_LEN {
        waiting := TakeBody();
      }
    }
  }

  ghost predicate StartsFit(s: seq<byte>, starts: seq<nat>) {
    forall i | 0 <= i < |starts| :: starts[i] + 67 <= |s|
  }

  /** The frames that start at the given positions. */
  function Cut(s: seq<byte>, starts: seq<nat>): seq<seq<byte>>
    requires StartsFit(s, starts)
  {
    seq(|starts|, i requires 0 <= i < |starts| => s[starts[i]..starts[i] + 67])
  }

  /** The thread on a whole stream: whatever chunks the reads return, the handler gets
      the frames that Run determines. */
  method Receive(input: seq<byte>) returns (delivered: seq<seq<byte>>)
    ensures Sound(input, Run(input, START))
    ensures delivered == Cut(input, Run(input, START).starts)
  {
    RunSound(input, START);
    var port := new Port(input, false);
    var rx := new Receiver(port);
    ghost var r := START;
    var waiting := false;
    while !waiting
      invariant fresh(rx) && fresh(rx.data) && rx.port == port && rx.Valid() && port.input == input
      invariant Sound(input, r) && Run(input, START) == Run(input, r)
      invariant rx.delivered == Cut(input, r.starts)
      invariant if waiting then Run(input, r) == r else rx.needFindHead == r.hunting && port.pos == r.pos
      decreases |input| - r.pos, !waiting
    {
      waiting := rx.Turn();
      ghost var p := PassAt(input, r.hunting, r.pos);
      if p.Some? {
        PassSound(input, r);
        CutThen(input, r, p.value);
        RunStep(input, r, p.value);
        r := r.Then(p.value);
      }
    }
    delivered := rx.delivered;
  }

  // ------------------------------------------------------------ theorems

  /** Every frame handed on is a contiguous 67-byte window of the stream with the touch
      header and a matching checksum; the windows are disjoint and in stream order. */
  ghost predicate Sound(s: seq<byte>, r: Rx) {
    && r.pos <= |s|
    && (forall i | 0 <= i < |r.starts| :: r.starts[i] + 67 <= r.pos && TouchFrame(s[r.starts[i]..r.starts[i] + 67]))
    && (forall i, j | 0 <= i < j < |r.starts| :: r.starts[i] + 67 <= r.starts[j])
  }

  lemma PassSound(s: seq<byte>, r: Rx)
    requires Sound(s, r)
    ensures var p := PassAt(s, r.hunting, r.pos);
      p.Some? ==> Sound(s, r.Then(p.value)) && (p.value.handed ==> p.value.pos == r.pos + 67)
  {}

  lemma CutThen(s: seq<byte>, r: Rx, p: Pass)
    requires Sound(s, r) && PassAt(s, r.hunting, r.pos) == Some(p)
    ensures Sound(s, r.Then(p))
    ensures Cut(s, r.Then(p).starts) == Cut(s, r.starts) + if p.handed then [s[p.pos - 67..p.pos]] else []
  {
    PassSound(s, r);
  }

  lemma RunStep(s: seq<byte>, r: Rx, p: Pass)
    requires r.pos <= |s| && PassAt(s, r.hunting, r.pos) == Some(p)
    ensures Run(s, r) == Run(s, r.Then(p))
  {}

  lemma {:induction false} RunSound(s: seq<byte>, r: Rx)
    requires Sound(s, r)
    ensures Sound(s, Run(s, r)) && r.starts <= Run(s, r).starts && r.errors <= Run(s, r).errors
    ensures forall i | |r.starts| <= i < |Run(s, r).starts| :: Run(s, r).starts[i] >= r.pos
    decreases |s| - r.pos
  {
    var p := PassAt(s, r.hunting, r.pos);
    if p.Some? {
      PassSound(s, r);
      RunSound(s, r.Then(p.value));
    }
  }

  lemma PassExtends(s: seq<byte>, t: seq<byte>, hunting: bool, pos: nat)
    requires pos <= |s| && PassAt(s, hunting, pos).Some?
    ensures PassAt(s + t, hunting, pos) == PassAt(s, hunting, pos)
  {
    if pos + 6 <= |s| {
      assert (s + t)[pos..pos + 6] == s[pos..pos + 6];
    }
    if pos + 67 <= |s| {
      assert (s + t)[pos..pos + 66] == s[pos..pos + 66];
    }
  }

  /** Reception is incremental: later bytes never change what was done before them. */
  lemma {:induction false} RunExtends(s: seq<byte>, t: seq<byte>, r: Rx)
    requires r.pos <= |s|
    ensures Run(s + t, r) == Run(s + t, Run(s, r))
    decreases |s| - r.pos
  {
    var p := PassAt(s, r.hunting, r.pos);
    if p.Some? {
      PassExtends(s, t, r.hunting, r.pos);
      RunExtends(s, t, r.Then(p.value));
    }
  }

  function Concat(frames: seq<seq<byte>>): seq<byte> {
    if frames == [] then [] else frames[0] + Concat(frames[1..])
  }

  function TouchFramesOf(frames: seq<seq<byte>>): seq<seq<byte>> {
    if frames == [] then []
    else (if TouchFrame(frames[0]) then [frames[0]] else []) + TouchFramesOf(frames[1..])
  }

  /** `part` lies in `s` at position `at`. */
  predicate Holds(s: seq<byte>, at: nat, part: seq<byte>) {
    at + |part| <= |s| && s[at..at + |part|] == part
  }

  lemma HoldsParts(s: seq<byte>, at: nat, a: seq<byte>, b: seq<byte>)
    requires Holds(s, at, a + b)
    ensures Holds(s, at, a) && Holds(s, at + |a|, b)
  {
    assert s[at..at + |a|] == (a + b)[..|a|];
    assert s[at + |a|..at + |a| + |b|] == (a + b)[|a|..];
  }

  lemma HoldsDrop(s: seq<byte>, at: nat, part: seq<byte>, n: nat)
    requires Holds(s, at, part) && n <= |part|
    ensures Holds(s, at + n, part[n..])
  {
    assert s[at + n..at + |part|] == s[at..at + |part|][n..];
  }

  lemma FramePass(s: seq<byte>, at: nat, f: seq<byte>)
    requires WellFormed(f) && Holds(s, at, f)
    ensures PassAt(s, false, at) == Some(Pass(false, at + |f|, TouchFrame(f), false))
  {
    assert s[at..at + 6] == f[..6];
    HeadsOf(f[..6]);
    if TouchFrame(f) {
      WindowOf(s, at);
    }
    hide TouchFrame, HeadOf, Sum8, ShortAck, QueryAck;
  }

  /** Where the touch frames of a stream of frames start. */
  function TouchStarts(at: nat, frames: seq<seq<byte>>): seq<nat>
    decreases |frames|
  {
    if frames == [] then []
    else (if TouchFrame(frames[0]) then [at] else []) + TouchStarts(at + |frames[0]|, frames[1..])
  }

  lemma {:induction false} CutTouchStarts(s: seq<byte>, at: nat, frames: seq<seq<byte>>)
    requires Holds(s, at, Concat(frames))
    ensures StartsFit(s, TouchStarts(at, frames)) && Cut(s, TouchStarts(at, frames)) == TouchFramesOf(frames)
    decreases |frames|
  {
    hide *;
    if frames == [] {
      CutNothing(s, at, frames);
    } else {
      var f, rest := frames[0], frames[1..];
      FramesCons(at, frames);
      HoldsParts(s, at, f, Concat(rest));
      CutTouchStarts(s, at + |f|, rest);
      CutOne(s, at, f);
      CutCons(s, if TouchFrame(f) then [at] else [], TouchStarts(at + |f|, rest));
    }
  }

  lemma FramesCons(at: nat, frames: seq<seq<byte>>)
    requires frames != []
    ensures var f, rest := frames[0], frames[1..];
      && Concat(frames) == f + Concat(rest)
      && TouchFramesOf(frames) == (if TouchFrame(f) then [f] else []) + TouchFramesOf(rest)
      && TouchStarts(at, frames) == (if TouchFrame(f) then [at] else []) + TouchStarts(at + |f|, rest)
  {}

  lemma CutNothing(s: seq<byte>, at: nat, frames: seq<seq<byte>>)
    requires frames == []
    ensures StartsFit(s, TouchStarts(at, frames)) && Cut(s, TouchStarts(at, frames)) == TouchFramesOf(frames)
  {}

  lemma CutOne(s: seq<byte>, at: nat, f: seq<byte>)
    requires Holds(s, at, f)
    ensures var starts := if TouchFrame(f) then [at] else [];
      StartsFit(s, starts) && Cut(s, starts) == if TouchFrame(f) then [f] else []
  {}

  lemma CutCons(s: seq<byte>, a: seq<nat>, b: seq<nat>)
    requires StartsFit(s, a) && StartsFit(s, b)
    ensures StartsFit(s, a + b) && Cut(s, a + b) == Cut(s, a) + Cut(s, b)
  {}

  lemma LosslessStep(s: seq<byte>, f: seq<byte>, rest: seq<byte>, r: Rx)
    requires WellFormed(f) && !r.hunting && Holds(s, r.pos, f + rest)
    ensures Holds(s, r.pos + |f|, rest)
    ensures Run(s, r)
         == Run(s, Rx(false, r.pos + |f|, r.starts + (if TouchFrame(f) then [r.pos] else []), r.errors))
  {
    HoldsParts(s, r.pos, f, rest);
    FramePass(s, r.pos, f);
    RunStep(s, r, Pass(false, r.pos + |f|, TouchFrame(f), false));
  }

  lemma Associate(a: seq<nat>, b: seq<nat>, c: seq<nat>)
    ensures a + b + c == a + (b + c)
  {}

  lemma {:induction false} LosslessFrom(s: seq<byte>, frames: seq<seq<byte>>, r: Rx)
    requires forall i | 0 <= i < |frames| :: WellFormed(frames[i])
    requires !r.hunting && Holds(s, r.pos, Concat(frames))
    ensures Run(s, r) == Run(s, Rx(false, r.pos + |Concat(frames)|, r.starts + TouchStarts(r.pos, frames), r.errors))
    decreases |frames|
  {
    hide TouchFrame, Run, WellFormed;
    if frames == [] {
      assert r.starts + [] == r.starts;
    } else {
      var f, rest := frames[0], frames[1..];
      var first, others := if TouchFrame(f) then [r.pos] else [], TouchStarts(r.pos + |f|, rest);
      LosslessStep(s, f, Concat(rest), r);
      LosslessFrom(s, rest, Rx(false, r.pos + |f|, r.starts + first, r.errors));
      Associate(r.starts, first, others);
    }
  }

  /** Lossless framing: on a stream that starts with well-formed frames, exactly their
      touch frames are handed on, in order, before anything else; if nothing follows them
      there is no error and the receiver is not hunting. */
  lemma Lossless(frames: seq<seq<byte>>, after: seq<byte>)
    requires forall i | 0 <= i < |frames| :: WellFormed(frames[i])
    ensures var s := Concat(frames) + after; var r := Run(s, START);
      && Sound(s, r)
      && TouchFramesOf(frames) <= Cut(s, r.starts)
      && (after == [] ==> Cut(s, r.starts) == TouchFramesOf(frames) && !r.hunting && r.errors == 0 && r.pos == |s|)
  {
    var s := Concat(frames) + after;
    StreamBegins(Concat(frames), after);
    hide *;
    var starts := TouchStarts(0, frames);
    assert START.starts + starts == starts;
    var r' := Rx(false, |Concat(frames)|, starts, 0);
    LosslessFrom(s, frames, START);
    CutTouchStarts(s, 0, frames);
    RunSound(s, START);
    RunPrefix(s, r');
    SoundFits(s, Run(s, START));
    CutPrefix(s, starts, Run(s, START).starts);
    if after == [] {
      NothingLeft(s, r');
    }
  }

  lemma StreamBegins(front: seq<byte>, after: seq<byte>)
    ensures Holds(front + after, 0, front) && Sound(front + after, START)
    ensures START == Rx(false, 0, [], 0) && START.pos == 0
  {}

  lemma SoundFits(s: seq<byte>, r: Rx)
    requires Sound(s, r)
    ensures StartsFit(s, r.starts)
  {}

  lemma CutPrefix(s: seq<byte>, a: seq<nat>, b: seq<nat>)
    requires a <= b && StartsFit(s, b)
    ensures StartsFit(s, a) && Cut(s, a) <= Cut(s, b)
  {}

  lemma NothingLeft(s: seq<byte>, r: Rx)
    requires r.pos == |s|
    ensures Run(s, r) == r
  {}

  lemma {:induction false} RunPrefix(s: seq<byte>, r: Rx)
    requires r.pos <= |s|
    ensures r.starts <= Run(s, r).starts
    decreases |s| - r.pos
  {
    var p := PassAt(s, r.hunting, r.pos);
    if p.Some? {
      RunPrefix(s, r.Then(p.value));
    }
  }

  // ------------------------------------------------------------- recovery

  /** How many bytes 0x1f end the string. */
  function TrailingHeads(g: seq<byte>): nat {
    if g == [] || g[|g| - 1] != HEAD_1 then 0 else 1 + TrailingHeads(g[..|g| - 1])
  }

  /** The string ends in an even number of bytes 0x1f. */
  predicate EndsEven(g: seq<byte>) {
    TrailingHeads(g) % 2 == 0
  }

  /** No 0x1f, 0xf7 pair: nothing in the string looks like the start of a frame. */
  ghost predicate NoHeadPair(g: seq<byte>) {
    forall i, j | 0 <= i < j < |g| && j == i + 1 :: !(g[i] == HEAD_1 && g[j] == HEAD_2)
  }

  lemma {:induction false} TrailingAppend(a: seq<byte>, b: seq<byte>)
    ensures TrailingHeads(b) <= |b|
    ensures TrailingHeads(a + b) == if TrailingHeads(b) == |b| then TrailingHeads(a) + |b| else TrailingHeads(b)
  {
    if b == [] {
      assert a + b == a;
    } else {
      assert (a + b)[..|a + b| - 1] == a + b[..|b| - 1];
      TrailingAppend(a, b[..|b| - 1]);
    }
  }

  lemma TrailingFront(g: seq<byte>)
    requires g != []
    ensures TrailingHeads(g)
         == if g[0] == HEAD_1 && TrailingHeads(g[1..]) == |g| - 1 then |g| else TrailingHeads(g[1..])
    ensures TrailingHeads(g[1..]) <= |g| - 1
  {
    var first := [g[0]];
    assert first[..0] == [];
    assert TrailingHeads(first) == if g[0] == HEAD_1 then 1 else 0;
    TrailingAppend(first, g[1..]);
    assert g == first + g[1..];
  }

  /** How much of non-empty garbage one hunting pass drops. */
  function DropSize(g: seq<byte>): nat
    requires g != []
  {
    if g[0] == HEAD_1 then 2 else 1
  }

  lemma TrailingFrontTwo(g: seq<byte>)
    requires |g| > 1 && g[0] == HEAD_1
    ensures TrailingHeads(g) == TrailingHeads(g[2..]) || TrailingHeads(g) == TrailingHeads(g[2..]) + 2
  {
    var once, twice := TrailingHeads(g[1..]), TrailingHeads(g[2..]);
    TrailingFront(g);
    assert TrailingHeads(g) == if once == |g| - 1 then |g| else once;
    TrailingFront(g[1..]);
    assert g[1..][1..] == g[2..];
    assert once == if g[1] == HEAD_1 && twice == |g| - 2 then |g| - 1 else twice;
    assert twice <= |g| - 2;
  }

  /** Dropping that much keeps the parity of the trailing run. */
  lemma DropKeepsParity(g: seq<byte>)
    requires g != []
    ensures DropSize(g) <= |g| ==> EndsEven(g) == EndsEven(g[DropSize(g)..])
    ensures DropSize(g) > |g| ==> DropSize(g) == |g| + 1 && !EndsEven(g)
    ensures DropSize(g) >= 1
  {
    hide TrailingHeads;
    if g[0] == HEAD_1 && |g| > 1 {
      TrailingFrontTwo(g);
    } else {
      TrailingFront(g);
    }
  }

  lemma DropPass(s: seq<byte>, at: nat, g: seq<byte>)
    requires NoHeadPair(g) && g != [] && Holds(s, at, g) && at + |g| < |s| && s[at + |g|] == HEAD_1
    ensures PassAt(s, true, at) == Some(Pass(true, at + DropSize(g), false, false))
    ensures 1 <= DropSize(g) && at + DropSize(g) <= |s|
  {
    assert s[at] == s[at..at + |g|][0] == g[0];
    assert |g| > 1 ==> s[at + 1] == s[at..at + |g|][1] == g[1];
  }

  /** Where the hunt through garbage ends: at its end, or one byte into what follows. */
  lemma {:induction false} HuntThrough(s: seq<byte>, g: seq<byte>, r: Rx)
    requires NoHeadPair(g) && r.hunting
    requires Holds(s, r.pos, g) && r.pos + |g| < |s| && s[r.pos + |g|] == HEAD_1
    ensures Run(s, r) == Run(s, Rx(true, r.pos + |g| + if EndsEven(g) then 0 else 1, r.starts, r.errors))
    decreases |g|
  {
    hide *;
    if g == [] {
      OneTrailing();
    } else {
      var n := DropSize(g);
      HuntStep(s, g, r);
      DropKeepsParity(g);
      if n <= |g| {
        HoldsDrop(s, r.pos, g, n);
        PairsDrop(g, n);
        HuntThrough(s, g[n..], Rx(true, r.pos + n, r.starts, r.errors));
      }
    }
  }

  lemma HuntStep(s: seq<byte>, g: seq<byte>, r: Rx)
    requires g != [] && NoHeadPair(g) && r.hunting
    requires Holds(s, r.pos, g) && r.pos + |g| < |s| && s[r.pos + |g|] == HEAD_1
    ensures r.pos + DropSize(g) <= |s| && Run(s, r) == Run(s, Rx(true, r.pos + DropSize(g), r.starts, r.errors))
  {
    DropPass(s, r.pos, g);
    ThenDropped(r, DropSize(g));
    hide *;
    RunStep(s, r, Pass(true, r.pos + DropSize(g), false, false));
  }

  lemma ThenDropped(r: Rx, n: nat)
    ensures r.Then(Pass(true, r.pos + n, false, false)) == Rx(true, r.pos + n, r.starts, r.errors)
  {}

  lemma PairsDrop(g: seq<byte>, n: nat)
    requires NoHeadPair(g) && n <= |g|
    ensures NoHeadPair(g[n..])
  {}

  /** Recovery, exactly: wherever a receiver hunts through garbage `g` without a header pair,
      it hands on the well-formed touch frame `f` behind it, as its next frame, if and only if
      the garbage ends in an even number of bytes 0x1f. (The byte after a 0x1f that is not 0xf7
      is dropped along with it, even when it is itself a 0x1f.) */
  lemma Recovery(s: seq<byte>, r: Rx, g: seq<byte>, f: seq<byte>)
    requires Sound(s, r) && r.hunting && NoHeadPair(g) && TouchFrame(f)
    requires Holds(s, r.pos, g) && Holds(s, r.pos + |g|, f)
    ensures var at := r.pos + |g|;
      && at + 67 <= |s| && (EndsEven(g) ==> Run(s, r) == Run(s, r.HandsOn(at)))
      && (Run(s, r).HandedOn(at) <==> EndsEven(g))
  {
    hide *;
    var at := r.pos + |g|;
    NotYetThere(s, r, at);
    FrameStart(s, at, f);
    HuntThrough(s, g, r);
    if EndsEven(g) {
      HuntEnds(s, r, at, f);
    } else {
      StillNotThere(r, at);
      NeverThere(s, Rx(true, at + 1, r.starts, r.errors), at);
    }
  }

  lemma NotYetThere(s: seq<byte>, r: Rx, at: nat)
    requires Sound(s, r) && at >= r.pos
    ensures !r.HandedOn(at)
  {}

  lemma StillNotThere(r: Rx, at: nat)
    requires !r.HandedOn(at)
    ensures !Rx(true, at + 1, r.starts, r.errors).HandedOn(at)
  {}

  lemma FrameStart(s: seq<byte>, at: nat, f: seq<byte>)
    requires TouchFrame(f) && Holds(s, at, f)
    ensures at + 67 <= |s| && s[at] == HEAD_1
  {
    assert s[at] == f[0] == f[..5][0];
  }

  lemma HuntEnds(s: seq<byte>, r: Rx, at: nat, f: seq<byte>)
    requires TouchFrame(f) && Holds(s, at, f)
    ensures at + 67 <= |s| && Run(s, r.HandsOn(at)).HandedOn(at)
    ensures Run(s, Rx(true, at, r.starts, r.errors)) == Run(s, r.HandsOn(at))
  {
    FrameStart(s, at, f);
    FoundPass(s, at, f);
    hide PassAt, Run, TouchFrame, Holds;
    RunStep(s, Rx(true, at, r.starts, r.errors), Pass(false, at + 67, true, false));
    RunPrefix(s, r.HandsOn(at));
    assert Run(s, r.HandsOn(at)).starts[|r.starts|] == at;
  }

  lemma FoundPass(s: seq<byte>, at: nat, f: seq<byte>)
    requires TouchFrame(f) && Holds(s, at, f)
    ensures PassAt(s, true, at) == Some(Pass(false, at + 67, true, false))
  {
    assert forall i | 0 <= i < 5 :: s[at + i] == f[i] == f[..5][i];
    FramePass(s, at, f);
  }

  /** A place the receiver has passed is not handed on later. */
  lemma {:induction false} NeverThere(s: seq<byte>, r: Rx, at: nat)
    requires r.pos <= |s| && at < r.pos && !r.HandedOn(at)
    ensures !Run(s, r).HandedOn(at)
    decreases |s| - r.pos
  {
    var p := PassAt(s, r.hunting, r.pos);
    if p.Some? {
      NeverThere(s, r.Then(p.value), at);
    }
  }

  /** Garbage free of 0x1f, the case a sender can rely on. */
  lemma RecoveryWithoutHeadBytes(s: seq<byte>, r: Rx, g: seq<byte>, f: seq<byte>)
    requires Sound(s, r) && r.hunting && HEAD_1 !in g && TouchFrame(f)
    requires Holds(s, r.pos, g) && Holds(s, r.pos + |g|, f)
    ensures var at := r.pos + |g|;
      at + 67 <= |s| && Run(s, r) == Run(s, r.HandsOn(at))
  {
    assert EndsEven(g);
    Recovery(s, r, g, f);
  }

  /** The same from the start of a stream: six bytes of no known header, or a frame whose last
      byte is not its sum, make the receiver hunt, and the frame behind them and the garbage is
      handed on if and only if the garbage ends in an even number of bytes 0x1f. */
  lemma RecoveryFromStart(h: seq<byte>, g: seq<byte>, f: seq<byte>, after: seq<byte>)
    requires Rejected(h) && NoHeadPair(g) && TouchFrame(f)
    ensures Run(h + g + f + after, START).HandedOn(|h| + |g|) <==> EndsEven(g)
  {
    hide *;
    var s := h + g + f + after;
    StreamParts(h, g, f, after);
    AtStart(s);
    RejectedIsHunted(s, START, h);
    StartThen(s, |h|);
    Recovery(s, Rx(true, |h|, [], 1), g, f);
  }

  lemma AtStart(s: seq<byte>)
    ensures START == Rx(false, 0, [], 0) && Sound(s, START)
  {}

  lemma StreamParts(h: seq<byte>, g: seq<byte>, f: seq<byte>, after: seq<byte>)
    ensures var s := h + g + f + after;
      Holds(s, 0, h) && Holds(s, |h|, g) && Holds(s, |h| + |g|, f)
  {}

  lemma StartThen(s: seq<byte>, n: nat)
    requires n <= |s|
    ensures Sound(s, Rx(true, n, [], 1))
  {}

  lemma RejectedPass(s: seq<byte>, hunting: bool, at: nat, h: seq<byte>)
    requires Rejected(h) && Holds(s, at, h) && (hunting ==> |h| == 67)
    ensures PassAt(s, hunting, at) == Some(Pass(true, at + |h|, false, true))
  {
    var w := s[at..at + 6];
    assert w == h[..6] && h[..6][..5] == h[..5];
    HeadsOf(w);
    if |h| == 67 {
      assert s[at..at + 67] == h;
      assert s[at] == w[0] == h[..5][0] && s[at + 1] == w[1] == h[..5][1] && s[at + 2] == w[2] == h[..5][2];
      assert s[at + 3] == w[3] == h[..5][3] && s[at + 4] == w[4] == h[..5][4];
      WindowOf(s, at);
    } else {
      assert h[..6] == h;
    }
    hide TouchFrame, HeadOf, Sum8, ShortAck, QueryAck;
  }

  /** Six bytes of no known header where one is due, and a frame whose last byte is not its sum
      wherever it is met, also by a hunting receiver, count as one error; what follows is hunted. */
  lemma RejectedIsHunted(s: seq<byte>, r: Rx, h: seq<byte>)
    requires Sound(s, r) && Rejected(h) && Holds(s, r.pos, h) && (r.hunting ==> |h| == 67)
    ensures r.pos + |h| <= |s| && Run(s, r) == Run(s, Rx(true, r.pos + |h|, r.starts, r.errors + 1))
    ensures forall at | r.pos <= at < r.pos + |h| :: !Run(s, r).HandedOn(at)
  {
    var after := Rx(true, r.pos + |h|, r.starts, r.errors + 1);
    RejectedPass(s, r.hunting, r.pos, h);
    ThenFailed(r, |h|);
    RunStep(s, r, Pass(true, r.pos + |h|, false, true));
    hide PassAt, Run, TouchFrame, Sound, Rejected;
    forall at | r.pos <= at < r.pos + |h| ensures !Run(s, r).HandedOn(at) {
      NotYetThere(s, r, at);
      assert !after.HandedOn(at);
      NeverThere(s, after, at);
    }
  }

  lemma ThenFailed(r: Rx, n: nat)
    ensures r.Then(Pass(true, r.pos + n, false, true)) == Rx(true, r.pos + n, r.starts, r.errors + 1)
  {
    assert r.starts + [] == r.starts;
  }

  /** A head pair that no touch header follows costs a hunting receiver six bytes: a frame right
      behind them is handed on next, one that starts within them never. */
  lemma FalseHeadCostsSix(s: seq<byte>, r: Rx, h: seq<byte>)
    requires Sound(s, r) && r.hunting && |h| == 6 && Holds(s, r.pos, h)
    requires h[..2] == [0x1f, 0xf7] && h[2..5] != [0x43, 0x00, 0x02]
    ensures forall at | r.pos <= at < r.pos + 6 :: !Run(s, r).HandedOn(at)
    ensures forall f | TouchFrame(f) && Holds(s, r.pos + 6, f) :: Run(s, r) == Run(s, r.HandsOn(r.pos + 6))
  {
    var after := Rx(true, r.pos + 6, r.starts, r.errors);
    FalseHeadPass(s, r.pos, h);
    ThenDropped(r, 6);
    RunStep(s, r, Pass(true, r.pos + 6, false, false));
    hide PassAt, Run, TouchFrame, Holds, Sound;
    forall at | r.pos <= at < r.pos + 6 ensures !Run(s, r).HandedOn(at) {
      NotYetThere(s, r, at);
      assert !after.HandedOn(at);
      NeverThere(s, after, at);
    }
    forall f | TouchFrame(f) && Holds(s, r.pos + 6, f) ensures Run(s, r) == Run(s, r.HandsOn(r.pos + 6)) {
      HuntEnds(s, r, r.pos + 6, f);
    }
  }

  lemma FalseHeadPass(s: seq<byte>, at: nat, h: seq<byte>)
    requires |h| == 6 && Holds(s, at, h) && h[..2] == [0x1f, 0xf7] && h[2..5] != [0x43, 0x00, 0x02]
    ensures PassAt(s, true, at) == Some(Pass(true, at + 6, false, false)) && at + 6 <= |s|
  {
    assert s[at..at + 6] == h && h[0] == h[..2][0] && h[1] == h[..2][1];
    assert h[2..5] == [h[2], h[3], h[4]];
    var w := s[at..at + 6];
    assert s[at] == w[0] && s[at + 1] == w[1] && s[at + 2] == w[2] && s[at + 3] == w[3] && s[at + 4] == w[4];
  }

  /** Six zero bytes are no header; a good frame right behind them is received, and with one
      stray 0x1f in between it is lost. */
  lemma StrayHeadByteLosesFrame(f: seq<byte>)
    requires TouchFrame(f)
    ensures Run([0, 0, 0, 0, 0, 0] + f, START).HandedOn(6)
    ensures !Run([0, 0, 0, 0, 0, 0] + [0x1f] + f, START).HandedOn(7)
  {
    var h: seq<byte> := [0, 0, 0, 0, 0, 0];
    OneTrailing();
    ZerosAreRejected(h);
    LonelyHeads();
    hide *;
    RecoveryFromStart(h, [], f, []);
    RecoveryFromStart(h, [0x1f], f, []);
    NothingBetween(h, [], f);
    NothingBetween(h, [0x1f], f);
    NothingBehind(h, f);
  }

  lemma ZerosAreRejected(h: seq<byte>)
    requires h == [0, 0, 0, 0, 0, 0]
    ensures Rejected(h)
  {
    assert h[..5][0] == 0 && h[0] == 0;
  }

  lemma LonelyHeads()
    ensures NoHeadPair([]) && NoHeadPair([0x1f])
  {}

  lemma NothingBetween(h: seq<byte>, g: seq<byte>, f: seq<byte>)
    ensures h + g + f + [] == h + g + f
  {}

  lemma NothingBehind(h: seq<byte>, f: seq<byte>)
    ensures h + [] + f == h + f
  {}

  lemma OneTrailing()
    ensures EndsEven([]) && !EndsEven([0x1f])
  {
    assert [HEAD_1][..0] == [];
    assert TrailingHeads([HEAD_1]) == 1;
  }
}
