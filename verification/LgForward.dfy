/** Forwarding LG in-cell touches: each raw packet becomes one checksummed 67-byte frame
    for the serial line, in which masked contacts are reported as lifted. */
module LgForward {
  import opened Bytes
  import opened Geometry
  import opened MaskZones
  import opened ContactMask
  import opened RawTouch
  import UartReceiver
  import UartReport

  const PACKAGE_ID := 0x10
  const FORWARD_DOWN: byte := 0x03
  const FORWARD_UP: byte := 0x02
  const FRAME_LEN := 67
  const BODY_LEN := 61
  const UART_BUF_LEN := 207

  // ---------------------------------------------------------- the frame built

  function RecodeStatus(status: byte, id: byte, masked: bool): byte {
    if id == 0 then status
    else if status == LG_DOWN && !masked then FORWARD_DOWN
    else FORWARD_UP
  }

  function RecodeId(id: byte): byte {
    if id == 0 then 0xff else id
  }

  /** The packet body with its first |marks| records recoded. */
  function Recode(body: seq<byte>, marks: seq<bool>): seq<byte>
    requires |body| == BODY_LEN && |marks| <= MAX_POINTS
  {
    seq(BODY_LEN, k requires 0 <= k < BODY_LEN =>
      if k >= 10 * |marks| then body[k]
      else if k % 10 == 0 then RecodeStatus(body[k], body[k + 1], marks[k / 10])
      else if k % 10 == 1 then RecodeId(body[k])
      else body[k])
  }

  lemma RecodeUntouched(body: seq<byte>, marks: seq<bool>, k: nat)
    requires |body| == BODY_LEN && |marks| <= MAX_POINTS && 10 * |marks| <= k < BODY_LEN
    ensures Recode(body, marks)[k] == body[k]
  {}

  lemma RecodeSnoc(body: seq<byte>, marks: seq<bool>, m: bool)
    requires |body| == BODY_LEN && |marks| < MAX_POINTS
    ensures var at := 10 * |marks|;
      Recode(body, marks + [m])
        == Recode(body, marks)[at := RecodeStatus(body[at], body[at + 1], m)][at + 1 := RecodeId(body[at + 1])]
  {}

  lemma RecodeNone(buf: seq<byte>, body: seq<byte>)
    requires |buf| >= 66 && |body| == BODY_LEN && buf[5..66] == body
    ensures Splice(buf, 5, Recode(body, [])) == buf
  {
    assert Recode(body, []) == body;
  }

  /** Recoding one more record within a larger buffer. */
  lemma RecodeInPlace(buf: seq<byte>, body: seq<byte>, marks: seq<bool>, m: bool)
    requires |buf| >= 66 && |body| == BODY_LEN && |marks| < MAX_POINTS
    ensures var at, b := 10 * |marks|, Splice(buf, 5, Recode(body, marks));
      && b[5 + at] == body[at] && b[6 + at] == body[at + 1]
      && b[5 + at := RecodeStatus(body[at], body[at + 1], m)][6 + at := RecodeId(body[at + 1])]
         == Splice(buf, 5, Recode(body, marks + [m]))
  {
    var at, part := 10 * |marks|, Recode(body, marks);
    RecodeUntouched(body, marks, at);
    RecodeUntouched(body, marks, at + 1);
    RecodeSnoc(body, marks, m);
    hide Recode, Splice, RecodeStatus, RecodeId;
    var status, id := RecodeStatus(body[at], body[at + 1], m), RecodeId(body[at + 1]);
    SpliceUpdate(buf, 5, part, at, status);
    SpliceUpdate(buf, 5, part, at + 1, id);
    SpliceUpdate(buf, 5, part[at := status], at + 1, id);
  }

  const HEADER: seq<byte> := [0x1F, 0xF7, 0x43, 0x00, 0x02]

  function Frame(body: seq<byte>, marks: seq<bool>): seq<byte>
    requires |body| == BODY_LEN && |marks| == MAX_POINTS
  {
    HEADER + Recode(body, marks) + [Sum8(HEADER + Recode(body, marks))]
  }

  function Body(raw: seq<byte>): seq<byte>
    requires |raw| == RAW_LEN
  {
    raw[1..62]
  }

  lemma BodyAt(raw: seq<byte>, k: nat)
    requires |raw| == RAW_LEN && k < MAX_POINTS
    ensures Body(raw)[10 * k] == raw[10 * k + 1] && Body(raw)[10 * k + 1] == raw[10 * k + 2]
  {}

  // ------------------------------------------------------------ state and step

  /** pointsToSource, and the frames sent so far. */
  datatype Lg = Lg(tab: seq<Contact>, sent: seq<seq<byte>>)

  predicate IsLg(raw: seq<byte>)
    requires |raw| == RAW_LEN
  {
    raw[0] == PACKAGE_ID
  }

  /** One raw packet: without the LG package id it is ignored altogether. */
  ghost function LgStep(st: Lg, zones: multiset<Rect>, raw: seq<byte>): (st': Lg)
    requires |st.tab| == MAX_CONTACTS && RawIdsFit(raw)
    ensures |st'.tab| == MAX_CONTACTS
  {
    if !IsLg(raw) then st
    else
      TouchesFit(zones, raw, MAX_POINTS);
      var ts := Touches(zones, raw, MAX_POINTS);
      Lg(TableAfter(LgInCell, st.tab, ts), st.sent + [Frame(Body(raw), TableMarks(LgInCell, st.tab, ts))])
  }

  class LgForwarder {
    const pointsToSource: array<Contact>
    const zones: ZoneTable
    const uartBuf: array<byte>
    var sent: seq<seq<byte>>  // what sendTouchData was called with

    ghost function State(): Lg
      reads this, pointsToSource
    {
      Lg(pointsToSource[..], sent)
    }

    ghost predicate Valid() {
      pointsToSource.Length == MAX_CONTACTS && uartBuf.Length == UART_BUF_LEN && zones.Valid()
    }

    constructor (zones: ZoneTable)
      requires zones.Valid()
      ensures Valid() && this.zones == zones && sent == [] && FreshTable(pointsToSource[..])
      ensures pointsToSource.Length == 42
      ensures fresh(pointsToSource) && fresh(uartBuf)
    {
      this.zones := zones;
      pointsToSource := new Contact[MAX_CONTACTS](_ => FRESH);
      uartBuf := new byte[UART_BUF_LEN](_ => 0);
      sent := [];
    }

    /** The body of the loop over the six records. */
    method RecodeRecord(rawDataBuf: seq<byte>, k: nat)
      requires Valid() && RawIdsFit(rawDataBuf) && k < MAX_POINTS
      requires uartBuf[5 + 10 * k] == rawDataBuf[10 * k + 1] && uartBuf[6 + 10 * k] == rawDataBuf[10 * k + 2]
      modifies uartBuf, pointsToSource
      ensures var t, id := TouchAt(zones.Zones(), rawDataBuf, k), rawDataBuf[10 * k + 2];
        var (tab, masked) := StepTable(LgInCell, old(pointsToSource[..]), t);
        && pointsToSource[..] == tab
        && uartBuf[..]
           == old(uartBuf[..])[5 + 10 * k := RecodeStatus(rawDataBuf[10 * k + 1], id, masked)][6 + 10 * k := RecodeId(id)]
    {
      hide Masked, X, Y, InForce;
      var p := 5 + 10 * k;
      var ptId := uartBuf[p + 1];
      var ptStatus := uartBuf[p] % 16;
      if ptId > 0 {
        if ptStatus == LG_DOWN {
          if pointsToSource[ptId].pre != LG_DOWN {
            var inside := IsPointDownInsideOsdRegion(zones, k, rawDataBuf);
            if inside {
              pointsToSource[ptId] := pointsToSource[ptId].(disabled := true);
              uartBuf[p] := LG_UP;
            }
          } else {
            if pointsToSource[ptId].disabled {
              uartBuf[p] := LG_UP;
            }
          }
        } else {
          if pointsToSource[ptId].disabled {
            if ptStatus == LG_UP {
              uartBuf[p] := LG_UP;
            }
            pointsToSource[ptId] := pointsToSource[ptId].(disabled := false);
          }
        }
        if uartBuf[p] == LG_DOWN {
          uartBuf[p] := 0x03;
        } else {
          uartBuf[p] := 0x02;
        }
        pointsToSource[ptId] := pointsToSource[ptId].(pre := ptStatus);
      } else {
        uartBuf[p + 1] := 0xff;
      }
    }

    /** After n turns of the loop: the contact memory and the frame body. */
    ghost predicate Recoded(raw: seq<byte>, n: nat, tab0: seq<Contact>, buf0: seq<byte>)
      requires Valid() && RawIdsFit(raw) && n <= MAX_POINTS && |tab0| == MAX_CONTACTS && |buf0| == UART_BUF_LEN
      reads pointsToSource, uartBuf, zones.zone
    {
      TouchesFit(zones.Zones(), raw, n);
      var ts := Touches(zones.Zones(), raw, n);
      && pointsToSource[..] == TableAfter(LgInCell, tab0, ts)
      && uartBuf[..] == Splice(buf0, 5, Recode(Body(raw), TableMarks(LgInCell, tab0, ts)))
    }

    method RecodeNext(rawDataBuf: seq<byte>, k: nat, ghost tab0: seq<Contact>, ghost buf0: seq<byte>)
      requires Valid() && RawIdsFit(rawDataBuf) && k < MAX_POINTS && |tab0| == MAX_CONTACTS && |buf0| == UART_BUF_LEN
      requires Recoded(rawDataBuf, k, tab0, buf0)
      modifies uartBuf, pointsToSource
      ensures Recoded(rawDataBuf, k + 1, tab0, buf0)
    {
      RecodeStep(zones.Zones(), rawDataBuf, k, tab0, buf0, pointsToSource[..], uartBuf[..]);
      hide Recode, Splice, StepTable, TouchAt, Touches, TableAfter, TableMarks, RecodeStatus, RecodeId, IdsFit, Body,
        RawIdsFit, InForce;
      RecodeRecord(rawDataBuf, k);
    }

    method RecodeAll(rawDataBuf: seq<byte>)
      requires Valid() && RawIdsFit(rawDataBuf) && uartBuf[5..66] == Body(rawDataBuf)
      modifies uartBuf, pointsToSource
      ensures Recoded(rawDataBuf, MAX_POINTS, old(pointsToSource[..]), old(uartBuf[..]))
    {
      ghost var buf0, tab0 := uartBuf[..], pointsToSource[..];
      RecodeNone(buf0, Body(rawDataBuf));
      TableOverNone(LgInCell, tab0, zones.Zones(), rawDataBuf);
      for k := 0 to MAX_POINTS
        invariant Recoded(rawDataBuf, k, tab0, buf0)
      {
        hide Recoded;
        RecodeNext(rawDataBuf, k, tab0, buf0);
      }
    }

    /** touchDateProcess_LgInCellMultiPackage. */
    method Process(rawDataBuf: seq<byte>)
      requires Valid() && RawIdsFit(rawDataBuf)
      modifies this`sent, uartBuf, pointsToSource
      ensures State() == LgStep(old(State()), zones.Zones(), rawDataBuf)
      ensures rawDataBuf[0] != 0x10 ==> State() == old(State())
      ensures rawDataBuf[0] == 0x10 ==>
        && |sent| == |old(sent)| + 1 && sent[..|old(sent)|] == old(sent)
        && UartReceiver.TouchFrame(sent[|old(sent)|]) && sent[|old(sent)|][65] == rawDataBuf[61]
    {
      if rawDataBuf[0] != 0x10 {
        return;
      }
      LgStepSends(State(), zones.Zones(), rawDataBuf);
      TouchesFit(zones.Zones(), rawDataBuf, MAX_POINTS);
      hide Recode, TableMarks, TableAfter, Touches, IdsFit, Sum8, Splice, UartReceiver.TouchFrame;
      ghost var buf0, body := uartBuf[..], Body(rawDataBuf);
      WriteHeader();
      CopyBytes(uartBuf, 5, rawDataBuf[1..62]);
      BufferParts(buf0, body, body);
      RecodeAll(rawDataBuf);
      ghost var ts := Touches(zones.Zones(), rawDataBuf, MAX_POINTS);
      ghost var recoded := Recode(body, TableMarks(LgInCell, old(pointsToSource[..]), ts));
      BufferParts(buf0, body, recoded);
      var sum := AddUp(uartBuf, 66);
      ghost var front := uartBuf[..][..66];
      uartBuf[66] := sum;
      assert uartBuf[..67] == front + [sum];
      sent := sent + [uartBuf[..67]];
    }

    /** One thing that happens to the service. */
    method Happen(act: Act)
      requires Valid() && (act.Arrival? ==> RawIdsFit(act.raw))
      modifies this`sent, uartBuf, pointsToSource, zones.zone
      ensures match act
        case Zoning(change) => State() == old(State()) && zones.Zones() == Apply(old(zones.Zones()), change)
        case Arrival(raw) => (
          State() == LgStep(old(State()), zones.Zones(), raw) && zones.Zones() == old(zones.Zones()))
    {
      match act {
        case Zoning(change) =>
          zones.Make(change);
        case Arrival(raw) =>
          Process(raw);
      }
    }

    method WriteHeader()
      requires Valid()
      modifies uartBuf
      ensures uartBuf[..] == Splice(old(uartBuf[..]), 0, HEADER)
    {
      uartBuf[0] := 0x1F;
      uartBuf[1] := 0xF7;
      uartBuf[2] := 0x43;
      uartBuf[3] := 0x00;
      uartBuf[4] := 0x02;
    }
  }

  /** What recoding record k makes of the contact memory and the frame body. */
  lemma RecodeStep(z: multiset<Rect>, raw: seq<byte>, k: nat, tab0: seq<Contact>, buf0: seq<byte>,
                   tab: seq<Contact>, buf: seq<byte>)
    requires RawIdsFit(raw) && k < MAX_POINTS && |tab0| == MAX_CONTACTS && |buf0| == UART_BUF_LEN
    requires IdsFit(Touches(z, raw, k), MAX_CONTACTS) && tab == TableAfter(LgInCell, tab0, Touches(z, raw, k))
    requires buf == Splice(buf0, 5, Recode(Body(raw), TableMarks(LgInCell, tab0, Touches(z, raw, k))))
    ensures |buf| == UART_BUF_LEN && buf[5 + 10 * k] == raw[10 * k + 1] && buf[6 + 10 * k] == raw[10 * k + 2]
    ensures IdsFit(Touches(z, raw, k + 1), MAX_CONTACTS) && TouchAt(z, raw, k).id < |tab|
    ensures var (tab', m) := StepTable(LgInCell, tab, TouchAt(z, raw, k));
      && tab' == TableAfter(LgInCell, tab0, Touches(z, raw, k + 1))
      && buf[5 + 10 * k := RecodeStatus(raw[10 * k + 1], raw[10 * k + 2], m)][6 + 10 * k := RecodeId(raw[10 * k + 2])]
         == Splice(buf0, 5, Recode(Body(raw), TableMarks(LgInCell, tab0, Touches(z, raw, k + 1))))
  {
    TableOverRecord(LgInCell, tab0, z, raw, k);
    BodyAt(raw, k);
    hide Body, RecodeStatus, RecodeId, StepTable, TouchAt, Touches, TableAfter, TableMarks, IdsFit, RawIdsFit;
    RecodeInPlace(buf0, Body(raw), TableMarks(LgInCell, tab0, Touches(z, raw, k)),
                  StepTable(LgInCell, tab, TouchAt(z, raw, k)).1);
    hide Recode, Splice;
  }

  /** The buffer with the header, a body, and the body written over. */
  lemma BufferParts(buf: seq<byte>, body: seq<byte>, over: seq<byte>)
    requires |buf| == UART_BUF_LEN && |body| == |over| == BODY_LEN
    ensures var b := Splice(Splice(buf, 0, HEADER), 5, body);
      b[5..66] == body && Splice(b, 5, over)[..66] == HEADER + over
  {}

  /** An LG packet sends one frame more, which a receiver accepts, with the packet's count. */
  lemma LgStepSends(st: Lg, zones: multiset<Rect>, raw: seq<byte>)
    requires |st.tab| == MAX_CONTACTS && RawIdsFit(raw) && raw[0] == 0x10
    ensures var sent := LgStep(st, zones, raw).sent;
      && |sent| == |st.sent| + 1 && sent[..|st.sent|] == st.sent
      && UartReceiver.TouchFrame(sent[|st.sent|]) && sent[|st.sent|][65] == raw[61]
  {
    TouchesFit(zones, raw, MAX_POINTS);
    var marks := TableMarks(LgInCell, st.tab, Touches(zones, raw, MAX_POINTS));
    FrameIsWellFormed(Body(raw), marks);
    FrameByte(raw, marks, 0, 0);
    hide Frame, TableMarks, TableAfter, Touches, RawIdsFit, UartReceiver.TouchFrame;
  }

  // ----------------------------------------------------- encoder meets decoder

  lemma FrameIsWellFormed(body: seq<byte>, marks: seq<bool>)
    requires |body| == BODY_LEN && |marks| == MAX_POINTS
    ensures UartReceiver.TouchFrame(Frame(body, marks))
  {
    var f := Frame(body, marks);
    hide Recode, Sum8, Total;
    assert f[..66] == HEADER + Recode(body, marks);
    SumIsTotal(f[..66]);
    assert f[0] == HEADER[0] && f[1] == HEADER[1] && f[2] == HEADER[2] && f[3] == HEADER[3] && f[4] == HEADER[4];
  }

  /** Every frame built passes the receiver's header and checksum tests, and decoding it
      gives back the raw ids (0 as 0xff), positions and sizes, the count, and a status of
      3 for a contact forwarded as down, 2 for any other. */
  lemma EncoderMeetsDecoder(raw: seq<byte>, marks: seq<bool>, i: nat)
    requires |raw| == RAW_LEN && |marks| == MAX_POINTS && i < MAX_POINTS
    ensures var f := Frame(Body(raw), marks); var status, id := raw[10 * i + 1], raw[10 * i + 2];
      && UartReceiver.TouchFrame(f) && f[65] == raw[61]
      && UartReport.Decode(f, i)
         == UartReport.TPoint(if id == 0 then 0xff else id,
                              if id == 0 then status else if status == 0x01 && !marks[i] then 3 else 2,
                              raw[10 * i + 3] as int + 256 * raw[10 * i + 4] as int,
                              raw[10 * i + 5] as int + 256 * raw[10 * i + 6] as int,
                              raw[10 * i + 7] as int + 256 * raw[10 * i + 8] as int,
                              raw[10 * i + 9] as int + 256 * raw[10 * i + 10] as int)
  {
    FrameIsWellFormed(Body(raw), marks);
    RecodedFields(raw, marks, i);
    FrameRecord(raw, marks, i);
    hide Frame, Body, UartReceiver.TouchFrame, UartReport.Decode, Recoding;
    DecodeRecord(Frame(Body(raw), marks), i);
  }

  /** The ten bytes record i leaves as. */
  function Recoding(raw: seq<byte>, marks: seq<bool>, i: nat): (r: seq<byte>)
    requires |raw| == RAW_LEN && |marks| == MAX_POINTS && i < MAX_POINTS
    ensures |r| == 10
  {
    [RecodeStatus(raw[10 * i + 1], raw[10 * i + 2], marks[i]), RecodeId(raw[10 * i + 2])] + raw[10 * i + 3..10 * i + 11]
  }

  lemma RecodedFields(raw: seq<byte>, marks: seq<bool>, i: nat)
    requires |raw| == RAW_LEN && |marks| == MAX_POINTS && i < MAX_POINTS
    ensures var r, status, id := Recoding(raw, marks, i), raw[10 * i + 1], raw[10 * i + 2];
      && r[0] == (if id == 0 then status else if status == LG_DOWN && !marks[i] then 3 else 2)
      && r[1] == (if id == 0 then 0xff else id)
      && forall j | 2 <= j < 10 :: r[j] == raw[10 * i + 1 + j]
  {}

  lemma FrameRecord(raw: seq<byte>, marks: seq<bool>, i: nat)
    requires |raw| == RAW_LEN && |marks| == MAX_POINTS && i < MAX_POINTS
    ensures var f := Frame(Body(raw), marks);
      && |f| == FRAME_LEN && f[65] == raw[61]
      && f[10 * i + 5..10 * i + 15] == Recoding(raw, marks, i)
  {
    hide Frame;
    FrameByte(raw, marks, i, 0);
    var f, r := Frame(Body(raw), marks), Recoding(raw, marks, i);
    forall j | 0 <= j < 10 ensures f[10 * i + 5..10 * i + 15][j] == r[j] {
      FrameByte(raw, marks, i, j);
    }
  }

  lemma DecodeRecord(f: seq<byte>, i: nat)
    requires |f| == FRAME_LEN && i < MAX_POINTS
    ensures var r := f[10 * i + 5..10 * i + 15];
      UartReport.Decode(f, i)
        == UartReport.TPoint(r[1], r[0], Word(r[2], r[3]), Word(r[4], r[5]), Word(r[6], r[7]), Word(r[8], r[9]))
  {}

  /** Byte j of record i of a frame, and the frame's count. */
  lemma FrameByte(raw: seq<byte>, marks: seq<bool>, i: nat, j: nat)
    requires |raw| == RAW_LEN && |marks| == MAX_POINTS && i < MAX_POINTS && j < 10
    ensures var f, at := Frame(Body(raw), marks), 10 * i + 1;
      && |f| == FRAME_LEN && f[65] == raw[61]
      && f[10 * i + 5 + j] == if j == 0 then RecodeStatus(raw[at], raw[at + 1], marks[i])
                              else if j == 1 then RecodeId(raw[at + 1])
                              else raw[at + j]
  {
    assert (10 * i + j) % 10 == j && (10 * i + j) / 10 == i;
    assert Frame(Body(raw), marks)[5 + (10 * i + j)] == Recode(Body(raw), marks)[10 * i + j];
    assert Frame(Body(raw), marks)[5 + 60] == Recode(Body(raw), marks)[60];
  }

  // -------------------------------------------------------------- whole runs

  /** The forwarder after a run of raw packets, of whatever package id. */
  ghost function LgRun(st: Lg, inputs: seq<Input>): (st': Lg)
    requires |st.tab| == MAX_CONTACTS && InputsFit(inputs)
    ensures |st'.tab| == MAX_CONTACTS
  {
    if inputs == [] then st
    else
      var last := inputs[|inputs| - 1];
      LgStep(LgRun(st, inputs[..|inputs| - 1]), last.zones, last.raw)
  }

  /** The LG packets of a run. */
  ghost function LgOf(inputs: seq<Input>): (lg: seq<Input>)
    requires InputsFit(inputs)
    ensures InputsFit(lg) && |lg| <= |inputs| && forall n | 0 <= n < |lg| :: lg[n] in inputs && IsLg(lg[n].raw)
  {
    if inputs == [] then []
    else
      var last := inputs[|inputs| - 1];
      LgOf(inputs[..|inputs| - 1]) + if IsLg(last.raw) then [last] else []
  }

  /** The frames a run of LG packets puts on the wire. */
  ghost function Frames(tab: seq<Contact>, inputs: seq<Input>): (fs: seq<seq<byte>>)
    requires InputsFit(inputs) && |tab| == MAX_CONTACTS
    ensures |fs| == |inputs| && forall n | 0 <= n < |fs| :: |fs[n]| == FRAME_LEN
  {
    if inputs == [] then []
    else
      var front, last := inputs[..|inputs| - 1], inputs[|inputs| - 1];
      var ts := Touches(last.zones, last.raw, MAX_POINTS);
      assert IdsFit(ts, MAX_CONTACTS);
      Frames(tab, front)
        + [Frame(Body(last.raw), TableMarks(LgInCell, TableAfter(LgInCell, tab, AllTouches(front)), ts))]
  }

  lemma FramesSnoc(tab: seq<Contact>, front: seq<Input>, last: Input)
    requires InputsFit(front) && RawIdsFit(last.raw) && |tab| == MAX_CONTACTS
    ensures InputsFit(front + [last])
    ensures var ts := Touches(last.zones, last.raw, MAX_POINTS);
      var mid := TableAfter(LgInCell, tab, AllTouches(front));
      && IdsFit(ts, MAX_CONTACTS) && |mid| == MAX_CONTACTS
      && Frames(tab, front + [last]) == Frames(tab, front) + [Frame(Body(last.raw), TableMarks(LgInCell, mid, ts))]
      && TableAfter(LgInCell, tab, AllTouches(front + [last])) == TableAfter(LgInCell, mid, ts)
  {
    hide Frame, Touches;
    var ts := Touches(last.zones, last.raw, MAX_POINTS);
    TouchesFit(last.zones, last.raw, MAX_POINTS);
    assert (front + [last])[..|front|] == front;
    assert AllTouches(front + [last]) == AllTouches(front) + ts;
    TableAppend(LgInCell, tab, AllTouches(front), ts);
  }

  /** A run sends the frames of its LG packets, and its memory runs through their records. */
  lemma {:induction false} RunSendsFrames(st: Lg, inputs: seq<Input>)
    requires |st.tab| == MAX_CONTACTS && InputsFit(inputs)
    ensures LgRun(st, inputs).sent == st.sent + Frames(st.tab, LgOf(inputs))
    ensures LgRun(st, inputs).tab == TableAfter(LgInCell, st.tab, AllTouches(LgOf(inputs)))
  {
    hide Frames, AllTouches, Touches, Frame, TableAfter, TableMarks;
    if inputs == [] {
      NoFrames(st.tab);
      assert st.sent + [] == st.sent;
    } else {
      var front, last := inputs[..|inputs| - 1], inputs[|inputs| - 1];
      RunSendsFrames(st, front);
      if IsLg(last.raw) {
        FramesSnoc(st.tab, LgOf(front), last);
      } else {
        assert LgOf(front) + [] == LgOf(front);
      }
    }
  }

  lemma NoFrames(tab: seq<Contact>)
    requires |tab| == MAX_CONTACTS
    ensures Frames(tab, []) == [] && AllTouches([]) == [] && TableAfter(LgInCell, tab, []) == tab
  {}

  ghost function FreshLg(): Lg {
    Lg(seq(MAX_CONTACTS, _ => FRESH), [])
  }

  /** The forwarder and its zone table through any history: what is sent is what the run
      of its packets sends. */
  method ForwardAll(acts: seq<Act>) returns (sent: seq<seq<byte>>)
    requires ActsFit(acts)
    ensures sent == LgRun(FreshLg(), InputsIn(acts)).sent
  {
    var zones := new ZoneTable();
    var forwarder := new LgForwarder(zones);
    NoHistory(forwarder.State());
    FreshLgSize();
    hide LgStep, LgRun, InputsIn, ChangesIn, ApplyAll, Apply, ActsFit, FreshLg, InForce, FreshTable;
    for i := 0 to |acts|
      invariant fresh(zones.zone) && fresh(forwarder) && fresh(forwarder.pointsToSource) && fresh(forwarder.uartBuf)
      invariant forwarder.Valid() && forwarder.zones == zones
      invariant zones.Zones() == ApplyAll(ChangesIn(acts[..i]))
      invariant ActsFit(acts[..i]) && forwarder.State() == LgRun(FreshLg(), InputsIn(acts[..i]))
    {
      HistorySnoc(acts, i);
      if acts[i].Arrival? {
        LgRunSnoc(FreshLg(), InputsIn(acts[..i]), Input(ApplyAll(ChangesIn(acts[..i])), acts[i].raw));
      }
      forwarder.Happen(acts[i]);
    }
    assert acts[..|acts|] == acts;
    sent := forwarder.sent;
  }

  lemma FreshLgSize()
    ensures |FreshLg().tab| == MAX_CONTACTS
  {}

  lemma NoHistory(st: Lg)
    requires FreshTable(st.tab) && st.sent == []
    ensures st == FreshLg() == LgRun(FreshLg(), InputsIn([])) && ApplyAll(ChangesIn([])) == multiset{}
  {}

  lemma LgRunSnoc(st: Lg, inputs: seq<Input>, next: Input)
    requires |st.tab| == MAX_CONTACTS && InputsFit(inputs) && RawIdsFit(next.raw)
    ensures InputsFit(inputs + [next])
    ensures LgRun(st, inputs + [next]) == LgStep(LgRun(st, inputs), next.zones, next.raw)
  {
    assert (inputs + [next])[..|inputs|] == inputs;
  }

  lemma {:induction false} FramesAt(tab: seq<Contact>, inputs: seq<Input>, n: nat)
    requires InputsFit(inputs) && |tab| == MAX_CONTACTS && n < |inputs|
    ensures var all := AllTouches(inputs); var marks := TableMarks(LgInCell, tab, all);
      && Frames(tab, inputs)[n] == Frame(Body(inputs[n].raw), marks[6 * n..6 * n + 6])
      && all[6 * n..6 * n + 6] == Touches(inputs[n].zones, inputs[n].raw, MAX_POINTS)
  {
    hide Frame, Touches;
    var front, last := inputs[..|inputs| - 1], inputs[|inputs| - 1];
    var before, ts := AllTouches(front), Touches(last.zones, last.raw, MAX_POINTS);
    assert ts == AllTouches(inputs)[|before|..];
    assert IdsFit(ts, MAX_CONTACTS);
    TableAppend(LgInCell, tab, before, ts);
    SixAt(before, ts, n);
    SixAt(TableMarks(LgInCell, tab, before), TableMarks(LgInCell, TableAfter(LgInCell, tab, before), ts), n);
    if n < |front| {
      FramesAt(tab, front, n);
    }
  }

  /** LG strokes on the wire, over any run of packets and zones from a cleared table: the
      n-th frame sent is that of the n-th LG packet, and a record of a contact leaves in it
      as down if and only if its raw status byte says down and the first point of its stroke
      lay in no zone in force when it came down. */
  lemma StatusOnTheWire(st: Lg, inputs: seq<Input>, n: nat, i: nat)
    requires FreshTable(st.tab) && st.sent == [] && InputsFit(inputs) && n < |LgOf(inputs)| && i < 6
    requires LgOf(inputs)[n].raw[10 * i + 2] > 0
    ensures |LgRun(st, inputs).sent| == |LgOf(inputs)| && |LgRun(st, inputs).sent[n]| == 67
    ensures var zones, raw := LgOf(inputs)[n].zones, LgOf(inputs)[n].raw;
      var id, status, all := raw[10 * i + 2], raw[10 * i + 1], AllTouches(LgOf(inputs));
      var own, j := Of(id, all), |Of(id, all[..6 * n + i])|;
      && j < |own| && own[j] == TouchAt(zones, raw, i)
      && UartReport.Decode(LgRun(st, inputs).sent[n], i).status
         == if status == 0x01 && !StrokeMasked(own, j) then 3 else 2
  {
    RunSendsFrames(st, inputs);
    hide *;
    assert [] + Frames(st.tab, LgOf(inputs)) == Frames(st.tab, LgOf(inputs));
    FreshSize(st.tab);
    StatusInFrame(st.tab, LgOf(inputs), n, i);
  }

  lemma FreshSize(tab: seq<Contact>)
    requires FreshTable(tab)
    ensures |tab| == MAX_CONTACTS
  {}

  lemma StatusInFrame(tab: seq<Contact>, inputs: seq<Input>, n: nat, i: nat)
    requires FreshTable(tab) && InputsFit(inputs) && n < |inputs| && i < 6 && |inputs[n].raw| == 64
    requires inputs[n].raw[10 * i + 2] > 0
    ensures var id, status, all := inputs[n].raw[10 * i + 2], inputs[n].raw[10 * i + 1], AllTouches(inputs);
      var own, j := Of(id, all), |Of(id, all[..6 * n + i])|;
      && j < |own| && own[j] == TouchAt(inputs[n].zones, inputs[n].raw, i)
      && UartReport.Decode(Frames(tab, inputs)[n], i).status
         == if status == 0x01 && !StrokeMasked(own, j) then 3 else 2
  {
    hide *;
    FreshSize(tab);
    StatusByMark(tab, inputs, n, i);
    MarkByStroke(tab, AllTouches(inputs), 6 * n + i);
  }

  /** The status a record is sent with, by its mark. */
  lemma StatusByMark(tab: seq<Contact>, inputs: seq<Input>, n: nat, i: nat)
    requires |tab| == MAX_CONTACTS && InputsFit(inputs) && n < |inputs| && i < 6 && |inputs[n].raw| == 64
    requires inputs[n].raw[10 * i + 2] > 0
    ensures var all, status := AllTouches(inputs), inputs[n].raw[10 * i + 1];
      var marks := TableMarks(LgInCell, tab, all);
      && IdsFit(all, MAX_CONTACTS) && 6 * n + i < |all| == |marks|
      && all[6 * n + i] == TouchAt(inputs[n].zones, inputs[n].raw, i)
      && all[6 * n + i].id == inputs[n].raw[10 * i + 2] && all[6 * n + i].status == status % 16
      && |Frames(tab, inputs)| == |inputs| && |Frames(tab, inputs)[n]| == FRAME_LEN
      && UartReport.Decode(Frames(tab, inputs)[n], i).status
         == if status == 0x01 && !marks[6 * n + i] then 3 else 2
  {
    hide TableMarks, TableAfter, AllTouches, Frame, Frames, Touches, Masked;
    var all := AllTouches(inputs);
    var marks := TableMarks(LgInCell, tab, all);
    FramesAt(tab, inputs, n);
    SixIndex(all, n, i);
    SixIndex(marks, n, i);
    TouchesAt(inputs[n].zones, inputs[n].raw, i);
    EncoderMeetsDecoder(inputs[n].raw, marks[6 * n..6 * n + 6], i);
  }

  /** The mark on a down record, by the stroke it belongs to among its contact's own records. */
  lemma MarkByStroke(tab: seq<Contact>, all: seq<Touch>, r: nat)
    requires FreshTable(tab) && |tab| == MAX_CONTACTS && IdsFit(all, MAX_CONTACTS) && r < |all| && all[r].id > 0
    ensures var own, j := Of(all[r].id, all), |Of(all[r].id, all[..r])|;
      && j < |own| && own[j] == all[r]
      && (all[r].status == 0x01 ==> TableMarks(LgInCell, tab, all)[r] == StrokeMasked(own, j))
  {
    hide TableMarks, TableAfter, Of, MarksOf, StrokeMasked;
    OwnPosition(all, TableMarks(LgInCell, tab, all), r);
    if all[r].status == 0x01 {
      LgStrokesAreAllOrNothing(tab, all, all[r].id, |Of(all[r].id, all[..r])|);
    }
  }

  /** Begins, on the bytes of the packets. */
  ghost predicate StrokeBegin(lg: seq<Input>, b: nat, r: nat)
    requires (forall n | 0 <= n < |lg| :: |lg[n].raw| == 64) && r < 6 * |lg|
  {
    && b <= r && IdAt(lg, b) == IdAt(lg, r)
    && (forall q | b <= q <= r && IdAt(lg, q) == IdAt(lg, r) :: StatusAt(lg, q) == 0x01)
    && ((forall q | 0 <= q < b :: IdAt(lg, q) != IdAt(lg, r))
        || exists p | 0 <= p < b :: IdAt(lg, p) == IdAt(lg, r) && StatusAt(lg, p) != 0x01
                                    && forall q | p < q < b :: IdAt(lg, q) != IdAt(lg, r))
  }

  /** Contact id and low nibble of the status byte of record q of a run. */
  function IdAt(lg: seq<Input>, q: nat): byte
    requires (forall n | 0 <= n < |lg| :: |lg[n].raw| == 64) && q < 6 * |lg|
  {
    lg[q / 6].raw[10 * (q % 6) + 2]
  }

  function StatusAt(lg: seq<Input>, q: nat): byte
    requires (forall n | 0 <= n < |lg| :: |lg[n].raw| == 64) && q < 6 * |lg|
  {
    lg[q / 6].raw[10 * (q % 6) + 1] % 16
  }

  lemma RunBytes(lg: seq<Input>, q: nat)
    requires InputsFit(lg) && q < 6 * |lg|
    ensures (forall n | 0 <= n < |lg| :: |lg[n].raw| == 64) && |AllTouches(lg)| == 6 * |lg|
    ensures var t := AllTouches(lg)[q];
      && t.id == IdAt(lg, q) && t.status == StatusAt(lg, q)
      && (t.inside <==> InZone(lg[q / 6].zones, lg[q / 6].raw, 10 * (q % 6)))
  {
    TouchOfRecord(lg, q);
    hide AllTouches, InZone;
  }

  lemma BeginsOnBytes(lg: seq<Input>, b: nat, r: nat)
    requires InputsFit(lg) && r < 6 * |lg|
    ensures (forall n | 0 <= n < |lg| :: |lg[n].raw| == 64) && |AllTouches(lg)| == 6 * |lg|
    ensures StrokeBegin(lg, b, r) <==> Begins(AllTouches(lg), b, r)
  {
    hide IdAt, StatusAt, AllTouches, InZone;
    RunBytes(lg, r);
    forall q | 0 <= q < 6 * |lg|
      ensures AllTouches(lg)[q].id == IdAt(lg, q) && AllTouches(lg)[q].status == StatusAt(lg, q)
    {
      RunBytes(lg, q);
    }
  }

  /** LG strokes on the wire, from raw bytes to sent bytes: a record of a contact leaves with
      status 3 if and only if its raw status byte is 1 and its stroke began at a point in no
      zone then in force; else it leaves with status 2. */
  lemma StrokeOnTheWire(st: Lg, inputs: seq<Input>, n: nat, i: nat)
    requires FreshTable(st.tab) && st.sent == [] && InputsFit(inputs) && n < |LgOf(inputs)| && i < 6
    requires LgOf(inputs)[n].raw[10 * i + 2] > 0
    ensures |LgRun(st, inputs).sent| == |LgOf(inputs)| && |LgRun(st, inputs).sent[n]| == 67
    ensures var lg, f, r := LgOf(inputs), LgRun(st, inputs).sent[n], 6 * n + i;
      && (forall m | 0 <= m < |lg| :: |lg[m].raw| == 64) && f[10 * i + 6] == lg[n].raw[10 * i + 2]
      && (f[10 * i + 5] == 3 || f[10 * i + 5] == 2)
      && (f[10 * i + 5] == 3 <==>
            lg[n].raw[10 * i + 1] == 0x01
            && exists b | 0 <= b <= r :: StrokeBegin(lg, b, r) && !InZone(lg[b / 6].zones, lg[b / 6].raw, 10 * (b % 6)))
  {
    hide *;
    LgRunFits(inputs);
    StatusOnTheWire(st, inputs, n, i);
    SentId(st, inputs, n, i);
    var lg, r := LgOf(inputs), 6 * n + i;
    RunBytes(lg, r);
    BytesOf(lg, r);
    if lg[n].raw[10 * i + 1] == 0x01 {
      StrokeByBytes(lg, r);
    }
  }

  lemma LgRunFits(inputs: seq<Input>)
    requires InputsFit(inputs)
    ensures InputsFit(LgOf(inputs)) && forall m | 0 <= m < |LgOf(inputs)| :: |LgOf(inputs)[m].raw| == 64
  {}

  lemma BytesOf(lg: seq<Input>, r: nat)
    requires (forall n | 0 <= n < |lg| :: |lg[n].raw| == 64) && r < 6 * |lg|
    ensures IdAt(lg, r) == lg[r / 6].raw[10 * (r % 6) + 2] && StatusAt(lg, r) == lg[r / 6].raw[10 * (r % 6) + 1] % 16
  {}

  /** The stroke a down record belongs to began in a zone, by the contact's own records and by
      the bytes of the packets. */
  lemma StrokeByBytes(lg: seq<Input>, r: nat)
    requires InputsFit(lg) && r < 6 * |lg|
    requires (forall n | 0 <= n < |lg| :: |lg[n].raw| == 64) && StatusAt(lg, r) == 0x01
    ensures |AllTouches(lg)| == 6 * |lg|
    ensures StrokeMasked(Of(IdAt(lg, r), AllTouches(lg)), |Of(IdAt(lg, r), AllTouches(lg)[..r])|)
       <==> !exists b | 0 <= b <= r :: StrokeBegin(lg, b, r) && !InZone(lg[b / 6].zones, lg[b / 6].raw, 10 * (b % 6))
  {
    hide AllTouches, StrokeMasked, Of, StrokeBegin, InZone, Begins, Rank, IdAt, StatusAt, InputsFit;
    RunBytes(lg, r);
    var all := AllTouches(lg);
    var b := StrokeBegins(all, r);
    BeginsOnBytes(lg, b, r);
    RunBytes(lg, b);
    RankIs(IdAt(lg, r), all, r);
    forall b' | 0 <= b' <= r && StrokeBegin(lg, b', r) ensures b' == b {
      BeginsOnBytes(lg, b', r);
      BeginsOnce(all, b, b', r);
    }
  }

  lemma RankIs(id: byte, ts: seq<Touch>, q: nat)
    requires q <= |ts|
    ensures Rank(id, ts, q) == |Of(id, ts[..q])|
  {}

  lemma SentId(st: Lg, inputs: seq<Input>, n: nat, i: nat)
    requires FreshTable(st.tab) && st.sent == [] && InputsFit(inputs) && n < |LgOf(inputs)| && i < 6
    requires |LgOf(inputs)[n].raw| == 64 && LgOf(inputs)[n].raw[10 * i + 2] > 0
    ensures |LgRun(st, inputs).sent| == |LgOf(inputs)| && |LgRun(st, inputs).sent[n]| == 67
    ensures LgRun(st, inputs).sent[n][10 * i + 6] == LgOf(inputs)[n].raw[10 * i + 2]
    ensures UartReport.Decode(LgRun(st, inputs).sent[n], i).status == LgRun(st, inputs).sent[n][10 * i + 5]
  {
    RunSendsFrames(st, inputs);
    hide *;
    FreshSize(st.tab);
    LgRunFits(inputs);
    assert [] + Frames(st.tab, LgOf(inputs)) == Frames(st.tab, LgOf(inputs));
    FrameId(st.tab, LgOf(inputs), n, i);
  }

  lemma FrameId(tab: seq<Contact>, lg: seq<Input>, n: nat, i: nat)
    requires |tab| == MAX_CONTACTS && InputsFit(lg) && n < |lg| && i < 6 && |lg[n].raw| == 64
    requires lg[n].raw[10 * i + 2] > 0
    ensures |Frames(tab, lg)| == |lg| && |Frames(tab, lg)[n]| == 67
    ensures Frames(tab, lg)[n][10 * i + 6] == lg[n].raw[10 * i + 2]
    ensures UartReport.Decode(Frames(tab, lg)[n], i).status == Frames(tab, lg)[n][10 * i + 5]
  {
    hide Frames, AllTouches, Frame, TableMarks, Touches;
    FramesAt(tab, lg, n);
    FrameByte(lg[n].raw, TableMarks(LgInCell, tab, AllTouches(lg))[6 * n..6 * n + 6], i, 1);
  }

  /** What a run puts on the wire arrives: the receiver hands on exactly the frames sent. */
  lemma SentIsReceived(st: Lg, inputs: seq<Input>)
    requires |st.tab| == MAX_CONTACTS && st.sent == [] && InputsFit(inputs)
    ensures var fs := LgRun(st, inputs).sent; var s := UartReceiver.Concat(fs);
      var r := UartReceiver.Run(s, UartReceiver.START);
      UartReceiver.Sound(s, r) && UartReceiver.Cut(s, r.starts) == fs && !r.hunting && r.errors == 0
  {
    RunSendsFrames(st, inputs);
    hide *;
    var fs := LgRun(st, inputs).sent;
    assert [] + Frames(st.tab, LgOf(inputs)) == Frames(st.tab, LgOf(inputs));
    FramesAreTouchFrames(st.tab, LgOf(inputs));
    AllTouchFrames(fs);
    forall n | 0 <= n < |fs| ensures UartReceiver.WellFormed(fs[n]) {
      IsWellFormed(fs[n]);
    }
    UartReceiver.Lossless(fs, []);
    assert UartReceiver.Concat(fs) + [] == UartReceiver.Concat(fs);
  }

  lemma IsWellFormed(f: seq<byte>)
    requires UartReceiver.TouchFrame(f)
    ensures UartReceiver.WellFormed(f)
  {}

  lemma FramesAreTouchFrames(tab: seq<Contact>, inputs: seq<Input>)
    requires InputsFit(inputs) && |tab| == MAX_CONTACTS
    ensures forall n | 0 <= n < |Frames(tab, inputs)| :: UartReceiver.TouchFrame(Frames(tab, inputs)[n])
  {
    hide Frame, Touches, TableMarks, AllTouches, UartReceiver.TouchFrame;
    var marks := TableMarks(LgInCell, tab, AllTouches(inputs));
    forall n | 0 <= n < |inputs| ensures UartReceiver.TouchFrame(Frames(tab, inputs)[n]) {
      FramesAt(tab, inputs, n);
      FrameIsWellFormed(Body(inputs[n].raw), marks[6 * n..6 * n + 6]);
    }
  }

  lemma {:induction false} AllTouchFrames(fs: seq<seq<byte>>)
    requires forall n | 0 <= n < |fs| :: UartReceiver.TouchFrame(fs[n])
    ensures UartReceiver.TouchFramesOf(fs) == fs
  {
    if fs != [] {
      AllTouchFrames(fs[1..]);
    }
  }
}
