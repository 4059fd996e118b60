/** Reporting touches to Android (every panel but Jiage's): packets are gathered into a
    frame, contacts are put on and taken off the input device, and contacts still down
    when the panel falls silent or disappears are released by force. */
module AndroidReport {
  import opened Bytes
  import opened ProtocolB

  const MAX_CONTACTS := 42
  const RAW_LEN := 64
  const COUNT_OFFSET := 61
  const HUAXIN_PACKAGE_ID := 0xfb
  const UINT_RANGE := 0x1_0000_0000

  const MT_TOOL_FINGER := 0
  const MT_TOOL_PEN := 1
  const MT_TOOL_ERASER := 2
  const TOOL_TYPE_RUBBER := 0x141

  datatype TouchPoint = TouchPoint(id: byte, status: byte, x: u16, y: u16, width: u16, height: u16, tool: int)

  const BLANK := TouchPoint(0, 0, 0, 0, 0, 0, 0)

  function ToolOf(status: byte): int {
    if status / 16 == 3 then MT_TOOL_ERASER else if status / 16 == 1 then MT_TOOL_PEN else MT_TOOL_FINGER
  }

  /** Record i of a packet. */
  function Parse(raw: seq<byte>, i: nat): TouchPoint
    requires |raw| == RAW_LEN && i < 6
  {
    TouchPoint(raw[10 * i + 2], raw[10 * i + 1] % 16,
               Word(raw[10 * i + 3], raw[10 * i + 4]), Word(raw[10 * i + 5], raw[10 * i + 6]),
               Word(raw[10 * i + 7], raw[10 * i + 8]), Word(raw[10 * i + 9], raw[10 * i + 10]),
               ToolOf(raw[10 * i + 1]))
  }

  function ParseFirst(raw: seq<byte>, k: nat): seq<TouchPoint>
    requires |raw| == RAW_LEN && k <= 6
  {
    seq(k, i requires 0 <= i < k => Parse(raw, i))
  }

  /** The points that have a status. */
  function Present(pts: seq<TouchPoint>): (present: seq<TouchPoint>)
    ensures |present| <= |pts|
  {
    if pts == [] then []
    else Present(pts[..|pts| - 1]) + if pts[|pts| - 1].status != 0 then [pts[|pts| - 1]] else []
  }

  // ------------------------------------------------------------ state and steps

  /** The panel's package id and the largest contact id reported to Android. */
  datatype Panel = Panel(packageId: int, maxId: nat)

  ghost predicate PanelOk(panel: Panel) {
    panel.maxId < MAX_CONTACTS
  }

  datatype Android = Android(pts: seq<TouchPoint>, got: nat, total: nat, down: seq<bool>,
                             noTouch: nat, readErr: nat, log: seq<Event>)

  ghost predicate AndroidOk(a: Android) {
    |a.pts| == |a.down| == MAX_CONTACTS && a.got <= MAX_CONTACTS && a.noTouch < UINT_RANGE && a.readErr < UINT_RANGE
  }

  /** Where a reporter starts. */
  function FreshAndroid(): Android {
    Android(Blanks(MAX_CONTACTS), 0, 0, NoneDown(MAX_CONTACTS), 0, 0, [])
  }

  predicate GoesDown(status: byte) {
    status == 0x03 || status == 0x07
  }

  predicate GoesUp(status: byte) {
    status == 0x02 || status == 0x04
  }

  function DownEvents(p: TouchPoint, single: bool): seq<Event> {
    [Slot(p.id), TrackingId(p.id), PositionX(p.x), PositionY(p.y), TouchMajor(p.width), TouchMinor(p.height)]
      + (if p.tool == MT_TOOL_ERASER then [ToolType(TOOL_TYPE_RUBBER), BtnToolRubber(1)] else [ToolType(p.tool)])
      + (if single then [BtnTouch(1)] else [])
  }

  function UpEvents(p: TouchPoint): seq<Event> {
    [Slot(p.id), TrackingId(-1)] + if p.tool == MT_TOOL_ERASER then [BtnToolRubber(0)] else []
  }

  /** `single` tells a one-packet frame, which also presses the touch button. */
  function ReportOne(panel: Panel, a: Android, p: TouchPoint, single: bool): Android
    requires panel.maxId < |a.down|
  {
    if p.id > panel.maxId then a
    else if GoesDown(p.status) then a.(down := a.down[p.id := true], log := a.log + DownEvents(p, single))
    else if GoesUp(p.status) then a.(down := a.down[p.id := false], log := a.log + UpEvents(p))
    else a
  }

  function ReportPoints(panel: Panel, a: Android, pts: seq<TouchPoint>, single: bool): (a': Android)
    requires panel.maxId < |a.down|
    ensures |a'.down| == |a.down| && a' == a.(down := a'.down, log := a'.log)
  {
    if pts == [] then a
    else ReportOne(panel, ReportPoints(panel, a, pts[..|pts| - 1], single), pts[|pts| - 1], single)
  }

  function Blanks(n: nat): seq<TouchPoint> {
    seq(n, _ => BLANK)
  }

  /** One report of a frame: its points, one sync, and an empty point table. */
  function Reported(panel: Panel, a: Android, pts: seq<TouchPoint>, single: bool): Android
    requires panel.maxId < |a.down|
  {
    var a' := ReportPoints(panel, a, pts, single);
    a'.(log := a'.log + [SynReport], pts := Blanks(|a.pts|))
  }

  function Put(a: Android, new_: seq<TouchPoint>): Android
    requires a.got + |new_| <= |a.pts|
  {
    a.(got := a.got + |new_|, pts := a.pts[..a.got] + new_ + a.pts[a.got + |new_|..])
  }

  /** Where the points of a packet go: a first packet of a larger frame starts over. */
  function Opened(a: Android, raw: seq<byte>): Android
    requires |raw| == RAW_LEN
  {
    if raw[COUNT_OFFSET] > 6 then a.(got := 0, total := raw[COUNT_OFFSET]) else a
  }

  /** What the reporter takes for granted: gathered points fit the table. */
  ghost predicate Fits(panel: Panel, a: Android, raw: seq<byte>) {
    && PanelOk(panel) && AndroidOk(a) && |raw| == RAW_LEN
    && (raw[0] == panel.packageId && raw[COUNT_OFFSET] == 0 ==>
          a.got + |Present(ParseFirst(raw, 6))| <= MAX_CONTACTS)
  }

  ghost function PacketStep(panel: Panel, a: Android, raw: seq<byte>): (a': Android)
    requires Fits(panel, a, raw)
    ensures AndroidOk(a')
  {
    if raw[0] != panel.packageId then a
    else if 0 < raw[COUNT_OFFSET] <= 6 then Reported(panel, a, ParseFirst(raw, 6), true)
    else
      var a1 := Put(Opened(a, raw), Present(ParseFirst(raw, 6)));
      if raw[COUNT_OFFSET] == 0 && a1.got == a1.total then Reported(panel, a1, a1.pts[..a1.got], false) else a1
  }

  /** Release of every contact recorded as down, with one sync if there was any. */
  function ForceRelease(a: Android): Android {
    a.(down := NoneDown(|a.down|),
       log := a.log + Sweep(a.down) + if true in a.down then [SynReport] else [])
  }

  /** What a read of the panel comes to; a packet carries whether Android reporting is on. */
  datatype Outcome = Packet(raw: seq<byte>, reporting: bool) | DeviceGone | TimedOut | NothingRead

  ghost predicate OutcomeFits(panel: Panel, a: Android, o: Outcome) {
    && PanelOk(panel) && AndroidOk(a)
    && (o.Packet? ==> |o.raw| == RAW_LEN && (o.reporting ==> Fits(panel, a.(readErr := 0), o.raw)))
  }

  ghost function Step(panel: Panel, a: Android, o: Outcome): (a': Android)
    requires OutcomeFits(panel, a, o)
    ensures AndroidOk(a')
  {
    match o
    case DeviceGone =>
      var a1 := a.(readErr := (a.readErr + 1) % UINT_RANGE);
      if a1.readErr == 1 then ForceRelease(a1) else a1
    case TimedOut =>
      var a1 := a.(readErr := 0, noTouch := (a.noTouch + 1) % UINT_RANGE);
      if a1.noTouch >= 2 then ForceRelease(a1) else a1
    case NothingRead => a
    case Packet(raw, reporting) =>
      var a1 := a.(readErr := 0, noTouch := if raw[0] == HUAXIN_PACKAGE_ID then 0 else a.noTouch);
      if reporting then PacketStep(panel, a1, raw) else a1
  }

  // --------------------------------------------------------------- the reporter

  class AndroidReporter {
    const panel: Panel
    const mPoints: array<TouchPoint>
    const recPointStatus: array<bool>
    var gotValidPointNums: nat
    var totalValidPointNums: nat
    var noTouchCount: nat
    var readErrCount: nat
    var log: seq<Event>  // what device_writeEvent was called with

    ghost function State(): Android
      reads this, mPoints, recPointStatus
    {
      Android(mPoints[..], gotValidPointNums, totalValidPointNums, recPointStatus[..], noTouchCount, readErrCount, log)
    }

    constructor (panel: Panel)
      requires PanelOk(panel)
      ensures this.panel == panel && fresh(mPoints) && fresh(recPointStatus) && AndroidOk(State())
      ensures State() == FreshAndroid()
      ensures mPoints.Length == 42 && recPointStatus.Length == 42 && log == []
    {
      this.panel := panel;
      mPoints := new TouchPoint[MAX_CONTACTS](_ => BLANK);
      recPointStatus := new bool[MAX_CONTACTS](_ => false);
      gotValidPointNums, totalValidPointNums, noTouchCount, readErrCount, log := 0, 0, 0, 0, [];
      new;
      assert mPoints[..] == Blanks(MAX_CONTACTS) && recPointStatus[..] == NoneDown(MAX_CONTACTS);
    }

    method ReportPoint(p: TouchPoint, single: bool)
      requires panel.maxId < recPointStatus.Length
      modifies this`log, recPointStatus
      ensures State() == ReportOne(panel, old(State()), p, single)
      ensures p.id <= panel.maxId && (p.status == 0x03 || p.status == 0x07) ==>
        && log == old(log) + [Slot(p.id), TrackingId(p.id), PositionX(p.x), PositionY(p.y),
                              TouchMajor(p.width), TouchMinor(p.height)]
                  + (if p.tool == 2 then [ToolType(0x141), BtnToolRubber(1)] else [ToolType(p.tool)])
                  + (if single then [BtnTouch(1)] else [])
        && recPointStatus[..] == old(recPointStatus[..])[p.id := true]
      ensures p.id <= panel.maxId && (p.status == 0x02 || p.status == 0x04) ==>
        && log == old(log) + [Slot(p.id), TrackingId(-1)] + (if p.tool == 2 then [BtnToolRubber(0)] else [])
        && recPointStatus[..] == old(recPointStatus[..])[p.id := false]
      ensures p.id > panel.maxId || p.status !in {0x02, 0x03, 0x04, 0x07} ==> State() == old(State())
    {
      if p.status == 0x03 || p.status == 0x07 {
        if p.id <= panel.maxId {
          log := log + [Slot(p.id), TrackingId(p.id), PositionX(p.x), PositionY(p.y),
                        TouchMajor(p.width), TouchMinor(p.height)];
          if p.tool == MT_TOOL_ERASER {
            log := log + [ToolType(0x141), BtnToolRubber(1)];
          } else {
            log := log + [ToolType(p.tool)];
          }
          recPointStatus[p.id] := true;
          if single {
            log := log + [BtnTouch(1)];
          }
          assert log == old(log) + DownEvents(p, single);
        }
      } else if p.status == 0x02 || p.status == 0x04 {
        if p.id <= panel.maxId {
          log := log + [Slot(p.id), TrackingId(-1)];
          recPointStatus[p.id] := false;
          if p.tool == MT_TOOL_ERASER {
            log := log + [BtnToolRubber(0)];
          }
          assert log == old(log) + UpEvents(p);
        }
      }
    }

    /** The report loop with the sync and the memset that follow it. */
    method Report(n: nat, single: bool)
      requires panel.maxId < recPointStatus.Length && n <= mPoints.Length
      modifies this`log, mPoints, recPointStatus
      ensures State() == Reported(panel, old(State()), old(mPoints[..n]), single)
    {
      ghost var a0 := State();
      for i := 0 to n
        invariant mPoints[..] == a0.pts
        invariant State() == ReportPoints(panel, a0, a0.pts[..i], single)
      {
        assert a0.pts[..i + 1][..i] == a0.pts[..i];
        ReportPoint(mPoints[i], single);
      }
      log := log + [SynReport];
      ghost var down, logged := recPointStatus[..], log;
      for i := 0 to mPoints.Length
        invariant recPointStatus[..] == down && log == logged
        invariant forall j | 0 <= j < i :: mPoints[j] == BLANK
      {
        mPoints[i] := BLANK;
      }
      assert mPoints[..] == Blanks(mPoints.Length);
    }

    method ParseOne(buf: seq<byte>, i: nat) returns (p: TouchPoint)
      requires |buf| == RAW_LEN && i < 6
      ensures p == Parse(buf, i)
      ensures p.id == buf[10 * i + 2] && p.status == buf[10 * i + 1] % 16
      ensures p.x == buf[10 * i + 3] as int + 256 * buf[10 * i + 4] as int
      ensures p.y == buf[10 * i + 5] as int + 256 * buf[10 * i + 6] as int
      ensures p.width == buf[10 * i + 7] as int + 256 * buf[10 * i + 8] as int
      ensures p.height == buf[10 * i + 9] as int + 256 * buf[10 * i + 10] as int
      ensures p.tool == if buf[10 * i + 1] / 16 == 3 then 2 else if buf[10 * i + 1] / 16 == 1 then 1 else 0
    {
      var toolType := buf[10 * i + 1] / 16;
      var tool;
      if toolType == 2 {
        tool := MT_TOOL_FINGER;
      } else if toolType == 3 {
        tool := MT_TOOL_ERASER;
      } else if toolType == 1 {
        tool := MT_TOOL_PEN;
      } else {
        tool := MT_TOOL_FINGER;
      }
      p := TouchPoint(buf[10 * i + 2], buf[10 * i + 1] % 16,
                      Word(buf[10 * i + 3], buf[10 * i + 4]), Word(buf[10 * i + 5], buf[10 * i + 6]),
                      Word(buf[10 * i + 7], buf[10 * i + 8]), Word(buf[10 * i + 9], buf[10 * i + 10]), tool);
    }

    /** One record more behind those kept since state a0. */
    method Keep(p: TouchPoint, ghost a0: Android, ghost some: seq<TouchPoint>)
      requires a0.got + |some| < |a0.pts| == mPoints.Length && State() == Put(a0, some)
      modifies this`gotValidPointNums, mPoints
      ensures State() == Put(a0, some + [p])
    {
      PutOne(a0, some, p);
      hide Put;
      mPoints[gotValidPointNums] := p;
      gotValidPointNums := gotValidPointNums + 1;
    }

    /** The loop over a packet of a larger frame: only records with a status are stored. */
    method Gather(buf: seq<byte>)
      requires |buf| == RAW_LEN && gotValidPointNums + |Present(ParseFirst(buf, 6))| <= mPoints.Length
      modifies this`gotValidPointNums, mPoints
      ensures State() == Put(old(State()), Present(ParseFirst(buf, 6)))
    {
      ghost var a0 := State();
      ghost var some: seq<TouchPoint> := [];
      PutNone(a0);
      assert some == Present(ParseFirst(buf, 0));
      hide Put, Present, ParseFirst;
      for i := 0 to 6
        invariant some == Present(ParseFirst(buf, i)) && a0.got + |some| <= mPoints.Length
        invariant State() == Put(a0, some)
      {
        PresentGrows(buf, i);
        if buf[10 * i + 1] % 16 != 0 {
          var p := ParseOne(buf, i);
          Keep(p, a0, some);
          some := some + [p];
        }
      }
    }

    method ParseSix(buf: seq<byte>)
      requires |buf| == RAW_LEN && 6 <= mPoints.Length
      modifies mPoints
      ensures mPoints[..6] == ParseFirst(buf, 6)
    {
      for i := 0 to 6
        invariant forall j | 0 <= j < i :: mPoints[j] == Parse(buf, j)
      {
        var p := ParseOne(buf, i);
        mPoints[i] := p;
      }
    }

    /** parseAndReportToAndroid. */
    method ParseAndReportToAndroid(buf: seq<byte>)
      requires Fits(panel, State(), buf)
      modifies this`log, this`gotValidPointNums, this`totalValidPointNums, mPoints, recPointStatus
      ensures State() == PacketStep(panel, old(State()), buf)
      ensures buf[0] != panel.packageId ==> State() == old(State())
    {
      if buf[0] == panel.packageId {
        if buf[61] <= 6 && buf[61] > 0 {
          ghost var a := State();
          ParseSix(buf);
          ReportedAnyPoints(panel, a, State(), ParseFirst(buf, 6), true);
          Report(6, true);
        } else {
          if buf[61] > 6 {
            gotValidPointNums := 0;
            totalValidPointNums := buf[61];
            Gather(buf);
          } else {
            Gather(buf);
            if gotValidPointNums == totalValidPointNums {
              Report(gotValidPointNums, false);
            }
          }
        }
      }
    }

    /** The loop of the forced release. */
    method ReleaseEach() returns (syncFlag: bool)
      modifies this`log, recPointStatus
      ensures recPointStatus[..] == NoneDown(recPointStatus.Length)
      ensures log == old(log) + Sweep(old(recPointStatus[..])) && syncFlag == (true in old(recPointStatus[..]))
    {
      ghost var was := recPointStatus[..];
      syncFlag := false;
      for i := 0 to recPointStatus.Length
        invariant forall j | 0 <= j < i :: !recPointStatus[j]
        invariant forall j | i <= j < recPointStatus.Length :: recPointStatus[j] == was[j]
        invariant log == old(log) + Sweep(was[..i])
        invariant syncFlag == (true in was[..i])
      {
        hide Sweep;
        SweepSnoc(was, i);
        if recPointStatus[i] {
          log := log + [Slot(i), TrackingId(-1)];
          recPointStatus[i] := false;
          syncFlag := true;
        }
      }
      assert was[..recPointStatus.Length] == was;
      assert recPointStatus[..] == NoneDown(recPointStatus.Length);
    }

    /** The forced release after an error or a silence. */
    method ReleaseByForce()
      modifies this`log, recPointStatus
      ensures State() == ForceRelease(old(State()))
    {
      var syncFlag := ReleaseEach();
      if syncFlag {
        log := log + [SynReport];
      }
    }

    /** One turn of touchDataProcess_thread, as far as Android reporting goes. */
    method OnRead(o: Outcome)
      requires OutcomeFits(panel, State(), o)
      modifies this, mPoints, recPointStatus
      ensures State() == Step(panel, old(State()), o) && AndroidOk(State())
      ensures o.DeviceGone? ==>
        readErrCount == (old(readErrCount) + 1) % 0x1_0000_0000 && noTouchCount == old(noTouchCount)
      ensures o.TimedOut? ==> readErrCount == 0 && noTouchCount == (old(noTouchCount) + 1) % 0x1_0000_0000
      ensures o.NothingRead? ==> State() == old(State())
      ensures o.Packet? ==> readErrCount == 0 && noTouchCount == if o.raw[0] == 0xfb then 0 else old(noTouchCount)
      ensures o.Packet? && !o.reporting ==> log == old(log) && recPointStatus[..] == old(recPointStatus[..])
    {
      match o {
        case DeviceGone =>
          readErrCount := (readErrCount + 1) % UINT_RANGE;
          if readErrCount == 1 {
            ReleaseByForce();
          }
        case TimedOut =>
          readErrCount := 0;
          noTouchCount := (noTouchCount + 1) % UINT_RANGE;
          if noTouchCount >= 2 {
            ReleaseByForce();
          }
        case NothingRead =>
        case Packet(raw, reporting) =>
          readErrCount := 0;
          if raw[0] == 0xfb {
            noTouchCount := 0;
          }
          if reporting {
            ParseAndReportToAndroid(raw);
          }
      }
    }
  }

  /** A report does not depend on the point table beyond the points reported. */
  lemma ReportedAnyPoints(panel: Panel, a: Android, b: Android, pts: seq<TouchPoint>, single: bool)
    requires panel.maxId < |a.down| && b == a.(pts := b.pts) && |a.pts| == |b.pts|
    ensures Reported(panel, a, pts, single) == Reported(panel, b, pts, single)
  {
    ReportFrame(panel, a, b, pts, single);
  }

  lemma {:induction false} ReportFrame(panel: Panel, a: Android, b: Android, pts: seq<TouchPoint>, single: bool)
    requires panel.maxId < |a.down| && a.log == b.log && a.down == b.down
    ensures ReportPoints(panel, a, pts, single).log == ReportPoints(panel, b, pts, single).log
    ensures ReportPoints(panel, a, pts, single).down == ReportPoints(panel, b, pts, single).down
  {
    if pts != [] {
      ReportFrame(panel, a, b, pts[..|pts| - 1], single);
    }
  }

  lemma PutNone(a: Android)
    requires a.got <= |a.pts|
    ensures Put(a, []) == a
  {
    assert a.pts[..a.got] + [] + a.pts[a.got + 0..] == a.pts;
  }

  lemma PutOne(a: Android, some: seq<TouchPoint>, p: TouchPoint)
    requires a.got + |some| < |a.pts|
    ensures Put(a, some).got == a.got + |some| && |Put(a, some).pts| == |a.pts|
    ensures Put(a, some + [p]) == Put(a, some).(got := a.got + |some| + 1, pts := Put(a, some).pts[a.got + |some| := p])
  {
    assert Put(a, some + [p]).pts == Put(a, some).pts[a.got + |some| := p];
  }

  lemma PresentGrows(raw: seq<byte>, i: nat)
    requires |raw| == RAW_LEN && i < 6
    ensures Present(ParseFirst(raw, i + 1))
         == Present(ParseFirst(raw, i)) + if raw[10 * i + 1] % 16 != 0 then [Parse(raw, i)] else []
    ensures |Present(ParseFirst(raw, i + 1))| <= |Present(ParseFirst(raw, 6))|
    decreases 6 - i
  {
    assert ParseFirst(raw, i + 1)[..i] == ParseFirst(raw, i);
    if i + 1 < 6 {
      PresentGrows(raw, i + 1);
    }
  }

  // --------------------------------------------------- shadow and event stream

  /** The slots live for a reader of the device are exactly those recorded as down, each under
      its own number as tracking id. */
  ghost predicate ShadowMatches(a: Android) {
    Ids(a.log) == Own(DownSlots(a.down))
  }

  lemma ShadowIsLive(a: Android)
    requires ShadowMatches(a)
    ensures LiveSlots(a.log) == DownSlots(a.down)
  {
    assert Own(DownSlots(a.down)).Keys == DownSlots(a.down);
  }

  /** What a record does to the tracking ids a reader knows. */
  lemma ReportOneIds(panel: Panel, a: Android, p: TouchPoint, single: bool)
    requires panel.maxId < |a.down|
    ensures Ids(ReportOne(panel, a, p, single).log)
         == if p.id > panel.maxId then Ids(a.log)
            else if p.status == 0x03 || p.status == 0x07 then Ids(a.log)[p.id as int := p.id as int]
            else if p.status == 0x02 || p.status == 0x04 then Ids(a.log) - {p.id as int}
            else Ids(a.log)
  {
    hide Ids;
    var log' := ReportOne(panel, a, p, single).log;
    if p.id <= panel.maxId && GoesDown(p.status) {
      var rest := DownEvents(p, single)[2..];
      assert forall e | e in rest :: Neutral(e);
      assert log' == a.log + [Slot(p.id), TrackingId(p.id)] + rest;
      ConsumeContact(a.log, p.id, p.id, rest);
    } else if p.id <= panel.maxId && GoesUp(p.status) {
      var rest := UpEvents(p)[2..];
      assert log' == a.log + [Slot(p.id), TrackingId(-1)] + rest;
      ConsumeContact(a.log, p.id, -1, rest);
    }
  }

  lemma ReportOneKeepsShadow(panel: Panel, a: Android, p: TouchPoint, single: bool)
    requires panel.maxId < |a.down| && ShadowMatches(a)
    ensures ShadowMatches(ReportOne(panel, a, p, single))
  {
    hide Ids;
    var a' := ReportOne(panel, a, p, single);
    ReportOneIds(panel, a, p, single);
    if p.id > panel.maxId {
    } else if GoesDown(p.status) {
      assert DownSlots(a'.down) == DownSlots(a.down) + {p.id as int};
    } else if GoesUp(p.status) {
      assert DownSlots(a'.down) == DownSlots(a.down) - {p.id as int};
    }
  }

  lemma {:induction false} ReportKeepsShadow(panel: Panel, a: Android, pts: seq<TouchPoint>, single: bool)
    requires panel.maxId < |a.down| && ShadowMatches(a)
    ensures ShadowMatches(ReportPoints(panel, a, pts, single))
  {
    if pts != [] {
      ReportKeepsShadow(panel, a, pts[..|pts| - 1], single);
      ReportOneKeepsShadow(panel, ReportPoints(panel, a, pts[..|pts| - 1], single), pts[|pts| - 1], single);
    }
  }

  lemma ReportedKeepsShadow(panel: Panel, a: Android, pts: seq<TouchPoint>, single: bool)
    requires panel.maxId < |a.down| && ShadowMatches(a)
    ensures ShadowMatches(Reported(panel, a, pts, single))
  {
    ReportKeepsShadow(panel, a, pts, single);
    ConsumeQuiet(ReportPoints(panel, a, pts, single).log, [SynReport]);
  }

  lemma ForceReleaseSyncs(a: Android)
    ensures SyncCount(ForceRelease(a).log) == SyncCount(a.log) + if true in a.down then 1 else 0
  {
    var swept := a.log + Sweep(a.down);
    SweepHasNoSync(a.down);
    NoSync(Sweep(a.down));
    SyncAppend(a.log, Sweep(a.down));
    assert (swept + [SynReport])[..|swept|] == swept;
    assert swept + [] == swept;
  }

  lemma ForceReleaseEmpties(a: Android)
    requires ShadowMatches(a)
    ensures ShadowMatches(ForceRelease(a)) && LiveSlots(ForceRelease(a).log) == {}
    ensures SyncCount(ForceRelease(a).log) == SyncCount(a.log) + if true in a.down then 1 else 0
  {
    ForceReleaseSyncs(a);
    hide SyncCount;
    SweepReleases(a.log, a.down);
    ConsumeQuiet(a.log + Sweep(a.down), if true in a.down then [SynReport] else []);
  }

  lemma StepKeepsShadow(panel: Panel, a: Android, o: Outcome)
    requires OutcomeFits(panel, a, o) && ShadowMatches(a)
    ensures ShadowMatches(Step(panel, a, o))
  {
    match o
    case DeviceGone => ForceReleaseEmpties(a.(readErr := (a.readErr + 1) % UINT_RANGE));
    case TimedOut => ForceReleaseEmpties(a.(readErr := 0, noTouch := (a.noTouch + 1) % UINT_RANGE));
    case NothingRead =>
    case Packet(raw, reporting) =>
      var a1 := a.(readErr := 0, noTouch := if raw[0] == HUAXIN_PACKAGE_ID then 0 else a.noTouch);
      if reporting && raw[0] == panel.packageId {
        var present := Present(ParseFirst(raw, 6));
        ReportedKeepsShadow(panel, a1, ParseFirst(raw, 6), true);
        if raw[COUNT_OFFSET] == 0 {
          var a2 := Put(a1, present);
          ReportedKeepsShadow(panel, a2, a2.pts[..a2.got], false);
        }
      }
  }

  // --------------------------------------------------- what is written of a point

  function ShownTool(p: TouchPoint): int {
    if p.tool == 2 then 0x141 else p.tool
  }

  function DownTail(p: TouchPoint, single: bool): seq<Event> {
    (if p.tool == MT_TOOL_ERASER then [BtnToolRubber(1)] else []) + if single then [BtnTouch(1)] else []
  }

  lemma DownSplits(log: seq<Event>, p: TouchPoint, single: bool)
    ensures log + DownEvents(p, single)
         == log + [Slot(p.id)] + [TrackingId(p.id)] + [PositionX(p.x), PositionY(p.y)]
            + [TouchMajor(p.width), TouchMinor(p.height)] + [ToolType(ShownTool(p))] + DownTail(p, single)
    ensures forall e | e in DownTail(p, single) :: Plain(e)
  {}

  lemma ReportOneShows(panel: Panel, a: Android, p: TouchPoint, single: bool, slot: int)
    requires panel.maxId < |a.down|
    ensures Drawn(ReportOne(panel, a, p, single).log, slot)
         == if slot == p.id && p.id <= panel.maxId && GoesDown(p.status)
            then View(p.x, p.y, p.width, p.height, ShownTool(p)) else Drawn(a.log, slot)
  {
    var log' := ReportOne(panel, a, p, single).log;
    hide Drawn, DownEvents;
    if p.id > panel.maxId {
    } else if GoesDown(p.status) {
      DrawnPlaced(a.log, p.id, [TrackingId(p.id)], p.x, p.y, p.width, p.height, slot);
      DrawnPlaced(a.log, p.id, [TrackingId(p.id)], p.x, p.y, p.width, p.height, p.id);
      var placed := a.log + [Slot(p.id)] + [TrackingId(p.id)] + [PositionX(p.x), PositionY(p.y)]
        + [TouchMajor(p.width), TouchMinor(p.height)];
      DrawnTool(placed, ShownTool(p), DownTail(p, single), slot);
      DownSplits(a.log, p, single);
    } else if GoesUp(p.status) {
      var quiet := [TrackingId(-1)] + if p.tool == MT_TOOL_ERASER then [BtnToolRubber(0)] else [];
      DrawnReleased(a.log, p.id, quiet, slot);
      assert log' == a.log + [Slot(p.id)] + quiet;
    }
  }

  /** After a report, each contact that is down stands written as its last record has it. */
  lemma {:induction false} ReportShowsPoints(panel: Panel, a: Android, pts: seq<TouchPoint>, single: bool, i: nat)
    requires panel.maxId < |a.down| && i < |pts| && forall j | i < j < |pts| :: pts[j].id != pts[i].id
    requires pts[i].id <= panel.maxId && GoesDown(pts[i].status)
    ensures var p, a' := pts[i], ReportPoints(panel, a, pts, single);
      a'.down[p.id] && Drawn(a'.log, p.id) == View(p.x, p.y, p.width, p.height, ShownTool(p))
  {
    var front, last := pts[..|pts| - 1], pts[|pts| - 1];
    ReportOneShows(panel, ReportPoints(panel, a, front, single), last, single, pts[i].id);
    if i < |front| {
      ReportShowsPoints(panel, a, front, single, i);
    }
  }

  ghost predicate RunFits(panel: Panel, a: Android, os: seq<Outcome>)
    decreases |os|
  {
    os == [] || (OutcomeFits(panel, a, os[0]) && RunFits(panel, Step(panel, a, os[0]), os[1..]))
  }

  ghost function Run(panel: Panel, a: Android, os: seq<Outcome>): (a': Android)
    requires RunFits(panel, a, os)
    ensures AndroidOk(a) ==> AndroidOk(a')
    decreases |os|
  {
    if os == [] then a else Run(panel, Step(panel, a, os[0]), os[1..])
  }

  /** Shadow state matches the event stream, after every read of every run: packets,
      completed frames, forced releases. The live slots are those recorded as down, and each
      has its own number for a tracking id. */
  lemma {:induction false} RunKeepsShadow(panel: Panel, a: Android, os: seq<Outcome>)
    requires RunFits(panel, a, os) && ShadowMatches(a)
    ensures ShadowMatches(Run(panel, a, os))
    ensures LiveSlots(Run(panel, a, os).log) == DownSlots(Run(panel, a, os).down)
    decreases |os|
  {
    ShadowIsLive(a);
    if os != [] {
      StepKeepsShadow(panel, a, os[0]);
      RunKeepsShadow(panel, Step(panel, a, os[0]), os[1..]);
    }
  }

  /** After two timeouts in a row no slot is live, if and only if none was live before or
      the 32-bit silence counter did not stand at its last value. */
  lemma TwoTimeoutsRelease(panel: Panel, a: Android)
    requires PanelOk(panel) && AndroidOk(a) && ShadowMatches(a)
    ensures LiveSlots(Step(panel, Step(panel, a, TimedOut), TimedOut).log) == {}
       <==> LiveSlots(a.log) == {} || a.noTouch != 0xFFFF_FFFF
  {
    hide Step, LiveSlots, DownSlots;
    var s1 := Step(panel, a, TimedOut);
    StepKeepsShadow(panel, a, TimedOut);
    TimeoutReleases(panel, a);
    TimeoutReleases(panel, s1);
  }

  lemma TimeoutReleases(panel: Panel, a: Android)
    requires PanelOk(panel) && AndroidOk(a) && ShadowMatches(a)
    ensures var s := Step(panel, a, TimedOut);
      && s.noTouch == (a.noTouch + 1) % UINT_RANGE
      && LiveSlots(s.log) == if s.noTouch >= 2 then {} else LiveSlots(a.log)
  {
    ForceReleaseEmpties(a.(readErr := 0, noTouch := (a.noTouch + 1) % UINT_RANGE));
  }

  /** A reporter from its construction on through any reads: what it writes is what the run
      of the reads writes, and the slots then live are those recorded as down. */
  method ReportAll(panel: Panel, os: seq<Outcome>) returns (log: seq<Event>)
    requires PanelOk(panel) && RunFits(panel, FreshAndroid(), os)
    ensures log == Run(panel, FreshAndroid(), os).log
    ensures Ids(log) == Own(DownSlots(Run(panel, FreshAndroid(), os).down))
  {
    var reporter := new AndroidReporter(panel);
    FreshIsEmpty();
    RunKeepsShadow(panel, FreshAndroid(), os);
    hide FreshAndroid, Step, OutcomeFits, Ids, Own;
    assert os[0..] == os;
    for i := 0 to |os|
      invariant fresh(reporter) && fresh(reporter.mPoints) && fresh(reporter.recPointStatus) && reporter.panel == panel
      invariant RunFits(panel, reporter.State(), os[i..])
      invariant Run(panel, reporter.State(), os[i..]) == Run(panel, FreshAndroid(), os)
    {
      assert os[i..][0] == os[i] && os[i..][1..] == os[i + 1..];
      reporter.OnRead(os[i]);
    }
    log := reporter.log;
  }

  // -------------------------------------------------- silence and lost panels

  /** The silence counter stands at two or more only while nothing is live, and so does the
      error counter at one or more. */
  ghost predicate SilenceIsEmpty(a: Android) {
    a.noTouch >= 2 ==> LiveSlots(a.log) == {}
  }

  ghost predicate ErrorIsEmpty(a: Android) {
    a.readErr > 0 ==> LiveSlots(a.log) == {}
  }

  lemma ErrorStaysEmpty(panel: Panel, a: Android, o: Outcome)
    requires OutcomeFits(panel, a, o) && ShadowMatches(a) && ErrorIsEmpty(a)
    ensures ErrorIsEmpty(Step(panel, a, o))
    ensures o.DeviceGone? ==> LiveSlots(Step(panel, a, o).log) == {}
  {
    hide LiveSlots, ShadowMatches;
    if o.DeviceGone? {
      var a1 := a.(readErr := (a.readErr + 1) % UINT_RANGE);
      ShadowOther(a, a1);
      if a1.readErr == 1 {
        ForceReleaseEmpties(a1);
      }
    }
  }

  lemma ShadowOther(a: Android, b: Android)
    requires ShadowMatches(a) && b.log == a.log && b.down == a.down
    ensures ShadowMatches(b)
  {}

  lemma SilenceStaysEmpty(panel: Panel, a: Android, o: Outcome)
    requires OutcomeFits(panel, a, o) && ShadowMatches(a) && SilenceIsEmpty(a)
    requires panel.packageId == 0xfb
    ensures SilenceIsEmpty(Step(panel, a, o))
  {
    hide LiveSlots, ShadowMatches, Reported;
    match o
    case DeviceGone =>
      var a1 := a.(readErr := (a.readErr + 1) % UINT_RANGE);
      ShadowOther(a, a1);
      ForceReleaseEmpties(a1);
    case TimedOut =>
      var a1 := a.(readErr := 0, noTouch := (a.noTouch + 1) % UINT_RANGE);
      ShadowOther(a, a1);
      ForceReleaseEmpties(a1);
    case NothingRead =>
    case Packet(raw, reporting) =>
      if raw[0] == HUAXIN_PACKAGE_ID && reporting {
        var a1 := a.(readErr := 0, noTouch := 0);
        PacketKeepsSilence(panel, a1, raw);
      }
  }

  lemma PacketKeepsSilence(panel: Panel, a: Android, raw: seq<byte>)
    requires Fits(panel, a, raw)
    ensures PacketStep(panel, a, raw).noTouch == a.noTouch
  {}

  lemma {:induction false} RunKeepsEmpty(panel: Panel, a: Android, os: seq<Outcome>)
    requires RunFits(panel, a, os) && ShadowMatches(a) && ErrorIsEmpty(a)
    ensures ErrorIsEmpty(Run(panel, a, os))
    ensures panel.packageId == 0xfb && SilenceIsEmpty(a) ==> SilenceIsEmpty(Run(panel, a, os))
    decreases |os|
  {
    hide Step, ShadowMatches, ErrorIsEmpty, SilenceIsEmpty, OutcomeFits;
    if os != [] {
      StepKeepsShadow(panel, a, os[0]);
      ErrorStaysEmpty(panel, a, os[0]);
      if panel.packageId == 0xfb && SilenceIsEmpty(a) {
        SilenceStaysEmpty(panel, a, os[0]);
      }
      RunKeepsEmpty(panel, Step(panel, a, os[0]), os[1..]);
    }
  }

  lemma FreshIsEmpty()
    ensures ShadowMatches(FreshAndroid()) && ErrorIsEmpty(FreshAndroid()) && SilenceIsEmpty(FreshAndroid())
    ensures AndroidOk(FreshAndroid())
  {}

  /** A lost panel leaves no slot live: after a read error at any point of any run. */
  lemma LostPanelReleases(panel: Panel, os: seq<Outcome>)
    requires PanelOk(panel) && RunFits(panel, FreshAndroid(), os)
    ensures LiveSlots(Step(panel, Run(panel, FreshAndroid(), os), DeviceGone).log) == {}
  {
    FreshIsEmpty();
    RunKeepsShadow(panel, FreshAndroid(), os);
    RunKeepsEmpty(panel, FreshAndroid(), os);
    hide FreshAndroid, Run, RunFits;
    ErrorStaysEmpty(panel, Run(panel, FreshAndroid(), os), DeviceGone);
  }

  /** For panels whose packets clear the silence counter, two timeouts in a row leave no slot
      live at any point of any run. */
  lemma HuaxinTimeoutsRelease(panel: Panel, os: seq<Outcome>)
    requires PanelOk(panel) && panel.packageId == 0xfb
    requires RunFits(panel, FreshAndroid(), os)
    ensures LiveSlots(Step(panel, Step(panel, Run(panel, FreshAndroid(), os), TimedOut), TimedOut).log) == {}
  {
    FreshIsEmpty();
    RunKeepsShadow(panel, FreshAndroid(), os);
    RunKeepsEmpty(panel, FreshAndroid(), os);
    TwoTimeoutsRelease(panel, Run(panel, FreshAndroid(), os));
  }

  function Timeouts(m: nat): seq<Outcome> {
    seq(m, _ => TimedOut)
  }

  lemma {:induction false} RunAppend(panel: Panel, a: Android, os: seq<Outcome>, more: seq<Outcome>)
    requires RunFits(panel, a, os) && RunFits(panel, Run(panel, a, os), more)
    ensures RunFits(panel, a, os + more) && Run(panel, a, os + more) == Run(panel, Run(panel, a, os), more)
    decreases |os|
  {
    hide Step, OutcomeFits;
    if os == [] {
      assert os + more == more;
    } else {
      assert (os + more)[1..] == os[1..] + more;
      RunAppend(panel, Step(panel, a, os[0]), os[1..], more);
    }
  }

  /** Silence from the start on does nothing but count. */
  lemma {:induction false} SilenceCounts(panel: Panel, a: Android, m: nat)
    requires PanelOk(panel) && AndroidOk(a) && a.down == NoneDown(MAX_CONTACTS)
    requires a.noTouch + m < UINT_RANGE && a.readErr == 0
    ensures RunFits(panel, a, Timeouts(m)) && Run(panel, a, Timeouts(m)) == a.(noTouch := a.noTouch + m)
    decreases m
  {
    if m > 0 {
      assert Timeouts(m)[0] == TimedOut && Timeouts(m)[1..] == Timeouts(m - 1);
      SilenceCountsOne(panel, a);
      hide Step, Timeouts;
      SilenceCounts(panel, a.(noTouch := a.noTouch + 1), m - 1);
    }
  }

  lemma SilenceCountsOne(panel: Panel, a: Android)
    requires PanelOk(panel) && AndroidOk(a) && a.down == NoneDown(MAX_CONTACTS)
    requires a.noTouch + 1 < UINT_RANGE && a.readErr == 0
    ensures Step(panel, a, TimedOut) == a.(noTouch := a.noTouch + 1)
  {
    SweepNone(MAX_CONTACTS);
  }

  /** A packet of one record: contact 0 is down. */
  function OneDown(id: byte): seq<byte> {
    seq(RAW_LEN, k => if k == 0 then id else if k == 1 then 3 else if k == 61 then 1 else 0)
  }

  lemma {:induction false} IdleTail(panel: Panel, a: Android, pts: seq<TouchPoint>, m: nat, single: bool)
    requires panel.maxId < |a.down| && m <= |pts| && forall i | m <= i < |pts| :: pts[i].status == 0
    ensures ReportPoints(panel, a, pts, single) == ReportPoints(panel, a, pts[..m], single)
  {
    if m < |pts| {
      IdleTail(panel, a, pts[..|pts| - 1], m, single);
      assert pts[..|pts| - 1][..m] == pts[..m];
    } else {
      assert pts[..m] == pts;
    }
  }

  lemma OneDownReported(panel: Panel, a: Android)
    requires PanelOk(panel) && AndroidOk(a) && 0 <= panel.packageId < 256
    ensures Fits(panel, a, OneDown(panel.packageId))
    ensures var a' := PacketStep(panel, a, OneDown(panel.packageId));
      a'.down == a.down[0 := true] && a'.noTouch == a.noTouch && a'.readErr == a.readErr
  {
    OneDownParsed(panel.packageId);
    hide ParseFirst, OneDown;
    OneDownShown(panel, a, ParseFirst(OneDown(panel.packageId), 6));
  }

  lemma OneDownParsed(id: byte)
    ensures |OneDown(id)| == RAW_LEN && OneDown(id)[0] == id && OneDown(id)[61] == 1
    ensures var pts := ParseFirst(OneDown(id), 6);
      pts[0].id == 0 && pts[0].status == 3 && forall i | 1 <= i < 6 :: pts[i].status == 0
  {
    assert forall i | 1 <= i < 6 :: OneDown(id)[10 * i + 1] == 0;
  }

  lemma OneDownShown(panel: Panel, a: Android, pts: seq<TouchPoint>)
    requires panel.maxId < |a.down| && pts != [] && pts[0].id == 0 && pts[0].status == 3
    requires forall i | 1 <= i < |pts| :: pts[i].status == 0
    ensures ReportPoints(panel, a, pts, true).down == a.down[0 := true]
  {
    IdleTail(panel, a, pts, 1, true);
    assert pts[..1] == [pts[0]] && [pts[0]][..0] == [];
    assert ReportPoints(panel, a, [], true) == a;
    assert ReportPoints(panel, a, pts[..1], true) == ReportOne(panel, a, pts[0], true);
  }

  lemma ContactAfterSilence(panel: Panel)
    requires PanelOk(panel) && 0 <= panel.packageId < 256 && panel.packageId != 0xfb
    ensures var a, o := FreshAndroid().(noTouch := 0xFFFF_FFFF), Packet(OneDown(panel.packageId), true);
      && OutcomeFits(panel, a, o) && ShadowMatches(a) && AndroidOk(Step(panel, a, o))
      && var a' := Step(panel, a, o);
      a'.noTouch == 0xFFFF_FFFF && LiveSlots(a'.log) == {0}
  {
    var a, o := FreshAndroid().(noTouch := 0xFFFF_FFFF), Packet(OneDown(panel.packageId), true);
    FreshIsEmpty();
    OneDownReported(panel, a);
    ShadowOther(FreshAndroid(), a);
    StepKeepsShadow(panel, a, o);
    hide PacketStep, LiveSlots;
    assert DownSlots(Step(panel, a, o).down) == {0};
  }

  /** The run that gets there: a panel of another id that is silent from the start until the
      counter stands at its last value, one contact that comes down, and two timeouts. The
      counter wraps and the contact stays live. */
  lemma LongSilenceKeepsContact(panel: Panel)
    requires PanelOk(panel) && 0 <= panel.packageId < 256 && panel.packageId != 0xfb
    ensures var os := Timeouts(0xFFFF_FFFF) + [Packet(OneDown(panel.packageId), true)];
      && RunFits(panel, FreshAndroid(), os) && AndroidOk(Run(panel, FreshAndroid(), os))
      && LiveSlots(Step(panel, Step(panel, Run(panel, FreshAndroid(), os), TimedOut), TimedOut).log) != {}
  {
    hide *;
    var a, o := FreshAndroid().(noTouch := 0xFFFF_FFFF), Packet(OneDown(panel.packageId), true);
    LongSilenceRun(panel, Timeouts(0xFFFF_FFFF));
    ContactAfterSilence(panel);
    OneRun(panel, a, o);
    RunAppend(panel, FreshAndroid(), Timeouts(0xFFFF_FFFF), [o]);
    StepKeepsShadow(panel, a, o);
    TwoTimeoutsRelease(panel, Step(panel, a, o));
  }

  lemma LongSilenceRun(panel: Panel, os: seq<Outcome>)
    requires PanelOk(panel) && os == Timeouts(0xFFFF_FFFF)
    ensures RunFits(panel, FreshAndroid(), os)
    ensures Run(panel, FreshAndroid(), os) == FreshAndroid().(noTouch := 0xFFFF_FFFF)
  {
    hide Timeouts, Run, RunFits;
    FreshIsEmpty();
    SilenceCounts(panel, FreshAndroid(), 0xFFFF_FFFF);
  }

  lemma OneRun(panel: Panel, a: Android, o: Outcome)
    requires OutcomeFits(panel, a, o)
    ensures RunFits(panel, a, [o]) && Run(panel, a, [o]) == Step(panel, a, o)
  {
    assert [o][1..] == [];
  }

  // --------------------------------------------------- a packet, contact by contact

  /** Slot s stands in a' as it stood in a: whether it is recorded as down, its tracking id and
      what is drawn of it. */
  ghost predicate SameSlot(a: Android, a': Android, s: int) {
    && |a'.down| == |a.down| && (0 <= s < |a.down| ==> a'.down[s] == a.down[s])
    && (s in Ids(a'.log) <==> s in Ids(a.log)) && (s in Ids(a.log) ==> Ids(a'.log)[s] == Ids(a.log)[s])
    && Drawn(a'.log, s) == Drawn(a.log, s)
  }

  /** A contact that a record with this status named last: 0x03 and 0x07 leave it recorded as
      down, live under its own number and drawn as `shown`; 0x02 and 0x04 leave it lifted. */
  ghost predicate LeftAs(a': Android, id: int, status: int, shown: View) {
    && 0 <= id < |a'.down|
    && (status == 0x03 || status == 0x07 ==>
          a'.down[id] && id in Ids(a'.log) && Ids(a'.log)[id] == id && Drawn(a'.log, id) == shown)
    && (status == 0x02 || status == 0x04 ==> !a'.down[id] && id !in Ids(a'.log))
  }

  /** The statuses that put a contact on the device or take it off. */
  predicate Acts(status: int) {
    status == 0x02 || status == 0x03 || status == 0x04 || status == 0x07
  }

  /** What is to be drawn of the record that starts one byte behind `at`. */
  function ShownAt(d: seq<byte>, at: nat): View
    requires at + 11 <= |d|
  {
    View(d[at + 3] as int + 256 * d[at + 4] as int, d[at + 5] as int + 256 * d[at + 6] as int,
         d[at + 7] as int + 256 * d[at + 8] as int, d[at + 9] as int + 256 * d[at + 10] as int,
         if d[at + 1] / 16 == 3 then 0x141 else if d[at + 1] / 16 == 1 then 1 else 0)
  }

  /** What is to be written for the record that starts one byte behind `at`. */
  function RecordEvents(maxId: nat, d: seq<byte>, at: nat, single: bool): seq<Event>
    requires at + 11 <= |d|
  {
    var id, status, rubber := d[at + 2], d[at + 1] % 16, d[at + 1] / 16 == 3;
    if id > maxId then []
    else if status == 0x03 || status == 0x07 then
      [Slot(id), TrackingId(id)]
        + [PositionX(d[at + 3] as int + 256 * d[at + 4] as int), PositionY(d[at + 5] as int + 256 * d[at + 6] as int)]
        + [TouchMajor(d[at + 7] as int + 256 * d[at + 8] as int)]
        + [TouchMinor(d[at + 9] as int + 256 * d[at + 10] as int)]
        + (if rubber then [ToolType(0x141), BtnToolRubber(1)]
           else [ToolType(if d[at + 1] / 16 == 1 then 1 else 0)])
        + (if single then [BtnTouch(1)] else [])
    else if status == 0x02 || status == 0x04 then
      [Slot(id), TrackingId(-1)] + if rubber then [BtnToolRubber(0)] else []
    else []
  }

  /** What is to be written for the first r records of some packets. */
  function FrameEvents(maxId: nat, raws: seq<seq<byte>>, r: nat, single: bool): seq<Event>
    requires (forall k | 0 <= k < |raws| :: |raws[k]| == 64) && r <= 6 * |raws|
  {
    if r == 0 then []
    else FrameEvents(maxId, raws, r - 1, single)
         + RecordEvents(maxId, raws[(r - 1) / 6], 10 * ((r - 1) % 6), single)
  }

  lemma RecordWrites(panel: Panel, a: Android, raw: seq<byte>, i: nat, single: bool)
    requires panel.maxId < |a.down| && |raw| == 64 && i < 6
    ensures ReportOne(panel, a, Parse(raw, i), single).log == a.log + RecordEvents(panel.maxId, raw, 10 * i, single)
  {
    var p := Parse(raw, i);
    assert GoesDown(p.status) ==> DownEvents(p, single) == RecordEvents(p.id, raw, 10 * i, single);
  }

  lemma {:induction false} ReportWrites(panel: Panel, a: Android, raws: seq<seq<byte>>, r: nat, single: bool)
    requires panel.maxId < |a.down| && (forall k | 0 <= k < |raws| :: |raws[k]| == 64) && r <= 6 * |raws|
    ensures |Points(raws)| == 6 * |raws|
    ensures ReportPoints(panel, a, Points(raws)[..r], single).log == a.log + FrameEvents(panel.maxId, raws, r, single)
  {
    hide Points, ReportOne, RecordEvents, Parse;
    if r > 0 {
      var pts := Points(raws)[..r];
      ReportWrites(panel, a, raws, r - 1, single);
      assert pts[..r - 1] == Points(raws)[..r - 1];
      PointsAt(raws, r - 1);
      RecordWrites(panel, ReportPoints(panel, a, pts[..r - 1], single), raws[(r - 1) / 6], (r - 1) % 6, single);
    }
  }

  /** Record r of some packets is read from packet r / 6, place r % 6. */
  lemma {:induction false} PointsAt(raws: seq<seq<byte>>, r: nat)
    requires (forall k | 0 <= k < |raws| :: |raws[k]| == 64) && r < 6 * |raws|
    ensures |Points(raws)| == 6 * |raws| && Points(raws)[r] == Parse(raws[r / 6], r % 6)
  {
    hide Parse;
    var front := raws[..|raws| - 1];
    if r < 6 * |front| {
      PointsAt(front, r);
      assert front[r / 6] == raws[r / 6];
    } else {
      assert r / 6 == |front|;
    }
  }

  function ShownOf(p: TouchPoint): View {
    View(p.x, p.y, p.width, p.height, ShownTool(p))
  }

  /** A record read from its bytes. */
  ghost predicate ReadFrom(p: TouchPoint, d: seq<byte>, at: nat) {
    at + 11 <= |d| && p.id == d[at + 2] && p.status == d[at + 1] % 16 && ShownOf(p) == ShownAt(d, at)
  }

  lemma ParseIs(raw: seq<byte>, i: nat)
    requires |raw| == 64 && i < 6
    ensures ReadFrom(Parse(raw, i), raw, 10 * i)
  {}

  lemma OtherSlot(panel: Panel, a: Android, p: TouchPoint, single: bool, s: int)
    requires panel.maxId < |a.down| && (s != p.id || p.id > panel.maxId || !Acts(p.status))
    ensures SameSlot(a, ReportOne(panel, a, p, single), s)
  {
    ReportOneIds(panel, a, p, single);
    ReportOneShows(panel, a, p, single, s);
    hide Ids, Drawn;
  }

  lemma OwnSlot(panel: Panel, a: Android, p: TouchPoint, single: bool)
    requires panel.maxId < |a.down| && p.id <= panel.maxId
    ensures LeftAs(ReportOne(panel, a, p, single), p.id, p.status, ShownOf(p))
  {
    ReportOneIds(panel, a, p, single);
    ReportOneShows(panel, a, p, single, p.id);
    hide Ids, Drawn;
  }

  lemma {:induction false} UnnamedSlot(panel: Panel, a: Android, pts: seq<TouchPoint>, single: bool, s: int)
    requires panel.maxId < |a.down|
    requires forall j | 0 <= j < |pts| :: pts[j].id != s || pts[j].id > panel.maxId || !Acts(pts[j].status)
    ensures SameSlot(a, ReportPoints(panel, a, pts, single), s)
  {
    hide Ids, Drawn, ReportOne, Acts;
    if pts != [] {
      UnnamedSlot(panel, a, pts[..|pts| - 1], single, s);
      OtherSlot(panel, ReportPoints(panel, a, pts[..|pts| - 1], single), pts[|pts| - 1], single, s);
    }
  }

  lemma StaysLeft(a: Android, a': Android, id: int, status: int, shown: View)
    requires LeftAs(a, id, status, shown) && SameSlot(a, a', id)
    ensures LeftAs(a', id, status, shown)
  {
    hide Ids, Drawn;
  }

  lemma {:induction false} LastNamed(panel: Panel, a: Android, pts: seq<TouchPoint>, single: bool, i: nat)
    requires panel.maxId < |a.down| && i < |pts| && pts[i].id <= panel.maxId
    requires forall j | i < j < |pts| :: pts[j].id != pts[i].id || !Acts(pts[j].status)
    ensures LeftAs(ReportPoints(panel, a, pts, single), pts[i].id, pts[i].status, ShownOf(pts[i]))
  {
    hide LeftAs, SameSlot, ReportOne, Acts, ShownOf;
    var front, last := pts[..|pts| - 1], pts[|pts| - 1];
    var w1 := ReportPoints(panel, a, front, single);
    if i < |front| {
      assert front[i] == pts[i];
      LastNamed(panel, a, front, single, i);
      OtherSlot(panel, w1, last, single, pts[i].id);
      StaysLeft(w1, ReportOne(panel, w1, last, single), pts[i].id, pts[i].status, ShownOf(pts[i]));
    } else {
      OwnSlot(panel, w1, last, single);
    }
  }

  lemma {:induction false} ReportHasNoSync(panel: Panel, a: Android, pts: seq<TouchPoint>, single: bool)
    requires panel.maxId < |a.down|
    ensures SyncCount(ReportPoints(panel, a, pts, single).log) == SyncCount(a.log)
  {
    hide SyncCount, ReportOne;
    if pts != [] {
      ReportHasNoSync(panel, a, pts[..|pts| - 1], single);
      PointHasNoSync(panel, ReportPoints(panel, a, pts[..|pts| - 1], single), pts[|pts| - 1], single);
    }
  }

  lemma PointHasNoSync(panel: Panel, a: Android, p: TouchPoint, single: bool)
    requires panel.maxId < |a.down|
    ensures SyncCount(ReportOne(panel, a, p, single).log) == SyncCount(a.log)
  {
    hide SyncCount;
    var more := if p.id > panel.maxId then [] else if GoesDown(p.status) then DownEvents(p, single)
                else if GoesUp(p.status) then UpEvents(p) else [];
    assert ReportOne(panel, a, p, single).log == a.log + more;
    NoSync(more);
    SyncAppend(a.log, more);
  }

  /** Syncs behind a report change nothing else. */
  lemma {:induction false} SyncsOnly(log: seq<Event>, h: nat, s: int)
    ensures Ids(log + Syncs(h)) == Ids(log) && Drawn(log + Syncs(h), s) == Drawn(log, s)
    ensures SyncCount(log + Syncs(h)) == SyncCount(log) + h
  {
    if h == 0 {
      assert log + Syncs(0) == log;
    } else {
      SyncsOnly(log, h - 1, s);
      var before := log + Syncs(h - 1);
      assert log + Syncs(h) == before + [SynReport] && (before + [SynReport])[..|before|] == before;
      ConsumeQuiet(before, [SynReport]);
      DrawnQuiet(before, [SynReport], s);
    }
  }

  function Syncs(h: nat): seq<Event> {
    seq(h, _ => SynReport)
  }

  lemma SyncedSlot(a: Android, h: nat, s: int)
    ensures SameSlot(a, a.(log := a.log + Syncs(h)), s)
  {
    SyncsOnly(a.log, h, s);
    hide Ids, Drawn;
  }

  lemma SameSlotToo(a: Android, b: Android, b': Android, s: int)
    requires SameSlot(a, b, s) && b'.log == b.log && b'.down == b.down
    ensures SameSlot(a, b', s)
  {}

  lemma SameSlotTrans(a: Android, b: Android, c: Android, s: int)
    requires SameSlot(a, b, s) && SameSlot(b, c, s)
    ensures SameSlot(a, c, s)
  {
    hide Ids, Drawn;
  }

  /** A packet of another id changes nothing; a one-packet frame has its six records reported
      and then one sync. */
  lemma OnePacketIs(panel: Panel, a: Android, raw: seq<byte>)
    requires Fits(panel, a, raw)
    ensures |raw| == 64 == RAW_LEN && panel.maxId < |a.down|
    ensures raw[0] != panel.packageId ==> PacketStep(panel, a, raw) == a
    ensures raw[0] == panel.packageId && 0 < raw[61] <= 6 ==>
      var r, a' := ReportPoints(panel, a, ParseFirst(raw, 6), true), PacketStep(panel, a, raw);
      a'.log == r.log + Syncs(1) && a'.down == r.down
    ensures forall j | 0 <= j < 6 :: ReadFrom(ParseFirst(raw, 6)[j], raw, 10 * j)
  {
    hide ReportPoints;
    assert Syncs(1) == [SynReport];
    forall j | 0 <= j < 6 ensures ReadFrom(ParseFirst(raw, 6)[j], raw, 10 * j) {
      ParseIs(raw, j);
    }
  }

  /** What a one-packet frame does to a contact, from the bytes of the packet on: the last record
      that names it and has a status that acts decides. */
  lemma OnePacketShowsRecord(panel: Panel, a: Android, raw: seq<byte>, i: nat)
    requires Fits(panel, a, raw) && raw[0] == panel.packageId && 0 < raw[61] <= 6
    requires i < 6 && raw[10 * i + 2] <= panel.maxId
    requires forall j | i < j < 6 :: raw[10 * j + 2] != raw[10 * i + 2] || !Acts(raw[10 * j + 1] % 16)
    ensures LeftAs(PacketStep(panel, a, raw), raw[10 * i + 2], raw[10 * i + 1] % 16, ShownAt(raw, 10 * i))
  {
    hide *;
    OnePacketIs(panel, a, raw);
    var pts := ParseFirst(raw, 6);
    SixRecords(raw);
    forall j | 0 <= j < 6 ensures pts[j].id == raw[10 * j + 2] && pts[j].status == raw[10 * j + 1] % 16
                                  && ShownOf(pts[j]) == ShownAt(raw, 10 * j) {
      FieldsOf(pts[j], raw, 10 * j);
    }
    LastNamed(panel, a, pts, true, i);
    var r := ReportPoints(panel, a, pts, true);
    SyncedSlot(r, 1, pts[i].id);
    SameSlotToo(r, r.(log := r.log + Syncs(1)), PacketStep(panel, a, raw), pts[i].id);
    StaysLeft(r, PacketStep(panel, a, raw), pts[i].id, pts[i].status, ShownOf(pts[i]));
  }

  lemma FieldsOf(p: TouchPoint, d: seq<byte>, at: nat)
    requires ReadFrom(p, d, at)
    ensures at + 11 <= |d| && p.id == d[at + 2] && p.status == d[at + 1] % 16 && ShownOf(p) == ShownAt(d, at)
  {}

  lemma SixRecords(raw: seq<byte>)
    requires |raw| == 64
    ensures |ParseFirst(raw, 6)| == 6
  {}

  /** A one-packet frame leaves every slot alone that none of its records acts on. */
  lemma OnePacketLeavesOthers(panel: Panel, a: Android, raw: seq<byte>, s: int)
    requires Fits(panel, a, raw) && raw[0] == panel.packageId && 0 < raw[61] <= 6
    requires s > panel.maxId || forall j | 0 <= j < 6 :: raw[10 * j + 2] != s || !Acts(raw[10 * j + 1] % 16)
    ensures SameSlot(a, PacketStep(panel, a, raw), s)
  {
    hide *;
    OnePacketIs(panel, a, raw);
    var pts := ParseFirst(raw, 6);
    SixRecords(raw);
    forall j | 0 <= j < 6 ensures pts[j].id == raw[10 * j + 2] && pts[j].status == raw[10 * j + 1] % 16 {
      FieldsOf(pts[j], raw, 10 * j);
    }
    UnnamedSlot(panel, a, pts, true, s);
    var r := ReportPoints(panel, a, pts, true);
    SyncedSlot(r, 1, s);
    SameSlotTrans(a, r, r.(log := r.log + Syncs(1)), s);
    SameSlotToo(a, r.(log := r.log + Syncs(1)), PacketStep(panel, a, raw), s);
  }

  /** A one-packet frame ends in one sync and holds no other. */
  lemma OnePacketSyncsOnce(panel: Panel, a: Android, raw: seq<byte>)
    requires Fits(panel, a, raw) && raw[0] == panel.packageId && 0 < raw[61] <= 6
    ensures var log := PacketStep(panel, a, raw).log;
      log != [] && log[|log| - 1] == SynReport && SyncCount(log) == SyncCount(a.log) + 1
  {
    hide *;
    OnePacketIs(panel, a, raw);
    var r := ReportPoints(panel, a, ParseFirst(raw, 6), true);
    ReportHasNoSync(panel, a, ParseFirst(raw, 6), true);
    SyncsOnly(r.log, 1, 0);
    LastSync(r.log, 1);
  }

  /** All that a one-packet frame writes: its records in their order, and one sync. */
  lemma OnePacketWrites(panel: Panel, a: Android, raw: seq<byte>)
    requires Fits(panel, a, raw) && raw[0] == panel.packageId && 0 < raw[61] <= 6
    ensures |[raw]| == 1 && |raw| == 64
    ensures PacketStep(panel, a, raw).log == a.log + FrameEvents(panel.maxId, [raw], 6, true) + [SynReport]
  {
    hide *;
    OnePacketIs(panel, a, raw);
    ReportWrites(panel, a, [raw], 6, true);
    PointsOfOne(raw);
    SyncsOne();
  }

  lemma SyncsOne()
    ensures Syncs(1) == [SynReport]
  {}

  lemma PointsOfOne(raw: seq<byte>)
    requires |raw| == 64 == RAW_LEN
    ensures |Points([raw])| == 6 && Points([raw])[..6] == ParseFirst(raw, 6)
  {
    assert [raw][..0] == [];
  }

  lemma LastSync(log: seq<Event>, h: nat)
    requires h > 0
    ensures log + Syncs(h) != [] && (log + Syncs(h))[|log + Syncs(h)| - 1] == SynReport
  {}

  // --------------------------------------------------- frames of many packets

  /** All records of some packets, in order. */
  function Points(raws: seq<seq<byte>>): (pts: seq<TouchPoint>)
    requires forall k | 0 <= k < |raws| :: |raws[k]| == RAW_LEN
    ensures |pts| == 6 * |raws|
  {
    if raws == [] then [] else Points(raws[..|raws| - 1]) + ParseFirst(raws[|raws| - 1], 6)
  }

  ghost predicate PacketsFit(panel: Panel, a: Android, raws: seq<seq<byte>>)
    decreases |raws|
  {
    raws == [] || (Fits(panel, a, raws[0]) && PacketsFit(panel, PacketStep(panel, a, raws[0]), raws[1..]))
  }

  ghost function PacketRun(panel: Panel, a: Android, raws: seq<seq<byte>>): Android
    requires PacketsFit(panel, a, raws)
    decreases |raws|
  {
    if raws == [] then a else PacketRun(panel, PacketStep(panel, a, raws[0]), raws[1..])
  }

  lemma {:induction false} PacketRunSnoc(panel: Panel, a: Android, raws: seq<seq<byte>>, raw: seq<byte>)
    requires PacketsFit(panel, a, raws) && Fits(panel, PacketRun(panel, a, raws), raw)
    ensures PacketsFit(panel, a, raws + [raw])
    ensures PacketRun(panel, a, raws + [raw]) == PacketStep(panel, PacketRun(panel, a, raws), raw)
    decreases |raws|
  {
    hide PacketStep, Fits;
    if raws == [] {
      assert ([] + [raw])[1..] == [];
    } else {
      assert (raws + [raw])[1..] == raws[1..] + [raw];
      PacketRunSnoc(panel, PacketStep(panel, a, raws[0]), raws[1..], raw);
    }
  }

  lemma {:induction false} PresentAppend(a: seq<TouchPoint>, b: seq<TouchPoint>)
    ensures Present(a + b) == Present(a) + Present(b)
  {
    if b == [] {
      assert a + b == a;
    } else {
      assert (a + b)[..|a + b| - 1] == a + b[..|b| - 1];
      PresentAppend(a, b[..|b| - 1]);
    }
  }

  /** How many records with a status some packets bring. */
  function Gathered(raws: seq<seq<byte>>): nat
    requires forall k | 0 <= k < |raws| :: |raws[k]| == RAW_LEN
  {
    |Present(Points(raws))|
  }

  /** Packets behind a first one that announces n > 6 points, however many there are and
      whatever they hold, as long as the point table has room. */
  ghost predicate LargeFrame(panel: Panel, raws: seq<seq<byte>>, n: nat) {
    && n > 6 && raws != []
    && (forall k | 0 <= k < |raws| ::
          |raws[k]| == 64 && raws[k][0] == panel.packageId && raws[k][61] == if k == 0 then n else 0)
    && Gathered(raws) <= 42
  }

  /** How many packets behind the first leave the number of records gathered at n. */
  function Hits(raws: seq<seq<byte>>, n: nat): nat
    requires forall k | 0 <= k < |raws| :: |raws[k]| == RAW_LEN
  {
    if |raws| <= 1 then 0 else Hits(raws[..|raws| - 1], n) + if Gathered(raws) == n then 1 else 0
  }

  lemma HitsSnoc(raws: seq<seq<byte>>, raw: seq<byte>, n: nat)
    requires (forall k | 0 <= k < |raws| :: |raws[k]| == RAW_LEN) && |raw| == RAW_LEN && raws != []
    ensures Hits(raws + [raw], n) == Hits(raws, n) + if Gathered(raws + [raw]) == n then 1 else 0
  {
    assert (raws + [raw])[..|raws|] == raws;
  }

  /** Where the reporter, once in state a, stands behind packets of a large frame that bring
      the records `present` and hit the announced number h times. */
  ghost predicate Stands(panel: Panel, a: Android, g: Android, present: seq<TouchPoint>, h: nat, n: nat)
    requires PanelOk(panel) && |a.down| == MAX_CONTACTS
  {
    && AndroidOk(g) && g.got == |present| && g == a.(pts := g.pts, got := g.got, total := n, log := g.log, down := g.down)
    && (|present| < n ==> h == 0 && g.pts[..|present|] == present)
    && (|present| == n ==> h > 0 && g.pts == Blanks(MAX_CONTACTS))
    && (h == 0 ==> g.log == a.log && g.down == a.down)
    && (h > 0 ==> n <= |present| && HasReported(panel, a, g, present[..n], h))
  }

  /** The points have been reported once, with one sync, and h - 1 lone syncs followed. */
  ghost predicate HasReported(panel: Panel, a: Android, g: Android, pts: seq<TouchPoint>, h: nat)
    requires panel.maxId < |a.down|
  {
    var r := ReportPoints(panel, a, pts, false);
    g.log == r.log + Syncs(h) && g.down == r.down
  }

  lemma {:induction false} BlanksAreIdle(panel: Panel, a: Android, n: nat)
    requires panel.maxId < |a.down|
    ensures ReportPoints(panel, a, Blanks(n), false) == a
  {
    if n > 0 {
      assert Blanks(n)[..n - 1] == Blanks(n - 1);
      BlanksAreIdle(panel, a, n - 1);
    }
  }

  /** The first packet of a frame fills the table from its start. */
  lemma FirstOfFrame(panel: Panel, a: Android, raw: seq<byte>, n: nat)
    requires PanelOk(panel) && AndroidOk(a) && |raw| == RAW_LEN && raw[0] == panel.packageId
    requires raw[61] == n > 6
    ensures Fits(panel, a, raw) && Stands(panel, a, PacketStep(panel, a, raw), Present(Points([raw])), Hits([raw], n), n)
  {
    var present := Present(ParseFirst(raw, 6));
    assert [raw][..0] == [];
    assert Points([raw]) == ParseFirst(raw, 6);
    hide ParseFirst;
    assert [] + present == present;
  }

  /** What a later packet of a frame does, by how many records there are with it. */
  lemma NextOfFrame(panel: Panel, a: Android, g: Android, raws: seq<seq<byte>>, raw: seq<byte>, n: nat)
    requires PanelOk(panel) && AndroidOk(a) && (forall k | 0 <= k < |raws| :: |raws[k]| == RAW_LEN) && raws != []
    requires |raw| == RAW_LEN && raw[0] == panel.packageId && raw[61] == 0
    requires Gathered(raws + [raw]) <= MAX_CONTACTS && Stands(panel, a, g, Present(Points(raws)), Hits(raws, n), n)
    ensures Fits(panel, g, raw)
    ensures Stands(panel, a, PacketStep(panel, g, raw), Present(Points(raws + [raw])), Hits(raws + [raw], n), n)
  {
    var present, more := Present(Points(raws)), Present(ParseFirst(raw, 6));
    StandsFits(panel, a, g, present, Hits(raws, n), n);
    PointsSnoc(raws, raw);
    HitsSnoc(raws, raw, n);
    GatheredIs(raws + [raw]);
    hide *;
    PacketBehind(panel, g, raw);
    StandsNext(panel, a, g, present, more, Hits(raws, n), n);
  }

  lemma GatheredIs(raws: seq<seq<byte>>)
    requires forall k | 0 <= k < |raws| :: |raws[k]| == RAW_LEN
    ensures Gathered(raws) == |Present(Points(raws))|
  {}

  lemma StandsFits(panel: Panel, a: Android, g: Android, present: seq<TouchPoint>, h: nat, n: nat)
    requires PanelOk(panel) && AndroidOk(a) && Stands(panel, a, g, present, h, n)
    ensures AndroidOk(g) && g.got == |present| && g.total == n
    ensures |a.down| == |g.down| == |g.pts| == MAX_CONTACTS && panel.maxId < MAX_CONTACTS
  {}

  ghost function Stored(panel: Panel, stored: Android): Android
    requires panel.maxId < |stored.down| && stored.got <= |stored.pts|
  {
    if stored.got == stored.total then Reported(panel, stored, stored.pts[..stored.got], false) else stored
  }

  lemma StandsNext(panel: Panel, a: Android, g: Android, present: seq<TouchPoint>, more: seq<TouchPoint>, h: nat, n: nat)
    requires PanelOk(panel) && |a.down| == |g.down| == |g.pts| == MAX_CONTACTS && g.got == |present|
    requires Stands(panel, a, g, present, h, n) && |present + more| <= MAX_CONTACTS
    ensures Stands(panel, a, Stored(panel, Put(g, more)), present + more, h + if |present + more| == n then 1 else 0, n)
  {
    var stored, all := Put(g, more), present + more;
    assert |present| < n ==> stored.pts[..|all|] == all;
    hide Reported, ReportPoints, Blanks, HasReported;
    if |all| == n {
      assert all[..n] == all;
      if |present| < n {
        FrameComplete(panel, a, stored, all);
      } else {
        assert more == [] && stored.pts == g.pts && present[..n] == all[..n];
        HasReportedToo(panel, a, g, stored, all, h);
        FrameAgain(panel, a, stored, all, h);
      }
    } else if h > 0 {
      assert all[..n] == present[..n];
      HasReportedToo(panel, a, g, stored, all[..n], h);
    }
  }

  lemma HasReportedToo(panel: Panel, a: Android, g: Android, g': Android, pts: seq<TouchPoint>, h: nat)
    requires panel.maxId < |a.down| && HasReported(panel, a, g, pts, h) && g'.log == g.log && g'.down == g.down
    ensures HasReported(panel, a, g', pts, h)
  {}

  lemma PointsSnoc(raws: seq<seq<byte>>, raw: seq<byte>)
    requires (forall k | 0 <= k < |raws| :: |raws[k]| == RAW_LEN) && |raw| == RAW_LEN
    ensures Present(Points(raws + [raw])) == Present(Points(raws)) + Present(ParseFirst(raw, 6))
  {
    assert (raws + [raw])[..|raws|] == raws;
    PresentAppend(Points(raws), ParseFirst(raw, 6));
  }

  lemma PacketBehind(panel: Panel, g: Android, raw: seq<byte>)
    requires PanelOk(panel) && AndroidOk(g) && |raw| == RAW_LEN
    requires raw[0] == panel.packageId && raw[61] == 0
    requires g.got + |Present(ParseFirst(raw, 6))| <= MAX_CONTACTS
    ensures Fits(panel, g, raw)
    ensures PacketStep(panel, g, raw) == Stored(panel, Put(g, Present(ParseFirst(raw, 6))))
  {}

  lemma FrameComplete(panel: Panel, a: Android, stored: Android, pts: seq<TouchPoint>)
    requires PanelOk(panel) && |a.down| == MAX_CONTACTS && |stored.pts| == MAX_CONTACTS
    requires stored.log == a.log && stored.down == a.down
    ensures var g := Reported(panel, stored, pts, false);
      && HasReported(panel, a, g, pts, 1) && g.pts == Blanks(MAX_CONTACTS)
      && g == stored.(pts := g.pts, log := g.log, down := g.down)
  {
    ReportFrame(panel, a, stored, pts, false);
    assert Syncs(1) == [SynReport];
  }

  lemma FrameAgain(panel: Panel, a: Android, stored: Android, pts: seq<TouchPoint>, h: nat)
    requires PanelOk(panel) && |a.down| == |stored.down| == MAX_CONTACTS && stored.pts == Blanks(MAX_CONTACTS)
    requires stored.got <= MAX_CONTACTS && HasReported(panel, a, stored, pts, h)
    ensures var g := Reported(panel, stored, stored.pts[..stored.got], false);
      && HasReported(panel, a, g, pts, h + 1) && g == stored.(log := g.log)
  {
    assert stored.pts[..stored.got] == Blanks(stored.got);
    BlanksAreIdle(panel, stored, stored.got);
    assert Syncs(h) + [SynReport] == Syncs(h + 1);
  }

  lemma LargeFrameFront(panel: Panel, raws: seq<seq<byte>>, n: nat)
    requires LargeFrame(panel, raws, n) && |raws| > 1
    ensures LargeFrame(panel, raws[..|raws| - 1], n)
  {
    PointsSnoc(raws[..|raws| - 1], raws[|raws| - 1]);
    assert raws[..|raws| - 1] + [raws[|raws| - 1]] == raws;
  }

  lemma {:induction false} LargeFramePrefix(panel: Panel, raws: seq<seq<byte>>, n: nat, k: nat)
    requires LargeFrame(panel, raws, n) && 1 <= k <= |raws|
    ensures LargeFrame(panel, raws[..k], n)
    decreases |raws|
  {
    if k < |raws| {
      LargeFrameFront(panel, raws, n);
      assert raws[..|raws| - 1][..k] == raws[..k];
      LargeFramePrefix(panel, raws[..|raws| - 1], n, k);
    } else {
      assert raws[..k] == raws;
    }
  }

  lemma {:induction false} LargeFrameRun(panel: Panel, a: Android, raws: seq<seq<byte>>, n: nat)
    requires PanelOk(panel) && AndroidOk(a) && LargeFrame(panel, raws, n)
    ensures PacketsFit(panel, a, raws)
    ensures Stands(panel, a, PacketRun(panel, a, raws), Present(Points(raws)), Hits(raws, n), n)
  {
    var front, last := raws[..|raws| - 1], raws[|raws| - 1];
    assert raws == front + [last];
    if front == [] {
      FirstOfFrame(panel, a, last, n);
      hide PacketStep, Stands, Fits;
      PacketRunSnoc(panel, a, [], last);
    } else {
      LargeFrameFront(panel, raws, n);
      hide PacketStep, Stands, Fits, PacketRun, PacketsFit;
      LargeFrameRun(panel, a, front, n);
      NextOfFrame(panel, a, PacketRun(panel, a, front), front, last, n);
      PacketRunSnoc(panel, a, front, last);
    }
  }

  lemma {:induction false} HitsExactly(raws: seq<seq<byte>>, n: nat)
    requires forall k | 0 <= k < |raws| :: |raws[k]| == RAW_LEN
    ensures Hits(raws, n) > 0 <==> exists k | 2 <= k <= |raws| :: Gathered(raws[..k]) == n
  {
    hide Gathered;
    if |raws| > 1 {
      var front := raws[..|raws| - 1];
      HitsExactly(front, n);
      assert raws[..|raws|] == raws;
      if k :| 2 <= k <= |raws| && Gathered(raws[..k]) == n {
        assert k < |raws| ==> front[..k] == raws[..k];
      }
      if k :| 2 <= k <= |front| && Gathered(front[..k]) == n {
        assert front[..k] == raws[..k];
      }
    }
  }

  /** Android reassembly, exactly, for a frame announcing n > 6 points in any number of
      packets, and so for each of its prefixes. Nothing is written until a packet behind the
      first brings the number of records with a status to n; that packet has these n reported,
      in their order, with one sync. A later packet that adds none writes a lone sync, every
      other one nothing; and if the number jumps past n nothing is ever written. */
  lemma LargeFrameReportedOnce(panel: Panel, a: Android, raws: seq<seq<byte>>, n: nat)
    requires PanelOk(panel) && AndroidOk(a) && LargeFrame(panel, raws, n)
    ensures PacketsFit(panel, a, raws) && forall k | 1 <= k <= |raws| :: LargeFrame(panel, raws[..k], n)
    ensures var a', present, h := PacketRun(panel, a, raws), Present(Points(raws)), Hits(raws, n);
      && a'.got == |present| && a'.total == n
      && (h > 0 <==> exists k | 2 <= k <= |raws| :: Gathered(raws[..k]) == n)
      && (h == 0 ==> a'.log == a.log && a'.down == a.down)
      && (h > 0 ==>
            && n <= |present|
            && a'.log == ReportPoints(panel, a, present[..n], false).log + Syncs(h)
            && a'.down == ReportPoints(panel, a, present[..n], false).down)
  {
    forall k | 1 <= k <= |raws| ensures LargeFrame(panel, raws[..k], n) {
      LargeFramePrefix(panel, raws, n, k);
    }
    HitsExactly(raws, n);
    LargeFrameRun(panel, a, raws, n);
    hide Hits, PacketRun, PacketsFit, Present, Points, ReportPoints, LargeFrame, Gathered;
  }

  lemma {:induction false} PresentSuffice(panel: Panel, a: Android, pts: seq<TouchPoint>, single: bool)
    requires panel.maxId < |a.down|
    ensures ReportPoints(panel, a, Present(pts), single) == ReportPoints(panel, a, pts, single)
  {
    if pts != [] {
      var front, last := pts[..|pts| - 1], pts[|pts| - 1];
      PresentSuffice(panel, a, front, single);
      if last.status != 0 {
        assert Present(pts) == Present(front) + [last];
        assert Present(pts)[..|Present(pts)| - 1] == Present(front);
      } else {
        assert Present(pts) == Present(front);
      }
    }
  }

  /** A large frame that has brought the announced number of records has had all its records
      reported, with as many syncs as packets left the number there. */
  lemma CompleteFrame(panel: Panel, a: Android, raws: seq<seq<byte>>, n: nat)
    requires PanelOk(panel) && AndroidOk(a) && LargeFrame(panel, raws, n) && |raws| >= 2
    requires (forall k | 0 <= k < |raws| :: |raws[k]| == 64) && Gathered(raws) == n
    ensures PacketsFit(panel, a, raws) && Hits(raws, n) > 0 && panel.maxId < |a.down| && RAW_LEN == 64
    ensures var r, a' := ReportPoints(panel, a, Points(raws), false), PacketRun(panel, a, raws);
      a'.log == r.log + Syncs(Hits(raws, n)) && a'.down == r.down
  {
    LargeFrameReportedOnce(panel, a, raws, n);
    PresentSuffice(panel, a, Points(raws), false);
    var present := Present(Points(raws));
    assert present[..n] == present && raws[..|raws|] == raws;
    hide PacketRun, PacketsFit, Present, Points, ReportPoints, Hits;
  }

  /** How many records with a status some packets bring, counted on their bytes. */
  lemma GatheredCounts(raws: seq<seq<byte>>)
    requires forall k | 0 <= k < |raws| :: |raws[k]| == 64
    ensures Gathered(raws) == |WithStatus(raws, 6 * |raws|)|
  {
    PresentCounts(raws, 6 * |raws|);
    assert Points(raws)[..6 * |raws|] == Points(raws);
  }

  /** The records with a status among the first r of some packets. */
  ghost function WithStatus(raws: seq<seq<byte>>, r: nat): set<int>
    requires (forall k | 0 <= k < |raws| :: |raws[k]| == 64) && r <= 6 * |raws|
  {
    set j | 0 <= j < r && raws[j / 6][10 * (j % 6) + 1] % 16 != 0
  }

  lemma {:induction false} PresentCounts(raws: seq<seq<byte>>, r: nat)
    requires (forall k | 0 <= k < |raws| :: |raws[k]| == 64) && r <= 6 * |raws|
    ensures |Points(raws)| == 6 * |raws| && |Present(Points(raws)[..r])| == |WithStatus(raws, r)|
  {
    hide Points, WithStatus, Parse;
    WithStatusNext(raws, r);
    if r > 0 {
      var pts := Points(raws)[..r];
      PresentCounts(raws, r - 1);
      PointsAt(raws, r - 1);
      ParseIs(raws[(r - 1) / 6], (r - 1) % 6);
      assert pts[..r - 1] == Points(raws)[..r - 1];
    }
  }

  lemma WithStatusNext(raws: seq<seq<byte>>, r: nat)
    requires (forall k | 0 <= k < |raws| :: |raws[k]| == 64) && r <= 6 * |raws|
    ensures r == 0 ==> WithStatus(raws, r) == {}
    ensures r > 0 ==> r - 1 !in WithStatus(raws, r - 1)
    ensures r > 0 ==>
      var added := if raws[(r - 1) / 6][10 * ((r - 1) % 6) + 1] % 16 != 0 then {r - 1} else {};
      WithStatus(raws, r) == WithStatus(raws, r - 1) + added
  {}

  /** All that a complete large frame writes: its records in their order, without the touch
      button, and the syncs. */
  lemma LargeFrameWrites(panel: Panel, a: Android, raws: seq<seq<byte>>, n: nat)
    requires PanelOk(panel) && AndroidOk(a) && LargeFrame(panel, raws, n) && |raws| >= 2
    requires (forall k | 0 <= k < |raws| :: |raws[k]| == 64) && Gathered(raws) == n
    ensures PacketsFit(panel, a, raws)
    ensures PacketRun(panel, a, raws).log
         == a.log + FrameEvents(panel.maxId, raws, 6 * |raws|, false) + Syncs(Hits(raws, n))
  {
    hide *;
    CompleteFrame(panel, a, raws, n);
    ReportWrites(panel, a, raws, 6 * |raws|, false);
    assert Points(raws)[..6 * |raws|] == Points(raws);
  }

  /** What a complete large frame does to a contact, from the bytes of its packets on. */
  lemma LargeFrameShowsRecord(panel: Panel, a: Android, raws: seq<seq<byte>>, n: nat, i: nat)
    requires PanelOk(panel) && AndroidOk(a) && LargeFrame(panel, raws, n) && |raws| >= 2
    requires (forall k | 0 <= k < |raws| :: |raws[k]| == 64) && Gathered(raws) == n
    requires i < 6 * |raws| && raws[i / 6][10 * (i % 6) + 2] <= panel.maxId
    requires forall j | i < j < 6 * |raws| ::
      raws[j / 6][10 * (j % 6) + 2] != raws[i / 6][10 * (i % 6) + 2] || !Acts(raws[j / 6][10 * (j % 6) + 1] % 16)
    ensures PacketsFit(panel, a, raws)
    ensures var d, at := raws[i / 6], 10 * (i % 6);
      LeftAs(PacketRun(panel, a, raws), d[at + 2], d[at + 1] % 16, ShownAt(d, at))
  {
    hide *;
    CompleteFrame(panel, a, raws, n);
    var pts, a' := Points(raws), PacketRun(panel, a, raws);
    forall j | 0 <= j < 6 * |raws|
      ensures |pts| == 6 * |raws| && ReadFrom(pts[j], raws[j / 6], 10 * (j % 6))
    {
      PointsAt(raws, j);
      ParseIs(raws[j / 6], j % 6);
    }
    forall j | i <= j < 6 * |raws|
      ensures pts[j].id == raws[j / 6][10 * (j % 6) + 2] && pts[j].status == raws[j / 6][10 * (j % 6) + 1] % 16
    {
      FieldsOf(pts[j], raws[j / 6], 10 * (j % 6));
    }
    FieldsOf(pts[i], raws[i / 6], 10 * (i % 6));
    LastNamed(panel, a, pts, false, i);
    var r := ReportPoints(panel, a, pts, false);
    SyncedSlot(r, Hits(raws, n), pts[i].id);
    SameSlotToo(r, r.(log := r.log + Syncs(Hits(raws, n))), a', pts[i].id);
    StaysLeft(r, a', pts[i].id, pts[i].status, ShownOf(pts[i]));
  }

  /** A complete large frame leaves every slot alone that none of its records acts on, and holds
      as many syncs as packets that left the number of records at n. */
  lemma LargeFrameLeavesOthers(panel: Panel, a: Android, raws: seq<seq<byte>>, n: nat, s: int)
    requires PanelOk(panel) && AndroidOk(a) && LargeFrame(panel, raws, n) && |raws| >= 2
    requires (forall k | 0 <= k < |raws| :: |raws[k]| == 64) && Gathered(raws) == n
    requires s > panel.maxId || forall j | 0 <= j < 6 * |raws| ::
      raws[j / 6][10 * (j % 6) + 2] != s || !Acts(raws[j / 6][10 * (j % 6) + 1] % 16)
    ensures PacketsFit(panel, a, raws) && SameSlot(a, PacketRun(panel, a, raws), s)
    ensures SyncCount(PacketRun(panel, a, raws).log) == SyncCount(a.log) + Hits(raws, n)
  {
    hide *;
    CompleteFrame(panel, a, raws, n);
    var pts, a', h := Points(raws), PacketRun(panel, a, raws), Hits(raws, n);
    forall j | 0 <= j < 6 * |raws|
      ensures |pts| == 6 * |raws|
      ensures pts[j].id == raws[j / 6][10 * (j % 6) + 2] && pts[j].status == raws[j / 6][10 * (j % 6) + 1] % 16
    {
      PointsAt(raws, j);
      ParseIs(raws[j / 6], j % 6);
      FieldsOf(pts[j], raws[j / 6], 10 * (j % 6));
    }
    PointsAt(raws, 0);
    UnnamedSlot(panel, a, pts, false, s);
    ReportHasNoSync(panel, a, pts, false);
    var r := ReportPoints(panel, a, pts, false);
    SyncsOnly(r.log, h, s);
    SyncedSlot(r, h, s);
    SameSlotTrans(a, r, r.(log := r.log + Syncs(h)), s);
    SameSlotToo(a, r.(log := r.log + Syncs(h)), a', s);
  }

  /** When the frame comes in as few packets as n points need, only the last one can hit. */
  lemma {:induction false} FewestPackets(panel: Panel, raws: seq<seq<byte>>, n: nat)
    requires LargeFrame(panel, raws, n) && 6 * (|raws| - 1) < n
    ensures Hits(raws, n) == if Gathered(raws) == n then 1 else 0
  {
    if |raws| > 1 {
      var front := raws[..|raws| - 1];
      LargeFrameFront(panel, raws, n);
      FewestPackets(panel, front, n);
      assert Gathered(front) <= 6 * |front|;
    } else {
      assert Gathered(raws) <= 6;
    }
  }

  /** A packet of six records that are all down. */
  function SixDown(id: byte, count: byte): seq<byte> {
    seq(RAW_LEN, k => if k == 0 then id else if k == 61 then count else if k % 10 == 1 then 3 else 0)
  }

  lemma {:induction false} AllPresent(pts: seq<TouchPoint>)
    requires forall i | 0 <= i < |pts| :: pts[i].status != 0
    ensures Present(pts) == pts
  {
    if pts != [] {
      AllPresent(pts[..|pts| - 1]);
    }
  }

  lemma JumpedCounts(id: byte)
    ensures var first, second := SixDown(id, 7), SixDown(id, 0);
      && |first| == |second| == RAW_LEN && Gathered([first]) == 6 && Gathered([first, second]) == 12
  {
    hide *;
    var first, second := SixDown(id, 7), SixDown(id, 0);
    SixDownPresent(id, 7);
    SixDownPresent(id, 0);
    PointsSnoc([], first);
    PointsSnoc([first], second);
    NoPoints();
    assert [] + [first] == [first] && [first] + [second] == [first, second];
    GatheredIs([first]);
    GatheredIs([first, second]);
  }

  lemma JumpedIsLarge(panel: Panel, raws: seq<seq<byte>>)
    requires 0 <= panel.packageId < 256 && raws == [SixDown(panel.packageId, 7), SixDown(panel.packageId, 0)]
    requires (forall k | 0 <= k < |raws| :: |raws[k]| == RAW_LEN) && Gathered(raws) == 12
    ensures LargeFrame(panel, raws, 7)
  {
    hide Gathered;
  }

  /** Seven points announced and twelve records sent: the number gathered jumps from six to
      twelve, and nothing is ever reported. */
  lemma JumpedFrameIsNotReported(panel: Panel, a: Android)
    requires PanelOk(panel) && AndroidOk(a) && 0 <= panel.packageId < 256
    ensures var raws := [SixDown(panel.packageId, 7), SixDown(panel.packageId, 0)];
      && PacketsFit(panel, a, raws) && Gathered(raws) == 12
      && PacketRun(panel, a, raws).log == a.log && PacketRun(panel, a, raws).down == a.down
  {
    hide *;
    var raws := [SixDown(panel.packageId, 7), SixDown(panel.packageId, 0)];
    JumpedCounts(panel.packageId);
    JumpedIsLarge(panel, raws);
    assert forall k | 2 <= k <= |raws| :: raws[..k] == raws;
    LargeFrameReportedOnce(panel, a, raws, 7);
  }

  lemma SixDownPresent(id: byte, count: byte)
    ensures |SixDown(id, count)| == RAW_LEN && SixDown(id, count)[0] == id && SixDown(id, count)[61] == count
    ensures |Present(ParseFirst(SixDown(id, count), 6))| == 6
  {
    var pts := ParseFirst(SixDown(id, count), 6);
    forall i | 0 <= i < 6 ensures pts[i].status != 0 {
      assert SixDown(id, count)[10 * i + 1] == 3;
    }
    AllPresent(pts);
  }

  lemma NoPoints()
    ensures Present(Points([])) == []
  {}
}
