/** work_handler of the UART touch service: packets of up to six points are gathered
    until a frame is complete, then each contact is pressed, moved or released on the
    input device. */
module UartReport {
  import opened Bytes
  import opened ProtocolB

  const MAX_CONTACTS := 40
  const PACKET_LEN := 67
  const POINTS_PER_PACKET := 6
  const COUNT_OFFSET := 65
  const STATUS_PRESS_OR_UP := 0x02
  const STATUS_MOVE := 0x03
  const MT_TOOL_FINGER := 0

  datatype TPoint = TPoint(id: byte, status: byte, x: u16, y: u16, width: u16, height: u16)

  const BLANK := TPoint(0, 0, 0, 0, 0, 0)

  /** Point i of a packet. */
  function Decode(d: seq<byte>, i: nat): TPoint
    requires |d| == PACKET_LEN && i < POINTS_PER_PACKET
  {
    TPoint(d[10 * i + 6], d[10 * i + 5],
           Word(d[10 * i + 7], d[10 * i + 8]), Word(d[10 * i + 9], d[10 * i + 10]),
           Word(d[10 * i + 11], d[10 * i + 12]), Word(d[10 * i + 13], d[10 * i + 14]))
  }

  /** The point whose record starts five bytes behind `at`: status, contact, then position and
      size in little-endian pairs. */
  function PointAt(d: seq<byte>, at: nat): TPoint
    requires at + 15 <= |d|
  {
    TPoint(d[at + 6], d[at + 5],
           d[at + 7] as int + 256 * d[at + 8] as int, d[at + 9] as int + 256 * d[at + 10] as int,
           d[at + 11] as int + 256 * d[at + 12] as int, d[at + 13] as int + 256 * d[at + 14] as int)
  }

  lemma PutNothing(w: Work, d: seq<byte>)
    requires |d| == PACKET_LEN && w.recv <= |w.pts|
    ensures |DecodeFirst(d, 0)| == 0 && Put(w, DecodeFirst(d, 0)) == w
  {
    assert w.pts[..w.recv] + [] + w.pts[w.recv + 0..] == w.pts;
  }

  lemma PutNext(w: Work, d: seq<byte>, i: nat)
    requires |d| == PACKET_LEN && i < POINTS_PER_PACKET && w.recv + i < |w.pts|
    ensures |DecodeFirst(d, i)| == i && |DecodeFirst(d, i + 1)| == i + 1 && |Put(w, DecodeFirst(d, i)).pts| == |w.pts|
    ensures Put(w, DecodeFirst(d, i + 1))
         == Put(w, DecodeFirst(d, i)).(recv := w.recv + i + 1,
                                       pts := Put(w, DecodeFirst(d, i)).pts[w.recv + i := Decode(d, i)])
  {
    assert DecodeFirst(d, i + 1) == DecodeFirst(d, i) + [Decode(d, i)];
    assert Put(w, DecodeFirst(d, i + 1)).pts == Put(w, DecodeFirst(d, i)).pts[w.recv + i := Decode(d, i)];
  }

  lemma PutAt(w: Work, d: seq<byte>, k: nat, i: nat)
    requires |d| == PACKET_LEN && i < k <= POINTS_PER_PACKET && w.recv + k <= |w.pts|
    ensures |DecodeFirst(d, k)| == k && |Put(w, DecodeFirst(d, k)).pts| == |w.pts|
    ensures Put(w, DecodeFirst(d, k)).pts[w.recv + i] == PointAt(d, 10 * i)
  {
    DecodeIs(d, i);
    assert DecodeFirst(d, k)[i] == Decode(d, i);
  }

  lemma DecodeIs(d: seq<byte>, i: nat)
    requires |d| == PACKET_LEN && i < POINTS_PER_PACKET
    ensures Decode(d, i) == PointAt(d, 10 * i)
  {}

  function DecodeFirst(d: seq<byte>, k: nat): seq<TPoint>
    requires |d| == PACKET_LEN && k <= POINTS_PER_PACKET
  {
    seq(k, i requires 0 <= i < k => Decode(d, i))
  }

  // ------------------------------------------------------ state and one packet

  datatype Work = Work(all: nat, recv: nat, up: nat, pts: seq<TPoint>, ps: seq<bool>, log: seq<Event>)

  /** What every packet keeps. */
  ghost predicate Ok(w: Work) {
    && |w.pts| == |w.ps| == MAX_CONTACTS
    && w.recv <= w.all <= MAX_CONTACTS
    && (w.recv < w.all ==> w.up == 0)
    && forall p | p in w.pts :: p.id < MAX_CONTACTS
  }

  /** A packet that carries a count starts a new frame. */
  function Opened(w: Work, d: seq<byte>): Work
    requires |d| == PACKET_LEN
  {
    if d[COUNT_OFFSET] > 0 then w.(all := d[COUNT_OFFSET], recv := 0, up := 0) else w
  }

  /** How many points of the packet belong to the frame. */
  function Take(w: Work): nat
    requires w.recv <= w.all
  {
    if w.all - w.recv > POINTS_PER_PACKET then POINTS_PER_PACKET else w.all - w.recv
  }

  /** What the handler takes for granted: counts and contact ids fit the tables. */
  ghost predicate Fits(w: Work, d: seq<byte>) {
    && Ok(w) && |d| == PACKET_LEN && d[COUNT_OFFSET] <= MAX_CONTACTS
    && forall i | 0 <= i < Take(Opened(w, d)) :: Decode(d, i).id < MAX_CONTACTS
  }

  function Put(w: Work, new_: seq<TPoint>): Work
    requires w.recv + |new_| <= |w.pts|
  {
    w.(recv := w.recv + |new_|, pts := w.pts[..w.recv] + new_ + w.pts[w.recv + |new_|..])
  }

  function PressEvents(p: TPoint): seq<Event> {
    [Slot(p.id), TrackingId(p.id), PositionX(p.x), PositionY(p.y),
     TouchMajor(p.width), TouchMinor(p.height), ToolType(MT_TOOL_FINGER)]
  }

  function MoveEvents(p: TPoint): seq<Event> {
    [Slot(p.id), PositionX(p.x), PositionY(p.y), TouchMajor(p.width), TouchMinor(p.height)]
  }

  function ReportOne(w: Work, p: TPoint): Work
    requires p.id < |w.ps|
  {
    if p.status == STATUS_PRESS_OR_UP then
      if !w.ps[p.id] then w.(ps := w.ps[p.id := true], log := w.log + PressEvents(p))
      else w.(up := w.up + 1, ps := w.ps[p.id := false], log := w.log + [Slot(p.id), TrackingId(-1)])
    else if p.status == STATUS_MOVE then
      w.(ps := w.ps[p.id := true], log := w.log + MoveEvents(p))
    else w
  }

  ghost predicate IdsFit(pts: seq<TPoint>, size: nat) {
    forall i | 0 <= i < |pts| :: pts[i].id < size
  }

  ghost function ReportPoints(w: Work, pts: seq<TPoint>): (w': Work)
    requires IdsFit(pts, |w.ps|)
    ensures |w'.ps| == |w.ps| && w' == w.(up := w'.up, ps := w'.ps, log := w'.log)
  {
    if pts == [] then w else ReportOne(ReportPoints(w, pts[..|pts| - 1]), pts[|pts| - 1])
  }

  /** The end of every call: all contacts up, or some still touching. */
  function Close(w: Work): Work {
    if w.up >= w.all then
      w.(ps := NoneDown(|w.ps|), log := w.log + Sweep(w.ps) + [BtnTouch(0), SynReport])
    else w.(log := w.log + [BtnTouch(1), SynReport])
  }

  ghost function HandlePacket(w: Work, d: seq<byte>): Work
    requires Fits(w, d)
  {
    var stored := Put(Opened(w, d), DecodeFirst(d, Take(Opened(w, d))));
    Close(if stored.recv < stored.all then stored else ReportPoints(stored, stored.pts[..stored.all]))
  }

  // ------------------------------------------------------------- the handler

  class WorkHandler {
    var allPoint: nat
    var recvPoints: nat
    var uppoint: nat
    const mPoints: array<TPoint>
    const ps: array<bool>
    var log: seq<Event>  // what device_writeEvent was called with

    ghost function State(): Work
      reads this, mPoints, ps
    {
      Work(allPoint, recvPoints, uppoint, mPoints[..], ps[..], log)
    }

    constructor ()
      ensures State() == Work(0, 0, 0, seq(MAX_CONTACTS, _ => BLANK), NoneDown(MAX_CONTACTS), [])
      ensures Ok(State()) && fresh(mPoints) && fresh(ps)
    {
      allPoint, recvPoints, uppoint, log := 0, 0, 0, [];
      mPoints := new TPoint[MAX_CONTACTS](_ => BLANK);
      ps := new bool[MAX_CONTACTS](_ => false);
      new;
      assert mPoints[..] == seq(MAX_CONTACTS, _ => BLANK);
      assert ps[..] == NoneDown(MAX_CONTACTS);
    }

    /** The body of the loop that stores points. */
    method StorePoint(data: seq<byte>, i: nat, ghost w: Work)
      requires |data| == PACKET_LEN && i < POINTS_PER_PACKET && w.recv + i < |w.pts| == mPoints.Length
      requires State() == Put(w, DecodeFirst(data, i)) && recvPoints == w.recv + i
      modifies this`recvPoints, mPoints
      ensures State() == Put(w, DecodeFirst(data, i + 1)) && recvPoints == w.recv + i + 1
    {
      PutNext(w, data, i);
      hide Put, DecodeFirst, Word;
      mPoints[recvPoints] := TPoint(data[10 * i + 6], data[10 * i + 5],
        Word(data[10 * i + 7], data[10 * i + 8]), Word(data[10 * i + 9], data[10 * i + 10]),
        Word(data[10 * i + 11], data[10 * i + 12]), Word(data[10 * i + 13], data[10 * i + 14]));
      recvPoints := recvPoints + 1;
    }

    method Store(data: seq<byte>, k: nat)
      requires |data| == PACKET_LEN && k <= POINTS_PER_PACKET && recvPoints + k <= mPoints.Length
      modifies this`recvPoints, mPoints
      ensures State() == Put(old(State()), DecodeFirst(data, k))
      ensures forall i | 0 <= i < k :: mPoints[old(recvPoints) + i] == PointAt(data, 10 * i)
    {
      ghost var w := State();
      PutNothing(w, data);
      hide Put, DecodeFirst, PointAt, Word;
      for i := 0 to k
        invariant State() == Put(w, DecodeFirst(data, i)) && recvPoints == w.recv + i
      {
        StorePoint(data, i, w);
      }
      forall i | 0 <= i < k ensures mPoints[w.recv + i] == PointAt(data, 10 * i) {
        PutAt(w, data, k, i);
        assert mPoints[..][w.recv + i] == PointAt(data, 10 * i);
      }
    }

    method Report()
      requires allPoint <= mPoints.Length && mPoints.Length == ps.Length && IdsFit(mPoints[..allPoint], ps.Length)
      modifies this`uppoint, this`log, ps
      ensures State() == ReportPoints(old(State()), mPoints[..allPoint])
    {
      ghost var w0 := State();
      for i := 0 to allPoint
        invariant State() == ReportPoints(w0, mPoints[..i])
      {
        assert mPoints[..i + 1][..i] == mPoints[..i];
        var p := mPoints[i];
        assert p.id < ps.Length by { assert mPoints[..allPoint][i] == p; }
        ReportPoint(p);
      }
    }

    method ReportPoint(p: TPoint)
      requires p.id < ps.Length
      modifies this`uppoint, this`log, ps
      ensures State() == ReportOne(old(State()), p)
      ensures p.status == 0x02 && !old(ps[p.id]) ==>
        && log == old(log) + [Slot(p.id), TrackingId(p.id), PositionX(p.x), PositionY(p.y),
                              TouchMajor(p.width), TouchMinor(p.height), ToolType(0)]
        && ps[..] == old(ps[..])[p.id := true] && uppoint == old(uppoint)
      ensures p.status == 0x02 && old(ps[p.id]) ==>
        && log == old(log) + [Slot(p.id), TrackingId(-1)]
        && ps[..] == old(ps[..])[p.id := false] && uppoint == old(uppoint) + 1
      ensures p.status == 0x03 ==>
        && log == old(log) + [Slot(p.id), PositionX(p.x), PositionY(p.y), TouchMajor(p.width), TouchMinor(p.height)]
        && ps[..] == old(ps[..])[p.id := true] && uppoint == old(uppoint)
      ensures p.status != 0x02 && p.status != 0x03 ==> State() == old(State())
    {
      if p.status == 0x02 {
        if !ps[p.id] {
          ps[p.id] := true;
          log := log + [Slot(p.id), TrackingId(p.id), PositionX(p.x), PositionY(p.y),
                        TouchMajor(p.width), TouchMinor(p.height), ToolType(MT_TOOL_FINGER)];
        } else {
          uppoint := uppoint + 1;
          log := log + [Slot(p.id), TrackingId(-1)];
          ps[p.id] := false;
        }
      } else if p.status == 0x03 {
        if !ps[p.id] {
          ps[p.id] := true;
        }
        log := log + [Slot(p.id), PositionX(p.x), PositionY(p.y), TouchMajor(p.width), TouchMinor(p.height)];
      }
    }

    method ReleaseAll()
      modifies this`log, ps
      ensures ps[..] == NoneDown(ps.Length) && log == old(log) + Sweep(old(ps[..]))
    {
      ghost var was := ps[..];
      for i := 0 to ps.Length
        invariant forall j | 0 <= j < i :: !ps[j]
        invariant forall j | i <= j < ps.Length :: ps[j] == was[j]
        invariant log == old(log) + Sweep(was[..i])
      {
        hide Sweep;
        SweepSnoc(was, i);
        if ps[i] {
          log := log + [Slot(i), TrackingId(-1)];
          ps[i] := false;
        }
      }
      assert was[..ps.Length] == was;
    }

    /** The head of work_handler. */
    method Open(data: seq<byte>)
      requires |data| == PACKET_LEN
      modifies this`allPoint, this`uppoint, this`recvPoints
      ensures State() == Opened(old(State()), data)
    {
      if data[65] > 0 {
        allPoint := data[65];
        uppoint := 0;
        recvPoints := 0;
      }
    }

    /** work_handler. */
    method Handle(data: seq<byte>)
      requires Fits(State(), data)
      modifies this, mPoints, ps
      ensures State() == HandlePacket(old(State()), data)
      ensures Ok(State())
    {
      hide Opened, Take, Put, DecodeFirst, Close, ReportPoints, HandlePacket, Fits, Ok, IdsFit;
      ghost var w := State();
      HandleKeepsOk(w, data);
      HandleParts(w, data);
      Open(data);
      var k := allPoint - recvPoints;
      if k > 6 {
        k := 6;
      }
      TakeIs(State(), k);
      Store(data, k);
      if recvPoints < allPoint {
      } else {
        Report();
      }
      Finish();
    }

    /** The tail of work_handler, run for every packet. */
    method Finish()
      modifies this`log, ps
      ensures State() == Close(old(State()))
    {
      if uppoint >= allPoint {
        ReleaseAll();
        log := log + [BtnTouch(0)];
      } else {
        log := log + [BtnTouch(1)];
      }
      log := log + [SynReport];
    }
  }

  // --------------------------------------------------------------- invariants

  lemma PutIds(w: Work, new_: seq<TPoint>)
    requires |w.pts| == MAX_CONTACTS && w.recv + |new_| <= MAX_CONTACTS
    requires forall p | p in w.pts :: p.id < MAX_CONTACTS
    requires IdsFit(new_, MAX_CONTACTS)
    ensures |Put(w, new_).pts| == MAX_CONTACTS && IdsFit(Put(w, new_).pts, MAX_CONTACTS)
    ensures forall p | p in Put(w, new_).pts :: p.id < MAX_CONTACTS
  {
    var after := Put(w, new_).pts;
    forall i | 0 <= i < |after| ensures after[i].id < MAX_CONTACTS {
      assert after[i] in w.pts || after[i] in new_;
    }
  }

  /** recvPoints never passes allPoint, and nothing leaves the tables. */
  lemma HandleKeepsOk(w: Work, d: seq<byte>)
    requires Fits(w, d)
    ensures Ok(HandlePacket(w, d))
  {
    PutIds(Opened(w, d), DecodeFirst(d, Take(Opened(w, d))));
  }

  lemma TakeIs(w: Work, k: nat)
    requires w.recv <= w.all && k == if w.all - w.recv > 6 then 6 else w.all - w.recv
    ensures Take(w) == k
  {}

  /** What one call comes to, step by step. */
  lemma HandleParts(w: Work, d: seq<byte>)
    requires Fits(w, d)
    ensures var o := Opened(w, d);
      && |d| == PACKET_LEN && o.recv <= o.all && Take(o) <= POINTS_PER_PACKET && o.recv + Take(o) <= |o.pts|
      && var stored := Put(o, DecodeFirst(d, Take(o)));
      && stored.all <= |stored.pts| == |stored.ps| && IdsFit(stored.pts[..stored.all], |stored.ps|)
      && HandlePacket(w, d)
         == Close(if stored.recv < stored.all then stored else ReportPoints(stored, stored.pts[..stored.all]))
  {
    PutIds(Opened(w, d), DecodeFirst(d, Take(Opened(w, d))));
    hide ReportPoints, Close, DecodeFirst;
  }

  /** Every slot live on the device is recorded as pressed. */
  ghost predicate LiveArePressed(w: Work) {
    LiveSlots(w.log) <= DownSlots(w.ps)
  }

  lemma ReportOneKeepsLive(w: Work, p: TPoint)
    requires p.id < |w.ps| && LiveArePressed(w)
    ensures LiveArePressed(ReportOne(w, p))
  {
    hide LiveSlots;
    var w' := ReportOne(w, p);
    if p.status == 0x02 {
      var rest := if w.ps[p.id] then [] else PressEvents(p)[2..];
      var t := if w.ps[p.id] then -1 else p.id;
      ConsumeContact(w.log, p.id, t, rest);
      assert w'.log == w.log + [Slot(p.id), TrackingId(t)] + rest;
      assert DownSlots(w'.ps) == if t == -1 then DownSlots(w.ps) - {p.id} else DownSlots(w.ps) + {p.id};
    } else if p.status == 0x03 {
      ConsumeMove(w.log, p.id, MoveEvents(p)[1..]);
      assert w'.log == w.log + [Slot(p.id)] + MoveEvents(p)[1..];
      assert DownSlots(w'.ps) == DownSlots(w.ps) + {p.id};
    }
  }

  lemma {:induction false} ReportKeepsLive(w: Work, pts: seq<TPoint>)
    requires IdsFit(pts, |w.ps|) && LiveArePressed(w)
    ensures LiveArePressed(ReportPoints(w, pts))
  {
    if pts != [] {
      ReportKeepsLive(w, pts[..|pts| - 1]);
      ReportOneKeepsLive(ReportPoints(w, pts[..|pts| - 1]), pts[|pts| - 1]);
    }
  }

  lemma CloseKeepsLive(w: Work)
    requires LiveArePressed(w)
    ensures LiveArePressed(Close(w))
    ensures w.up >= w.all ==> LiveSlots(Close(w).log) == {} && DownSlots(Close(w).ps) == {}
  {
    if w.up >= w.all {
      SweepReleases(w.log, w.ps);
      ConsumeQuiet(w.log + Sweep(w.ps), [BtnTouch(0), SynReport]);
    } else {
      ConsumeQuiet(w.log, [BtnTouch(1), SynReport]);
    }
  }

  lemma HandleKeepsLive(w: Work, d: seq<byte>)
    requires Fits(w, d) && LiveArePressed(w)
    ensures LiveArePressed(HandlePacket(w, d))
  {
    var stored := Put(Opened(w, d), DecodeFirst(d, Take(Opened(w, d))));
    PutIds(Opened(w, d), DecodeFirst(d, Take(Opened(w, d))));
    if stored.recv < stored.all {
      CloseKeepsLive(stored);
    } else {
      ReportKeepsLive(stored, stored.pts[..stored.all]);
      CloseKeepsLive(ReportPoints(stored, stored.pts[..stored.all]));
    }
  }

  // --------------------------------------------------- what is written of a point

  /** Whether reporting the point shows its position: a move, or a press of a contact
      that is up. */
  predicate Shows(w: Work, p: TPoint)
    requires p.id < |w.ps|
  {
    p.status == 0x03 || (p.status == 0x02 && !w.ps[p.id])
  }

  lemma ReportOneShows(w: Work, p: TPoint, slot: int)
    requires p.id < |w.ps|
    ensures var v := Drawn(ReportOne(w, p).log, slot);
      if slot == p.id && Shows(w, p) then
        v == View(p.x, p.y, p.width, p.height,
                  if p.status == 0x03 then Drawn(w.log, slot).tool else MT_TOOL_FINGER)
      else v == Drawn(w.log, slot)
  {
    var w' := ReportOne(w, p);
    hide Drawn;
    if p.status == 0x03 {
      DrawnPlaced(w.log, p.id, [], p.x, p.y, p.width, p.height, slot);
      assert w'.log == w.log + [Slot(p.id)] + [] + [PositionX(p.x), PositionY(p.y)]
        + [TouchMajor(p.width), TouchMinor(p.height)];
    } else if p.status == 0x02 {
      if w.ps[p.id] {
        DrawnReleased(w.log, p.id, [TrackingId(-1)], slot);
        assert w'.log == w.log + [Slot(p.id)] + [TrackingId(-1)];
      } else {
        DrawnPlaced(w.log, p.id, [TrackingId(p.id)], p.x, p.y, p.width, p.height, slot);
        var placed := w.log + [Slot(p.id)] + [TrackingId(p.id)] + [PositionX(p.x), PositionY(p.y)]
          + [TouchMajor(p.width), TouchMinor(p.height)];
        DrawnTool(placed, MT_TOOL_FINGER, [], slot);
        assert w'.log == placed + [ToolType(MT_TOOL_FINGER)] + [];
      }
    }
  }

  /** What one point does to the tracking ids. */
  lemma ReportOneIds(w: Work, p: TPoint)
    requires p.id < |w.ps|
    ensures Ids(ReportOne(w, p).log)
         == if p.status != 0x02 then Ids(w.log)
            else if w.ps[p.id] then Ids(w.log) - {p.id as int}
            else Ids(w.log)[p.id as int := p.id as int]
  {
    var w' := ReportOne(w, p);
    hide Ids;
    if p.status == 0x02 {
      var rest, t := if w.ps[p.id] then [] else PressEvents(p)[2..], if w.ps[p.id] then -1 else p.id;
      ConsumeContact(w.log, p.id, t, rest);
      assert w'.log == w.log + [Slot(p.id), TrackingId(t)] + rest;
    } else if p.status == 0x03 {
      ConsumeMove(w.log, p.id, MoveEvents(p)[1..]);
      assert w'.log == w.log + [Slot(p.id)] + MoveEvents(p)[1..];
    }
  }

  lemma ReportOneLives(w: Work, p: TPoint, slot: int)
    requires p.id < |w.ps|
    ensures slot in LiveSlots(ReportOne(w, p).log)
       <==> if slot == p.id && p.status == 0x02 then !w.ps[p.id] else slot in LiveSlots(w.log)
  {
    ReportOneIds(w, p);
    hide Ids;
  }

  /** After a report, what is written of the contact that point i moves or presses, if
      no later point names the same contact: its slot stands at the position and size of the
      record. If the point pressed it, it is live under its own number, as a finger; if the point
      moved it, it is live if it was before. */
  lemma {:induction false} ReportShowsPoints(w: Work, pts: seq<TPoint>, i: nat)
    requires IdsFit(pts, |w.ps|) && i < |pts| && forall j | i < j < |pts| :: pts[j].id != pts[i].id
    requires Shows(ReportPoints(w, pts[..i]), pts[i])
    ensures var p, log := pts[i], ReportPoints(w, pts).log; var v := Drawn(log, p.id);
      && View(v.x, v.y, v.major, v.minor, 0) == View(p.x, p.y, p.width, p.height, 0)
      && (p.id in LiveSlots(log) <==> p.status == 0x02 || p.id in LiveSlots(ReportPoints(w, pts[..i]).log))
      && (p.status == 0x02 ==> Ids(log)[p.id] == p.id && v.tool == 0)
  {
    var front, last := pts[..|pts| - 1], pts[|pts| - 1];
    var w1 := ReportPoints(w, front);
    hide Drawn, Ids, ReportOne;
    ReportOneShows(w1, last, pts[i].id);
    ReportOneIds(w1, last);
    if i < |front| {
      assert front[..i] == pts[..i];
      ReportShowsPoints(w, front, i);
    }
  }

  // ------------------------------------------------ pressed contacts that are live

  /** How a contact came to be pressed. */
  datatype Press = Up | ByPress | ByMove

  function TrackOne(tracks: seq<Press>, p: TPoint): (t: seq<Press>)
    requires p.id < |tracks|
    ensures |t| == |tracks|
  {
    var was := tracks[p.id];
    if p.status == 0x02 then tracks[p.id := if was == Up then ByPress else Up]
    else if p.status == 0x03 && was == Up then tracks[p.id := ByMove]
    else tracks
  }

  ghost function TrackPoints(tracks: seq<Press>, pts: seq<TPoint>): (t: seq<Press>)
    requires IdsFit(pts, |tracks|)
    ensures |t| == |tracks|
  {
    if pts == [] then tracks else TrackOne(TrackPoints(tracks, pts[..|pts| - 1]), pts[|pts| - 1])
  }

  /** How many of the records lift a contact. */
  ghost function Lifts(tracks: seq<Press>, pts: seq<TPoint>): nat
    requires IdsFit(pts, |tracks|)
  {
    if pts == [] then 0
    else
      var front, p := pts[..|pts| - 1], pts[|pts| - 1];
      Lifts(tracks, front)
        + if p.status == 0x02 && TrackPoints(tracks, front)[p.id] != Up then 1 else 0
  }

  function AllUp(n: nat): seq<Press> {
    seq(n, _ => Up)
  }

  /** What a packet brings to the device: whether it opens a frame, how many points its frame
      announces, and, if that is complete, the records reported. */
  datatype Report = Partial(opens: bool) | Complete(opens: bool, all: nat, pts: seq<TPoint>)

  ghost function ReportOf(w: Work, d: seq<byte>): (r: Report)
    requires Fits(w, d)
    ensures r.Complete? ==> IdsFit(r.pts, MAX_CONTACTS)
  {
    var stored := Put(Opened(w, d), DecodeFirst(d, Take(Opened(w, d))));
    PutIds(Opened(w, d), DecodeFirst(d, Take(Opened(w, d))));
    if stored.recv < stored.all then Partial(d[COUNT_OFFSET] > 0)
    else Complete(d[COUNT_OFFSET] > 0, stored.all, stored.pts[..stored.all])
  }

  /** The presses and the lifts counted in the current frame, told from the records alone:
      when all its points have lifted a contact, every contact is up. */
  datatype Tracks = Tracks(presses: seq<Press>, lifted: nat)

  const NO_TRACKS := Tracks(AllUp(MAX_CONTACTS), 0)

  ghost function Track(t: Tracks, r: Report): (t': Tracks)
    requires r.Complete? ==> IdsFit(r.pts, |t.presses|)
    ensures |t'.presses| == |t.presses|
  {
    var lifted := if r.opens then 0 else t.lifted;
    match r
    case Partial(_) => Tracks(t.presses, lifted)
    case Complete(_, all, pts) =>
      var lifted' := lifted + Lifts(t.presses, pts);
      Tracks(if lifted' >= all then AllUp(|t.presses|) else TrackPoints(t.presses, pts), lifted')
  }

  /** The contacts are pressed as tracked, and live are exactly those pressed by a press, each
      under its own number. */
  ghost predicate Pressed(w: Work, tracks: seq<Press>) {
    && |tracks| == |w.ps|
    && (forall s | 0 <= s < |w.ps| :: w.ps[s] <==> tracks[s] != Up)
    && (forall s :: s in LiveSlots(w.log) <==> 0 <= s < |tracks| && tracks[s] == ByPress)
    && (forall s | s in Ids(w.log) :: Ids(w.log)[s] == s)
  }

  /** The contacts pressed by a press. */
  ghost function Visible(tracks: seq<Press>): set<int> {
    set s | 0 <= s < |tracks| && tracks[s] == ByPress
  }

  lemma IdsAreVisible(w: Work, tracks: seq<Press>)
    requires Pressed(w, tracks)
    ensures Ids(w.log) == Own(Visible(tracks))
  {
    hide Ids;
    assert forall s | s in Ids(w.log) :: s in LiveSlots(w.log);
    assert Ids(w.log).Keys == Visible(tracks);
  }

  ghost predicate Tracked(w: Work, t: Tracks) {
    Pressed(w, t.presses) && t.lifted == w.up
  }

  lemma TrackOneHolds(w: Work, tracks: seq<Press>, p: TPoint)
    requires Pressed(w, tracks) && p.id < |w.ps|
    ensures Pressed(ReportOne(w, p), TrackOne(tracks, p))
    ensures ReportOne(w, p).up == w.up + if p.status == 0x02 && tracks[p.id] != Up then 1 else 0
  {
    var w', t := ReportOne(w, p), TrackOne(tracks, p);
    ReportOneIds(w, p);
    forall s ensures s in LiveSlots(w'.log) <==> 0 <= s < |t| && t[s] == ByPress {
      ReportOneLives(w, p, s);
    }
  }

  lemma {:induction false} TrackPointsHold(w: Work, tracks: seq<Press>, pts: seq<TPoint>)
    requires Pressed(w, tracks) && IdsFit(pts, |w.ps|)
    ensures |tracks| == |w.ps|
    ensures Pressed(ReportPoints(w, pts), TrackPoints(tracks, pts))
    ensures ReportPoints(w, pts).up == w.up + Lifts(tracks, pts)
  {
    TracksSize(w, tracks);
    hide Pressed, TrackOne, ReportOne;
    if pts != [] {
      TrackPointsHold(w, tracks, pts[..|pts| - 1]);
      TrackOneHolds(ReportPoints(w, pts[..|pts| - 1]), TrackPoints(tracks, pts[..|pts| - 1]), pts[|pts| - 1]);
    }
  }

  lemma TracksSize(w: Work, tracks: seq<Press>)
    requires Pressed(w, tracks)
    ensures |tracks| == |w.ps|
  {}

  lemma TrackClose(w: Work, tracks: seq<Press>)
    requires Pressed(w, tracks)
    ensures Pressed(Close(w), if w.up >= w.all then AllUp(|tracks|) else tracks)
  {
    if w.up >= w.all {
      assert LiveArePressed(w);
      CloseKeepsLive(w);
    } else {
      ConsumeQuiet(w.log, [BtnTouch(1), SynReport]);
    }
  }

  /** The handler once the points of a packet are stored. */
  ghost function Filled(w: Work, d: seq<byte>): Work
    requires Fits(w, d)
  {
    Put(Opened(w, d), DecodeFirst(d, Take(Opened(w, d))))
  }

  lemma FilledIs(w: Work, d: seq<byte>)
    requires Fits(w, d)
    ensures var f := Filled(w, d);
      && f.ps == w.ps && f.log == w.log && |w.ps| == MAX_CONTACTS
      && f.all <= |f.pts| && IdsFit(f.pts[..f.all], |w.ps|)
      && (f.recv < f.all ==> f.up == 0)
      && f.up == (if d[COUNT_OFFSET] > 0 then 0 else w.up)
      && HandlePacket(w, d) == Close(if f.recv < f.all then f else ReportPoints(f, f.pts[..f.all]))
      && ReportOf(w, d) == if f.recv < f.all then Partial(d[COUNT_OFFSET] > 0)
                           else Complete(d[COUNT_OFFSET] > 0, f.all, f.pts[..f.all])
  {
    HandleParts(w, d);
    hide ReportPoints, Close, DecodeFirst;
  }

  lemma TrackPacketHolds(w: Work, t: Tracks, d: seq<byte>)
    requires Fits(w, d) && Tracked(w, t)
    ensures |t.presses| == |w.ps| == MAX_CONTACTS && Tracked(HandlePacket(w, d), Track(t, ReportOf(w, d)))
  {
    hide Pressed, HandlePacket, ReportOf, Filled, Fits, TrackPoints, ReportPoints, Lifts, Close, IdsFit;
    var f := Filled(w, d);
    FilledIs(w, d);
    TrackOther(w, f, t.presses);
    var pts := if f.recv < f.all then [] else f.pts[..f.all];
    var w1 := if f.recv < f.all then f else ReportPoints(f, pts);
    if f.recv >= f.all {
      TrackPointsHold(f, t.presses, pts);
    }
    TrackClose(w1, if f.recv < f.all then t.presses else TrackPoints(t.presses, pts));
    CloseKeepsUp(w1);
  }

  lemma CloseKeepsUp(w: Work)
    ensures Close(w).up == w.up
  {}

  lemma TrackOther(w: Work, w': Work, tracks: seq<Press>)
    requires Pressed(w, tracks) && w'.ps == w.ps && w'.log == w.log
    ensures Pressed(w', tracks) && |tracks| == |w.ps|
  {}

  // -------------------------------------------------------------- whole runs

  ghost predicate Admissible(w: Work, ds: seq<seq<byte>>)
    decreases |ds|
  {
    ds == [] || (Fits(w, ds[0]) && Admissible(HandlePacket(w, ds[0]), ds[1..]))
  }

  ghost function HandleAll(w: Work, ds: seq<seq<byte>>): Work
    requires Admissible(w, ds)
    decreases |ds|
  {
    if ds == [] then w else HandleAll(HandlePacket(w, ds[0]), ds[1..])
  }

  /** No stuck touch: at every point of every run, each slot live on the device has its
      press status set, and the counters and ids stay within their tables. */
  lemma {:induction false} RunKeepsLive(w: Work, ds: seq<seq<byte>>)
    requires Ok(w) && LiveArePressed(w) && Admissible(w, ds)
    ensures Ok(HandleAll(w, ds)) && LiveArePressed(HandleAll(w, ds))
    decreases |ds|
  {
    if ds != [] {
      HandleKeepsOk(w, ds[0]);
      HandleKeepsLive(w, ds[0]);
      RunKeepsLive(HandlePacket(w, ds[0]), ds[1..]);
    }
  }

  /** What the packets of a run bring to the device, one after the other. */
  ghost function Reports(w: Work, ds: seq<seq<byte>>): (rs: seq<Report>)
    requires Ok(w) && Admissible(w, ds)
    ensures ReportsFit(rs)
    decreases |ds|
  {
    if ds == [] then []
    else
      HandleKeepsOk(w, ds[0]);
      [ReportOf(w, ds[0])] + Reports(HandlePacket(w, ds[0]), ds[1..])
  }

  ghost predicate ReportsFit(rs: seq<Report>) {
    forall i | 0 <= i < |rs| && rs[i].Complete? :: IdsFit(rs[i].pts, MAX_CONTACTS)
  }

  ghost function TrackAll(t: Tracks, rs: seq<Report>): (t': Tracks)
    requires ReportsFit(rs) && |t.presses| == MAX_CONTACTS
    ensures |t'.presses| == MAX_CONTACTS
    decreases |rs|
  {
    if rs == [] then t else TrackAll(Track(t, rs[0]), rs[1..])
  }

  /** Which pressed contacts a reader of the device sees, at every point of every run:
      exactly those whose press came from a press record. A contact pressed by a move record
      stays invisible until it is lifted and pressed again. */
  lemma {:induction false} LiveArePressedByPress(w: Work, t: Tracks, ds: seq<seq<byte>>)
    requires Ok(w) && Tracked(w, t) && Admissible(w, ds)
    ensures |t.presses| == MAX_CONTACTS && Tracked(HandleAll(w, ds), TrackAll(t, Reports(w, ds)))
    ensures Ids(HandleAll(w, ds).log) == Own(Visible(TrackAll(t, Reports(w, ds)).presses))
    decreases |ds|
  {
    TracksSize(w, t.presses);
    IdsAreVisible(w, t.presses);
    hide Ids, Own, Visible;
    hide Tracked, HandlePacket, Track, Fits, ReportOf, ReportsFit;
    if ds != [] {
      HandleKeepsOk(w, ds[0]);
      TrackPacketHolds(w, t, ds[0]);
      LiveArePressedByPress(HandlePacket(w, ds[0]), Track(t, ReportOf(w, ds[0])), ds[1..]);
      var first, rest := ReportOf(w, ds[0]), Reports(HandlePacket(w, ds[0]), ds[1..]);
      assert ([first] + rest)[1..] == rest;
    }
  }

  // -------------------------------------------------------------- reassembly

  /** The records of a run of packets, in order. */
  function Records(ds: seq<seq<byte>>): (r: seq<TPoint>)
    requires forall i | 0 <= i < |ds| :: |ds[i]| == 67
    ensures |r| == 6 * |ds|
  {
    if ds == [] then [] else DecodeFirst(ds[0], 6) + Records(ds[1..])
  }

  /** The events of packets that leave a frame incomplete. */
  function Quiet(n: nat): seq<Event> {
    if n == 0 then [] else [BtnTouch(1), SynReport] + Quiet(n - 1)
  }

  /** Decoding the rest of a frame at once: all points stored, then all reported. */
  ghost function OneShot(w: Work, pts: seq<TPoint>): Work
    requires w.recv + |pts| == w.all <= |w.pts| == |w.ps| && IdsFit(Put(w, pts).pts, |w.ps|)
  {
    Close(ReportPoints(Put(w, pts), Put(w, pts).pts[..w.all]))
  }

  /** `ds` are the packets that bring the `need` points a frame still lacks. */
  ghost predicate Completes(w: Work, ds: seq<seq<byte>>, need: nat) {
    && Ok(w) && ds != [] && (forall i | 0 <= i < |ds| :: |ds[i]| == 67)
    && ds[0][65] <= MAX_CONTACTS && (forall i | 1 <= i < |ds| :: ds[i][65] == 0)
    && Opened(w, ds[0]).recv + need == Opened(w, ds[0]).all
    && 6 * (|ds| - 1) < need <= 6 * |ds|
    && IdsFit(Records(ds)[..need], MAX_CONTACTS)
  }

  lemma PutTwice(w: Work, a: seq<TPoint>, b: seq<TPoint>)
    requires w.recv + |a| + |b| <= |w.pts|
    ensures Put(Put(w, a), b) == Put(w, a + b)
  {
    assert Put(Put(w, a), b).pts == Put(w, a + b).pts;
  }

  lemma MiddlePacket(w: Work, d: seq<byte>)
    requires Fits(w, d) && Opened(w, d).all - Opened(w, d).recv > 6
    ensures HandlePacket(w, d) == Put(Opened(w, d), DecodeFirst(d, 6)).(log := w.log + [BtnTouch(1), SynReport])
    ensures Ok(HandlePacket(w, d))
  {
    HandleKeepsOk(w, d);
  }

  lemma LastPacket(w: Work, d: seq<byte>, need: nat)
    requires Fits(w, d) && 0 < need <= 6 && Opened(w, d).recv + need == Opened(w, d).all
    ensures IdsFit(Put(Opened(w, d), DecodeFirst(d, need)).pts, MAX_CONTACTS)
    ensures HandlePacket(w, d) == OneShot(Opened(w, d), DecodeFirst(d, need))
  {
    PutIds(Opened(w, d), DecodeFirst(d, need));
  }

  lemma FirstFits(w: Work, ds: seq<seq<byte>>, need: nat)
    requires Completes(w, ds, need)
    ensures Fits(w, ds[0])
    ensures need <= 6 ==> Records(ds)[..need] == DecodeFirst(ds[0], need)
    ensures need > 6 ==> Records(ds)[..need] == DecodeFirst(ds[0], 6) + Records(ds[1..])[..need - 6]
  {
    var k := Take(Opened(w, ds[0]));
    forall i | 0 <= i < k ensures Decode(ds[0], i).id < MAX_CONTACTS {
      assert Records(ds)[..need][i] == DecodeFirst(ds[0], 6)[i];
    }
  }

  lemma CompletesNext(w: Work, ds: seq<seq<byte>>, need: nat)
    requires Completes(w, ds, need) && need > 6 && Fits(w, ds[0])
    ensures Completes(HandlePacket(w, ds[0]), ds[1..], need - 6)
    ensures Opened(HandlePacket(w, ds[0]), ds[1]) == HandlePacket(w, ds[0])
  {
    FirstFits(w, ds, need);
    MiddlePacket(w, ds[0]);
    var pts, rest := Records(ds)[..need], Records(ds[1..])[..need - 6];
    forall i | 0 <= i < |rest| ensures rest[i].id < MAX_CONTACTS {
      assert rest[i] == pts[6 + i];
    }
  }

  /** The packets that complete a frame end as decoding it in one go would: nothing but
      the button and sync events is written before the last of them. */
  lemma {:induction false} Reassembly(w: Work, ds: seq<seq<byte>>, need: nat)
    requires Completes(w, ds, need)
    ensures Admissible(w, ds)
    ensures var o := Opened(w, ds[0]); var pts := Records(ds)[..need];
      && IdsFit(Put(o, pts).pts, MAX_CONTACTS)
      && HandleAll(w, ds) == OneShot(o.(log := w.log + Quiet(|ds| - 1)), pts)
    decreases |ds|
  {
    hide HandlePacket, OneShot, Fits, Put;
    var o, pts := Opened(w, ds[0]), Records(ds)[..need];
    FirstFits(w, ds, need);
    PutIds(o, pts);
    if need <= 6 {
      LastPacket(w, ds[0], need);
      assert o.(log := w.log + []) == o;
      assert ds[1..] == [];
    } else {
      var first, rest := DecodeFirst(ds[0], 6), Records(ds[1..])[..need - 6];
      MiddlePacket(w, ds[0]);
      CompletesNext(w, ds, need);
      var w1 := HandlePacket(w, ds[0]);
      Reassembly(w1, ds[1..], need - 6);
      OneShotAfter(o, first, rest, w.log + [BtnTouch(1), SynReport], Quiet(|ds| - 2));
      QuietGrows(w.log, |ds| - 1);
    }
  }

  lemma QuietGrows(log: seq<Event>, n: nat)
    requires n > 0
    ensures log + [BtnTouch(1), SynReport] + Quiet(n - 1) == log + Quiet(n)
  {}

  lemma OneShotAfter(o: Work, first: seq<TPoint>, rest: seq<TPoint>, log: seq<Event>, more: seq<Event>)
    requires o.recv + |first| + |rest| == o.all <= |o.pts| == |o.ps|
    requires IdsFit(Put(o, first + rest).pts, |o.ps|)
    ensures var later := Put(o, first).(log := log + more);
      IdsFit(Put(later, rest).pts, |o.ps|)
      && OneShot(later, rest) == OneShot(o.(log := log + more), first + rest)
  {
    hide ReportPoints;
    PutTwice(o.(log := log + more), first, rest);
    assert Put(o, first).(log := log + more) == Put(o.(log := log + more), first);
  }

  /** Multi-packet reassembly refines one-shot decoding: a frame of 1 to 40 points sent
      in as many packets as it needs, from any state. */
  lemma FrameRefinesOneShot(w: Work, ds: seq<seq<byte>>, n: nat)
    requires Ok(w) && WholeFrame(ds, n)
    ensures Admissible(w, ds)
    ensures var w' := HandleAll(w, ds); var pts := Records(ds)[..n];
      && |w'.pts| == MAX_CONTACTS && w'.pts[..n] == pts && w'.recv == w'.all == n
      && w' == Close(ReportPoints(
           Work(n, n, 0, pts + w.pts[n..], w.ps, w.log + Quiet(|ds| - 1)), pts))
  {
    hide HandleAll, Admissible, Put;
    Reassembly(w, ds, n);
    PutFromStart(Work(n, 0, 0, w.pts, w.ps, w.log + Quiet(|ds| - 1)), Records(ds)[..n]);
  }

  lemma PutFromStart(o: Work, pts: seq<TPoint>)
    requires o.recv == 0 && |pts| <= |o.pts|
    ensures Put(o, pts) == o.(recv := |pts|, pts := pts + o.pts[|pts|..])
    ensures Put(o, pts).pts[..|pts|] == pts
  {
    assert o.pts[..0] + pts == pts;
  }

  /** A frame of n points in its packets: the count stands in the first one only. */
  ghost predicate WholeFrame(ds: seq<seq<byte>>, n: nat) {
    && 1 <= n <= 40 && |ds| == (n - 1) / 6 + 1
    && (forall i | 0 <= i < |ds| :: |ds[i]| == 67 && ds[i][65] == if i == 0 then n else 0)
    && IdsFit(Records(ds)[..n], MAX_CONTACTS)
  }

  // ---------------------------------------------------------- runs of frames

  datatype PointFrame = PointFrame(packets: seq<seq<byte>>, n: nat)

  ghost predicate WholeFrames(frames: seq<PointFrame>) {
    forall k | 0 <= k < |frames| :: WholeFrame(frames[k].packets, frames[k].n)
  }

  function PacketsOf(frames: seq<PointFrame>): seq<seq<byte>>
    decreases |frames|
  {
    if frames == [] then [] else frames[0].packets + PacketsOf(frames[1..])
  }

  /** A frame decoded and reported in one go. */
  ghost function Shown(w: Work, fr: PointFrame): (w': Work)
    requires Ok(w) && WholeFrame(fr.packets, fr.n)
    ensures Ok(w')
  {
    var ds, n := fr.packets, fr.n;
    var pts := Records(ds)[..n];
    FrameRefinesOneShot(w, ds, n);
    RunKeepsOk(w, ds);
    Close(ReportPoints(Work(n, n, 0, pts + w.pts[n..], w.ps, w.log + Quiet(|ds| - 1)), pts))
  }

  ghost function ShownAll(w: Work, frames: seq<PointFrame>): Work
    requires Ok(w) && WholeFrames(frames)
    decreases |frames|
  {
    if frames == [] then w else ShownAll(Shown(w, frames[0]), frames[1..])
  }

  lemma {:induction false} RunKeepsOk(w: Work, ds: seq<seq<byte>>)
    requires Ok(w) && Admissible(w, ds)
    ensures Ok(HandleAll(w, ds))
    decreases |ds|
  {
    if ds != [] {
      HandleKeepsOk(w, ds[0]);
      RunKeepsOk(HandlePacket(w, ds[0]), ds[1..]);
    }
  }

  lemma {:induction false} HandleAppend(w: Work, a: seq<seq<byte>>, b: seq<seq<byte>>)
    requires Admissible(w, a) && Admissible(HandleAll(w, a), b)
    ensures Admissible(w, a + b) && HandleAll(w, a + b) == HandleAll(HandleAll(w, a), b)
    decreases |a|
  {
    hide HandlePacket, Fits;
    if a == [] {
      assert a + b == b;
    } else {
      assert (a + b)[0] == a[0] && (a + b)[1..] == a[1..] + b;
      HandleAppend(HandlePacket(w, a[0]), a[1..], b);
    }
  }

  lemma ShownIs(w: Work, fr: PointFrame)
    requires Ok(w) && WholeFrame(fr.packets, fr.n)
    ensures Admissible(w, fr.packets) && HandleAll(w, fr.packets) == Shown(w, fr)
  {
    hide HandleAll, Admissible, Close, ReportPoints, Records, Quiet, Ok;
    FrameRefinesOneShot(w, fr.packets, fr.n);
  }

  /** Whole frames one after the other, from any state: each is reported as decoding it in
      one go would, on what the frames before it left. */
  lemma {:induction false} FramesRefineOneShots(w: Work, frames: seq<PointFrame>)
    requires Ok(w) && WholeFrames(frames)
    ensures Admissible(w, PacketsOf(frames)) && HandleAll(w, PacketsOf(frames)) == ShownAll(w, frames)
    decreases |frames|
  {
    hide Ok, Shown, WholeFrame, HandlePacket, Fits;
    if frames != [] {
      ShownIs(w, frames[0]);
      FramesRefineOneShots(Shown(w, frames[0]), frames[1..]);
      HandleAppend(w, frames[0].packets, PacketsOf(frames[1..]));
    }
  }

  // ----------------------------------------------------------- release frames

  /** Every point lifts a contact that is pressed, and no contact is named twice. */
  ghost predicate AllReleases(pts: seq<TPoint>, ps: seq<bool>) {
    && (forall i | 0 <= i < |pts| :: pts[i].status == 0x02 && pts[i].id < |ps| && ps[pts[i].id])
    && (forall i, j | 0 <= i < j < |pts| :: pts[i].id != pts[j].id)
  }

  predicate Named(pts: seq<TPoint>, slot: int) {
    exists i | 0 <= i < |pts| :: pts[i].id == slot
  }

  lemma NamedSnoc(pts: seq<TPoint>, slot: int)
    requires pts != []
    ensures Named(pts, slot) <==> Named(pts[..|pts| - 1], slot) || pts[|pts| - 1].id == slot
  {
    var front := pts[..|pts| - 1];
    if i :| 0 <= i < |pts| && pts[i].id == slot {
      assert i < |front| ==> front[i].id == slot;
    }
    if i :| 0 <= i < |front| && front[i].id == slot {
      assert pts[i].id == slot;
    }
  }

  lemma AllReleasesSnoc(pts: seq<TPoint>, ps: seq<bool>)
    requires pts != []
    ensures AllReleases(pts, ps) <==> (
      var front, p := pts[..|pts| - 1], pts[|pts| - 1];
      AllReleases(front, ps) && p.status == 0x02 && p.id < |ps| && ps[p.id] && !Named(front, p.id))
  {
    var front, p := pts[..|pts| - 1], pts[|pts| - 1];
    assert forall i | 0 <= i < |front| :: front[i] == pts[i];
    if AllReleases(front, ps) && p.status == 0x02 && p.id < |ps| && ps[p.id] && !Named(front, p.id) {
      assert forall i, j | 0 <= i < j < |pts| :: pts[i].id != pts[j].id;
    }
  }

  /** Releases are counted in full exactly when every point is one; then the contacts
      named are up and the others as before. */
  lemma {:induction false} UpCount(w: Work, pts: seq<TPoint>)
    requires IdsFit(pts, |w.ps|) && w.up == 0
    ensures var w' := ReportPoints(w, pts);
      && w'.up <= |pts|
      && (w'.up == |pts| <==> AllReleases(pts, w.ps))
      && (AllReleases(pts, w.ps) ==> forall s | 0 <= s < |w.ps| :: w'.ps[s] == (w.ps[s] && !Named(pts, s)))
  {
    if pts != [] {
      hide AllReleases, Named;
      var front, p := pts[..|pts| - 1], pts[|pts| - 1];
      UpCount(w, front);
      AllReleasesSnoc(pts, w.ps);
      forall s | 0 <= s < |w.ps|
        ensures Named(pts, s) <==> Named(front, s) || p.id == s
      {
        NamedSnoc(pts, s);
      }
    } else {
      assert AllReleases(pts, w.ps);
    }
  }

  /** A complete frame ends with the button released if and only if each of its points
      releases a pressed contact; then no slot is live and no contact is pressed. */
  lemma ReleaseFrame(w: Work, ds: seq<seq<byte>>, n: nat)
    requires Ok(w) && LiveArePressed(w) && WholeFrame(ds, n)
    ensures Admissible(w, ds)
    ensures var w' := HandleAll(w, ds);
      && |w'.log| >= 2
      && (w'.log[|w'.log| - 2] == BtnTouch(0) <==> AllReleases(Records(ds)[..n], w.ps))
      && (AllReleases(Records(ds)[..n], w.ps) ==> LiveSlots(w'.log) == {} && DownSlots(w'.ps) == {})
  {
    hide HandleAll, Admissible;
    FrameRefinesOneShot(w, ds, n);
    var pts := Records(ds)[..n];
    var before := Work(n, n, 0, pts + w.pts[n..], w.ps, w.log + Quiet(|ds| - 1));
    UpCount(before, pts);
    QuietIsNeutral(|ds| - 1);
    ConsumeQuiet(w.log, Quiet(|ds| - 1));
    ReportKeepsLive(before, pts);
    CloseKeepsLive(ReportPoints(before, pts));
  }

  lemma {:induction false} QuietIsNeutral(n: nat)
    ensures forall e | e in Quiet(n) :: Neutral(e)
  {
    if n > 0 {
      QuietIsNeutral(n - 1);
    }
  }

  // --------------------------------------------------- a frame, contact by contact

  /** Contact s stands in w' as it stood in w: its press status, its slot and what is drawn of it. */
  ghost predicate SameSlot(w: Work, w': Work, s: int) {
    && 0 <= s < |w.ps| == |w'.ps| && w'.ps[s] == w.ps[s]
    && (s in Ids(w'.log) <==> s in Ids(w.log)) && (s in Ids(w.log) ==> Ids(w'.log)[s] == Ids(w.log)[s])
    && Drawn(w'.log, s) == Drawn(w.log, s)
  }

  /** What a record is meant to do to its contact: 0x02 presses one that is up, under its own
      number, as a finger at the record's place, and lifts one that is pressed; 0x03 presses it
      and moves it to the place; any other status does nothing. */
  ghost predicate Takes(w: Work, w': Work, id: int, status: int, place: View)
    requires 0 <= id < |w.ps|
  {
    && |w'.ps| == |w.ps|
    && (status == 0x02 && !w.ps[id] ==>
          w'.ps[id] && id in Ids(w'.log) && Ids(w'.log)[id] == id && Drawn(w'.log, id) == place.(tool := 0))
    && (status == 0x02 && w.ps[id] ==> !w'.ps[id] && id !in Ids(w'.log) && Drawn(w'.log, id) == Drawn(w.log, id))
    && (status == 0x03 ==>
          && w'.ps[id] && Drawn(w'.log, id) == place.(tool := Drawn(w.log, id).tool)
          && (id in Ids(w'.log) <==> id in Ids(w.log)) && (id in Ids(w.log) ==> Ids(w'.log)[id] == Ids(w.log)[id]))
    && (status != 0x02 && status != 0x03 ==> SameSlot(w, w', id))
  }

  function PlaceOf(p: TPoint): View {
    View(p.x, p.y, p.width, p.height, 0)
  }

  lemma OtherSlot(w: Work, p: TPoint, s: nat)
    requires p.id < |w.ps| && s < |w.ps| && s != p.id
    ensures SameSlot(w, ReportOne(w, p), s)
  {
    ReportOneIds(w, p);
    ReportOneShows(w, p, s);
    hide Ids, Drawn;
  }

  lemma OwnSlot(w: Work, p: TPoint)
    requires p.id < |w.ps|
    ensures Takes(w, ReportOne(w, p), p.id, p.status, PlaceOf(p))
  {
    ReportOneIds(w, p);
    ReportOneShows(w, p, p.id);
    hide Ids, Drawn;
  }

  lemma {:induction false} UnnamedSlot(w: Work, pts: seq<TPoint>, s: nat)
    requires IdsFit(pts, |w.ps|) && s < |w.ps| && forall j | 0 <= j < |pts| :: pts[j].id != s
    ensures SameSlot(w, ReportPoints(w, pts), s)
  {
    hide Ids, Drawn, ReportOne;
    if pts != [] {
      UnnamedSlot(w, pts[..|pts| - 1], s);
      OtherSlot(ReportPoints(w, pts[..|pts| - 1]), pts[|pts| - 1], s);
    }
  }

  lemma {:induction false} AloneSlot(w: Work, pts: seq<TPoint>, i: nat)
    requires IdsFit(pts, |w.ps|) && i < |pts| && forall j | 0 <= j < |pts| && j != i :: pts[j].id != pts[i].id
    ensures Takes(w, ReportPoints(w, pts), pts[i].id, pts[i].status, PlaceOf(pts[i]))
  {
    hide Ids, Drawn, ReportOne;
    var front, last := pts[..|pts| - 1], pts[|pts| - 1];
    var w1 := ReportPoints(w, front);
    if i < |front| {
      assert front[i] == pts[i];
      AloneSlot(w, front, i);
      OtherSlot(w1, last, pts[i].id);
    } else {
      UnnamedSlot(w, front, last.id);
      OwnSlot(w1, last);
    }
  }

  lemma {:induction false} SweepDrawsNothing(log: seq<Event>, down: seq<bool>, s: int)
    ensures Drawn(log + Sweep(down), s) == Drawn(log, s)
  {
    if down == [] {
      assert log + Sweep(down) == log;
    } else {
      var n := |down| - 1;
      SweepDrawsNothing(log, down[..n], s);
      if down[n] {
        DrawnReleased(log + Sweep(down[..n]), n, [TrackingId(-1)], s);
        assert log + Sweep(down) == log + Sweep(down[..n]) + [Slot(n)] + [TrackingId(-1)];
      } else {
        assert log + Sweep(down) == log + Sweep(down[..n]);
      }
    }
  }

  lemma CloseSlot(w: Work, s: nat)
    requires s < |w.ps| && (w.up < w.all || (!w.ps[s] && s !in Ids(w.log)))
    ensures SameSlot(w, Close(w), s)
  {
    if w.up >= w.all {
      SweepReleases(w.log, w.ps);
      ConsumeQuiet(w.log + Sweep(w.ps), [BtnTouch(0), SynReport]);
      SweepDrawsNothing(w.log, w.ps, s);
      DrawnQuiet(w.log + Sweep(w.ps), [BtnTouch(0), SynReport], s);
    } else {
      ConsumeQuiet(w.log, [BtnTouch(1), SynReport]);
      DrawnQuiet(w.log, [BtnTouch(1), SynReport], s);
    }
    hide Ids, Drawn;
  }

  lemma QuietSlot(w: Work, before: Work, n: nat, s: nat)
    requires s < |w.ps| && before.ps == w.ps && before.log == w.log + Quiet(n)
    ensures SameSlot(w, before, s)
  {
    QuietIsNeutral(n);
    QuietIsPlain(n);
    ConsumeQuiet(w.log, Quiet(n));
    DrawnQuiet(w.log, Quiet(n), s);
    hide Ids, Drawn;
  }

  lemma {:induction false} QuietIsPlain(n: nat)
    ensures forall e | e in Quiet(n) :: Plain(e)
  {
    if n > 0 {
      QuietIsPlain(n - 1);
    }
  }

  /** Record r of some packets is read from packet r / 6, place r % 6. */
  lemma {:induction false} RecordsAt(ds: seq<seq<byte>>, r: nat)
    requires (forall i | 0 <= i < |ds| :: |ds[i]| == 67) && r < 6 * |ds|
    ensures Records(ds)[r] == PointAt(ds[r / 6], 10 * (r % 6))
    decreases |ds|
  {
    if r < 6 {
      DecodeIs(ds[0], r);
    } else {
      RecordsAt(ds[1..], r - 6);
      assert ds[1..][(r - 6) / 6] == ds[r / 6];
    }
  }

  lemma AloneInFrame(w: Work, before: Work, pts: seq<TPoint>, i: nat)
    requires |before.ps| == |w.ps| && before.up == 0 && before.all == |pts|
    requires IdsFit(pts, |w.ps|) && i < |pts| && forall j | 0 <= j < |pts| && j != i :: pts[j].id != pts[i].id
    requires SameSlot(w, before, pts[i].id)
    ensures Takes(w, Close(ReportPoints(before, pts)), pts[i].id, pts[i].status, PlaceOf(pts[i]))
  {
    var p, w1 := pts[i], ReportPoints(before, pts);
    AloneSlot(before, pts, i);
    UpCount(before, pts);
    assert w1.up == |pts| ==> p.status == 0x02 && before.ps[p.id];
    hide Ids, Drawn, Close, ReportPoints, AllReleases;
    CloseSlot(w1, p.id);
  }

  /** The handler once the records of a frame are stored and before they are reported. */
  ghost function Stored(w: Work, ds: seq<seq<byte>>, n: nat): Work
    requires WholeFrame(ds, n) && n <= |w.pts|
  {
    Work(n, n, 0, Records(ds)[..n] + w.pts[n..], w.ps, w.log + Quiet(|ds| - 1))
  }

  /** The records of a frame, from the bytes of its packets on. */
  lemma FrameRecords(w: Work, ds: seq<seq<byte>>, n: nat)
    requires Ok(w) && WholeFrame(ds, n)
    ensures |w.ps| == |w.pts| == 40 && n <= 40 && (forall i | 0 <= i < |ds| :: |ds[i]| == 67) && |Records(ds)| >= n
    ensures Admissible(w, ds) && IdsFit(Records(ds)[..n], |w.ps|)
    ensures HandleAll(w, ds) == Close(ReportPoints(Stored(w, ds, n), Records(ds)[..n]))
    ensures forall j | 0 <= j < n ::
      |ds[j / 6]| == 67 && Records(ds)[..n][j] == PointAt(ds[j / 6], 10 * (j % 6))
  {
    hide PointAt, HandleAll, Admissible, Close, ReportPoints;
    FrameRefinesOneShot(w, ds, n);
    forall j | 0 <= j < n ensures Records(ds)[..n][j] == PointAt(ds[j / 6], 10 * (j % 6)) {
      RecordsAt(ds, j);
    }
  }

  lemma StoredSlot(w: Work, ds: seq<seq<byte>>, n: nat, s: nat)
    requires WholeFrame(ds, n) && n <= |w.pts| && s < |w.ps|
    ensures var b := Stored(w, ds, n); b.ps == w.ps && b.up == 0 && b.all == n && SameSlot(w, b, s)
  {
    QuietSlot(w, Stored(w, ds, n), |ds| - 1, s);
  }

  /** What a frame does to a contact that one of its records names, from the bytes of its packets
      on: the record is the (i % 6)-th of packet i / 6, its fields start with the status. */
  lemma FrameShowsRecord(w: Work, ds: seq<seq<byte>>, n: nat, i: nat)
    requires Ok(w) && WholeFrame(ds, n) && i < n
    requires forall j | 0 <= j < n && j != i :: ds[j / 6][10 * (j % 6) + 6] != ds[i / 6][10 * (i % 6) + 6]
    ensures Admissible(w, ds)
    ensures var d, at := ds[i / 6], 10 * (i % 6);
      && d[at + 6] < |w.ps|
      && Takes(w, HandleAll(w, ds), d[at + 6], d[at + 5],
               View(d[at + 7] as int + 256 * d[at + 8] as int, d[at + 9] as int + 256 * d[at + 10] as int,
                    d[at + 11] as int + 256 * d[at + 12] as int, d[at + 13] as int + 256 * d[at + 14] as int, 0))
  {
    hide *;
    FrameRecords(w, ds, n);
    var pts := Records(ds)[..n];
    forall j | 0 <= j < n && j != i ensures pts[j].id != pts[i].id {
      PlaceAt(ds[j / 6], 10 * (j % 6));
      PlaceAt(ds[i / 6], 10 * (i % 6));
    }
    PlaceAt(ds[i / 6], 10 * (i % 6));
    IdInTable(pts, |w.ps|, i);
    StoredSlot(w, ds, n, pts[i].id);
    AloneInFrame(w, Stored(w, ds, n), pts, i);
  }

  lemma IdInTable(pts: seq<TPoint>, size: nat, i: nat)
    requires IdsFit(pts, size) && i < |pts|
    ensures pts[i].id < size
  {}

  lemma PlaceAt(d: seq<byte>, at: nat)
    requires at + 15 <= |d|
    ensures var p := PointAt(d, at);
      && p.id == d[at + 6] && p.status == d[at + 5]
      && PlaceOf(p) == View(d[at + 7] as int + 256 * d[at + 8] as int, d[at + 9] as int + 256 * d[at + 10] as int,
                            d[at + 11] as int + 256 * d[at + 12] as int, d[at + 13] as int + 256 * d[at + 14] as int, 0)
  {}

  predicate IsPressed(w: Work, id: int) {
    0 <= id < |w.ps| && w.ps[id]
  }

  /** A frame leaves the contacts alone that none of its records names, unless all its records
      are releases. */
  lemma FrameLeavesOthers(w: Work, ds: seq<seq<byte>>, n: nat, s: nat)
    requires Ok(w) && WholeFrame(ds, n) && s < |w.ps|
    requires forall j | 0 <= j < n :: ds[j / 6][10 * (j % 6) + 6] != s
    requires exists j | 0 <= j < n :: ds[j / 6][10 * (j % 6) + 5] != 0x02 || !IsPressed(w, ds[j / 6][10 * (j % 6) + 6])
    ensures Admissible(w, ds) && SameSlot(w, HandleAll(w, ds), s)
  {
    var k :| 0 <= k < n && (ds[k / 6][10 * (k % 6) + 5] != 0x02 || !IsPressed(w, ds[k / 6][10 * (k % 6) + 6]));
    hide *;
    FrameRecords(w, ds, n);
    var pts := Records(ds)[..n];
    forall j | 0 <= j < n ensures pts[j].id != s {
      PlaceAt(ds[j / 6], 10 * (j % 6));
    }
    PlaceAt(ds[k / 6], 10 * (k % 6));
    StoredSlot(w, ds, n, s);
    UnnamedInFrame(w, Stored(w, ds, n), pts, s, k);
  }

  lemma UnnamedInFrame(w: Work, before: Work, pts: seq<TPoint>, s: nat, k: nat)
    requires before.ps == w.ps && before.up == 0 && before.all == |pts| && IdsFit(pts, |w.ps|)
    requires s < |w.ps| && SameSlot(w, before, s) && k < |pts|
    requires (forall j | 0 <= j < |pts| :: pts[j].id != s) && (pts[k].status != 0x02 || !IsPressed(w, pts[k].id))
    ensures SameSlot(w, Close(ReportPoints(before, pts)), s)
  {
    var w1 := ReportPoints(before, pts);
    UnnamedSlot(before, pts, s);
    UpCount(before, pts);
    assert !AllReleases(pts, before.ps);
    hide Ids, Drawn, Close, ReportPoints, AllReleases;
    CloseSlot(w1, s);
  }

  lemma {:induction false} ReportHasNoSync(w: Work, pts: seq<TPoint>)
    requires IdsFit(pts, |w.ps|)
    ensures SyncCount(ReportPoints(w, pts).log) == SyncCount(w.log)
  {
    hide SyncCount, ReportOne;
    if pts != [] {
      ReportHasNoSync(w, pts[..|pts| - 1]);
      PointHasNoSync(ReportPoints(w, pts[..|pts| - 1]), pts[|pts| - 1]);
    }
  }

  lemma PointHasNoSync(w: Work, p: TPoint)
    requires p.id < |w.ps|
    ensures SyncCount(ReportOne(w, p).log) == SyncCount(w.log)
  {
    hide SyncCount;
    var more := if p.status == 0x03 then MoveEvents(p)
                else if p.status != 0x02 then []
                else if w.ps[p.id] then [Slot(p.id), TrackingId(-1)] else PressEvents(p);
    assert ReportOne(w, p).log == w.log + more;
    NoSync(more);
    SyncAppend(w.log, more);
  }

  /** Every packet ends in the touch button and a sync, and holds no other sync. */
  lemma OneSyncPerPacket(w: Work, d: seq<byte>)
    requires Fits(w, d)
    ensures var log := HandlePacket(w, d).log;
      && |log| >= 2 && log[|log| - 2] in {BtnTouch(0), BtnTouch(1)} && log[|log| - 1] == SynReport
      && SyncCount(log) == SyncCount(w.log) + 1
  {
    HandleParts(w, d);
    var o := Opened(w, d);
    var stored := Put(o, DecodeFirst(d, Take(o)));
    var w1 := if stored.recv < stored.all then stored else ReportPoints(stored, stored.pts[..stored.all]);
    ReportHasNoSync(stored, stored.pts[..stored.all]);
    hide HandlePacket, ReportPoints;
    CloseSyncs(w1);
  }

  lemma CloseSyncs(w: Work)
    ensures var log := Close(w).log;
      && |log| >= 2 && log[|log| - 2] in {BtnTouch(0), BtnTouch(1)} && log[|log| - 1] == SynReport
      && SyncCount(log) == SyncCount(w.log) + 1
  {
    if w.up >= w.all {
      SweepHasNoSync(w.ps);
      ButtonAndSync(w.log, Sweep(w.ps), 0);
    } else {
      ButtonAndSync(w.log, [], 1);
      assert w.log + [] == w.log;
    }
    hide SyncCount, Sweep;
  }

  lemma ButtonAndSync(log: seq<Event>, swept: seq<Event>, button: int)
    requires SynReport !in swept
    ensures var log' := log + swept + [BtnTouch(button), SynReport];
      && |log'| >= 2 && log'[|log'| - 2] == BtnTouch(button) && log'[|log'| - 1] == SynReport
      && SyncCount(log') == SyncCount(log) + 1
  {
    var more := swept + [BtnTouch(button)];
    assert log + swept + [BtnTouch(button), SynReport] == log + more + [SynReport];
    NoSync(more);
    SyncAppend(log, more);
    assert (log + more + [SynReport])[..|log + more|] == log + more;
  }

  // ----------------------------------------------------------- stray packets

  /** Reporting the point writes events. */
  predicate Acts(p: TPoint) {
    p.status == 0x02 || p.status == 0x03
  }

  /** The log goes on from `from` with button and sync events only. */
  ghost predicate OnlyQuiet(log: seq<Event>, from: nat) {
    from <= |log| && forall i | from <= i < |log| :: log[i].BtnTouch? || log[i].SynReport?
  }

  lemma {:induction false} ReportIsIdle(w: Work, pts: seq<TPoint>)
    requires IdsFit(pts, |w.ps|) && forall i | 0 <= i < |pts| :: !Acts(pts[i])
    ensures ReportPoints(w, pts) == w
  {
    if pts != [] {
      ReportIsIdle(w, pts[..|pts| - 1]);
    }
  }

  /** A log that continues another and has a slot event behind it. */
  ghost predicate Louder(log: seq<Event>, before: seq<Event>) {
    before <= log && exists i | |before| <= i < |log| :: log[i].Slot?
  }

  lemma {:induction false} ReportIsLoud(w: Work, pts: seq<TPoint>, i: nat)
    requires IdsFit(pts, |w.ps|) && i < |pts| && Acts(pts[i])
    ensures Louder(ReportPoints(w, pts).log, w.log)
  {
    var front, last := pts[..|pts| - 1], pts[|pts| - 1];
    var w1 := ReportPoints(w, front);
    ReportGrows(w, front);
    if i < |front| {
      ReportIsLoud(w, front, i);
      var k :| |w.log| <= k < |w1.log| && w1.log[k].Slot?;
      assert ReportOne(w1, last).log[k] == w1.log[k];
    } else {
      assert ReportOne(w1, last).log[|w1.log|] == Slot(last.id);
    }
  }

  lemma {:induction false} ReportGrows(w: Work, pts: seq<TPoint>)
    requires IdsFit(pts, |w.ps|)
    ensures w.log <= ReportPoints(w, pts).log
  {
    if pts != [] {
      ReportGrows(w, pts[..|pts| - 1]);
    }
  }

  lemma {:induction false} SweepIsLoud(down: seq<bool>, s: nat)
    requires s < |down| && down[s]
    ensures exists i | 0 <= i < |Sweep(down)| :: Sweep(down)[i].Slot?
  {
    var n := |down| - 1;
    if s < n {
      SweepIsLoud(down[..n], s);
      var i :| 0 <= i < |Sweep(down[..n])| && Sweep(down[..n])[i].Slot?;
      assert Sweep(down)[i].Slot?;
    } else {
      assert Sweep(down)[|Sweep(down[..n])|] == Slot(n);
    }
  }

  lemma {:induction false} SweepIsEmpty(down: seq<bool>)
    requires forall s | 0 <= s < |down| :: !down[s]
    ensures Sweep(down) == []
  {
    if down != [] {
      SweepIsEmpty(down[..|down| - 1]);
    }
  }

  /** The end of a call writes nothing else if and only if it finds nothing to sweep. */
  lemma CloseIsQuiet(w: Work, from: nat)
    requires from <= |w.log|
    ensures OnlyQuiet(Close(w).log, from)
       <==> OnlyQuiet(w.log, from) && (w.up < w.all || forall s | 0 <= s < |w.ps| :: !w.ps[s])
  {
    var log := Close(w).log;
    assert w.log <= log;
    assert OnlyQuiet(log, from) ==> OnlyQuiet(w.log, from) by {
      assert forall i | from <= i < |w.log| :: w.log[i] == log[i];
    }
    if w.up >= w.all {
      if s :| 0 <= s < |w.ps| && w.ps[s] {
        SweepIsLoud(w.ps, s);
        var i :| 0 <= i < |Sweep(w.ps)| && Sweep(w.ps)[i].Slot?;
        assert log[|w.log| + i] == Sweep(w.ps)[i];
      } else {
        SweepIsEmpty(w.ps);
      }
    }
  }

  /** Outside a frame the handler is not idle: a packet without a count that follows a
      complete frame reports the stored points again. It writes nothing but button and sync
      events if and only if none of them has a status that is acted upon, and the frame's
      releases were fewer than its points or no contact is pressed. */
  lemma StrayPacketIsQuietExactlyWhen(w: Work, d: seq<byte>)
    requires Fits(w, d) && d[65] == 0 && w.recv == w.all
    ensures OnlyQuiet(HandlePacket(w, d).log, |w.log|)
       <==> (forall i | 0 <= i < w.all :: !Acts(w.pts[i]))
            && (w.up < w.all || forall s | 0 <= s < |w.ps| :: !w.ps[s])
  {
    hide OnlyQuiet, Close;
    var pts := w.pts[..w.all];
    PutIds(w, []);
    StrayPacket(w, d);
    assert IdsFit(pts, |w.ps|);
    var w1 := ReportPoints(w, pts);
    ReportGrows(w, pts);
    CloseIsQuiet(w1, |w.log|);
    if i :| 0 <= i < w.all && Acts(w.pts[i]) {
      assert Acts(pts[i]);
      ReportIsLoud(w, pts, i);
      LouderIsNotQuiet(w1.log, w.log);
    } else {
      ReportIsIdle(w, pts);
      NothingYet(w.log);
    }
  }

  lemma NothingYet(log: seq<Event>)
    ensures OnlyQuiet(log, |log|)
  {}

  lemma LouderIsNotQuiet(log: seq<Event>, before: seq<Event>)
    requires Louder(log, before)
    ensures !OnlyQuiet(log, |before|)
  {}

  lemma StrayPacket(w: Work, d: seq<byte>)
    requires Fits(w, d) && d[65] == 0 && w.recv == w.all
    ensures IdsFit(w.pts[..w.all], |w.ps|)
    ensures HandlePacket(w, d) == Close(ReportPoints(w, w.pts[..w.all]))
  {
    assert DecodeFirst(d, 0) == [];
    assert Put(w, []).pts == w.pts;
    PutIds(w, []);
  }
}
