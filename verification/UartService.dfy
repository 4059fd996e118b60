/** The UART touch service from the serial line to the input device: the receive thread
    and its handler together. */
module UartService {
  import opened Bytes
  import opened ProtocolB
  import opened UartReceiver
  import opened UartReport

  ghost function FreshWork(): Work {
    Work(0, 0, 0, seq(MAX_CONTACTS, _ => BLANK), NoneDown(MAX_CONTACTS), [])
  }

  /** The frames the receive thread hands on from a stream. */
  ghost function FramesIn(s: seq<byte>): (fs: seq<seq<byte>>)
  {
    RunSound(s, START);
    Cut(s, Run(s, START).starts)
  }

  lemma {:induction false} AdmissiblePrefix(w: Work, ds: seq<seq<byte>>, k: nat)
    requires Admissible(w, ds) && k < |ds|
    ensures Admissible(w, ds[..k]) && Fits(HandleAll(w, ds[..k]), ds[k])
    ensures Admissible(w, ds[..k + 1]) && HandleAll(w, ds[..k + 1]) == HandlePacket(HandleAll(w, ds[..k]), ds[k])
    decreases |ds|
  {
    hide HandlePacket, Fits;
    assert ds[..k + 1][0] == ds[0] && ds[..k + 1][1..] == ds[1..][..k];
    if k == 0 {
      assert Admissible(HandlePacket(w, ds[0]), ds[1..][..0]);
    } else {
      assert ds[..k][0] == ds[0] && ds[..k][1..] == ds[1..][..k - 1];
      AdmissiblePrefix(HandlePacket(w, ds[0]), ds[1..], k - 1);
    }
  }

  /** The whole service on a stream: whatever chunks the serial reads return, the events
      written are those of handling the received frames in order, and the slots live after
      them are those of the contacts pressed by a press record, each under its own number. */
  method Serve(input: seq<byte>) returns (log: seq<Event>)
    requires Admissible(FreshWork(), FramesIn(input))
    ensures log == HandleAll(FreshWork(), FramesIn(input)).log
    ensures Ok(FreshWork())
    ensures var tracks := TrackAll(NO_TRACKS, Reports(FreshWork(), FramesIn(input))).presses;
      Ids(log) == Own(Visible(tracks))
  {
    var delivered := Receive(input);
    var handler := new WorkHandler();
    ghost var w := FreshWork();
    for k := 0 to |delivered|
      invariant fresh(handler) && fresh(handler.mPoints) && fresh(handler.ps)
      invariant Admissible(w, delivered[..k]) && handler.State() == HandleAll(w, delivered[..k])
    {
      AdmissiblePrefix(w, delivered, k);
      handler.Handle(delivered[k]);
    }
    assert delivered[..|delivered|] == delivered;
    log := handler.log;
    FreshIsLive();
    LiveArePressedByPress(w, NO_TRACKS, delivered);
  }

  lemma FreshIsLive()
    ensures Ok(FreshWork()) && LiveArePressed(FreshWork())
    ensures Tracked(FreshWork(), NO_TRACKS)
  {}

  /** From bytes to contacts: a stream of well-formed frames whose touch frames are the
      packets of some point frames is reported frame by frame, each as its points once,
      however acknowledgements are mixed in between. */
  lemma FramesOnTheLine(fs: seq<seq<byte>>, frames: seq<PointFrame>)
    requires forall i | 0 <= i < |fs| :: WellFormed(fs[i])
    requires WholeFrames(frames) && TouchFramesOf(fs) == PacketsOf(frames)
    ensures Ok(FreshWork()) && FramesIn(Concat(fs)) == PacketsOf(frames)
    ensures Admissible(FreshWork(), PacketsOf(frames))
    ensures HandleAll(FreshWork(), PacketsOf(frames)) == ShownAll(FreshWork(), frames)
  {
    FreshIsLive();
    FramesInWellFormed(fs);
    hide *;
    FramesRefineOneShots(FreshWork(), frames);
  }

  lemma FramesInWellFormed(fs: seq<seq<byte>>)
    requires forall i | 0 <= i < |fs| :: WellFormed(fs[i])
    ensures FramesIn(Concat(fs)) == TouchFramesOf(fs)
  {
    hide WellFormed, Run, Cut, TouchFramesOf, Sound;
    Lossless(fs, []);
    assert Concat(fs) + [] == Concat(fs);
  }

  // ----------------------------------------------------------------- witnesses

  /** A packet that announces one point and holds it. */
  function OnePoint(id: byte, status: byte): seq<byte> {
    seq(67, k =>
      if k == 5 then status else if k == 6 then id else if k == 65 then 1 else 0)
  }

  /** A packet without a count. */
  const NO_COUNT: seq<byte> := seq(67, _ => 0)

  /** What one point in a packet of its own does to a fresh handler. */
  lemma OnePointHandled(id: byte, status: byte)
    requires id < UartReport.MAX_CONTACTS
    ensures var w, d := FreshWork(), OnePoint(id, status); var p := Decode(d, 0);
      && Fits(w, d) && p.id == id && p.status == status
      && var w1 := Work(1, 1, 0, [p] + w.pts[1..], w.ps, []);
      HandlePacket(w, d) == Close(ReportOne(w1, p))
  {
    var w, d := FreshWork(), OnePoint(id, status);
    var p := Decode(d, 0);
    assert Opened(w, d) == Work(1, 0, 0, w.pts, w.ps, []);
    assert DecodeFirst(d, 1) == [p];
    var w1 := Work(1, 1, 0, [p] + w.pts[1..], w.ps, []);
    assert Put(Opened(w, d), [p]) == w1;
    assert w1.pts[..1] == [p] && [p][..0] == [];
    assert ReportPoints(w1, [p]) == ReportOne(ReportPoints(w1, []), p);
  }

  lemma RunOfOne(w: Work, d: seq<byte>)
    requires Fits(w, d)
    ensures Admissible(w, [d]) && HandleAll(w, [d]) == HandlePacket(w, d)
  {
    assert [d][1..] == [];
  }

  lemma RunOfTwo(w: Work, d: seq<byte>, e: seq<byte>)
    requires Fits(w, d) && Fits(HandlePacket(w, d), e)
    ensures Admissible(w, [d, e]) && HandleAll(w, [d, e]) == HandlePacket(HandlePacket(w, d), e)
  {
    RunOfOne(HandlePacket(w, d), e);
    assert [d, e][1..] == [e];
  }

  /** A packet without a count behind a one-point frame takes back the press it reported. */
  lemma StrayPacketLiftsContact(id: byte)
    requires id < UartReport.MAX_CONTACTS
    ensures var press := OnePoint(id, 0x02);
      && Admissible(FreshWork(), [press]) && Admissible(FreshWork(), [press, NO_COUNT])
      && LiveSlots(HandleAll(FreshWork(), [press]).log) == {id as int}
      && LiveSlots(HandleAll(FreshWork(), [press, NO_COUNT]).log) == {}
  {
    var w, press := FreshWork(), OnePoint(id, 0x02);
    OnePointHandled(id, 0x02);
    RunOfOne(w, press);
    var p := Decode(press, 0);
    var w1 := Work(1, 1, 0, [p] + w.pts[1..], w.ps, []);
    PressedOnce(w1, p);
    var w2 := HandlePacket(w, press);
    HandleKeepsOk(w, press);
    assert Fits(w2, NO_COUNT);
    RunOfTwo(w, press, NO_COUNT);
    StrayPacket(w2, NO_COUNT);
    assert w2.pts[..1] == [p] && [p][..0] == [];
    assert ReportPoints(w2, [p]) == ReportOne(ReportPoints(w2, []), p);
    LiftedAgain(w2, p);
  }

  lemma PressedOnce(w: Work, p: TPoint)
    requires p.id < |w.ps| && p.status == 0x02 && !w.ps[p.id] && w.log == [] && w.up == 0 && w.all == 1
    ensures var w' := Close(ReportOne(w, p));
      && LiveSlots(w'.log) == {p.id as int} && w' == w.(ps := w.ps[p.id := true], log := w'.log)
  {
    var log := ReportOne(w, p).log;
    forall s ensures s in LiveSlots(log) <==> s == p.id {
      ReportOneLives(w, p, s);
    }
    assert LiveSlots(log) == {p.id as int};
    ConsumeQuiet(log, [BtnTouch(1), SynReport]);
  }

  lemma LiftedAgain(w: Work, p: TPoint)
    requires p.id < |w.ps| && p.status == 0x02 && w.ps[p.id] && w.up == 0 && w.all == 1
    requires LiveSlots(w.log) <= DownSlots(w.ps)
    ensures LiveSlots(Close(ReportOne(w, p)).log) == {}
  {
    ReportOneKeepsLive(w, p);
    CloseKeepsLive(ReportOne(w, p));
  }

  /** A contact that first shows up in a move record is pressed for the handler and invisible
      to a reader of the device. */
  lemma MoveAloneIsInvisible(id: byte)
    requires id < UartReport.MAX_CONTACTS
    ensures Admissible(FreshWork(), [OnePoint(id, 0x03)])
    ensures var w := HandleAll(FreshWork(), [OnePoint(id, 0x03)]);
      |w.ps| == UartReport.MAX_CONTACTS && w.ps[id] && LiveSlots(w.log) == {}
  {
    var w, move := FreshWork(), OnePoint(id, 0x03);
    OnePointHandled(id, 0x03);
    RunOfOne(w, move);
    var p := Decode(move, 0);
    MovedOnly(Work(1, 1, 0, [p] + w.pts[1..], w.ps, []), p);
  }

  lemma MovedOnly(w: Work, p: TPoint)
    requires p.id < |w.ps| && p.status == 0x03 && w.log == [] && w.up == 0 && w.all == 1
    ensures var w' := Close(ReportOne(w, p)); LiveSlots(w'.log) == {} && w'.ps == w.ps[p.id := true]
  {
    var log := ReportOne(w, p).log;
    forall s ensures s !in LiveSlots(log) {
      ReportOneLives(w, p, s);
    }
    ConsumeQuiet(log, [BtnTouch(1), SynReport]);
  }
}
