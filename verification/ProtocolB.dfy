/** The input events the touch services write to their uinput device, and what a
    reader of that device makes of them under multi-touch Protocol B: events apply
    to the current slot, and a slot is live while its tracking id is not -1. */
module ProtocolB {

  datatype Event =
    | Slot(slot: int)
    | TrackingId(tracking: int)
    | PositionX(x: int)
    | PositionY(y: int)
    | TouchMajor(major: int)
    | TouchMinor(minor: int)
    | ToolType(tool: int)
    | BtnTouch(pressed: int)
    | BtnToolRubber(rubbing: int)
    | SynReport

  /** The current slot, and the tracking id of each slot that is live. */
  datatype Reader = Reader(slot: int, ids: map<int, int>)

  const FRESH_READER := Reader(0, map[])

  function Consume(r: Reader, e: Event): Reader {
    match e
    case Slot(s) => r.(slot := s)
    case TrackingId(t) =>
      if t == -1 then r.(ids := r.ids - {r.slot}) else r.(ids := r.ids[r.slot := t])
    case _ => r
  }

  /** What a reader knows after a log of events. */
  function ConsumeAll(r: Reader, log: seq<Event>): Reader {
    if log == [] then r else Consume(ConsumeAll(r, log[..|log| - 1]), log[|log| - 1])
  }

  /** The tracking ids of the slots that are live after a log. */
  function Ids(log: seq<Event>): map<int, int> {
    ConsumeAll(FRESH_READER, log).ids
  }

  function LiveSlots(log: seq<Event>): set<int> {
    Ids(log).Keys
  }

  /** Each of the slots under a tracking id of its own, which is its number. */
  function Own(slots: set<int>): map<int, int> {
    map s | s in slots :: s
  }

  lemma {:induction false} ConsumeAppend(r: Reader, a: seq<Event>, b: seq<Event>)
    ensures ConsumeAll(r, a + b) == ConsumeAll(ConsumeAll(r, a), b)
  {
    if b == [] {
      assert a + b == a;
    } else {
      assert (a + b)[..|a + b| - 1] == a + b[..|b| - 1];
      ConsumeAppend(r, a, b[..|b| - 1]);
    }
  }

  /** Events that touch no slot leave the reader as it was. */
  predicate Neutral(e: Event) {
    !e.Slot? && !e.TrackingId?
  }

  lemma {:induction false} ConsumeNeutral(r: Reader, es: seq<Event>)
    requires forall e | e in es :: Neutral(e)
    ensures ConsumeAll(r, es) == r
  {
    if es != [] {
      ConsumeNeutral(r, es[..|es| - 1]);
      assert Neutral(es[|es| - 1]);
    }
  }

  /** A slot switch followed by a tracking id decides whether that slot is live. */
  lemma ConsumeContact(log: seq<Event>, s: int, t: int, rest: seq<Event>)
    requires forall e | e in rest :: Neutral(e)
    ensures Ids(log + [Slot(s), TrackingId(t)] + rest) == if t == -1 then Ids(log) - {s} else Ids(log)[s := t]
    ensures LiveSlots(log + [Slot(s), TrackingId(t)] + rest)
         == if t == -1 then LiveSlots(log) - {s} else LiveSlots(log) + {s}
  {
    var pair := [Slot(s), TrackingId(t)];
    ConsumeAppend(FRESH_READER, log + pair, rest);
    ConsumeAppend(FRESH_READER, log, pair);
    var before := ConsumeAll(FRESH_READER, log);
    assert pair[..1] == [Slot(s)] && pair[..1][..0] == [];
    assert ConsumeAll(before, pair[..1]) == before.(slot := s);
    ConsumeNeutral(ConsumeAll(FRESH_READER, log + pair), rest);
  }

  /** Moving the current slot without a tracking id changes no slot's life. */
  lemma ConsumeMove(log: seq<Event>, s: int, rest: seq<Event>)
    requires forall e | e in rest :: Neutral(e)
    ensures Ids(log + [Slot(s)] + rest) == Ids(log) && LiveSlots(log + [Slot(s)] + rest) == LiveSlots(log)
  {
    ConsumeAppend(FRESH_READER, log + [Slot(s)], rest);
    ConsumeAppend(FRESH_READER, log, [Slot(s)]);
    assert [Slot(s)][..0] == [];
    ConsumeNeutral(ConsumeAll(FRESH_READER, log + [Slot(s)]), rest);
  }

  lemma ConsumeQuiet(log: seq<Event>, rest: seq<Event>)
    requires forall e | e in rest :: Neutral(e)
    ensures Ids(log + rest) == Ids(log) && LiveSlots(log + rest) == LiveSlots(log)
  {
    ConsumeAppend(FRESH_READER, log, rest);
    ConsumeNeutral(ConsumeAll(FRESH_READER, log), rest);
  }

  /** The events that release every slot recorded as down, in slot order. */
  function Sweep(down: seq<bool>): seq<Event> {
    if down == [] then []
    else
      var n := |down| - 1;
      Sweep(down[..n]) + if down[n] then [Slot(n), TrackingId(-1)] else []
  }

  lemma SweepSnoc(down: seq<bool>, i: nat)
    requires i < |down|
    ensures Sweep(down[..i + 1]) == Sweep(down[..i]) + if down[i] then [Slot(i), TrackingId(-1)] else []
    ensures (true in down[..i + 1]) == (true in down[..i] || down[i])
  {
    assert down[..i + 1][..i] == down[..i];
    assert down[..i + 1] == down[..i] + [down[i]];
  }

  function NoneDown(n: nat): seq<bool> {
    seq(n, _ => false)
  }

  lemma {:induction false} SweepNone(n: nat)
    ensures Sweep(NoneDown(n)) == []
  {
    if n > 0 {
      assert NoneDown(n)[..n - 1] == NoneDown(n - 1);
      SweepNone(n - 1);
    }
  }

  function DownSlots(down: seq<bool>): set<int> {
    set i | 0 <= i < |down| && down[i]
  }

  lemma DownSlotsSnoc(down: seq<bool>)
    requires down != []
    ensures DownSlots(down) == DownSlots(down[..|down| - 1]) + if down[|down| - 1] then {|down| - 1} else {}
  {}

  lemma {:induction false} SweepReleases(log: seq<Event>, down: seq<bool>)
    ensures Ids(log + Sweep(down)) == Ids(log) - DownSlots(down)
    ensures LiveSlots(log + Sweep(down)) == LiveSlots(log) - DownSlots(down)
  {
    hide Ids, Own;
    if down == [] {
      assert log + Sweep(down) == log;
    } else {
      var n := |down| - 1;
      SweepReleases(log, down[..n]);
      DownSlotsSnoc(down);
      hide DownSlots;
      if down[n] {
        ConsumeContact(log + Sweep(down[..n]), n, -1, []);
        assert log + Sweep(down) == log + Sweep(down[..n]) + [Slot(n), TrackingId(-1)] + [];
      } else {
        assert log + Sweep(down) == log + Sweep(down[..n]);
      }
    }
  }

  /** How many syncs a log holds. */
  function SyncCount(log: seq<Event>): nat {
    if log == [] then 0 else SyncCount(log[..|log| - 1]) + if log[|log| - 1] == SynReport then 1 else 0
  }

  lemma {:induction false} SyncAppend(a: seq<Event>, b: seq<Event>)
    ensures SyncCount(a + b) == SyncCount(a) + SyncCount(b)
  {
    if b == [] {
      assert a + b == a;
    } else {
      assert (a + b)[..|a + b| - 1] == a + b[..|b| - 1];
      SyncAppend(a, b[..|b| - 1]);
    }
  }

  lemma {:induction false} NoSync(es: seq<Event>)
    requires SynReport !in es
    ensures SyncCount(es) == 0
  {
    if es != [] {
      NoSync(es[..|es| - 1]);
    }
  }

  lemma {:induction false} SweepHasNoSync(down: seq<bool>)
    ensures SynReport !in Sweep(down)
  {
    if down != [] {
      SweepHasNoSync(down[..|down| - 1]);
    }
  }

  // --------------------------------------------------- what is written for a slot

  /** Position, size and tool type last given for a slot. */
  datatype View = View(x: int, y: int, major: int, minor: int, tool: int)

  datatype Screen = Screen(slot: int, views: map<int, View>) {
    function Of(s: int): View {
      if s in views then views[s] else View(0, 0, 0, 0, 0)
    }

    function With(v: View): Screen {
      Screen(slot, views[slot := v])
    }
  }

  function Draw(c: Screen, e: Event): Screen {
    match e
    case Slot(s) => c.(slot := s)
    case PositionX(x) => c.With(c.Of(c.slot).(x := x))
    case PositionY(y) => c.With(c.Of(c.slot).(y := y))
    case TouchMajor(m) => c.With(c.Of(c.slot).(major := m))
    case TouchMinor(m) => c.With(c.Of(c.slot).(minor := m))
    case ToolType(t) => c.With(c.Of(c.slot).(tool := t))
    case _ => c
  }

  function DrawAll(c: Screen, log: seq<Event>): Screen {
    if log == [] then c else Draw(DrawAll(c, log[..|log| - 1]), log[|log| - 1])
  }

  /** What a log of events has last said of slot s, whether or not the device lets it through. */
  function Drawn(log: seq<Event>, s: int): View {
    DrawAll(Screen(0, map[]), log).Of(s)
  }

  lemma {:induction false} DrawAppend(c: Screen, a: seq<Event>, b: seq<Event>)
    ensures DrawAll(c, a + b) == DrawAll(DrawAll(c, a), b)
  {
    if b == [] {
      assert a + b == a;
    } else {
      assert (a + b)[..|a + b| - 1] == a + b[..|b| - 1];
      DrawAppend(c, a, b[..|b| - 1]);
    }
  }

  lemma DrawTwo(c: Screen, e1: Event, e2: Event)
    ensures DrawAll(c, [e1, e2]) == Draw(Draw(c, e1), e2)
  {
    assert [e1, e2][..1] == [e1] && [e1][..0] == [];
    assert DrawAll(c, [e1]) == Draw(c, e1);
  }

  /** Events that say nothing about position, size or tool. */
  predicate Plain(e: Event) {
    e.TrackingId? || e.BtnTouch? || e.BtnToolRubber? || e.SynReport?
  }

  lemma {:induction false} DrawPlain(c: Screen, es: seq<Event>)
    requires forall e | e in es :: Plain(e)
    ensures DrawAll(c, es) == c
  {
    if es != [] {
      DrawPlain(c, es[..|es| - 1]);
      assert Plain(es[|es| - 1]);
    }
  }

  /** A slot, its position and its size, between events that say nothing of the kind. */
  lemma DrawnPlaced(log: seq<Event>, s: int, quiet: seq<Event>, x: int, y: int, major: int, minor: int, slot: int)
    requires forall e | e in quiet :: Plain(e)
    ensures var after := log + [Slot(s)] + quiet + [PositionX(x), PositionY(y)]
        + [TouchMajor(major), TouchMinor(minor)];
      && DrawAll(Screen(0, map[]), after).slot == s
      && Drawn(after, slot) == if slot == s then View(x, y, major, minor, Drawn(log, s).tool) else Drawn(log, slot)
  {
    var c := Screen(0, map[]);
    var a1 := log + [Slot(s)];
    var a2 := a1 + quiet;
    var a3 := a2 + [PositionX(x), PositionY(y)];
    DrawAppend(c, log, [Slot(s)]);
    assert [Slot(s)][..0] == [];
    DrawAppend(c, a1, quiet);
    DrawPlain(DrawAll(c, a1), quiet);
    DrawAppend(c, a2, [PositionX(x), PositionY(y)]);
    DrawTwo(DrawAll(c, a2), PositionX(x), PositionY(y));
    DrawAppend(c, a3, [TouchMajor(major), TouchMinor(minor)]);
    DrawTwo(DrawAll(c, a3), TouchMajor(major), TouchMinor(minor));
  }

  lemma DrawnTool(log: seq<Event>, tool: int, quiet: seq<Event>, slot: int)
    requires forall e | e in quiet :: Plain(e)
    ensures var s := DrawAll(Screen(0, map[]), log).slot;
      Drawn(log + [ToolType(tool)] + quiet, slot) == if slot == s then Drawn(log, s).(tool := tool) else Drawn(log, slot)
  {
    var c := Screen(0, map[]);
    DrawAppend(c, log, [ToolType(tool)]);
    assert [ToolType(tool)][..0] == [];
    DrawAppend(c, log + [ToolType(tool)], quiet);
    DrawPlain(DrawAll(c, log + [ToolType(tool)]), quiet);
  }

  /** A release says nothing of any slot but that it ends. */
  lemma DrawnReleased(log: seq<Event>, s: int, quiet: seq<Event>, slot: int)
    requires forall e | e in quiet :: Plain(e)
    ensures Drawn(log + [Slot(s)] + quiet, slot) == Drawn(log, slot)
  {
    var c := Screen(0, map[]);
    DrawAppend(c, log, [Slot(s)]);
    assert [Slot(s)][..0] == [];
    DrawAppend(c, log + [Slot(s)], quiet);
    DrawPlain(DrawAll(c, log + [Slot(s)]), quiet);
  }

  /** Events that say nothing of position, size or tool leave what is drawn as it was. */
  lemma DrawnQuiet(log: seq<Event>, quiet: seq<Event>, s: int)
    requires forall e | e in quiet :: Plain(e)
    ensures Drawn(log + quiet, s) == Drawn(log, s)
  {
    DrawAppend(Screen(0, map[]), log, quiet);
    DrawPlain(DrawAll(Screen(0, map[]), log), quiet);
  }
}
