/** The 64-byte packets read from the touch frame: a package id, six ten-byte records
    (status, contact id, x, y, width, height) and a point count. */
module RawTouch {
  import opened Bytes
  import opened Geometry
  import opened MaskZones
  import opened ContactMask

  const RAW_LEN := 64
  const MAX_POINTS := 6
  const COUNT_OFFSET := 61

  function X(raw: seq<byte>, i: nat): u16
    requires |raw| == RAW_LEN && i < MAX_POINTS
  {
    Word(raw[10 * i + 3], raw[10 * i + 4])
  }

  function Y(raw: seq<byte>, i: nat): u16
    requires |raw| == RAW_LEN && i < MAX_POINTS
  {
    Word(raw[10 * i + 5], raw[10 * i + 6])
  }

  /** Record i as the contact memory sees it, under the zones in force. */
  ghost function TouchAt(zones: multiset<Rect>, raw: seq<byte>, i: nat): Touch
    requires |raw| == RAW_LEN && i < MAX_POINTS
  {
    Touch(raw[10 * i + 2], raw[10 * i + 1] % 16, Masked(zones, X(raw, i), Y(raw, i)))
  }

  ghost function Touches(zones: multiset<Rect>, raw: seq<byte>, n: nat): seq<Touch>
    requires |raw| == RAW_LEN && n <= MAX_POINTS
  {
    seq(n, i requires 0 <= i < n => TouchAt(zones, raw, i))
  }

  lemma TouchesSnoc(zones: multiset<Rect>, raw: seq<byte>, n: nat)
    requires |raw| == RAW_LEN && n < MAX_POINTS
    ensures Touches(zones, raw, n + 1)[..n] == Touches(zones, raw, n)
    ensures Touches(zones, raw, n + 1)[n] == TouchAt(zones, raw, n)
  {}

  /** Contact ids stay below the size of the contact table. */
  predicate RawIdsFit(raw: seq<byte>) {
    |raw| == RAW_LEN && forall i | 0 <= i < MAX_POINTS :: raw[10 * i + 2] < MAX_CONTACTS
  }

  lemma TouchesFit(zones: multiset<Rect>, raw: seq<byte>, n: nat)
    requires RawIdsFit(raw) && n <= MAX_POINTS
    ensures IdsFit(Touches(zones, raw, n), MAX_CONTACTS)
    ensures n < MAX_POINTS ==> TouchAt(zones, raw, n).id < MAX_CONTACTS
  {}

  /** The contact memory over one record more. */
  lemma TableOverRecord(rules: Rules, tab: seq<Contact>, zones: multiset<Rect>, raw: seq<byte>, n: nat)
    requires RawIdsFit(raw) && n < MAX_POINTS && |tab| == MAX_CONTACTS
    ensures TouchAt(zones, raw, n).id < MAX_CONTACTS
    ensures IdsFit(Touches(zones, raw, n), MAX_CONTACTS) && IdsFit(Touches(zones, raw, n + 1), MAX_CONTACTS)
    ensures var before, t := Touches(zones, raw, n), TouchAt(zones, raw, n);
      var (tab', m) := StepTable(rules, TableAfter(rules, tab, before), t);
      && TableAfter(rules, tab, Touches(zones, raw, n + 1)) == tab'
      && TableMarks(rules, tab, Touches(zones, raw, n + 1)) == TableMarks(rules, tab, before) + [m]
  {
    TouchesFit(zones, raw, n);
    TouchesFit(zones, raw, n + 1);
    TouchesSnoc(zones, raw, n);
    hide Touches, TouchAt, StepTable;
  }

  lemma TableOverNone(rules: Rules, tab: seq<Contact>, zones: multiset<Rect>, raw: seq<byte>)
    requires |raw| == RAW_LEN
    ensures IdsFit(Touches(zones, raw, 0), |tab|)
    ensures TableAfter(rules, tab, Touches(zones, raw, 0)) == tab
    ensures TableMarks(rules, tab, Touches(zones, raw, 0)) == []
  {}

  /** isPointDownInsideOsdRegion. */
  method IsPointDownInsideOsdRegion(table: ZoneTable, index: nat, buf: seq<byte>) returns (inside: bool)
    requires table.Valid() && |buf| == RAW_LEN && index < MAX_POINTS
    ensures inside == TouchAt(table.Zones(), buf, index).inside
    ensures inside <==> exists r | r in table.Zones() ::
      && r.x1 <= buf[10 * index + 3] as int + 256 * buf[10 * index + 4] as int <= r.x2
      && r.y1 <= buf[10 * index + 5] as int + 256 * buf[10 * index + 6] as int <= r.y2
  {
    var ptX := Word(buf[10 * index + 3], buf[10 * index + 4]);
    var ptY := Word(buf[10 * index + 5], buf[10 * index + 6]);
    inside := table.PointInside(ptX, ptY);
  }

  // -------------------------------------------------------------- whole runs

  /** A raw packet and the zones in force when it is processed. */
  datatype Input = Input(zones: multiset<Rect>, raw: seq<byte>)

  ghost predicate InputsFit(inputs: seq<Input>) {
    forall n | 0 <= n < |inputs| :: RawIdsFit(inputs[n].raw)
  }

  ghost function AllTouches(inputs: seq<Input>): (ts: seq<Touch>)
    requires InputsFit(inputs)
    ensures |ts| == 6 * |inputs| && IdsFit(ts, MAX_CONTACTS)
  {
    if inputs == [] then []
    else
      var last := inputs[|inputs| - 1];
      AllTouches(inputs[..|inputs| - 1]) + Touches(last.zones, last.raw, MAX_POINTS)
  }

  /** The point of the record that starts one byte behind `at` lies in a zone. */
  ghost predicate InZone(zones: multiset<Rect>, raw: seq<byte>, at: nat)
    requires at + 7 <= |raw|
  {
    exists r | r in zones ::
      && r.x1 <= raw[at + 3] as int + 256 * raw[at + 4] as int <= r.x2
      && r.y1 <= raw[at + 5] as int + 256 * raw[at + 6] as int <= r.y2
  }

  lemma TouchIsRead(zones: multiset<Rect>, raw: seq<byte>, i: nat)
    requires |raw| == 64 && i < 6
    ensures var t := TouchAt(zones, raw, i);
      && t.id == raw[10 * i + 2] && t.status == raw[10 * i + 1] % 16
      && (t.inside <==> InZone(zones, raw, 10 * i))
  {}

  /** Record r of a run, from the bytes of its packet: packet r / 6, place r % 6. */
  lemma {:induction false} TouchOfRecord(inputs: seq<Input>, r: nat)
    requires InputsFit(inputs) && r < 6 * |inputs|
    ensures |inputs[r / 6].raw| == 64 && |AllTouches(inputs)| == 6 * |inputs|
    ensures var t, raw, at := AllTouches(inputs)[r], inputs[r / 6].raw, 10 * (r % 6);
      && t.id == raw[at + 2] && t.status == raw[at + 1] % 16
      && (t.inside <==> InZone(inputs[r / 6].zones, raw, at))
  {
    hide TouchAt, InZone;
    var front, last := inputs[..|inputs| - 1], inputs[|inputs| - 1];
    if r < 6 * |front| {
      TouchOfRecord(front, r);
      assert front[r / 6] == inputs[r / 6];
    } else {
      assert r / 6 == |front| && r % 6 == r - 6 * |front|;
      TouchesAt(last.zones, last.raw, r % 6);
      TouchIsRead(last.zones, last.raw, r % 6);
    }
  }

  lemma SixAt<T>(a: seq<T>, b: seq<T>, n: nat)
    requires |b| == 6 && 6 * n <= |a| && (6 * n == |a| || 6 * n + 6 <= |a|)
    ensures (a + b)[6 * n..6 * n + 6] == if 6 * n == |a| then b else a[6 * n..6 * n + 6]
  {}

  lemma SixIndex<T>(a: seq<T>, n: nat, i: nat)
    requires i < 6 && 6 * n + 6 <= |a|
    ensures a[6 * n..6 * n + 6][i] == a[6 * n + i]
  {}

  lemma TouchesAt(zones: multiset<Rect>, raw: seq<byte>, i: nat)
    requires |raw| == RAW_LEN && i < MAX_POINTS
    ensures Touches(zones, raw, MAX_POINTS)[i] == TouchAt(zones, raw, i)
  {}

  // --------------------------------------------------------------- histories

  /** What happens to a service: a zone is added or taken away, or a packet arrives. */
  datatype Act = Zoning(change: Change) | Arrival(raw: seq<byte>)

  ghost predicate ActsFit(acts: seq<Act>) {
    forall i | 0 <= i < |acts| && acts[i].Arrival? :: RawIdsFit(acts[i].raw)
  }

  function ChangesIn(acts: seq<Act>): seq<Change> {
    if acts == [] then []
    else
      var last := acts[|acts| - 1];
      ChangesIn(acts[..|acts| - 1]) + if last.Zoning? then [last.change] else []
  }

  /** The packets of a history, each with the zones in force when it arrives. */
  ghost function InputsIn(acts: seq<Act>): (inputs: seq<Input>)
    requires ActsFit(acts)
    ensures InputsFit(inputs)
  {
    if acts == [] then []
    else
      var front, last := acts[..|acts| - 1], acts[|acts| - 1];
      InputsIn(front) + if last.Arrival? then [Input(ApplyAll(ChangesIn(front)), last.raw)] else []
  }

  lemma HistorySnoc(acts: seq<Act>, i: nat)
    requires ActsFit(acts) && i < |acts|
    ensures ActsFit(acts[..i]) && ActsFit(acts[..i + 1])
    ensures match acts[i]
      case Zoning(change) => (
        && ApplyAll(ChangesIn(acts[..i + 1])) == Apply(ApplyAll(ChangesIn(acts[..i])), change)
        && InputsIn(acts[..i + 1]) == InputsIn(acts[..i]))
      case Arrival(raw) => (
        && RawIdsFit(raw) && ChangesIn(acts[..i + 1]) == ChangesIn(acts[..i])
        && InputsIn(acts[..i + 1]) == InputsIn(acts[..i]) + [Input(ApplyAll(ChangesIn(acts[..i])), raw)])
  {
    assert acts[..i + 1][..i] == acts[..i];
    var changes, inputs := ChangesIn(acts[..i]), InputsIn(acts[..i]);
    match acts[i] {
      case Zoning(change) =>
        assert (changes + [change])[..|changes|] == changes;
        assert inputs + [] == inputs;
      case Arrival(raw) =>
        assert changes + [] == changes;
    }
  }
}
