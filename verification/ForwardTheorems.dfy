/** What the forwarding pipeline does to a whole frame: which records it keeps, that the
    count it announces is theirs, and that its output is a fixed point of itself. */
module ForwardTheorems {
  import opened Bytes
  import opened Geometry
  import opened MaskZones
  import opened ContactMask
  import opened RawTouch
  import opened SourceForward
  import opened RecordBytes

  // -------------------------------------------------------- frames as records

  ghost predicate AllFit(s: Setup, inputs: seq<Input>) {
    forall n | 0 <= n < |inputs| :: PacketFits(s, inputs[n].raw)
  }

  ghost function DispatchAll(s: Setup, f: Fwd, inputs: seq<Input>): (f': Fwd)
    requires FwdOk(s, f) && AllFit(s, inputs)
    ensures FwdOk(s, f')
  {
    if inputs == [] then f
    else
      var last := inputs[|inputs| - 1];
      Dispatch(s, DispatchAll(s, f, inputs[..|inputs| - 1]), last.zones, last.raw)
  }

  /** The records of the packets of a run, end to end. */
  function Payload(inputs: seq<Input>): (p: seq<byte>)
    requires InputsFit(inputs)
    ensures |p| == 60 * |inputs|
  {
    if inputs == [] then [] else Payload(inputs[..|inputs| - 1]) + inputs[|inputs| - 1].raw[1..61]
  }

  /** The first packets of a frame of n records: the count stands in the first. */
  ghost predicate Begins(s: Setup, inputs: seq<Input>, n: nat) {
    && AllFit(s, inputs) && 1 <= |inputs| <= PacketsFor(n)
    && forall k | 0 <= k < |inputs| :: inputs[k].raw[61] == if k == 0 then n else 0
  }

  ghost predicate FrameOf(s: Setup, inputs: seq<Input>, n: nat) {
    Begins(s, inputs, n) && |inputs| == PacketsFor(n)
  }

  ghost function FrameMarks(f: Fwd, inputs: seq<Input>): (m: seq<bool>)
    requires InputsFit(inputs) && |f.tab| == MAX_CONTACTS
    ensures |m| == 6 * |inputs|
  {
    TableMarks(Ist, f.tab, AllTouches(inputs))
  }

  // --------------------------------------------------- the buffer, step by step

  lemma FilterStep(s: Setup, f: Fwd, zones: multiset<Rect>, raw: seq<byte>, index: nat, n: int)
    requires FwdFits(s, f) && RawIdsFit(raw) && index < s.maxPackages
    ensures var ts := Touches(zones, raw, MAX_POINTS); IdsFit(ts, MAX_CONTACTS)
    ensures var ts := Touches(zones, raw, MAX_POINTS);
      var f', marks := Filter(s, f, zones, raw, index, n), TableMarks(Ist, f.tab, ts);
      && f'.tab == TableAfter(Ist, f.tab, ts)
      && f'.buf[60 * index..60 * index + 60] == Blank(raw[1..61], marks)
      && (index > 0 ==> f'.buf[..60 * index] == f.buf[..60 * index])
      && f'.valid == (if index == 0 then n else f.valid) - CountTrue(marks)
  {}

  lemma FirstPacket(s: Setup, f: Fwd, zones: multiset<Rect>, raw: seq<byte>)
    requires FwdOk(s, f) && PacketFits(s, raw) && raw[61] > 0
    ensures IdsFit(Touches(zones, raw, MAX_POINTS), MAX_CONTACTS)
    ensures var n := raw[61]; var ts := Touches(zones, raw, MAX_POINTS);
      var g, marks := Dispatch(s, f, zones, raw), TableMarks(Ist, f.tab, ts);
      && g.tab == TableAfter(Ist, f.tab, ts) && g.buf[..60] == Blank(raw[1..61], marks)
      && g.rawNums == n && g.valid == n - CountTrue(marks) && g.nums == PacketsFor(n) && g.index == 0
      && g.out == f.out + (if PacketsFor(n) == 1 && g.valid > 0 then Emit(s.format, Compact(g.buf, n), g.valid) else [])
  {
    hide Blank, Emit, Compact;
    var n := raw[61];
    var f0 := if n <= 6 then f.(rawNums := n, index := 0, nums := 1) else f.(rawNums := n, index := 0);
    FilterStep(s, f0, zones, raw, 0, n);
    hide Filter;
  }

  lemma NextPacket(s: Setup, f: Fwd, zones: multiset<Rect>, raw: seq<byte>)
    requires FwdOk(s, f) && PacketFits(s, raw) && raw[61] == 0 && f.index + 1 < f.nums
    ensures IdsFit(Touches(zones, raw, MAX_POINTS), MAX_CONTACTS)
    ensures var ts := Touches(zones, raw, MAX_POINTS);
      var g, marks, at := Dispatch(s, f, zones, raw), TableMarks(Ist, f.tab, ts), 60 * (f.index + 1);
      && g.tab == TableAfter(Ist, f.tab, ts)
      && at + 60 <= BUF_LEN && g.buf[..at + 60] == f.buf[..at] + Blank(raw[1..61], marks)
      && g.rawNums == f.rawNums && g.valid == f.valid - CountTrue(marks) && g.nums == f.nums && g.index == f.index + 1
      && g.out == f.out + (if g.index == g.nums - 1 && g.valid > 0
                           then Emit(s.format, Compact(g.buf, g.rawNums), g.valid) else [])
  {
    hide Blank, Emit, Compact;
    FilterStep(s, f.(index := f.index + 1), zones, raw, f.index + 1, f.valid);
    hide Filter;
    var g, at := Dispatch(s, f, zones, raw), 60 * (f.index + 1);
    assert g.buf[..at + 60] == g.buf[..at] + g.buf[at..at + 60];
  }

  /** Where a forwarder stands after the first packets of a frame. */
  ghost predicate AtStage(s: Setup, f: Fwd, inputs: seq<Input>, n: nat, g: Fwd)
    requires InputsFit(inputs) && |f.tab| == MAX_CONTACTS && n <= |g.buf| / 10
  {
    var marks := FrameMarks(f, inputs);
    && g.tab == TableAfter(Ist, f.tab, AllTouches(inputs))
    && 60 * |inputs| <= |g.buf| && g.buf[..60 * |inputs|] == Blank(Payload(inputs), marks)
    && g.rawNums == n && g.valid == n - CountTrue(marks) && g.nums == PacketsFor(n) && g.index == |inputs| - 1
    && g.out == f.out + (if |inputs| == PacketsFor(n) && 0 < g.valid < 256
                         then Emit(s.format, Compact(g.buf, n), g.valid) else [])
  }

  lemma StageNext(s: Setup, f: Fwd, inputs: seq<Input>, n: nat, g0: Fwd)
    requires FwdOk(s, f) && FwdOk(s, g0) && Begins(s, inputs, n) && |inputs| > 1 && n <= 6 * s.maxPackages
    requires AtStage(s, f, inputs[..|inputs| - 1], n, g0)
    ensures var last := inputs[|inputs| - 1]; AtStage(s, f, inputs, n, Dispatch(s, g0, last.zones, last.raw))
  {
    hide Dispatch, Blank, Emit, Compact, Touches, PacketsFor, FrameMarks, AllTouches, TableAfter, TableMarks, CountTrue,
      Payload;
    var front, last := inputs[..|inputs| - 1], inputs[|inputs| - 1];
    assert PacketFits(s, last.raw) && last.raw[61] == 0;
    assert g0.index + 1 < g0.nums;
    NextPacket(s, g0, last.zones, last.raw);
    NextMarks(f, front, last);
    assert front + [last] == inputs;
    hide PacketFits, FwdOk;
  }

  /** How the table and the marks of a run grow by one packet. */
  lemma NextTable(f: Fwd, front: seq<Input>, last: Input)
    requires InputsFit(front) && RawIdsFit(last.raw) && |f.tab| == MAX_CONTACTS
    ensures InputsFit(front + [last])
    ensures var ts := Touches(last.zones, last.raw, MAX_POINTS);
      var mid := TableAfter(Ist, f.tab, AllTouches(front));
      && IdsFit(ts, MAX_CONTACTS)
      && TableAfter(Ist, f.tab, AllTouches(front + [last])) == TableAfter(Ist, mid, ts)
      && FrameMarks(f, front + [last]) == FrameMarks(f, front) + TableMarks(Ist, mid, ts)
      && Payload(front + [last]) == Payload(front) + last.raw[1..61]
  {
    var ts := Touches(last.zones, last.raw, MAX_POINTS);
    assert IdsFit(ts, MAX_CONTACTS);
    hide Touches, TableAfter, TableMarks;
    assert (front + [last])[..|front|] == front;
    TableAppend(Ist, f.tab, AllTouches(front), ts);
  }

  /** How the count of masked records and the buffer grow with them. */
  lemma NextMarks(f: Fwd, front: seq<Input>, last: Input)
    requires InputsFit(front) && RawIdsFit(last.raw) && |f.tab| == MAX_CONTACTS
    ensures InputsFit(front + [last])
    ensures var ts := Touches(last.zones, last.raw, MAX_POINTS);
      var mid, inputs := TableAfter(Ist, f.tab, AllTouches(front)), front + [last];
      && IdsFit(ts, MAX_CONTACTS)
      && TableAfter(Ist, f.tab, AllTouches(inputs)) == TableAfter(Ist, mid, ts)
      && CountTrue(FrameMarks(f, inputs)) == CountTrue(FrameMarks(f, front)) + CountTrue(TableMarks(Ist, mid, ts))
      && Blank(Payload(inputs), FrameMarks(f, inputs))
         == Blank(Payload(front), FrameMarks(f, front)) + Blank(last.raw[1..61], TableMarks(Ist, mid, ts))
  {
    NextTable(f, front, last);
    hide *;
    var marks := TableMarks(Ist, TableAfter(Ist, f.tab, AllTouches(front)), Touches(last.zones, last.raw, MAX_POINTS));
    CountAppend(FrameMarks(f, front), marks);
    BlankAppend(Payload(front), last.raw[1..61], FrameMarks(f, front), marks);
  }

  lemma {:induction false} Stages(s: Setup, f: Fwd, inputs: seq<Input>, n: nat)
    requires FwdOk(s, f) && Begins(s, inputs, n)
    ensures n <= 6 * s.maxPackages && AtStage(s, f, inputs, n, DispatchAll(s, f, inputs))
    decreases |inputs|
  {
    var front, last := inputs[..|inputs| - 1], inputs[|inputs| - 1];
    BeginsParts(s, inputs, n);
    TabFits(s, f);
    DispatchSnoc(s, f, inputs);
    hide *;
    if front == [] {
      FirstStage(s, f, inputs, n);
    } else {
      Stages(s, f, front, n);
      StageNext(s, f, inputs, n, DispatchAll(s, f, front));
    }
  }

  lemma DispatchSnoc(s: Setup, f: Fwd, inputs: seq<Input>)
    requires FwdOk(s, f) && AllFit(s, inputs) && inputs != []
    ensures var front, last := inputs[..|inputs| - 1], inputs[|inputs| - 1];
      && AllFit(s, front) && PacketFits(s, last.raw) && FwdOk(s, DispatchAll(s, f, front))
      && (front == [] ==> DispatchAll(s, f, front) == f)
      && DispatchAll(s, f, inputs) == Dispatch(s, DispatchAll(s, f, front), last.zones, last.raw)
  {}

  lemma BeginsParts(s: Setup, inputs: seq<Input>, n: nat)
    requires SetupOk(s) && Begins(s, inputs, n)
    ensures AllFit(s, inputs) && InputsFit(inputs) && n <= 6 * s.maxPackages && n <= BUF_LEN / 10
    ensures var front := inputs[..|inputs| - 1]; front != [] ==> Begins(s, front, n)
  {
    assert PacketFits(s, inputs[0].raw);
    AtMostMaxPackages(s, n);
  }

  lemma FirstStage(s: Setup, f: Fwd, inputs: seq<Input>, n: nat)
    requires FwdOk(s, f) && Begins(s, inputs, n) && |inputs| == 1 && InputsFit(inputs) && n <= 6 * s.maxPackages
    ensures PacketFits(s, inputs[0].raw)
    ensures AtStage(s, f, inputs, n, Dispatch(s, f, inputs[0].zones, inputs[0].raw))
  {
    hide Dispatch, Blank, Emit, Compact, Touches, TableAfter, TableMarks, AllTouches, FrameMarks, Payload, CountTrue;
    OneInput(f, inputs);
    FirstPacket(s, f, inputs[0].zones, inputs[0].raw);
  }

  lemma OneInput(f: Fwd, inputs: seq<Input>)
    requires InputsFit(inputs) && |inputs| == 1 && |f.tab| == MAX_CONTACTS
    ensures var ts := Touches(inputs[0].zones, inputs[0].raw, MAX_POINTS);
      && AllTouches(inputs) == ts && FrameMarks(f, inputs) == TableMarks(Ist, f.tab, ts)
      && Payload(inputs) == inputs[0].raw[1..61]
  {
    hide Touches, TableMarks;
    assert AllTouches(inputs[..0]) == [] && Payload(inputs[..0]) == [];
  }

  lemma AtMostMaxPackages(s: Setup, n: nat)
    requires n <= 6 * s.maxPackages
    ensures PacketsFor(n) <= s.maxPackages
  {}

  lemma BlankAt(payload: seq<byte>, marks: seq<bool>, r: nat, j: nat)
    requires j < 10 && r < |marks| && 10 * |marks| <= |payload|
    ensures Blank(payload, marks)[10 * r + j] == if j == 0 && marks[r] then 0 else payload[10 * r + j]
  {
    assert (10 * r + j) % 10 == j && (10 * r + j) / 10 == r;
  }

  lemma {:induction false} CompactOfBlank(buf: seq<byte>, payload: seq<byte>, marks: seq<bool>, n: nat)
    requires n <= |marks| && 10 * |marks| == |payload| <= |buf| && buf[..|payload|] == Blank(payload, marks)
    ensures Compact(buf, n) == Kept(payload, marks, n)
  {
    hide Blank, Compact, Kept;
    if n == 0 {
      NothingKept(buf, payload, marks);
    } else {
      CompactOfBlank(buf, payload, marks, n - 1);
      StatusAfterBlank(buf, payload, marks, n - 1);
      CompactSnoc(buf, n - 1);
      KeptSnoc(payload, marks, n - 1);
      if !marks[n - 1] {
        RecordUnmasked(buf, payload, marks, n - 1);
      }
    }
  }

  lemma StatusAfterBlank(buf: seq<byte>, payload: seq<byte>, marks: seq<bool>, r: nat)
    requires r < |marks| && 10 * |marks| == |payload| <= |buf| && buf[..|payload|] == Blank(payload, marks)
    ensures buf[10 * r] == if marks[r] then 0 else payload[10 * r]
  {
    BlankAt(payload, marks, r, 0);
    assert buf[..|payload|][10 * r + 0] == buf[10 * r];
  }

  lemma RecordUnmasked(buf: seq<byte>, payload: seq<byte>, marks: seq<bool>, r: nat)
    requires r < |marks| && !marks[r] && 10 * |marks| == |payload| <= |buf| && buf[..|payload|] == Blank(payload, marks)
    ensures buf[10 * r..10 * r + 10] == payload[10 * r..10 * r + 10]
  {
    hide Blank;
    var a, b := buf[10 * r..10 * r + 10], payload[10 * r..10 * r + 10];
    forall j | 0 <= j < 10 ensures a[j] == b[j] {
      BlankAt(payload, marks, r, j);
      assert buf[..|payload|][10 * r + j] == buf[10 * r + j];
    }
  }

  // ----------------------------------------------------- counting what is kept

  /** Only records with status 4 or 7 are ever masked. */
  lemma {:induction false} MarkedHaveStatus(tab: seq<Contact>, ts: seq<Touch>, r: nat)
    requires IdsFit(ts, |tab|) && r < |ts| && TableMarks(Ist, tab, ts)[r]
    ensures ts[r].status == IST_DOWN || ts[r].status == IST_UP
  {
    if r < |ts| - 1 {
      MarkedHaveStatus(tab, ts[..|ts| - 1], r);
    }
  }

  /** The record bytes of a run, from the bytes of its packets: record r is in packet r / 6,
      place r % 6. */
  lemma {:induction false} PayloadBytes(inputs: seq<Input>, r: nat, j: nat)
    requires InputsFit(inputs) && r < 6 * |inputs| && j < 10
    ensures |inputs[r / 6].raw| == 64 && |Payload(inputs)| == 60 * |inputs|
    ensures Payload(inputs)[10 * r + j] == inputs[r / 6].raw[10 * (r % 6) + 1 + j]
  {
    var front, last := inputs[..|inputs| - 1], inputs[|inputs| - 1];
    if r < 6 * |front| {
      PayloadBytes(front, r, j);
      assert front[r / 6] == inputs[r / 6];
    } else {
      assert r / 6 == |front| && r % 6 == r - 6 * |front|;
      assert last.raw[1..61][10 * (r % 6) + j] == last.raw[10 * (r % 6) + 1 + j];
    }
  }

  lemma {:induction false} StatusOfRecord(inputs: seq<Input>, r: nat)
    requires InputsFit(inputs) && r < 6 * |inputs|
    ensures AllTouches(inputs)[r].status == Payload(inputs)[10 * r] % 16
    ensures AllTouches(inputs)[r].id == Payload(inputs)[10 * r + 1]
  {
    var front, last := inputs[..|inputs| - 1], inputs[|inputs| - 1];
    if r < 6 * |front| {
      StatusOfRecord(front, r);
    } else {
      var i := r - 6 * |front|;
      assert AllTouches(inputs)[r] == TouchAt(last.zones, last.raw, i);
      assert Payload(inputs)[10 * r] == last.raw[1..61][10 * i];
      assert Payload(inputs)[10 * r + 1] == last.raw[1..61][10 * i + 1];
    }
  }

  lemma IdsOfRecords(inputs: seq<Input>)
    requires InputsFit(inputs)
    ensures RecordIdsFit(Payload(inputs), 6 * |inputs|) && SameContacts(AllTouches(inputs), Payload(inputs))
  {
    hide Payload, AllTouches;
    forall r | 0 <= r < 6 * |inputs| ensures Payload(inputs)[10 * r + 1] < MAX_CONTACTS {
      IdOfRecord(inputs, r);
    }
    forall r | 0 <= r < 6 * |inputs| ensures Payload(inputs)[10 * r + 1] == AllTouches(inputs)[r].id {
      IdOfRecord(inputs, r);
    }
  }

  lemma IdOfRecord(inputs: seq<Input>, r: nat)
    requires InputsFit(inputs) && r < 6 * |inputs|
    ensures Payload(inputs)[10 * r + 1] == AllTouches(inputs)[r].id < MAX_CONTACTS
  {
    StatusOfRecord(inputs, r);
  }

  /** Every mark is on a record with a status. */
  ghost predicate MarksFit(payload: seq<byte>, marks: seq<bool>) {
    10 * |marks| <= |payload| && forall r | 0 <= r < |marks| && marks[r] :: payload[10 * r] != 0
  }

  lemma MarksAreOnRecords(f: Fwd, inputs: seq<Input>)
    requires InputsFit(inputs) && |f.tab| == MAX_CONTACTS
    ensures MarksFit(Payload(inputs), FrameMarks(f, inputs))
  {
    forall r | 0 <= r < 6 * |inputs| && FrameMarks(f, inputs)[r] ensures Payload(inputs)[10 * r] != 0 {
      MarkedHaveStatus(f.tab, AllTouches(inputs), r);
      StatusOfRecord(inputs, r);
    }
  }

  // --------------------------------------------------------------- any frame

  /** The count a frame is announced with: the valid points, if there are any. */
  function Announced(valid: int): byte
    requires valid < 256
  {
    if valid > 0 then valid else 0
  }

  /** The packets a frame of n announced records makes the forwarder write. */
  function PacketsOf(s: Setup, payload: seq<byte>, marks: seq<bool>, n: nat): seq<seq<byte>>
    requires n <= |marks| && 10 * |marks| <= |payload| && n < 256
  {
    Emit(s.format, Kept(payload, marks, n), Announced(n - CountTrue(marks)))
  }

  lemma FrameFits(s: Setup, inputs: seq<Input>, n: nat)
    requires FrameOf(s, inputs, n)
    ensures AllFit(s, inputs) && InputsFit(inputs) && 0 < n <= 6 * |inputs| && n <= 6 * s.maxPackages && n < 256
  {
    assert n == inputs[0].raw[61];
  }

  lemma PacketsOfIs(s: Setup, payload: seq<byte>, marks: seq<bool>, n: nat)
    requires n <= |marks| && 10 * |marks| <= |payload| && n < 256
    ensures var v := n - CountTrue(marks);
      && PacketsOf(s, payload, marks, n) == (if v > 0 then Emit(s.format, Kept(payload, marks, n), v) else [])
      && AllPackets(PacketsOf(s, payload, marks, n)) && |PacketsOf(s, payload, marks, n)| == PacketsFor(Announced(v))
  {}

  lemma FrameWrites(s: Setup, f: Fwd, inputs: seq<Input>, n: nat)
    requires FwdOk(s, f) && FrameOf(s, inputs, n)
    ensures InputsFit(inputs) && n <= 6 * |inputs| && n < 256
    ensures var g, marks := DispatchAll(s, f, inputs), FrameMarks(f, inputs);
      && g.valid == n - CountTrue(marks) && g.out == f.out + PacketsOf(s, Payload(inputs), marks, n)
  {
    FrameFits(s, inputs, n);
    FrameBegins(s, inputs, n);
    TabFits(s, f);
    hide *;
    Stages(s, f, inputs, n);
    var g := DispatchAll(s, f, inputs);
    LastStage(s, f, inputs, n, g);
    CompactOfBlank(g.buf, Payload(inputs), FrameMarks(f, inputs), n);
    PacketsOfIs(s, Payload(inputs), FrameMarks(f, inputs), n);
  }

  lemma FrameBegins(s: Setup, inputs: seq<Input>, n: nat)
    requires FrameOf(s, inputs, n)
    ensures Begins(s, inputs, n) && |inputs| == PacketsFor(n)
  {}

  lemma LastStage(s: Setup, f: Fwd, inputs: seq<Input>, n: nat, g: Fwd)
    requires InputsFit(inputs) && |f.tab| == MAX_CONTACTS && n <= |g.buf| / 10 && n < 256
    requires AtStage(s, f, inputs, n, g) && |inputs| == PacketsFor(n)
    ensures 60 * |inputs| <= |g.buf| && g.buf[..60 * |inputs|] == Blank(Payload(inputs), FrameMarks(f, inputs))
    ensures g.valid == n - CountTrue(FrameMarks(f, inputs))
    ensures g.out == f.out + if g.valid > 0 then Emit(s.format, Compact(g.buf, n), g.valid) else []
  {
    hide Emit, Compact, Blank;
  }

  lemma {:induction false} NothingBeforeTheLast(s: Setup, f: Fwd, inputs: seq<Input>, n: nat, k: nat)
    requires FwdOk(s, f) && FrameOf(s, inputs, n) && k < |inputs|
    ensures AllFit(s, inputs[..k]) && DispatchAll(s, f, inputs[..k]).out == f.out
  {
    if k > 0 {
      assert Begins(s, inputs[..k], n);
      hide DispatchAll;
      Stages(s, f, inputs[..k], n);
      assert f.out + [] == f.out;
    }
  }

  /** What a frame becomes, whatever its records are. Nothing is written before its last
      packet; then as many packets as the valid count needs, the count in the first. They
      carry the unmasked records that have a status, in order, up to the room there is. */
  lemma ForwardFrame(s: Setup, f: Fwd, inputs: seq<Input>, n: nat)
    requires FwdOk(s, f) && FrameOf(s, inputs, n)
    ensures forall k | 0 <= k < |inputs| :: AllFit(s, inputs[..k]) && DispatchAll(s, f, inputs[..k]).out == f.out
    ensures InputsFit(inputs) && n <= 6 * |inputs| && n < 256
    ensures var g, marks := DispatchAll(s, f, inputs), FrameMarks(f, inputs);
      var ps, kept := PacketsOf(s, Payload(inputs), marks, n), Kept(Payload(inputs), marks, n);
      && g.valid == n - CountTrue(marks) && g.out == f.out + ps
      && AllPackets(ps) && |ps| == (if g.valid > 0 then (g.valid + 5) / 6 else 0)
      && (forall i | 0 <= i < |ps| :: Stamped(s.format, ps[i], if i == 0 then g.valid else 0))
      && (forall i | 0 <= i < |ps| :: CountOf(s.format, ps[i]) == if i == 0 then g.valid else 0)
      && Carried(s.format, ps) == if |kept| <= 60 * |ps| then kept else kept[..60 * |ps|]
  {
    hide *;
    TabFits(s, f);
    FrameFits(s, inputs, n);
    forall k | 0 <= k < |inputs| ensures AllFit(s, inputs[..k]) && DispatchAll(s, f, inputs[..k]).out == f.out {
      NothingBeforeTheLast(s, f, inputs, n, k);
    }
    FrameWrites(s, f, inputs, n);
    IdsOfRecords(inputs);
    PacketsCarry(s, Payload(inputs), FrameMarks(f, inputs), n);
  }

  lemma PacketsCarry(s: Setup, payload: seq<byte>, marks: seq<bool>, n: nat)
    requires n <= |marks| && 10 * |marks| <= |payload| && n < 256 && RecordIdsFit(payload, |marks|)
    ensures var ps, kept := PacketsOf(s, payload, marks, n), Kept(payload, marks, n);
      var v := n - CountTrue(marks);
      && AllPackets(ps) && |ps| == PacketsFor(Announced(v)) == (if v > 0 then (v + 5) / 6 else 0)
      && (forall i | 0 <= i < |ps| :: Stamped(s.format, ps[i], if i == 0 then v else 0))
      && (forall i | 0 <= i < |ps| :: CountOf(s.format, ps[i]) == if i == 0 then v else 0)
      && Carried(s.format, ps) == if |kept| <= 60 * |ps| then kept else kept[..60 * |ps|]
  {
    hide *;
    var kept, v := Kept(payload, marks, n), n - CountTrue(marks);
    PacketsAre(s, payload, marks, n);
    KeptAreRecords(payload, marks, n);
    WholeAre(kept, |kept| / 10);
    EmitSize(s.format, kept, Announced(v));
    CarriedByEmit(s.format, kept, |kept| / 10, Announced(v));
    EmittedCounts(s.format, kept, v);
    PacketsAnnounced(v);
  }

  lemma PacketsAnnounced(v: int)
    requires v < 256
    ensures PacketsFor(Announced(v)) == if v > 0 then (v + 5) / 6 else 0
  {}

  lemma PacketsAre(s: Setup, payload: seq<byte>, marks: seq<bool>, n: nat)
    requires n <= |marks| && 10 * |marks| <= |payload| && n < 256
    ensures PacketsOf(s, payload, marks, n) == Emit(s.format, Kept(payload, marks, n), Announced(n - CountTrue(marks)))
  {}

  lemma EmittedCounts(format: Format, data: seq<byte>, v: int)
    requires v < 256
    ensures var ps := Emit(format, data, Announced(v));
      && AllPackets(ps) && (forall i | 0 <= i < |ps| :: Stamped(format, ps[i], if i == 0 then v else 0))
      && (forall i | 0 <= i < |ps| :: CountOf(format, ps[i]) == if i == 0 then v else 0)
  {
    var ps := Emit(format, data, Announced(v));
    EmitSize(format, data, Announced(v));
    forall i | 0 <= i < |ps|
      ensures Stamped(format, ps[i], if i == 0 then v else 0) && CountOf(format, ps[i]) == if i == 0 then v else 0
    {
      EmittedCount(format, data, Announced(v), i);
    }
  }

  lemma WholeAre(data: seq<byte>, count: nat)
    requires WholeRecords(data) && count == |data| / 10
    ensures Records(data, count) && |data| == 10 * count
  {}

  lemma EmittedCount(format: Format, data: seq<byte>, count: byte, i: nat)
    requires i < PacketsFor(count)
    ensures |Emit(format, data, count)[i]| == PACKET_LEN && count > 0
    ensures Stamped(format, Emit(format, data, count)[i], if i == 0 then count else 0)
    ensures CountOf(format, Emit(format, data, count)[i]) == if i == 0 then count else 0
  {
    PacketIsStamped(format, Chunk(data, i), if i == 0 then count else 0);
    PacketParts(format, Chunk(data, i), if i == 0 then count else 0);
  }

  /** How the records kept, the valid count and the two ways of miscounting hang together. */
  lemma KeptAndValid(f: Fwd, inputs: seq<Input>, n: nat)
    requires InputsFit(inputs) && |f.tab| == MAX_CONTACTS && n <= 6 * |inputs|
    ensures var marks, payload := FrameMarks(f, inputs), Payload(inputs);
      |Kept(payload, marks, n)| == 10 * (n - CountTrue(marks) + CountTrue(marks[n..]) - Empties(payload, n))
  {
    var marks := FrameMarks(f, inputs);
    MarksAreOnRecords(f, inputs);
    KeptSize(Payload(inputs), marks, n);
    CountAppend(marks[..n], marks[n..]);
    assert marks[..n] + marks[n..] == marks;
  }

  lemma CountsAgree(valid: nat, kept: nat)
    requires 0 < valid
    ensures var room := 6 * PacketsFor(valid);
      (if kept <= room then kept else room) == valid <==> kept == valid || (kept > valid && valid % 6 == 0)
  {}

  /** A frame with a positive valid count is announced with the number of records sent if
      and only if it has as many empty records among its first n as masked ones behind them,
      or fewer, and the count fills its packets. */
  lemma CountIsRightExactlyWhen(s: Setup, f: Fwd, inputs: seq<Input>, n: nat)
    requires FwdOk(s, f) && FrameOf(s, inputs, n)
    ensures InputsFit(inputs) && n <= 6 * |inputs| && n < 256
    ensures var g, marks := DispatchAll(s, f, inputs), FrameMarks(f, inputs);
      var ps := PacketsOf(s, Payload(inputs), marks, n);
      var empty, behind := Empties(Payload(inputs), n), CountTrue(marks[n..]);
      && g.out == f.out + ps && AllPackets(ps) && (g.valid <= 0 ==> ps == [])
      && (g.valid > 0 ==> ps != [] && CountOf(s.format, ps[0]) == g.valid)
      && (g.valid > 0 ==> (
          |Carried(s.format, ps)| == 10 * g.valid <==> empty == behind || (empty < behind && g.valid % 6 == 0)))
  {
    hide *;
    ForwardFrame(s, f, inputs, n);
    TabFits(s, f);
    KeptAndValid(f, inputs, n);
    var marks := FrameMarks(f, inputs);
    PacketsOfIs(s, Payload(inputs), marks, n);
    var v := n - CountTrue(marks);
    if v > 0 {
      SomePackets(v);
      CountsAgree(v, v + CountTrue(marks[n..]) - Empties(Payload(inputs), n));
    } else {
      NoPackets(v);
    }
  }

  lemma TabFits(s: Setup, f: Fwd)
    requires FwdOk(s, f)
    ensures |f.tab| == MAX_CONTACTS
  {}

  lemma SomePackets(v: int)
    requires 0 < v < 256
    ensures Announced(v) == v && PacketsFor(Announced(v)) > 0
  {}

  lemma NoPackets(v: int)
    requires v <= 0
    ensures PacketsFor(Announced(v)) == 0
  {}

  /** The announced records that are not masked are all sent if and only if the records masked
      behind the first n do not outnumber the empty ones among them by more than the room left
      in the last packet. */
  lemma AnnouncedAreSentExactlyWhen(s: Setup, f: Fwd, inputs: seq<Input>, n: nat)
    requires FwdOk(s, f) && FrameOf(s, inputs, n)
    ensures InputsFit(inputs) && n <= 6 * |inputs| && n < 256
    ensures var g, marks := DispatchAll(s, f, inputs), FrameMarks(f, inputs);
      var ps := PacketsOf(s, Payload(inputs), marks, n);
      var empty, behind := Empties(Payload(inputs), n), CountTrue(marks[n..]);
      && g.out == f.out + ps && AllPackets(ps)
      && (Carried(s.format, ps) == Kept(Payload(inputs), marks, n)
          <==> g.valid + behind <= empty + 6 * (if g.valid > 0 then (g.valid + 5) / 6 else 0))
  {
    hide *;
    ForwardFrame(s, f, inputs, n);
    TabFits(s, f);
    KeptAndValid(f, inputs, n);
  }

  /** Behind the announced records there is none that has a status and is not masked. */
  ghost predicate NoneBehind(payload: seq<byte>, marks: seq<bool>, n: nat)
    requires 10 * |marks| <= |payload|
  {
    forall r | n <= r < |marks| :: marks[r] || payload[10 * r] == 0
  }

  /** Nothing unmasked in the whole frame is lost if and only if the announced records all
      leave, and behind them stands no record with a status that is not masked. */
  lemma NothingIsLostExactlyWhen(s: Setup, f: Fwd, inputs: seq<Input>, n: nat)
    requires FwdOk(s, f) && FrameOf(s, inputs, n)
    ensures InputsFit(inputs) && n <= 6 * |inputs| && n < 256
    ensures var g, marks := DispatchAll(s, f, inputs), FrameMarks(f, inputs);
      var ps := PacketsOf(s, Payload(inputs), marks, n);
      var empty, behind := Empties(Payload(inputs), n), CountTrue(marks[n..]);
      && g.out == f.out + ps && AllPackets(ps)
      && (Carried(s.format, ps) == Kept(Payload(inputs), marks, |marks|)
          <==> g.valid + behind <= empty + 6 * (if g.valid > 0 then (g.valid + 5) / 6 else 0)
               && NoneBehind(Payload(inputs), marks, n))
  {
    hide *;
    AnnouncedAreSentExactlyWhen(s, f, inputs, n);
    ForwardFrame(s, f, inputs, n);
    TabFits(s, f);
    KeptAll(Payload(inputs), FrameMarks(f, inputs), n);
  }

  /** All that is kept is kept among the first n records, or more is. */
  lemma KeptAll(payload: seq<byte>, marks: seq<bool>, n: nat)
    requires 10 * |marks| <= |payload| && n <= |marks|
    ensures if NoneBehind(payload, marks, n) then Kept(payload, marks, |marks|) == Kept(payload, marks, n)
            else |Kept(payload, marks, |marks|)| > |Kept(payload, marks, n)|
  {
    hide Kept;
    if NoneBehind(payload, marks, n) {
      KeptEnough(payload, marks, n, |marks|);
    } else {
      var r :| n <= r < |marks| && !marks[r] && payload[10 * r] != 0;
      KeptMore(payload, marks, n, r);
    }
  }

  lemma KeptMore(payload: seq<byte>, marks: seq<bool>, n: nat, r: nat)
    requires 10 * |marks| <= |payload| && n <= r < |marks| && !marks[r] && payload[10 * r] != 0
    ensures |Kept(payload, marks, |marks|)| > |Kept(payload, marks, n)|
  {
    hide *;
    KeptGrows(payload, marks, n, r);
    KeptSnoc(payload, marks, r);
    KeptGrows(payload, marks, r + 1, |marks|);
  }

  // ----------------------------------------------------------------- witnesses

  /** A packet that announces one record and holds none. */
  const EMPTY_RECORD: seq<byte> := seq(RAW_LEN, k => if k == 61 then 1 else 0)

  /** An empty record among the announced ones is announced all the same. */
  lemma EmptyRecordIsAnnounced(s: Setup, f: Fwd)
    requires FwdOk(s, f) && AllClear(f.tab)
    ensures var inputs := [Input(multiset{}, EMPTY_RECORD)];
      && AllFit(s, inputs) && FrameOf(s, inputs, 1)
      && var g := DispatchAll(s, f, inputs);
      && |g.out| == |f.out| + 1 && f.out <= g.out && AllPackets(g.out[|f.out|..])
      && CountOf(s.format, g.out[|f.out|]) == 1 && Carried(s.format, g.out[|f.out|..]) == []
  {
    hide *;
    var inputs := [Input(multiset{}, EMPTY_RECORD)];
    TabFits(s, f);
    EmptyRecordFits(s, f, inputs);
    NoRecordKept(f, inputs);
    ForwardFrame(s, f, inputs, 1);
    NothingMaskedIn(f, inputs);
    SomePackets(1);
    OnePacket();
    WhatWasAdded(f.out, PacketsOf(s, Payload(inputs), FrameMarks(f, inputs), 1));
  }

  lemma EmptyRecordFits(s: Setup, f: Fwd, inputs: seq<Input>)
    requires FwdOk(s, f) && inputs == [Input(multiset{}, EMPTY_RECORD)]
    ensures AllFit(s, inputs) && InputsFit(inputs) && FrameOf(s, inputs, 1)
  {
    assert PacketFits(s, EMPTY_RECORD);
  }

  lemma OnePacket()
    ensures PacketsFor(Announced(1)) == 1
  {}

  lemma NoRecordKept(f: Fwd, inputs: seq<Input>)
    requires |f.tab| == MAX_CONTACTS && inputs == [Input(multiset{}, EMPTY_RECORD)] && InputsFit(inputs)
    ensures Kept(Payload(inputs), FrameMarks(f, inputs), 1) == []
  {
    assert Payload(inputs)[0] == EMPTY_RECORD[1];
  }

  /** A packet that announces one record: contact 1 is down at the origin, and behind it
      contact 2 at (100, 0). */
  const EXTRA_RECORD: seq<byte> := seq(RAW_LEN, k =>
    if k == 1 || k == 11 then IST_DOWN else if k == 2 || k == 61 then 1
    else if k == 12 then 2 else if k == 13 then 100 else 0)

  /** A masked record behind the announced ones takes the count of an unmasked one, which
      is then not sent. */
  lemma MaskedExtraRecordCostsAnother(s: Setup, f: Fwd)
    requires FwdOk(s, f) && FreshTable(f.tab)
    ensures var inputs := [Input(multiset{Rect(100, 0, 100, 0)}, EXTRA_RECORD)];
      && AllFit(s, inputs) && FrameOf(s, inputs, 1) && InputsFit(inputs)
      && |Kept(Payload(inputs), FrameMarks(f, inputs), 1)| == 10
      && DispatchAll(s, f, inputs).out == f.out
  {
    hide *;
    var inputs := [Input(multiset{Rect(100, 0, 100, 0)}, EXTRA_RECORD)];
    TabFits(s, f);
    ExtraRecordFits(s, f, inputs);
    ForwardFrame(s, f, inputs, 1);
    ExtraRecordMarks(f);
    FirstKept(inputs, FrameMarks(f, inputs));
    MarkCounts(FrameMarks(f, inputs), 1);
    PacketsOfIs(s, Payload(inputs), FrameMarks(f, inputs), 1);
    assert f.out + [] == f.out;
  }

  lemma FirstKept(inputs: seq<Input>, marks: seq<bool>)
    requires InputsFit(inputs) && |inputs| == 1 && inputs[0].raw == EXTRA_RECORD && |marks| == 6 && !marks[0]
    ensures |Payload(inputs)| == 60 && |Kept(Payload(inputs), marks, 1)| == 10
  {
    assert Payload(inputs)[0] == EXTRA_RECORD[1];
    assert |Kept(Payload(inputs), marks, 0)| == 0;
  }

  lemma MarkCounts(marks: seq<bool>, r: nat)
    requires r < |marks| && marks[r]
    ensures CountTrue(marks) > 0
  {
    CountAppend(marks[..r + 1], marks[r + 1..]);
    assert marks[..r + 1] + marks[r + 1..] == marks && marks[..r + 1][r];
  }

  lemma ExtraRecordMarks(f: Fwd)
    requires FreshTable(f.tab) && InputsFit([Input(multiset{Rect(100, 0, 100, 0)}, EXTRA_RECORD)])
    ensures var marks := FrameMarks(f, [Input(multiset{Rect(100, 0, 100, 0)}, EXTRA_RECORD)]); !marks[0] && marks[1]
  {
    var zones := multiset{Rect(100, 0, 100, 0)};
    var inputs := [Input(zones, EXTRA_RECORD)];
    assert inputs[..0] == [] && AllTouches(inputs) == Touches(zones, EXTRA_RECORD, MAX_POINTS);
    ExtraTouches();
    hide Touches, TouchAt;
    TwoDown(f.tab, AllTouches(inputs));
  }

  lemma ExtraTouches()
    ensures var zones := multiset{Rect(100, 0, 100, 0)};
      && TouchAt(zones, EXTRA_RECORD, 0) == Touch(1, IST_DOWN, false)
      && TouchAt(zones, EXTRA_RECORD, 1) == Touch(2, IST_DOWN, true)
  {
    ExtraBytes();
    hide *;
    OneZone(Rect(100, 0, 100, 0), 0, 0);
    OneZone(Rect(100, 0, 100, 0), 100, 0);
    TouchIs(multiset{Rect(100, 0, 100, 0)}, EXTRA_RECORD, 0, 0, 0);
    TouchIs(multiset{Rect(100, 0, 100, 0)}, EXTRA_RECORD, 1, 100, 0);
  }

  lemma ExtraBytes()
    ensures |EXTRA_RECORD| == RAW_LEN && IST_DOWN == 7 && RAW_LEN == 64 && MAX_POINTS == 6
    ensures EXTRA_RECORD[1] == 7 && EXTRA_RECORD[2] == 1 && EXTRA_RECORD[3] == EXTRA_RECORD[4] == 0
    ensures EXTRA_RECORD[5] == EXTRA_RECORD[6] == 0
    ensures EXTRA_RECORD[11] == 7 && EXTRA_RECORD[12] == 2 && EXTRA_RECORD[13] == 100 && EXTRA_RECORD[14] == 0
    ensures EXTRA_RECORD[15] == EXTRA_RECORD[16] == 0
  {}

  lemma OneZone(r: Rect, x: int, y: int)
    ensures Masked(multiset{r}, x, y) <==> r.x1 <= x <= r.x2 && r.y1 <= y <= r.y2
  {
    if r.Contains(x, y) {
      assert r in multiset{r};
    }
  }

  lemma TouchIs(zones: multiset<Rect>, raw: seq<byte>, i: nat, x: int, y: int)
    requires |raw| == RAW_LEN && i < MAX_POINTS
    requires raw[10 * i + 3] == x && raw[10 * i + 4] == 0 && raw[10 * i + 5] == y && raw[10 * i + 6] == 0
    ensures TouchAt(zones, raw, i) == Touch(raw[10 * i + 2], raw[10 * i + 1] % 16, Masked(zones, x, y))
  {}

  /** Two contacts of a fresh table come down, the second one in a zone. */
  lemma TwoDown(tab: seq<Contact>, ts: seq<Touch>)
    requires FreshTable(tab) && IdsFit(ts, MAX_CONTACTS) && |ts| >= 2
    requires ts[0] == Touch(1, IST_DOWN, false) && ts[1] == Touch(2, IST_DOWN, true)
    ensures var marks := TableMarks(Ist, tab, ts); !marks[0] && marks[1]
  {
    var two := ts[..2];
    assert two[..1] == [ts[0]] && two[..1][..0] == [];
    TableSnoc(Ist, tab, two[..1]);
    TableSnoc(Ist, tab, two);
    TableAppend(Ist, tab, two, ts[2..]);
    assert ts == two + ts[2..];
  }

  /** A record behind the announced ones is lost, even with nothing masked. */
  lemma UnannouncedRecordIsLost(s: Setup, f: Fwd)
    requires FwdOk(s, f) && AllClear(f.tab)
    ensures var inputs := [Input(multiset{}, EXTRA_RECORD)];
      && AllFit(s, inputs) && FrameOf(s, inputs, 1) && InputsFit(inputs)
      && var payload, marks := Payload(inputs), FrameMarks(f, inputs);
      && !marks[1] && payload[10] != 0
      && DispatchAll(s, f, inputs).out == f.out + PacketsOf(s, payload, marks, 1)
      && AllPackets(PacketsOf(s, payload, marks, 1))
      && |Carried(s.format, PacketsOf(s, payload, marks, 1))| < |Kept(payload, marks, |marks|)|
  {
    hide *;
    var inputs := [Input(multiset{}, EXTRA_RECORD)];
    TabFits(s, f);
    ExtraRecordFits(s, f, inputs);
    NothingMaskedIn(f, inputs);
    ForwardFrame(s, f, inputs, 1);
    KeptAll(Payload(inputs), FrameMarks(f, inputs), 1);
    ExtraIsBehind(f, inputs);
  }

  lemma ExtraRecordFits(s: Setup, f: Fwd, inputs: seq<Input>)
    requires FwdOk(s, f) && |inputs| == 1 && inputs[0].raw == EXTRA_RECORD
    ensures AllFit(s, inputs) && InputsFit(inputs) && FrameOf(s, inputs, 1)
  {
    assert PacketFits(s, EXTRA_RECORD);
  }

  lemma ExtraIsBehind(f: Fwd, inputs: seq<Input>)
    requires InputsFit(inputs) && inputs == [Input(multiset{}, EXTRA_RECORD)] && |f.tab| == MAX_CONTACTS
    requires forall r | 0 <= r < 6 * |inputs| :: !FrameMarks(f, inputs)[r]
    ensures !FrameMarks(f, inputs)[1] && Payload(inputs)[10] != 0
    ensures !NoneBehind(Payload(inputs), FrameMarks(f, inputs), 1)
  {
    assert Payload(inputs)[10 * 1] == EXTRA_RECORD[11];
    hide FrameMarks, Payload;
    assert !FrameMarks(f, inputs)[1];
  }

  // ------------------------------------------------- packets outside a frame

  /** A packet without a count that no frame waits for: it is only counted, and judged as far
      as there is room for it. */
  lemma StrayPacket(s: Setup, f: Fwd, zones: multiset<Rect>, raw: seq<byte>)
    requires FwdOk(s, f) && PacketFits(s, raw) && raw[61] == 0 && f.index + 1 >= f.nums
    ensures IdsFit(Touches(zones, raw, MAX_POINTS), |f.tab|)
    ensures var g := Dispatch(s, f, zones, raw);
      && g.out == f.out && g.index == f.index + 1 && g.nums == f.nums
      && g.tab == if g.index < s.maxPackages then TableAfter(Ist, f.tab, Touches(zones, raw, MAX_POINTS)) else f.tab
  {
    TouchesFit(zones, raw, MAX_POINTS);
    hide Touches, Blank, TableAfter, TableMarks, CountTrue;
  }

  /** However many such packets follow a frame, they make the forwarder write nothing. */
  lemma StrayPacketsWriteNothing(s: Setup, f: Fwd, frame: seq<Input>, n: nat, strays: seq<Input>)
    requires FwdOk(s, f) && FrameOf(s, frame, n) && AllFit(s, strays)
    requires forall k | 0 <= k < |strays| :: strays[k].raw[61] == 0
    ensures AllFit(s, frame + strays)
    ensures DispatchAll(s, f, frame + strays).out == DispatchAll(s, f, frame).out
  {
    hide *;
    FrameEnds(s, f, frame, n);
    DispatchAppend(s, f, frame, strays);
    StraysOnly(s, DispatchAll(s, f, frame), strays);
  }

  lemma FrameEnds(s: Setup, f: Fwd, frame: seq<Input>, n: nat)
    requires FwdOk(s, f) && FrameOf(s, frame, n)
    ensures AllFit(s, frame)
    ensures var g := DispatchAll(s, f, frame); FwdOk(s, g) && g.index + 1 >= g.nums
  {
    hide DispatchAll, PacketsFor, FwdOk;
    Stages(s, f, frame, n);
    FrameFits(s, frame, n);
  }

  lemma {:induction false} StraysOnly(s: Setup, g: Fwd, strays: seq<Input>)
    requires FwdOk(s, g) && AllFit(s, strays) && g.index + 1 >= g.nums
    requires forall k | 0 <= k < |strays| :: strays[k].raw[61] == 0
    ensures var g' := DispatchAll(s, g, strays); g'.out == g.out && g'.index + 1 >= g'.nums
  {
    hide Dispatch;
    if strays != [] {
      var front, last := strays[..|strays| - 1], strays[|strays| - 1];
      StraysOnly(s, g, front);
      StrayPacket(s, DispatchAll(s, g, front), last.zones, last.raw);
    }
  }

  // --------------------------------------------------------------- tidy frames

  /** n records with a status, and none behind them. */
  ghost predicate Tidy(payload: seq<byte>, n: nat) {
    forall r | 0 <= r && 10 * r < |payload| :: payload[10 * r] != 0 <==> r < n
  }

  /** Conservation: a frame of n records and nothing behind them is announced with the
      number of its unmasked records, and exactly those are sent, in order, zero-padded,
      the count in the first packet only. */
  lemma ForwardingConservesPoints(s: Setup, f: Fwd, inputs: seq<Input>, n: nat)
    requires FwdOk(s, f) && FrameOf(s, inputs, n) && Tidy(Payload(inputs), n)
    ensures InputsFit(inputs) && n <= 6 * |inputs| && n < 256
    ensures var g, marks := DispatchAll(s, f, inputs), FrameMarks(f, inputs);
      var ps, kept := PacketsOf(s, Payload(inputs), marks, n), Kept(Payload(inputs), marks, n);
      && g.out == f.out + ps && AllPackets(ps)
      && |kept| == 10 * g.valid && Carried(s.format, ps) == kept
      && |kept| <= 60 * |ps| && JoinChunks(s.format, ps) == Fitted(kept, 60 * |ps|)
      && (forall i | 0 <= i < |ps| :: Stamped(s.format, ps[i], if i == 0 then g.valid else 0))
      && forall i | 0 <= i < |ps| :: CountOf(s.format, ps[i]) == if i == 0 then g.valid else 0
  {
    var marks, payload := FrameMarks(f, inputs), Payload(inputs);
    hide *;
    ForwardFrame(s, f, inputs, n);
    TabFits(s, f);
    MarksAreOnRecords(f, inputs);
    TidyCounts(payload, marks, n);
    KeptOfTidy(payload, marks, n);
    AllRoom(n - CountTrue(marks));
    PacketsJoin(s, payload, marks, n);
  }

  lemma PacketsJoin(s: Setup, payload: seq<byte>, marks: seq<bool>, n: nat)
    requires n <= |marks| && 10 * |marks| <= |payload| && n < 256
    ensures var ps := PacketsOf(s, payload, marks, n);
      AllPackets(ps) && JoinChunks(s.format, ps) == Fitted(Kept(payload, marks, n), 60 * |ps|)
  {
    JoinOfEmit(s.format, Kept(payload, marks, n), Announced(n - CountTrue(marks)));
  }

  lemma KeptOfTidy(payload: seq<byte>, marks: seq<bool>, n: nat)
    requires n <= |marks| && 10 * |marks| == |payload| && MarksFit(payload, marks)
    requires Empties(payload, n) == 0 && CountTrue(marks[n..]) == 0
    ensures |Kept(payload, marks, n)| == 10 * (n - CountTrue(marks))
  {
    hide Kept, CountTrue, Empties;
    KeptSize(payload, marks, n);
    CountAppend(marks[..n], marks[n..]);
    assert marks[..n] + marks[n..] == marks;
  }

  lemma AllRoom(v: int)
    requires v < 256
    ensures 10 * v <= 60 * PacketsFor(Announced(v))
  {}

  lemma TidyCounts(payload: seq<byte>, marks: seq<bool>, n: nat)
    requires Tidy(payload, n) && MarksFit(payload, marks) && 10 * |marks| == |payload| && n <= |marks|
    ensures Empties(payload, n) == 0 && CountTrue(marks[n..]) == 0
    ensures Kept(payload, marks, |marks|) == Kept(payload, marks, n)
  {
    hide Kept, Empties, CountTrue;
    forall r | n <= r < |marks| ensures !marks[r] && payload[10 * r] == 0 {
      assert 10 * r < |payload|;
    }
    NoneTrue(marks[n..]);
    forall r | 0 <= r < n ensures payload[10 * r] != 0 {
      assert 10 * r < |payload|;
    }
    NoEmpties(payload, n);
    KeptEnough(payload, marks, n, |marks|);
  }

  // ------------------------------------------------------------- round trip

  /** Emitted packets taken as raw packets again, with no zone in force. */
  function Fed(ps: seq<seq<byte>>): seq<Input> {
    seq(|ps|, i requires 0 <= i < |ps| => Input(multiset{}, ps[i]))
  }

  lemma {:induction false} PayloadOfFed(ps: seq<seq<byte>>)
    requires AllPackets(ps) && InputsFit(Fed(ps))
    ensures Payload(Fed(ps)) == JoinChunks(WithDriver, ps)
  {
    if ps != [] {
      assert Fed(ps)[..|ps| - 1] == Fed(ps[..|ps| - 1]);
      PayloadOfFed(ps[..|ps| - 1]);
    }
  }

  lemma EmittedPacketFits(s: Setup, data: seq<byte>, count: byte, n: nat)
    requires 1 <= count <= 6 * s.maxPackages && Records(data, count) && n < PacketsFor(count)
    ensures var p := Emit(WithDriver, data, count)[n]; PacketFits(s, p) && p[61] == if n == 0 then count else 0
  {
    var p := Packet(WithDriver, Chunk(data, n), if n == 0 then count else 0);
    PacketParts(WithDriver, Chunk(data, n), if n == 0 then count else 0);
    forall i | 0 <= i < MAX_POINTS ensures p[10 * i + 2] < MAX_CONTACTS {
      assert p[10 * i + 2] == Chunk(data, n)[10 * i + 1];
      if 60 * n + 10 * i + 1 < |data| {
        assert data[10 * (6 * n + i) + 1] < MAX_CONTACTS;
      }
    }
  }

  lemma EmittedFits(s: Setup, f: Fwd, data: seq<byte>, count: byte)
    requires FwdOk(s, f) && 1 <= count <= 6 * s.maxPackages && Records(data, count)
    ensures var inputs := Fed(Emit(WithDriver, data, count));
      FrameOf(s, inputs, count) && AllFit(s, inputs) && InputsFit(inputs)
  {
    hide Emit, Packet, Records, PacketFits;
    var ps := Emit(WithDriver, data, count);
    forall n | 0 <= n < |ps| ensures PacketFits(s, ps[n]) && ps[n][61] == if n == 0 then count else 0 {
      EmittedPacketFits(s, data, count, n);
    }
    FitIds(s, Fed(ps));
  }

  lemma FitIds(s: Setup, inputs: seq<Input>)
    requires AllFit(s, inputs)
    ensures InputsFit(inputs)
  {}

  lemma {:induction false} NoZonesNoneInside(inputs: seq<Input>)
    requires InputsFit(inputs) && forall n | 0 <= n < |inputs| :: inputs[n].zones == multiset{}
    ensures forall r | 0 <= r < 6 * |inputs| :: !AllTouches(inputs)[r].inside
  {
    if inputs != [] {
      NoZonesNoneInside(inputs[..|inputs| - 1]);
    }
  }

  /** Split/join round trip: packets emitted in the with-driver format, fed to a
      forwarder with no flag set and no zone in force, are emitted again unchanged. */
  lemma SplitJoinRoundTrip(s: Setup, f: Fwd, data: seq<byte>, count: byte)
    requires FwdOk(s, f) && AllClear(f.tab) && s.format == WithDriver
    requires 1 <= count <= 6 * s.maxPackages && Records(data, count)
    ensures var ps := Emit(WithDriver, data, count);
      AllFit(s, Fed(ps)) && DispatchAll(s, f, Fed(ps)).out == f.out + ps
  {
    hide *;
    var inputs := Fed(Emit(WithDriver, data, count));
    TabFits(s, f);
    EmittedFits(s, f, data, count);
    FedKeepsAll(s, f, data, count);
    FrameWrites(s, f, inputs, count);
    PacketsOfIs(s, Payload(inputs), FrameMarks(f, inputs), count);
  }

  lemma FedKeepsAll(s: Setup, f: Fwd, data: seq<byte>, count: byte)
    requires FwdOk(s, f) && AllClear(f.tab) && Records(data, count)
    requires InputsFit(Fed(Emit(WithDriver, data, count)))
    ensures var inputs := Fed(Emit(WithDriver, data, count));
      var marks := FrameMarks(f, inputs);
      && count <= |marks| && CountTrue(marks) == 0 && Kept(Payload(inputs), marks, count) == data
  {
    hide *;
    var ps := Emit(WithDriver, data, count);
    var inputs := Fed(ps);
    TabFits(s, f);
    FedInputs(ps);
    NothingMaskedIn(f, inputs);
    EmitSize(WithDriver, data, count);
    PayloadOfFed(ps);
    RecordsSize(data, count);
    SplitJoins(WithDriver, data, count);
    KeepsRecords(data, count, Zeros(60 * PacketsFor(count) - 10 * count), FrameMarks(f, inputs));
  }

  lemma FedInputs(ps: seq<seq<byte>>)
    ensures |Fed(ps)| == |ps| && forall n | 0 <= n < |ps| :: Fed(ps)[n].zones == multiset{}
  {}

  lemma NothingMaskedIn(f: Fwd, inputs: seq<Input>)
    requires InputsFit(inputs) && |f.tab| == MAX_CONTACTS && AllClear(f.tab)
    requires forall n | 0 <= n < |inputs| :: inputs[n].zones == multiset{}
    ensures forall r | 0 <= r < 6 * |inputs| :: !FrameMarks(f, inputs)[r]
    ensures CountTrue(FrameMarks(f, inputs)) == 0
  {
    NoZonesNoneInside(inputs);
    NothingMasked(Ist, f.tab, AllTouches(inputs));
    NoneTrue(FrameMarks(f, inputs));
  }

  lemma KeepsRecords(data: seq<byte>, count: nat, pad: seq<byte>, marks: seq<bool>)
    requires Records(data, count) && count <= |marks| && 10 * |marks| <= |data + pad|
    requires forall r | 0 <= r < |marks| :: !marks[r]
    ensures Kept(data + pad, marks, count) == data
  {
    forall r | 0 <= r < count ensures !marks[r] && (data + pad)[10 * r] != 0 {
      assert (data + pad)[10 * r] == data[10 * r];
    }
    KeepAll(data + pad, marks, count);
  }

  /** Forwarding what was forwarded changes nothing: the output for any tidy frame is a
      fixed point of a second forwarder that masks nothing. */
  lemma ForwardingIsIdempotent(s: Setup, f: Fwd, inputs: seq<Input>, n: nat, f2: Fwd)
    requires s.format == WithDriver && FwdOk(s, f) && FrameOf(s, inputs, n) && Tidy(Payload(inputs), n)
    requires FwdOk(s, f2) && AllClear(f2.tab)
    ensures InputsFit(inputs) && n <= 6 * |inputs| && n < 256
    ensures var ps := PacketsOf(s, Payload(inputs), FrameMarks(f, inputs), n);
      && DispatchAll(s, f, inputs).out == f.out + ps
      && AllFit(s, Fed(ps)) && DispatchAll(s, f2, Fed(ps)).out == f2.out + ps
  {
    FrameFits(s, inputs, n);
    hide *;
    TabFits(s, f);
    IdsOfRecords(inputs);
    ForwardingConservesPoints(s, f, inputs, n);
    FrameWrites(s, f, inputs, n);
    KeptAreRecords(Payload(inputs), FrameMarks(f, inputs), n);
    SecondPass(s, f2, Payload(inputs), FrameMarks(f, inputs), n);
  }

  lemma SecondPass(s: Setup, f: Fwd, payload: seq<byte>, marks: seq<bool>, n: nat)
    requires FwdOk(s, f) && AllClear(f.tab) && s.format == WithDriver
    requires n <= |marks| && 10 * |marks| <= |payload| && n < 256 && n <= 6 * s.maxPackages
    requires |Kept(payload, marks, n)| == 10 * (n - CountTrue(marks)) && WholeRecords(Kept(payload, marks, n))
    ensures var ps := PacketsOf(s, payload, marks, n);
      AllFit(s, Fed(ps)) && DispatchAll(s, f, Fed(ps)).out == f.out + ps
  {
    hide *;
    PacketsOfIs(s, payload, marks, n);
    var v := n - CountTrue(marks);
    if v > 0 {
      WholeAre(Kept(payload, marks, n), v);
      SplitJoinRoundTrip(s, f, Kept(payload, marks, n), v);
    } else {
      NothingFed(s, f);
    }
  }

  lemma NothingFed(s: Setup, f: Fwd)
    requires FwdOk(s, f)
    ensures AllFit(s, Fed([])) && DispatchAll(s, f, Fed([])) == f && f.out + [] == f.out
  {}

  // ---------------------------------------------------------- runs of frames

  datatype Frame = Frame(inputs: seq<Input>, n: nat)

  function AllInputs(frames: seq<Frame>): seq<Input> {
    if frames == [] then [] else AllInputs(frames[..|frames| - 1]) + frames[|frames| - 1].inputs
  }

  ghost predicate TidyFrames(s: Setup, frames: seq<Frame>) {
    && SetupOk(s)
    && forall k | 0 <= k < |frames| ::
      FrameOf(s, frames[k].inputs, frames[k].n) && Tidy(Payload(frames[k].inputs), frames[k].n)
  }

  lemma {:induction false} AllInputsFit(s: Setup, frames: seq<Frame>)
    requires TidyFrames(s, frames)
    ensures AllFit(s, AllInputs(frames)) && InputsFit(AllInputs(frames))
  {
    if frames != [] {
      assert TidyFrames(s, frames[..|frames| - 1]);
      AllInputsFit(s, frames[..|frames| - 1]);
      assert FrameOf(s, frames[|frames| - 1].inputs, frames[|frames| - 1].n);
    }
  }

  lemma OneFrameTable(s: Setup, f: Fwd, fr: Frame)
    requires FwdOk(s, f) && FrameOf(s, fr.inputs, fr.n)
    ensures DispatchAll(s, f, fr.inputs).tab == TableAfter(Ist, f.tab, AllTouches(fr.inputs))
  {
    Stages(s, f, fr.inputs, fr.n);
  }

  /** What a run of frames makes the forwarder send, given the marks on all its records. */
  ghost function Sent(s: Setup, frames: seq<Frame>, marks: seq<bool>): seq<seq<byte>>
    requires TidyFrames(s, frames) && |marks| == 6 * |AllInputs(frames)|
  {
    if frames == [] then []
    else
      var front, last := frames[..|frames| - 1], frames[|frames| - 1];
      assert FrameOf(s, last.inputs, last.n);
      var k := 6 * |AllInputs(front)|;
      AtMostMaxPackagesOf(s, last);
      Sent(s, front, marks[..k]) + PacketsOf(s, Payload(last.inputs), marks[k..], last.n)
  }

  lemma AtMostMaxPackagesOf(s: Setup, fr: Frame)
    requires SetupOk(s) && FrameOf(s, fr.inputs, fr.n)
    ensures fr.n <= 42 && fr.n <= 6 * |fr.inputs|
  {
    assert PacketFits(s, fr.inputs[0].raw);
  }

  lemma {:induction false} DispatchAppend(s: Setup, f: Fwd, a: seq<Input>, b: seq<Input>)
    requires FwdOk(s, f) && AllFit(s, a) && AllFit(s, b)
    ensures AllFit(s, a + b) && DispatchAll(s, f, a + b) == DispatchAll(s, DispatchAll(s, f, a), b)
  {
    hide Dispatch;
    if b == [] {
      assert a + b == a;
    } else {
      assert (a + b)[..|a + b| - 1] == a + b[..|b| - 1];
      DispatchAppend(s, f, a, b[..|b| - 1]);
    }
  }

  lemma {:induction false} TouchesAppend(a: seq<Input>, b: seq<Input>)
    requires InputsFit(a) && InputsFit(b)
    ensures InputsFit(a + b) && AllTouches(a + b) == AllTouches(a) + AllTouches(b)
  {
    InputsFitAppend(a, b);
    hide *;
    if b == [] {
      assert a + b == a;
      NoTouches(b);
    } else {
      var front := b[..|b| - 1];
      assert (a + b)[..|a + b| - 1] == a + front;
      InputsFitFront(b);
      TouchesAppend(a, front);
      AllTouchesSnoc(a + b);
      AllTouchesSnoc(b);
    }
  }

  lemma InputsFitAppend(a: seq<Input>, b: seq<Input>)
    requires InputsFit(a) && InputsFit(b)
    ensures InputsFit(a + b)
  {}

  lemma InputsFitFront(b: seq<Input>)
    requires InputsFit(b) && b != []
    ensures InputsFit(b[..|b| - 1]) && |b[|b| - 1].raw| == RAW_LEN
  {}

  lemma NoTouches(inputs: seq<Input>)
    requires inputs == []
    ensures InputsFit(inputs) && AllTouches(inputs) == []
  {}

  lemma AllTouchesSnoc(inputs: seq<Input>)
    requires InputsFit(inputs) && inputs != []
    ensures var front, last := inputs[..|inputs| - 1], inputs[|inputs| - 1];
      && InputsFit(front) && |last.raw| == RAW_LEN
      && AllTouches(inputs) == AllTouches(front) + Touches(last.zones, last.raw, MAX_POINTS)
  {}

  /** Over any run of tidy frames the contact memory runs through all their records in
      one go, and each frame's unmasked records are sent as that memory decides. */
  lemma {:induction false} ForwardRun(s: Setup, f: Fwd, frames: seq<Frame>)
    requires FwdOk(s, f) && TidyFrames(s, frames)
    ensures AllFit(s, AllInputs(frames)) && InputsFit(AllInputs(frames))
    ensures var g, all := DispatchAll(s, f, AllInputs(frames)), AllTouches(AllInputs(frames));
      && g.tab == TableAfter(Ist, f.tab, all)
      && g.out == f.out + Sent(s, frames, TableMarks(Ist, f.tab, all))
  {
    AllInputsFit(s, frames);
    if frames == [] {
      assert f.out + [] == f.out;
    } else {
      var front, last := frames[..|frames| - 1], frames[|frames| - 1];
      assert FrameOf(s, last.inputs, last.n) && Tidy(Payload(last.inputs), last.n);
      assert TidyFrames(s, front);
      hide FrameOf, Tidy, PacketsOf, Payload, DispatchAll, TableAfter, TableMarks, AllTouches;
      ForwardRun(s, f, front);
      var g0 := DispatchAll(s, f, AllInputs(front));
      OneFrameTable(s, g0, last);
      ForwardingConservesPoints(s, g0, last.inputs, last.n);
      AllInputsFit(s, front);
      DispatchAppend(s, f, AllInputs(front), last.inputs);
      RunMarks(f, AllInputs(front), last.inputs);
      ConcatAssoc(f.out, Sent(s, front, TableMarks(Ist, f.tab, AllTouches(AllInputs(front)))),
                  PacketsOf(s, Payload(last.inputs), FrameMarks(g0, last.inputs), last.n));
    }
  }

  lemma ConcatAssoc(a: seq<seq<byte>>, b: seq<seq<byte>>, c: seq<seq<byte>>)
    ensures a + b + c == a + (b + c)
  {}

  lemma RunMarks(f: Fwd, a: seq<Input>, b: seq<Input>)
    requires InputsFit(a) && InputsFit(b) && |f.tab| == MAX_CONTACTS
    ensures InputsFit(a + b)
    ensures var all, mid := AllTouches(a + b), TableAfter(Ist, f.tab, AllTouches(a));
      && TableAfter(Ist, f.tab, all) == TableAfter(Ist, mid, AllTouches(b))
      && TableMarks(Ist, f.tab, all)[..6 * |a|] == TableMarks(Ist, f.tab, AllTouches(a))
      && TableMarks(Ist, f.tab, all)[6 * |a|..] == TableMarks(Ist, mid, AllTouches(b))
  {
    TouchesAppend(a, b);
    TableAppend(Ist, f.tab, AllTouches(a), AllTouches(b));
  }

  // ------------------------------------------------- what a run of frames carries

  lemma {:induction false} PayloadAppend(a: seq<Input>, b: seq<Input>)
    requires InputsFit(a) && InputsFit(b)
    ensures InputsFit(a + b) && Payload(a + b) == Payload(a) + Payload(b)
  {
    InputsFitAppend(a, b);
    hide *;
    if b == [] {
      assert a + b == a;
      NoPayload(b);
    } else {
      assert (a + b)[..|a + b| - 1] == a + b[..|b| - 1];
      InputsFitFront(b);
      PayloadAppend(a, b[..|b| - 1]);
      PayloadSnoc(a + b);
      PayloadSnoc(b);
    }
  }

  lemma NoPayload(inputs: seq<Input>)
    requires inputs == []
    ensures InputsFit(inputs) && Payload(inputs) == []
  {}

  lemma PayloadSnoc(inputs: seq<Input>)
    requires InputsFit(inputs) && inputs != []
    ensures var front, last := inputs[..|inputs| - 1], inputs[|inputs| - 1];
      InputsFit(front) && |last.raw| == RAW_LEN && Payload(inputs) == Payload(front) + last.raw[1..61]
  {}

  /** The packets of one tidy frame carry its unmasked records. */
  lemma PacketsOfTidy(s: Setup, payload: seq<byte>, marks: seq<bool>, n: nat)
    requires n <= |marks| && 10 * |marks| == |payload| && n < 256 && Tidy(payload, n)
    requires RecordIdsFit(payload, |marks|) && MarksFit(payload, marks)
    ensures AllPackets(PacketsOf(s, payload, marks, n))
    ensures Carried(s.format, PacketsOf(s, payload, marks, n)) == Kept(payload, marks, |marks|)
  {
    hide *;
    PacketsCarry(s, payload, marks, n);
    TidyCounts(payload, marks, n);
    KeptOfTidy(payload, marks, n);
    AllRoom(n - CountTrue(marks));
  }

  lemma MarksFitParts(a: seq<byte>, b: seq<byte>, marks: seq<bool>)
    requires |a + b| == 10 * |marks| && |a| % 10 == 0
    requires MarksFit(a + b, marks) && RecordIdsFit(a + b, |marks|)
    ensures var k := |a| / 10;
      && MarksFit(a, marks[..k]) && MarksFit(b, marks[k..])
      && RecordIdsFit(a, k) && RecordIdsFit(b, |marks| - k)
  {
    var k := |a| / 10;
    forall r | 0 <= r < k ensures (marks[r] ==> a[10 * r] != 0) && a[10 * r + 1] < MAX_CONTACTS {
      assert a[10 * r] == (a + b)[10 * r] && a[10 * r + 1] == (a + b)[10 * r + 1];
    }
    forall r | 0 <= r < |marks| - k ensures (marks[k + r] ==> b[10 * r] != 0) && b[10 * r + 1] < MAX_CONTACTS {
      assert b[10 * r] == (a + b)[10 * (k + r)] && b[10 * r + 1] == (a + b)[10 * (k + r) + 1];
    }
  }

  /** The packets of a run of tidy frames carry, end to end, the unmasked records of the run. */
  lemma {:induction false} SentCarries(s: Setup, frames: seq<Frame>, marks: seq<bool>)
    requires TidyFrames(s, frames) && |marks| == 6 * |AllInputs(frames)| && InputsFit(AllInputs(frames))
    requires MarksFit(Payload(AllInputs(frames)), marks)
    ensures AllPackets(Sent(s, frames, marks))
    ensures Carried(s.format, Sent(s, frames, marks)) == Kept(Payload(AllInputs(frames)), marks, |marks|)
  {
    hide *;
    if frames == [] {
      NothingCarried(s, frames, marks);
    } else {
      var front, last := frames[..|frames| - 1], frames[|frames| - 1];
      var k := 6 * |AllInputs(front)|;
      LastFrame(s, frames, marks);
      PayloadAppend(AllInputs(front), last.inputs);
      var a, b := Payload(AllInputs(front)), Payload(last.inputs);
      IdsOfRecords(AllInputs(frames));
      MarksFitParts(a, b, marks);
      SentCarries(s, front, marks[..k]);
      PacketsOfTidy(s, b, marks[k..], last.n);
      CarriedAppend(s.format, Sent(s, front, marks[..k]), PacketsOf(s, b, marks[k..], last.n));
      KeptAppend(a, marks[..k], b, marks[k..], |marks| - k);
      assert marks[..k] + marks[k..] == marks;
    }
  }

  lemma NothingCarried(s: Setup, frames: seq<Frame>, marks: seq<bool>)
    requires TidyFrames(s, frames) && frames == [] && |marks| == 6 * |AllInputs(frames)|
    ensures InputsFit(AllInputs(frames)) && AllPackets(Sent(s, frames, marks))
    ensures Carried(s.format, Sent(s, frames, marks)) == Kept(Payload(AllInputs(frames)), marks, |marks|)
  {}

  lemma LastFrame(s: Setup, frames: seq<Frame>, marks: seq<bool>)
    requires TidyFrames(s, frames) && frames != [] && |marks| == 6 * |AllInputs(frames)|
    ensures var front, last := frames[..|frames| - 1], frames[|frames| - 1];
      var k := 6 * |AllInputs(front)|;
      && TidyFrames(s, front) && InputsFit(AllInputs(front)) && InputsFit(last.inputs)
      && AllInputs(frames) == AllInputs(front) + last.inputs
      && last.n <= 6 * |last.inputs| && last.n < 256 && Tidy(Payload(last.inputs), last.n)
      && k <= |marks|
      && Sent(s, frames, marks) == Sent(s, front, marks[..k]) + PacketsOf(s, Payload(last.inputs), marks[k..], last.n)
  {
    var front, last := frames[..|frames| - 1], frames[|frames| - 1];
    assert FrameOf(s, last.inputs, last.n) && Tidy(Payload(last.inputs), last.n);
    assert TidyFrames(s, front);
    FrameFits(s, last.inputs, last.n);
    AllInputsFit(s, front);
  }

  /** Of a contact's records exactly those that have a status and are not held back are
      carried by the packets, in order. */
  ghost predicate Reach(format: Format, id: byte, ps: seq<seq<byte>>, own: seq<seq<byte>>, held: seq<bool>) {
    && AllPackets(ps) && |own| == |held| && (forall j | 0 <= j < |own| :: |own[j]| == 10)
    && var sent := Carried(format, ps); RecordsOf(id, sent, |sent| / 10) == Passed(own, held)
  }

  /** Over any run of tidy frames, and for every contact: of its records those with a
      status that its own memory does not mask reach the source device, in order. */
  lemma ForwardedOfContact(s: Setup, f: Fwd, frames: seq<Frame>, id: byte)
    requires FwdOk(s, f) && TidyFrames(s, frames) && id < MAX_CONTACTS
    ensures AllFit(s, AllInputs(frames)) && InputsFit(AllInputs(frames))
    ensures var g, inputs := DispatchAll(s, f, AllInputs(frames)), AllInputs(frames);
      var own, held := RecordsOf(id, Payload(inputs), 6 * |inputs|), Marks(Ist, f.tab[id], Of(id, AllTouches(inputs)));
      f.out <= g.out && Reach(s.format, id, g.out[|f.out|..], own, held)
  {
    hide *;
    AllInputsFit(s, frames);
    TabFits(s, f);
    var inputs := AllInputs(frames);
    var ts, payload, marks := AllTouches(inputs), Payload(inputs), FrameMarks(f, inputs);
    ForwardRun(s, f, frames);
    MarksAreOnRecords(f, inputs);
    MarksAre(f, inputs);
    SentCarries(s, frames, marks);
    IdsOfRecords(inputs);
    KeptOfContact(id, ts, payload, marks, |ts|);
    assert ts[..|ts|] == ts && marks[..|ts|] == marks;
    IstTracksAll(id);
    Projection(Ist, f.tab, ts, id);
    WhatWasAdded(f.out, Sent(s, frames, marks));
    Reached(s.format, id, Sent(s, frames, marks), RecordsOf(id, payload, |ts|), MarksOf(id, ts, marks),
            Kept(payload, marks, |ts|));
  }

  lemma Reached(format: Format, id: byte, ps: seq<seq<byte>>, own: seq<seq<byte>>, held: seq<bool>, kept: seq<byte>)
    requires AllPackets(ps) && |own| == |held| && (forall j | 0 <= j < |own| :: |own[j]| == 10)
    requires Carried(format, ps) == kept && RecordsOf(id, kept, |kept| / 10) == Passed(own, held)
    ensures Reach(format, id, ps, own, held)
  {}

  lemma WhatWasAdded(before: seq<seq<byte>>, added: seq<seq<byte>>)
    ensures before <= before + added && (before + added)[|before|..] == added
  {}

  lemma MarksAre(f: Fwd, inputs: seq<Input>)
    requires InputsFit(inputs) && |f.tab| == MAX_CONTACTS
    ensures FrameMarks(f, inputs) == TableMarks(Ist, f.tab, AllTouches(inputs))
  {}

  lemma IstTracksAll(id: byte)
    ensures Tracked(Ist, id)
  {}

  /** Lives on the wire: over any run of tidy frames from a fresh table, a contact whose
      records are whole lives has exactly the records of those lives sent that did not begin
      in a zone, in order, however the lives are spread over frames and interleaved with
      other contacts. (Zero padding belongs to contact 0 and so interrupts no other.) */
  lemma IstLivesOnTheWire(s: Setup, f: Fwd, frames: seq<Frame>, id: byte, parts: seq<seq<Touch>>)
    requires FwdOk(s, f) && FreshTable(f.tab) && TidyFrames(s, frames) && id < MAX_CONTACTS
    requires InputsFit(AllInputs(frames)) && Proper(parts) && Of(id, AllTouches(AllInputs(frames))) == Joined(parts)
    ensures AllFit(s, AllInputs(frames))
    ensures var g, inputs := DispatchAll(s, f, AllInputs(frames)), AllInputs(frames);
      var own := RecordsOf(id, Payload(inputs), 6 * |inputs|);
      f.out <= g.out && Reach(s.format, id, g.out[|f.out|..], own, Judged(parts))
  {
    TabFits(s, f);
    assert f.tab[id] == FRESH;
    hide *;
    ForwardedOfContact(s, f, frames, id);
    FreshProperRun(parts);
  }

  lemma FreshProperRun(parts: seq<seq<Touch>>)
    requires Proper(parts)
    ensures Marks(Ist, FRESH, Joined(parts)) == Judged(parts)
  {
    IstProperRun(FRESH, parts);
  }
}
