/** Forwarding touches to the source device: the packets of a frame are filtered into
    one buffer, the records left over are closed up, and the result is split into packets
    again, the count in the first. Screen offsets are zero throughout. */
module SourceForward {
  import opened Bytes
  import opened Geometry
  import opened MaskZones
  import opened ContactMask
  import opened RawTouch

  const BUF_LEN := 420
  const PACKET_LEN := 64

  datatype Format = WithDriver | IstF | NoDriver

  // ------------------------------------------------------- filtering one packet

  /** Records whose mark is set get status 0, which makes them no record at all. */
  function Blank(body: seq<byte>, marks: seq<bool>): seq<byte> {
    seq(|body|, k requires 0 <= k < |body| =>
      if k % 10 == 0 && k / 10 < |marks| && marks[k / 10] then 0 else body[k])
  }

  lemma BlankSnoc(body: seq<byte>, marks: seq<bool>, m: bool)
    requires 10 * |marks| < |body|
    ensures Blank(body, marks + [m]) == if m then Blank(body, marks)[10 * |marks| := 0] else Blank(body, marks)
  {}

  /** Blanking one more record within a larger buffer. */
  lemma BlankInPlace(buf: seq<byte>, at: nat, body: seq<byte>, marks: seq<bool>, m: bool)
    requires at + |body| <= |buf| && 10 * |marks| < |body|
    ensures var b := Splice(buf, at, Blank(body, marks));
      (if m then b[at + 10 * |marks| := 0] else b) == Splice(buf, at, Blank(body, marks + [m]))
  {
    SpliceUpdate(buf, at, Blank(body, marks), 10 * |marks|, 0);
    BlankSnoc(body, marks, m);
  }

  lemma BlankAppend(a: seq<byte>, b: seq<byte>, ma: seq<bool>, mb: seq<bool>)
    requires |a| == 10 * |ma|
    ensures Blank(a + b, ma + mb) == Blank(a, ma) + Blank(b, mb)
  {
    forall k | 0 <= k < |b|
      ensures (|a| + k) % 10 == k % 10 && (|a| + k) / 10 == |ma| + k / 10
    {}
  }

  function CountTrue(marks: seq<bool>): (c: nat)
    ensures c <= |marks|
  {
    if marks == [] then 0 else CountTrue(marks[..|marks| - 1]) + if marks[|marks| - 1] then 1 else 0
  }

  lemma {:induction false} CountAppend(a: seq<bool>, b: seq<bool>)
    ensures CountTrue(a + b) == CountTrue(a) + CountTrue(b)
  {
    if b == [] {
      assert a + b == a;
    } else {
      assert (a + b)[..|a + b| - 1] == a + b[..|b| - 1];
      CountAppend(a, b[..|b| - 1]);
    }
  }

  function Zeros(n: nat): seq<byte> {
    seq(n, _ => 0)
  }

  // ------------------------------------------------------------ sending a frame

  /** The records with a status, closed up: the first n records of the buffer. */
  function Compact(buf: seq<byte>, n: nat): seq<byte>
    requires 10 * n <= |buf|
  {
    if n == 0 then []
    else Compact(buf, n - 1) + if buf[10 * (n - 1)] != 0 then buf[10 * (n - 1)..10 * n] else []
  }

  /** The i-th 60 bytes of `data`, zero-padded. */
  function Chunk(data: seq<byte>, i: nat): seq<byte> {
    seq(60, k requires 0 <= k < 60 => if 60 * i + k < |data| then data[60 * i + k] else 0)
  }

  function Packet(format: Format, chunk: seq<byte>, count: byte): seq<byte>
    requires |chunk| == 60
  {
    match format
    case WithDriver => [0x02] + chunk + [count, 0, 0]
    case IstF => [0x06, 0x18, 0x02] + chunk + [count]
    case NoDriver => [0x64, 0x00, 0x02] + chunk + [count]
  }

  /** A packet as the source device takes it in each format, with the given count. */
  predicate Stamped(format: Format, p: seq<byte>, count: int) {
    && |p| == 64
    && match format
       case WithDriver => p[0] == 0x02 && p[61] == count && p[62] == 0 && p[63] == 0
       case IstF => p[0] == 0x06 && p[1] == 0x18 && p[2] == 0x02 && p[63] == count
       case NoDriver => p[0] == 0x64 && p[1] == 0x00 && p[2] == 0x02 && p[63] == count
  }

  lemma PacketIsStamped(format: Format, chunk: seq<byte>, count: byte)
    requires |chunk| == 60
    ensures Stamped(format, Packet(format, chunk, count), count)
  {}

  function PacketsFor(n: nat): (k: nat)
    ensures k == (n + 5) / 6
  {
    if n == 0 then 0 else (n - 1) / 6 + 1
  }

  /** `count` records in as many packets as they need, the count in the first. */
  function Emit(format: Format, data: seq<byte>, count: byte): (ps: seq<seq<byte>>)
    ensures |ps| == PacketsFor(count) && forall i | 0 <= i < |ps| :: |ps[i]| == PACKET_LEN
  {
    seq(PacketsFor(count), i requires 0 <= i < PacketsFor(count) =>
      Packet(format, Chunk(data, i), if i == 0 then count else 0))
  }

  lemma EmitSnoc(format: Format, data: seq<byte>, count: byte, i: nat)
    requires i < PacketsFor(count)
    ensures Emit(format, data, count)[..i + 1]
         == Emit(format, data, count)[..i] + [Packet(format, Chunk(data, i), if i == 0 then count else 0)]
  {}

  // ----------------------------------------------------------- state and steps

  datatype Setup = Setup(format: Format, maxPackages: nat)

  ghost predicate SetupOk(s: Setup) {
    1 <= s.maxPackages && 60 * s.maxPackages <= BUF_LEN
  }

  /** pointsToSource, filterBuf, gTotalPointNumsInRawData, gTotalValidPointsNums,
      packageIndex, packageNums and the packets written so far. */
  datatype Fwd = Fwd(tab: seq<Contact>, buf: seq<byte>, rawNums: nat, valid: int, index: nat, nums: nat,
                     out: seq<seq<byte>>)

  /** Where a forwarder starts. */
  function FreshFwd(): Fwd {
    Fwd(seq(MAX_CONTACTS, _ => FRESH), Zeros(BUF_LEN), 0, 0, 0, 0, [])
  }

  ghost predicate FwdFits(s: Setup, f: Fwd) {
    && SetupOk(s) && |f.tab| == MAX_CONTACTS && |f.buf| == BUF_LEN
    && f.rawNums <= 6 * s.maxPackages && f.nums <= s.maxPackages
  }

  /** What every packet keeps: never more valid points counted than raw ones. */
  ghost predicate FwdOk(s: Setup, f: Fwd) {
    FwdFits(s, f) && f.valid <= f.rawNums
  }

  /** What the source takes for granted of a packet: ids and count fit its tables. */
  predicate PacketFits(s: Setup, raw: seq<byte>) {
    RawIdsFit(raw) && raw[COUNT_OFFSET] <= 6 * s.maxPackages
  }

  ghost function Filter(s: Setup, f: Fwd, zones: multiset<Rect>, raw: seq<byte>, index: nat, n: int): (f': Fwd)
    requires FwdFits(s, f) && RawIdsFit(raw)
    ensures FwdFits(s, f')
    ensures f' == f.(tab := f'.tab, buf := f'.buf, valid := f'.valid)
    ensures f'.valid <= if index == 0 then n else f.valid
  {
    if index >= s.maxPackages then f
    else
      var ts := Touches(zones, raw, MAX_POINTS);
      assert IdsFit(ts, MAX_CONTACTS);
      var marks := TableMarks(Ist, f.tab, ts);
      var buf := if index == 0 then Splice(f.buf, 0, Zeros(60 * s.maxPackages)) else f.buf;
      f.(tab := TableAfter(Ist, f.tab, ts),
         buf := Splice(buf, 60 * index, Blank(raw[1..61], marks)),
         valid := (if index == 0 then n else f.valid) - CountTrue(marks))
  }

  function Send(s: Setup, f: Fwd): Fwd
    requires 10 * f.rawNums <= |f.buf| && 0 < f.valid < 256
  {
    f.(out := f.out + Emit(s.format, Compact(f.buf, f.rawNums), f.valid))
  }

  /** The branch of the thread that handles one raw packet. */
  ghost function Dispatch(s: Setup, f: Fwd, zones: multiset<Rect>, raw: seq<byte>): (f': Fwd)
    requires FwdOk(s, f) && PacketFits(s, raw)
    ensures FwdOk(s, f')
  {
    var total := raw[COUNT_OFFSET];
    if 0 < total <= 6 then
      var f1 := Filter(s, f.(rawNums := total, index := 0, nums := 1), zones, raw, 0, total);
      if f1.valid > 0 then Send(s, f1) else f1
    else if total > 6 then
      Filter(s, f.(rawNums := total, index := 0), zones, raw, 0, total).(nums := (total - 1) / 6 + 1)
    else
      var f1 := Filter(s, f.(index := f.index + 1), zones, raw, f.index + 1, f.valid);
      if f1.index == f1.nums - 1 && f1.valid > 0 then Send(s, f1) else f1
  }

  /** The buffer holds `data` and zeros up to `end`. */
  ghost predicate Padded(buf: seq<byte>, data: seq<byte>, end: nat) {
    |data| <= end <= |buf| && forall k | 0 <= k < end :: buf[k] == if k < |data| then data[k] else 0
  }

  lemma PaddedSplice(wiped: seq<byte>, data: seq<byte>, end: nat)
    requires |data| <= end <= |wiped| && forall k | 0 <= k < end :: wiped[k] == 0
    ensures Padded(Splice(wiped, 0, data), data, end)
  {}

  lemma ChunkOfPadded(buf: seq<byte>, data: seq<byte>, end: nat, i: nat)
    requires Padded(buf, data, end) && 60 * i + 60 <= end
    ensures buf[60 * i..60 * i + 60] == Chunk(data, i)
  {
    var chunk := buf[60 * i..60 * i + 60];
    forall k | 0 <= k < 60 ensures chunk[k] == Chunk(data, i)[k] {
      assert chunk[k] == buf[60 * i + k];
    }
  }

  lemma CompactNone(buf: seq<byte>)
    ensures Compact(buf, 0) == []
  {}

  lemma CompactSnoc(buf: seq<byte>, n: nat)
    requires 10 * n + 10 <= |buf|
    ensures Compact(buf, n + 1) == Compact(buf, n) + if buf[10 * n] != 0 then buf[10 * n..10 * n + 10] else []
  {}

  /** What masking record i makes of the contact memory, the buffer and the marks. */
  lemma MaskRecord(z: multiset<Rect>, raw: seq<byte>, i: nat, at: nat, tab0: seq<Contact>, buf0: seq<byte>,
                   tab: seq<Contact>, buf: seq<byte>)
    requires RawIdsFit(raw) && i < MAX_POINTS && |tab0| == MAX_CONTACTS && at + 60 <= |buf0|
    requires IdsFit(Touches(z, raw, i), MAX_CONTACTS) && tab == TableAfter(Ist, tab0, Touches(z, raw, i))
    requires buf == Splice(buf0, at, Blank(raw[1..61], TableMarks(Ist, tab0, Touches(z, raw, i))))
    ensures IdsFit(Touches(z, raw, i + 1), MAX_CONTACTS) && TouchAt(z, raw, i).id < |tab| && |buf| == |buf0|
    ensures var (tab', m) := StepTable(Ist, tab, TouchAt(z, raw, i));
      var before, after := TableMarks(Ist, tab0, Touches(z, raw, i)), TableMarks(Ist, tab0, Touches(z, raw, i + 1));
      && tab' == TableAfter(Ist, tab0, Touches(z, raw, i + 1))
      && (if m then buf[at + 10 * i := 0] else buf) == Splice(buf0, at, Blank(raw[1..61], after))
      && CountTrue(after) == CountTrue(before) + if m then 1 else 0
  {
    hide *;
    RawSizes(z, raw, i);
    TableOverRecord(Ist, tab0, z, raw, i);
    var before, m := TableMarks(Ist, tab0, Touches(z, raw, i)), StepTable(Ist, tab, TouchAt(z, raw, i)).1;
    BlankInPlace(buf0, at, raw[1..61], before, m);
    BlankSize(buf0, at, raw[1..61], before);
    CountSnoc(before, m);
  }

  lemma RawSizes(z: multiset<Rect>, raw: seq<byte>, i: nat)
    requires RawIdsFit(raw) && i < MAX_POINTS
    ensures |raw| == RAW_LEN == 64 && i < 6 && |Touches(z, raw, i)| == i
  {}

  lemma BlankSize(buf: seq<byte>, at: nat, body: seq<byte>, marks: seq<bool>)
    requires at + |body| <= |buf|
    ensures |Blank(body, marks)| == |body| && |Splice(buf, at, Blank(body, marks))| == |buf|
  {}

  lemma CountSnoc(marks: seq<bool>, m: bool)
    ensures CountTrue(marks + [m]) == CountTrue(marks) + if m then 1 else 0
  {
    assert (marks + [m])[..|marks|] == marks;
  }

  // ------------------------------------------------------------- the forwarder

  class SourceForwarder {
    const setup: Setup
    const pointsToSource: array<Contact>
    const zones: ZoneTable
    const filterBuf: array<byte>
    const sendBuf: array<byte>
    var totalPointNumsInRawData: nat
    var totalValidPointsNums: int
    var packageIndex: nat
    var packageNums: nat
    var sent: seq<seq<byte>>  // what sendTouchDataToUsb was called with

    ghost function State(): Fwd
      reads this, pointsToSource, filterBuf
    {
      Fwd(pointsToSource[..], filterBuf[..], totalPointNumsInRawData, totalValidPointsNums,
          packageIndex, packageNums, sent)
    }

    ghost predicate Valid()
      reads this, pointsToSource, filterBuf
    {
      FwdFits(setup, State()) && zones.Valid() && sendBuf.Length == BUF_LEN && filterBuf != sendBuf
    }

    constructor (setup: Setup, zones: ZoneTable)
      requires SetupOk(setup) && zones.Valid()
      ensures Valid() && this.setup == setup && this.zones == zones && State() == FreshFwd()
      ensures pointsToSource.Length == 42 && filterBuf.Length == 420
      ensures fresh(pointsToSource) && fresh(filterBuf) && fresh(sendBuf)
    {
      this.setup, this.zones := setup, zones;
      pointsToSource := new Contact[MAX_CONTACTS](_ => FRESH);
      filterBuf := new byte[BUF_LEN](_ => 0);
      sendBuf := new byte[BUF_LEN](_ => 0);
      totalPointNumsInRawData, totalValidPointsNums, packageIndex, packageNums := 0, 0, 0, 0;
      sent := [];
      new;
      assert pointsToSource[..] == seq(MAX_CONTACTS, _ => FRESH) && filterBuf[..] == Zeros(BUF_LEN);
    }

    /** The record's part of the buffer, the flag of its contact and the count of valid points
        once the record has been judged; the status remembered of the contact is still the old one. */
    twostate predicate RecordJudged(buf: seq<byte>, at: nat, i: nat)
      requires Valid() && RawIdsFit(buf) && i < MAX_POINTS && at + 10 * i < filterBuf.Length
      reads this, pointsToSource, filterBuf, zones.zone
    {
      var t := TouchAt(zones.Zones(), buf, i);
      var c := old(pointsToSource[t.id]);
      var (c', masked) := Step(Ist, c, t);
      && pointsToSource[..] == old(pointsToSource[..])[t.id := c'.(pre := c.pre)]
      && filterBuf[..] == (if masked then old(filterBuf[..])[at + 10 * i := 0] else old(filterBuf[..]))
      && totalValidPointsNums == old(totalValidPointsNums) - if masked then 1 else 0
    }

    /** The branch for a record that is down. */
    method JudgeDown(buf: seq<byte>, at: nat, i: nat)
      requires Valid() && RawIdsFit(buf) && i < MAX_POINTS && at + 10 * i < filterBuf.Length
      requires buf[10 * i + 1] % 16 == 0x07
      modifies this`totalValidPointsNums, filterBuf, pointsToSource
      ensures Valid() && RecordJudged(buf, at, i)
    {
      hide Masked, X, Y;
      var ptId := buf[10 * i + 2];
      if pointsToSource[ptId].pre == 0x00 || pointsToSource[ptId].pre == 0x04 {
        var inside := IsPointDownInsideOsdRegion(zones, i, buf);
        if inside {
          pointsToSource[ptId] := pointsToSource[ptId].(disabled := true);
          filterBuf[at + 10 * i] := 0;
          totalValidPointsNums := totalValidPointsNums - 1;
        }
      } else if pointsToSource[ptId].pre == 0x07 {
        if pointsToSource[ptId].disabled {
          filterBuf[at + 10 * i] := 0;
          totalValidPointsNums := totalValidPointsNums - 1;
        }
      }
    }

    /** The branch for a record that is up. */
    method JudgeUp(buf: seq<byte>, at: nat, i: nat)
      requires Valid() && RawIdsFit(buf) && i < MAX_POINTS && at + 10 * i < filterBuf.Length
      requires buf[10 * i + 1] % 16 == 0x04
      modifies this`totalValidPointsNums, filterBuf, pointsToSource
      ensures Valid() && RecordJudged(buf, at, i)
    {
      hide Masked, X, Y;
      var ptId := buf[10 * i + 2];
      if pointsToSource[ptId].pre == 0x07 {
        if pointsToSource[ptId].disabled {
          filterBuf[at + 10 * i] := 0;
          pointsToSource[ptId] := pointsToSource[ptId].(disabled := false);
          totalValidPointsNums := totalValidPointsNums - 1;
        }
      } else if pointsToSource[ptId].pre == 0x00 || pointsToSource[ptId].pre == 0x04 {
        var inside := IsPointDownInsideOsdRegion(zones, i, buf);
        if inside {
          pointsToSource[ptId] := pointsToSource[ptId].(disabled := true);
          filterBuf[at + 10 * i] := 0;
          totalValidPointsNums := totalValidPointsNums - 1;
        }
      }
    }

    /** The body of the record loop of filterPointsForSourceTouch. */
    method FilterRecord(buf: seq<byte>, at: nat, i: nat)
      requires Valid() && RawIdsFit(buf) && i < MAX_POINTS && at + 10 * i < filterBuf.Length
      modifies this`totalValidPointsNums, filterBuf, pointsToSource
      ensures Valid()
      ensures var t := TouchAt(zones.Zones(), buf, i);
        var (tab, masked) := StepTable(Ist, old(pointsToSource[..]), t);
        && pointsToSource[..] == tab
        && filterBuf[..] == (if masked then old(filterBuf[..])[at + 10 * i := 0] else old(filterBuf[..]))
        && totalValidPointsNums == old(totalValidPointsNums) - if masked then 1 else 0
    {
      hide Masked, X, Y, InForce;
      var ptId := buf[10 * i + 2];
      var ptStatus := buf[10 * i + 1] % 16;
      if ptStatus == 0x07 {
        JudgeDown(buf, at, i);
      } else if ptStatus == 0x04 {
        JudgeUp(buf, at, i);
      }
      pointsToSource[ptId] := pointsToSource[ptId].(pre := ptStatus);
    }

    /** filterPointsForSourceTouch. */
    method FilterPointsForSourceTouch(buf: seq<byte>, index: nat, totalRawPointNums: int) returns (ret: bool)
      requires Valid() && RawIdsFit(buf)
      modifies this`totalValidPointsNums, filterBuf, pointsToSource
      ensures Valid() && ret == (index < setup.maxPackages)
      ensures State() == Filter(setup, old(State()), zones.Zones(), buf, index, totalRawPointNums)
    {
      hide Splice, Blank, TableMarks, TableAfter, CountTrue, Touches, IdsFit;
      TouchesFit(zones.Zones(), buf, MAX_POINTS);
      if index >= setup.maxPackages {
        return false;
      }
      if index == 0 {
        CopyBytes(filterBuf, 0, Zeros(60 * setup.maxPackages));
        totalValidPointsNums := totalRawPointNums;
      }
      ghost var buf0 := filterBuf[..];
      CopyBytes(filterBuf, index * 60, buf[1..61]);
      FilterRecords(buf, index * 60, buf0);
      ret := true;
    }

    /** After n turns of the record loop: the contact memory, the buffer and the count. */
    ghost predicate Filtered(buf: seq<byte>, at: nat, n: nat, tab0: seq<Contact>, buf0: seq<byte>, valid0: int)
      requires Valid() && RawIdsFit(buf) && n <= MAX_POINTS && |tab0| == MAX_CONTACTS && at + 60 <= |buf0|
      reads this, pointsToSource, filterBuf, zones.zone
    {
      TouchesFit(zones.Zones(), buf, n);
      var ts := Touches(zones.Zones(), buf, n);
      && pointsToSource[..] == TableAfter(Ist, tab0, ts)
      && filterBuf[..] == Splice(buf0, at, Blank(buf[1..61], TableMarks(Ist, tab0, ts)))
      && totalValidPointsNums == valid0 - CountTrue(TableMarks(Ist, tab0, ts))
    }

    method FilterNext(buf: seq<byte>, at: nat, i: nat, ghost tab0: seq<Contact>, ghost buf0: seq<byte>, ghost valid0: int)
      requires Valid() && RawIdsFit(buf) && i < MAX_POINTS
      requires |tab0| == MAX_CONTACTS && at + 60 <= |buf0| == filterBuf.Length == BUF_LEN
      requires Filtered(buf, at, i, tab0, buf0, valid0)
      modifies this`totalValidPointsNums, filterBuf, pointsToSource
      ensures Valid() && Filtered(buf, at, i + 1, tab0, buf0, valid0)
    {
      hide Blank, Splice, StepTable, TouchAt, Touches, TableAfter, TableMarks, IdsFit, CountTrue, InForce, RawIdsFit,
        FwdFits, FwdOk, Masked;
      ghost var z := zones.Zones();
      TouchesFit(z, buf, i);
      MaskRecord(z, buf, i, at, tab0, buf0, pointsToSource[..], filterBuf[..]);
      FilterRecord(buf, at, i);
    }

    method FilterRecords(buf: seq<byte>, at: nat, ghost buf0: seq<byte>)
      requires Valid() && RawIdsFit(buf) && at + 60 <= filterBuf.Length == |buf0|
      requires filterBuf[..] == Splice(buf0, at, buf[1..61])
      modifies this`totalValidPointsNums, filterBuf, pointsToSource
      ensures Valid()
      ensures Filtered(buf, at, MAX_POINTS, old(pointsToSource[..]), buf0, old(totalValidPointsNums))
    {
      ghost var tab0, valid0 := pointsToSource[..], totalValidPointsNums;
      assert Blank(buf[1..61], []) == buf[1..61];
      TableOverNone(Ist, tab0, zones.Zones(), buf);
      for i := 0 to MAX_POINTS
        invariant Valid() && Filtered(buf, at, i, tab0, buf0, valid0)
      {
        hide Filtered;
        FilterNext(buf, at, i, tab0, buf0, valid0);
      }
    }

    /** The loop of sendFilterPointsToSource that closes up the records. */
    method CloseUp()
      requires Valid()
      modifies sendBuf
      ensures var data := Compact(filterBuf[..], totalPointNumsInRawData);
        |data| <= 10 * totalPointNumsInRawData && Padded(sendBuf[..], data, 60 * setup.maxPackages)
    {
      CopyBytes(sendBuf, 0, Zeros(60 * setup.maxPackages));
      ghost var wiped := sendBuf[..];
      assert forall k | 0 <= k < 60 * setup.maxPackages :: wiped[k] == 0;
      ghost var data: seq<byte> := [];
      assert wiped == Splice(wiped, 0, []);
      hide Splice, Compact;
      assert data == Compact(filterBuf[..], 0) by {
        CompactNone(filterBuf[..]);
      }
      var dest := 0;
      for i := 0 to totalPointNumsInRawData
        invariant data == Compact(filterBuf[..], i) && dest == |data| <= 10 * i
        invariant sendBuf[..] == Splice(wiped, 0, data)
      {
        CompactSnoc(filterBuf[..], i);
        if filterBuf[10 * i] != 0x00 {
          CopyRecord(i, dest, wiped, data);
          dest := dest + 10;
          data := data + filterBuf[..][10 * i..10 * i + 10];
        }
      }
      PaddedSplice(wiped, data, 60 * setup.maxPackages);
    }

    method CopyRecord(i: nat, dest: nat, ghost wiped: seq<byte>, ghost data: seq<byte>)
      requires filterBuf != sendBuf && 10 * i + 10 <= filterBuf.Length
      requires dest == |data| && dest + 10 <= |wiped| == sendBuf.Length && sendBuf[..] == Splice(wiped, 0, data)
      modifies sendBuf
      ensures sendBuf[..] == Splice(wiped, 0, data + filterBuf[..][10 * i..10 * i + 10])
    {
      ghost var record := filterBuf[..][10 * i..10 * i + 10];
      SpliceTwice(wiped, 0, data, record);
      hide Splice;
      assert filterBuf[10 * i..10 * i + 10] == record;
      CopyBytes(sendBuf, dest, filterBuf[10 * i..10 * i + 10]);
    }

    /** sendFilterPointsToSource. */
    method SendFilterPointsToSource()
      requires Valid() && 0 < totalValidPointsNums <= totalPointNumsInRawData
      modifies this`sent, sendBuf
      ensures Valid()
      ensures State() == Send(setup, old(State()))
      ensures |sent| == |old(sent)| + (totalValidPointsNums + 5) / 6 && sent[..|old(sent)|] == old(sent)
      ensures forall i | |old(sent)| <= i < |sent| ::
        Stamped(setup.format, sent[i], if i == |old(sent)| then totalValidPointsNums else 0)
    {
      CloseUp();
      ghost var data := Compact(filterBuf[..], totalPointNumsInRawData);
      var totalPackageNums := (totalValidPointsNums - 1) / 6 + 1;
      assert totalPackageNums == PacketsFor(totalValidPointsNums);
      hide Emit, Packet, Chunk, Padded, Compact, PacketsFor, Stamped;
      for i := 0 to totalPackageNums
        invariant Padded(sendBuf[..], data, 60 * setup.maxPackages)
        invariant sent == old(sent) + Emit(setup.format, data, totalValidPointsNums)[..i]
        invariant forall j | |old(sent)| <= j < |sent| ::
          Stamped(setup.format, sent[j], if j == |old(sent)| then totalValidPointsNums else 0)
      {
        EmitSnoc(setup.format, data, totalValidPointsNums, i);
        ChunkOfPadded(sendBuf[..], data, 60 * setup.maxPackages, i);
        var chunk := sendBuf[60 * i..60 * i + 60];
        assert chunk == sendBuf[..][60 * i..60 * i + 60];
        var count := if i == 0 then totalValidPointsNums else 0;
        PacketIsStamped(setup.format, chunk, count);
        sent := sent + [Packet(setup.format, chunk, count)];
      }
    }

    /** The forwarding branch of touchDataProcess_thread. */
    method Forward(buf: seq<byte>)
      requires Valid() && FwdOk(setup, State()) && PacketFits(setup, buf)
      modifies this, filterBuf, sendBuf, pointsToSource
      ensures Valid() && FwdOk(setup, State())
      ensures State() == Dispatch(setup, old(State()), zones.Zones(), buf)
    {
      hide Filter, Send;
      var totalPointNums := buf[61];
      if totalPointNums > 0 && totalPointNums <= 6 {
        totalPointNumsInRawData := totalPointNums;
        packageIndex := 0;
        packageNums := 1;
        var _ := FilterPointsForSourceTouch(buf, packageIndex, totalPointNumsInRawData);
        if totalValidPointsNums > 0 {
          SendFilterPointsToSource();
        }
      } else if totalPointNums > 6 {
        totalPointNumsInRawData := totalPointNums;
        packageIndex := 0;
        var _ := FilterPointsForSourceTouch(buf, packageIndex, totalPointNumsInRawData);
        packageNums := (totalPointNums - 1) / 6 + 1;
      } else {
        packageIndex := packageIndex + 1;
        var _ := FilterPointsForSourceTouch(buf, packageIndex, totalValidPointsNums);
        if packageIndex == packageNums - 1 && totalValidPointsNums > 0 {
          SendFilterPointsToSource();
        }
      }
    }

    /** One thing that happens to the service. */
    method Happen(act: Act)
      requires Valid() && FwdOk(setup, State()) && (act.Arrival? ==> PacketFits(setup, act.raw))
      modifies this, filterBuf, sendBuf, pointsToSource, zones.zone
      ensures Valid() && FwdOk(setup, State())
      ensures match act
        case Zoning(change) => State() == old(State()) && zones.Zones() == Apply(old(zones.Zones()), change)
        case Arrival(raw) => (
          State() == Dispatch(setup, old(State()), zones.Zones(), raw) && zones.Zones() == old(zones.Zones()))
    {
      hide Dispatch, FwdOk, PacketFits, InForce, Apply;
      match act {
        case Zoning(change) =>
          zones.Make(change);
        case Arrival(raw) =>
          Forward(raw);
      }
    }
  }
}
