/** Byte strings of ten-byte records (status, contact id, then coordinates): which records
    survive masking, how they are counted, and how the packets of a frame are read back. */
module RecordBytes {
  import opened Bytes
  import opened ContactMask
  import opened SourceForward

  // ------------------------------------------------------ records that are kept

  /** Of the first n records those with a status that are not masked, in their order. */
  function Kept(payload: seq<byte>, marks: seq<bool>, n: nat): (kept: seq<byte>)
    requires n <= |marks| && 10 * |marks| <= |payload|
    ensures |kept| <= 10 * n
  {
    if n == 0 then []
    else
      Kept(payload, marks, n - 1)
        + if !marks[n - 1] && payload[10 * (n - 1)] != 0 then payload[10 * (n - 1)..10 * n] else []
  }

  lemma NothingKept(buf: seq<byte>, payload: seq<byte>, marks: seq<bool>)
    requires 10 * |marks| <= |payload|
    ensures Compact(buf, 0) == Kept(payload, marks, 0) == []
  {}

  lemma KeptSnoc(payload: seq<byte>, marks: seq<bool>, n: nat)
    requires n < |marks| && 10 * |marks| <= |payload|
    ensures Kept(payload, marks, n + 1)
         == Kept(payload, marks, n) + if !marks[n] && payload[10 * n] != 0 then payload[10 * n..10 * n + 10] else []
  {}

  /** Whole records, each with a status and an id the contact table holds. */
  ghost predicate Records(data: seq<byte>, count: nat) {
    |data| == 10 * count && forall r | 0 <= r < count :: data[10 * r] != 0 && data[10 * r + 1] < MAX_CONTACTS
  }

  ghost predicate WholeRecords(data: seq<byte>) {
    |data| % 10 == 0 && Records(data, |data| / 10)
  }

  lemma RecordsSnoc(data: seq<byte>, record: seq<byte>)
    requires WholeRecords(data)
    requires |record| == 10 && record[0] != 0 && record[1] < MAX_CONTACTS
    ensures WholeRecords(data + record)
  {
    var all, count := data + record, |data| / 10;
    forall r | 0 <= r < count + 1 ensures all[10 * r] != 0 && all[10 * r + 1] < MAX_CONTACTS {
      if r < count {
        assert all[10 * r] == data[10 * r] && all[10 * r + 1] == data[10 * r + 1];
      } else {
        assert all[10 * r] == record[0] && all[10 * r + 1] == record[1];
      }
    }
  }

  ghost predicate RecordIdsFit(payload: seq<byte>, n: nat) {
    10 * n <= |payload| && forall r | 0 <= r < n :: payload[10 * r + 1] < MAX_CONTACTS
  }

  lemma RecordIdFits(payload: seq<byte>, n: nat, r: nat)
    requires RecordIdsFit(payload, n) && r < n
    ensures payload[10 * r..10 * r + 10][1] < MAX_CONTACTS
  {}

  lemma {:induction false} KeptAreRecords(payload: seq<byte>, marks: seq<bool>, n: nat)
    requires n <= |marks| && 10 * |marks| <= |payload| && RecordIdsFit(payload, |marks|)
    ensures WholeRecords(Kept(payload, marks, n))
  {
    hide *;
    if n == 0 {
      NoRecords(payload, marks);
    } else {
      KeptAreRecords(payload, marks, n - 1);
      KeptSnoc(payload, marks, n - 1);
      var front, at := Kept(payload, marks, n - 1), 10 * (n - 1);
      assert at + 10 <= |payload|;
      if !marks[n - 1] && payload[at] != 0 {
        RecordIdFits(payload, |marks|, n - 1);
        var record := payload[at..at + 10];
        assert |record| == 10 && record[0] != 0;
        RecordsSnoc(front, record);
      } else {
        assert front + [] == front;
      }
    }
  }

  lemma NoRecords(payload: seq<byte>, marks: seq<bool>)
    requires 10 * |marks| <= |payload|
    ensures WholeRecords(Kept(payload, marks, 0))
  {}

  lemma {:induction false} KeepAll(payload: seq<byte>, marks: seq<bool>, n: nat)
    requires n <= |marks| && 10 * |marks| <= |payload|
    requires forall r | 0 <= r < n :: !marks[r] && payload[10 * r] != 0
    ensures Kept(payload, marks, n) == payload[..10 * n]
  {
    if n > 0 {
      KeepAll(payload, marks, n - 1);
      KeptSnoc(payload, marks, n - 1);
      hide Kept;
      assert payload[..10 * n] == payload[..10 * (n - 1)] + payload[10 * (n - 1)..10 * n];
    }
  }

  lemma {:induction false} KeptAppend(a: seq<byte>, ma: seq<bool>, b: seq<byte>, mb: seq<bool>, n: nat)
    requires |a| == 10 * |ma| && |b| == 10 * |mb| && n <= |mb|
    ensures Kept(a + b, ma + mb, |ma| + n) == Kept(a, ma, |ma|) + Kept(b, mb, n)
  {
    hide Kept;
    if n == 0 {
      NothingKept([], b, mb);
      KeptPrefix(a, ma, b, mb, |ma|);
    } else {
      KeptAppend(a, ma, b, mb, n - 1);
      KeptSnoc(a + b, ma + mb, |ma| + n - 1);
      KeptSnoc(b, mb, n - 1);
      RecordBehind(a, b, n - 1, |ma|);
    }
  }

  lemma RecordBehind(a: seq<byte>, b: seq<byte>, r: nat, n: nat)
    requires |a| == 10 * n && 10 * r + 10 <= |b|
    ensures (a + b)[10 * (n + r)..10 * (n + r) + 10] == b[10 * r..10 * r + 10] && (a + b)[10 * (n + r)] == b[10 * r]
  {}

  lemma {:induction false} KeptPrefix(a: seq<byte>, ma: seq<bool>, b: seq<byte>, mb: seq<bool>, n: nat)
    requires |a| == 10 * |ma| && |b| == 10 * |mb| && n <= |ma|
    ensures Kept(a + b, ma + mb, n) == Kept(a, ma, n)
  {
    hide Kept;
    if n == 0 {
      NothingKept([], a, ma);
      NothingKept([], a + b, ma + mb);
    } else {
      KeptPrefix(a, ma, b, mb, n - 1);
      KeptSnoc(a + b, ma + mb, n - 1);
      KeptSnoc(a, ma, n - 1);
      assert (a + b)[10 * (n - 1)..10 * (n - 1) + 10] == a[10 * (n - 1)..10 * (n - 1) + 10];
    }
  }

  /** Records that are masked or have no status add nothing. */
  lemma {:induction false} KeptEnough(payload: seq<byte>, marks: seq<bool>, n: nat, m: nat)
    requires n <= m <= |marks| && 10 * |marks| <= |payload|
    requires forall r | n <= r < m :: marks[r] || payload[10 * r] == 0
    ensures Kept(payload, marks, m) == Kept(payload, marks, n)
  {
    hide Kept;
    if n < m {
      KeptEnough(payload, marks, n, m - 1);
      KeptSnoc(payload, marks, m - 1);
    }
  }

  lemma {:induction false} KeptGrows(payload: seq<byte>, marks: seq<bool>, n: nat, m: nat)
    requires n <= m <= |marks| && 10 * |marks| <= |payload|
    ensures |Kept(payload, marks, n)| <= |Kept(payload, marks, m)|
  {
    hide Kept;
    if n < m {
      KeptGrows(payload, marks, n, m - 1);
      KeptSnoc(payload, marks, m - 1);
    }
  }

  // ------------------------------------------------------------------- counting

  /** Among the first n records, those without a status. */
  function Empties(payload: seq<byte>, n: nat): (e: nat)
    requires 10 * n <= |payload|
    ensures e <= n
  {
    if n == 0 then 0 else Empties(payload, n - 1) + if payload[10 * (n - 1)] == 0 then 1 else 0
  }

  lemma {:induction false} KeptSize(payload: seq<byte>, marks: seq<bool>, n: nat)
    requires n <= |marks| && 10 * |marks| <= |payload|
    requires forall r | 0 <= r < |marks| && marks[r] :: payload[10 * r] != 0
    ensures |Kept(payload, marks, n)| == 10 * (n - CountTrue(marks[..n]) - Empties(payload, n))
  {
    if n > 0 {
      KeptSize(payload, marks, n - 1);
      assert marks[..n][..n - 1] == marks[..n - 1];
    }
  }

  lemma {:induction false} NoneTrue(marks: seq<bool>)
    requires forall r | 0 <= r < |marks| :: !marks[r]
    ensures CountTrue(marks) == 0
  {
    if marks != [] {
      NoneTrue(marks[..|marks| - 1]);
    }
  }

  lemma {:induction false} NoEmpties(payload: seq<byte>, n: nat)
    requires 10 * n <= |payload| && forall r | 0 <= r < n :: payload[10 * r] != 0
    ensures Empties(payload, n) == 0
  {
    if n > 0 {
      NoEmpties(payload, n - 1);
    }
  }

  // -------------------------------------------------------- packets read back

  /** The record bytes and the count of an emitted packet. */
  function ChunkOf(format: Format, p: seq<byte>): seq<byte>
    requires |p| == PACKET_LEN
  {
    if format == WithDriver then p[1..61] else p[3..63]
  }

  function CountOf(format: Format, p: seq<byte>): byte
    requires |p| == PACKET_LEN
  {
    if format == WithDriver then p[61] else p[63]
  }

  ghost predicate AllPackets(ps: seq<seq<byte>>) {
    forall i | 0 <= i < |ps| :: |ps[i]| == PACKET_LEN
  }

  function JoinChunks(format: Format, ps: seq<seq<byte>>): (j: seq<byte>)
    requires AllPackets(ps)
    ensures |j| == 60 * |ps|
  {
    if ps == [] then [] else JoinChunks(format, ps[..|ps| - 1]) + ChunkOf(format, ps[|ps| - 1])
  }

  lemma {:induction false} JoinAppend(format: Format, a: seq<seq<byte>>, b: seq<seq<byte>>)
    requires AllPackets(a) && AllPackets(b)
    ensures AllPackets(a + b) && JoinChunks(format, a + b) == JoinChunks(format, a) + JoinChunks(format, b)
  {
    hide ChunkOf;
    if b == [] {
      assert a + b == a;
    } else {
      assert (a + b)[..|a + b| - 1] == a + b[..|b| - 1];
      JoinAppend(format, a, b[..|b| - 1]);
    }
  }

  lemma PacketParts(format: Format, chunk: seq<byte>, count: byte)
    requires |chunk| == 60
    ensures ChunkOf(format, Packet(format, chunk, count)) == chunk
    ensures CountOf(format, Packet(format, chunk, count)) == count
  {}

  /** `data` cut or zero-padded to `len` bytes. */
  function Fitted(data: seq<byte>, len: nat): (s: seq<byte>)
    ensures |s| == len
  {
    seq(len, k requires 0 <= k < len => if k < |data| then data[k] else 0)
  }

  lemma FittedSnoc(data: seq<byte>, i: nat)
    ensures Fitted(data, 60 * i + 60) == Fitted(data, 60 * i) + Chunk(data, i)
  {}

  lemma JoinSnoc(format: Format, ps: seq<seq<byte>>, p: seq<byte>)
    requires AllPackets(ps) && |p| == PACKET_LEN
    ensures AllPackets(ps + [p]) && JoinChunks(format, ps + [p]) == JoinChunks(format, ps) + ChunkOf(format, p)
  {
    assert (ps + [p])[..|ps|] == ps;
  }

  lemma {:induction false} JoinPrefix(format: Format, data: seq<byte>, count: byte, i: nat)
    requires i <= PacketsFor(count)
    ensures JoinChunks(format, Emit(format, data, count)[..i]) == Fitted(data, 60 * i)
  {
    if i > 0 {
      JoinPrefix(format, data, count, i - 1);
      EmitSnoc(format, data, count, i - 1);
      var chunk, first := Chunk(data, i - 1), if i == 1 then count else 0;
      PacketParts(format, chunk, first);
      FittedSnoc(data, i - 1);
      hide Fitted, Chunk, Packet, PacketsFor, ChunkOf, Emit, JoinChunks;
      JoinSnoc(format, Emit(format, data, count)[..i - 1], Packet(format, chunk, first));
    }
  }

  /** Joining the packets emitted for a count gives the data back, cut or zero-padded to
      the room they have. */
  lemma JoinOfEmit(format: Format, data: seq<byte>, count: byte)
    ensures JoinChunks(format, Emit(format, data, count)) == Fitted(data, 60 * PacketsFor(count))
  {
    JoinPrefix(format, data, count, PacketsFor(count));
    assert Emit(format, data, count)[..PacketsFor(count)] == Emit(format, data, count);
  }

  /** Joining the emitted packets gives the records back, zero-padded; the count stands
      in the first packet only. */
  lemma SplitJoins(format: Format, data: seq<byte>, count: byte)
    requires |data| == 10 * count
    ensures var ps := Emit(format, data, count);
      && JoinChunks(format, ps) == data + Zeros(60 * PacketsFor(count) - 10 * count)
      && forall i | 0 <= i < |ps| :: CountOf(format, ps[i]) == if i == 0 then count else 0
  {
    var ps := Emit(format, data, count);
    JoinOfEmit(format, data, count);
    forall i | 0 <= i < |ps| ensures CountOf(format, ps[i]) == if i == 0 then count else 0 {
      PacketParts(format, Chunk(data, i), if i == 0 then count else 0);
    }
  }

  // ---------------------------------------------------- what packets carry

  /** The records with a status in some packets, closed up. */
  function Carried(format: Format, ps: seq<seq<byte>>): seq<byte>
    requires AllPackets(ps)
  {
    Compact(JoinChunks(format, ps), 6 * |ps|)
  }

  /** Records, cut or padded, hold as many records as there is room for. */
  lemma {:induction false} CompactOfFitted(data: seq<byte>, count: nat, len: nat, n: nat)
    requires Records(data, count) && 10 * n <= len
    ensures Compact(Fitted(data, len), n) == if n <= count then data[..10 * n] else data
  {
    hide *;
    RecordsSize(data, count);
    if n == 0 {
      CompactNone(Fitted(data, len));
    } else {
      var at := 10 * (n - 1);
      CompactOfFitted(data, count, len, n - 1);
      CompactSnoc(Fitted(data, len), n - 1);
      FittedRecord(data, count, len, n - 1);
      if n <= count {
        assert data[..10 * n] == data[..at] + data[at..at + 10];
      } else {
        assert n == count + 1 ==> data[..at] == data;
        assert data + [] == data;
      }
    }
  }

  lemma FittedRecord(data: seq<byte>, count: nat, len: nat, r: nat)
    requires Records(data, count) && 10 * r + 10 <= len
    ensures r < count ==> Fitted(data, len)[10 * r] != 0 && 10 * r + 10 <= |data|
                          && Fitted(data, len)[10 * r..10 * r + 10] == data[10 * r..10 * r + 10]
    ensures r >= count ==> Fitted(data, len)[10 * r] == 0
  {
    if r < count {
      assert data[10 * r] != 0;
    }
  }

  /** The packets emitted for a count carry as many of the records as they have room for. */
  lemma CarriedByEmit(format: Format, data: seq<byte>, records: nat, count: byte)
    requires Records(data, records)
    ensures Carried(format, Emit(format, data, count))
         == if records <= 6 * PacketsFor(count) then data else data[..60 * PacketsFor(count)]
  {
    var room := PacketsFor(count);
    hide *;
    EmitSize(format, data, count);
    JoinOfEmit(format, data, count);
    CompactOfFitted(data, records, 60 * room, 6 * room);
    RecordsSize(data, records);
    assert Carried(format, Emit(format, data, count)) == Compact(Fitted(data, 60 * room), 6 * room) by {
      CarriedIs(format, Emit(format, data, count));
    }
    assert records == 6 * room ==> data[..60 * room] == data;
  }

  lemma EmitSize(format: Format, data: seq<byte>, count: byte)
    ensures AllPackets(Emit(format, data, count)) && |Emit(format, data, count)| == PacketsFor(count)
  {}

  lemma RecordsSize(data: seq<byte>, count: nat)
    requires Records(data, count)
    ensures |data| == 10 * count
  {}

  lemma CarriedIs(format: Format, ps: seq<seq<byte>>)
    requires AllPackets(ps)
    ensures Carried(format, ps) == Compact(JoinChunks(format, ps), 6 * |ps|)
  {}

  lemma {:induction false} CompactAppend(a: seq<byte>, n: nat, b: seq<byte>, m: nat)
    requires |a| == 10 * n && 10 * m <= |b|
    ensures Compact(a + b, n + m) == Compact(a, n) + Compact(b, m)
  {
    hide Compact;
    if m == 0 {
      CompactNone(b);
      CompactPrefix(a, b, n);
    } else {
      CompactAppend(a, n, b, m - 1);
      CompactSnoc(a + b, n + m - 1);
      CompactSnoc(b, m - 1);
      RecordBehind(a, b, m - 1, n);
    }
  }

  lemma {:induction false} CompactPrefix(a: seq<byte>, b: seq<byte>, n: nat)
    requires 10 * n <= |a|
    ensures Compact(a + b, n) == Compact(a, n)
  {
    hide Compact;
    if n == 0 {
      CompactNone(a);
      CompactNone(a + b);
    } else {
      CompactPrefix(a, b, n - 1);
      CompactSnoc(a + b, n - 1);
      CompactSnoc(a, n - 1);
      assert (a + b)[10 * (n - 1)..10 * (n - 1) + 10] == a[10 * (n - 1)..10 * (n - 1) + 10];
    }
  }

  lemma CarriedAppend(format: Format, a: seq<seq<byte>>, b: seq<seq<byte>>)
    requires AllPackets(a) && AllPackets(b)
    ensures AllPackets(a + b) && Carried(format, a + b) == Carried(format, a) + Carried(format, b)
  {
    hide Compact, JoinChunks;
    JoinAppend(format, a, b);
    CompactAppend(JoinChunks(format, a), 6 * |a|, JoinChunks(format, b), 6 * |b|);
  }

  // ------------------------------------------------------- one contact's records

  /** The records of one contact among the first n. */
  function RecordsOf(id: byte, data: seq<byte>, n: nat): seq<seq<byte>>
    requires 10 * n <= |data|
  {
    if n == 0 then []
    else RecordsOf(id, data, n - 1) + if data[10 * (n - 1) + 1] == id then [data[10 * (n - 1)..10 * n]] else []
  }

  lemma RecordsOfSnoc(id: byte, data: seq<byte>, n: nat)
    requires 10 * n + 10 <= |data|
    ensures RecordsOf(id, data, n + 1)
         == RecordsOf(id, data, n) + if data[10 * n + 1] == id then [data[10 * n..10 * n + 10]] else []
  {}

  /** Those that have a status and are not held back. */
  function Passed(own: seq<seq<byte>>, held: seq<bool>): seq<seq<byte>>
    requires |own| == |held| && forall j | 0 <= j < |own| :: |own[j]| == 10
  {
    if own == [] then []
    else
      var last := |own| - 1;
      Passed(own[..last], held[..last]) + if !held[last] && own[last][0] != 0 then [own[last]] else []
  }

  lemma PassedSnoc(own: seq<seq<byte>>, held: seq<bool>, record: seq<byte>, h: bool)
    requires |own| == |held| && (forall j | 0 <= j < |own| :: |own[j]| == 10) && |record| == 10
    ensures Passed(own + [record], held + [h])
         == Passed(own, held) + if !h && record[0] != 0 then [record] else []
  {
    assert (own + [record])[..|own|] == own && (held + [h])[..|own|] == held;
  }

  lemma RecordsOfPrefix(id: byte, a: seq<byte>, b: seq<byte>, n: nat)
    requires 10 * n <= |a|
    ensures RecordsOf(id, a + b, n) == RecordsOf(id, a, n)
  {
    if n > 0 {
      RecordsOfPrefix(id, a, b, n - 1);
      assert (a + b)[10 * (n - 1)..10 * n] == a[10 * (n - 1)..10 * n];
    }
  }

  ghost predicate SameContacts(ts: seq<Touch>, payload: seq<byte>) {
    |payload| == 10 * |ts| && forall r | 0 <= r < |ts| :: payload[10 * r + 1] == ts[r].id
  }

  /** Masking seen from one contact: of its records those get through that have a status
      and no mark. */
  lemma {:induction false} KeptOfContact(id: byte, ts: seq<Touch>, payload: seq<byte>, marks: seq<bool>, n: nat)
    requires SameContacts(ts, payload) && |marks| == |ts| && n <= |ts|
    ensures var own, held := RecordsOf(id, payload, n), MarksOf(id, ts[..n], marks[..n]);
      && |own| == |held| && (forall j | 0 <= j < |own| :: |own[j]| == 10)
      && |Kept(payload, marks, n)| % 10 == 0
      && RecordsOf(id, Kept(payload, marks, n), |Kept(payload, marks, n)| / 10) == Passed(own, held)
  {
    if n == 0 {
      assert RecordsOf(id, payload, 0) == [];
    } else {
      KeptOfContact(id, ts, payload, marks, n - 1);
      assert payload[10 * (n - 1) + 1] == ts[n - 1].id;
      hide *;
      KeptOfContactNext(id, ts, payload, marks, n - 1);
    }
  }

  lemma KeptOfContactNext(id: byte, ts: seq<Touch>, payload: seq<byte>, marks: seq<bool>, n: nat)
    requires |payload| == 10 * |ts| && |marks| == |ts| && n < |ts| && payload[10 * n + 1] == ts[n].id
    requires var own, held := RecordsOf(id, payload, n), MarksOf(id, ts[..n], marks[..n]);
      && |own| == |held| && (forall j | 0 <= j < |own| :: |own[j]| == 10)
      && |Kept(payload, marks, n)| % 10 == 0
      && RecordsOf(id, Kept(payload, marks, n), |Kept(payload, marks, n)| / 10) == Passed(own, held)
    ensures var own, held := RecordsOf(id, payload, n + 1), MarksOf(id, ts[..n + 1], marks[..n + 1]);
      && |own| == |held| && (forall j | 0 <= j < |own| :: |own[j]| == 10)
      && |Kept(payload, marks, n + 1)| % 10 == 0
      && RecordsOf(id, Kept(payload, marks, n + 1), |Kept(payload, marks, n + 1)| / 10) == Passed(own, held)
  {
    hide *;
    var record, kept := payload[10 * n..10 * n + 10], Kept(payload, marks, n);
    var own, held := RecordsOf(id, payload, n), MarksOf(id, ts[..n], marks[..n]);
    assert record[0] == payload[10 * n] && record[1] == payload[10 * n + 1];
    KeptSnoc(payload, marks, n);
    RecordsOfSnoc(id, payload, n);
    assert ts[..n + 1][..n] == ts[..n] && marks[..n + 1] == marks[..n] + [marks[n]];
    OfSnoc(id, ts[..n + 1], marks[..n], marks[n]);
    PassedSnoc(own, held, record, marks[n]);
    assert own + [] == own && kept + [] == kept && Passed(own, held) + [] == Passed(own, held);
    if !marks[n] && record[0] != 0 {
      RecordAdded(id, kept, record);
    }
  }

  lemma RecordAdded(id: byte, data: seq<byte>, record: seq<byte>)
    requires |data| % 10 == 0 && |record| == 10
    ensures |data + record| % 10 == 0
    ensures RecordsOf(id, data + record, |data + record| / 10)
         == RecordsOf(id, data, |data| / 10) + if record[1] == id then [record] else []
  {
    var n := |data| / 10;
    RecordsOfSnoc(id, data + record, n);
    RecordsOfPrefix(id, data, record, n);
    assert (data + record)[10 * n..10 * n + 10] == record;
  }
}
