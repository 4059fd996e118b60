/** The per-contact memory (`pointsToSource`) that decides which touch records may reach
    the source device: a contact that comes down in a mask zone is to be kept back for
    as long as it stays down. The two wire formats follow two sets of rules. */
module ContactMask {
  import opened Bytes

  const MAX_CONTACTS := 42

  const LG_DOWN := 0x01
  const LG_UP := 0x00
  const IST_DOWN := 0x07
  const IST_UP := 0x04

  datatype Rules = LgInCell | Ist

  /** preStatus and disableFlag of a contact. */
  datatype Contact = Contact(pre: byte, disabled: bool)

  const FRESH := Contact(0, false)

  /** One record: contact id, low nibble of the status byte, and whether the point lies
      in a zone in force at that moment. */
  datatype Touch = Touch(id: byte, status: byte, inside: bool)

  /** The contact after the record, and whether the record is masked. */
  function Step(rules: Rules, c: Contact, t: Touch): (Contact, bool) {
    match rules
    case LgInCell =>
      if t.status == LG_DOWN then
        if c.pre != LG_DOWN then (Contact(t.status, t.inside || c.disabled), t.inside)
        else (Contact(t.status, c.disabled), c.disabled)
      else (Contact(t.status, false), c.disabled && t.status == LG_UP)
    case Ist =>
      if t.status == IST_DOWN then
        if c.pre == 0x00 || c.pre == IST_UP then (Contact(t.status, t.inside || c.disabled), t.inside)
        else (Contact(t.status, c.disabled), c.pre == IST_DOWN && c.disabled)
      else if t.status == IST_UP then
        if c.pre == IST_DOWN then (Contact(t.status, false), c.disabled)
        else if c.pre == 0x00 || c.pre == IST_UP then (Contact(t.status, t.inside || c.disabled), t.inside)
        else (Contact(t.status, c.disabled), false)
      else (Contact(t.status, c.disabled), false)
  }

  function After(rules: Rules, c: Contact, ts: seq<Touch>): Contact {
    if ts == [] then c else Step(rules, After(rules, c, ts[..|ts| - 1]), ts[|ts| - 1]).0
  }

  /** Which of one contact's records are masked. */
  function Marks(rules: Rules, c: Contact, ts: seq<Touch>): (m: seq<bool>)
    ensures |m| == |ts|
  {
    if ts == [] then []
    else
      var front := ts[..|ts| - 1];
      Marks(rules, c, front) + [Step(rules, After(rules, c, front), ts[|ts| - 1]).1]
  }

  // ---------------------------------------------------- all contacts together

  ghost predicate IdsFit(ts: seq<Touch>, size: nat) {
    forall i | 0 <= i < |ts| :: ts[i].id < size
  }

  /** Under the LG rules a record with id 0 is no contact. */
  predicate Tracked(rules: Rules, id: byte) {
    rules == Ist || id > 0
  }

  function StepTable(rules: Rules, tab: seq<Contact>, t: Touch): (seq<Contact>, bool)
    requires t.id < |tab|
  {
    if Tracked(rules, t.id) then
      var (c, masked) := Step(rules, tab[t.id], t);
      (tab[t.id := c], masked)
    else (tab, false)
  }

  ghost function TableAfter(rules: Rules, tab: seq<Contact>, ts: seq<Touch>): (tab': seq<Contact>)
    requires IdsFit(ts, |tab|)
    ensures |tab'| == |tab|
  {
    if ts == [] then tab else StepTable(rules, TableAfter(rules, tab, ts[..|ts| - 1]), ts[|ts| - 1]).0
  }

  ghost function TableMarks(rules: Rules, tab: seq<Contact>, ts: seq<Touch>): (m: seq<bool>)
    requires IdsFit(ts, |tab|)
    ensures |m| == |ts|
  {
    if ts == [] then []
    else
      var front := ts[..|ts| - 1];
      TableMarks(rules, tab, front) + [StepTable(rules, TableAfter(rules, tab, front), ts[|ts| - 1]).1]
  }

  /** The records of one contact, and the marks on them. */
  function Of(id: byte, ts: seq<Touch>): seq<Touch> {
    if ts == [] then []
    else Of(id, ts[..|ts| - 1]) + if ts[|ts| - 1].id == id then [ts[|ts| - 1]] else []
  }

  function MarksOf(id: byte, ts: seq<Touch>, marks: seq<bool>): seq<bool>
    requires |marks| == |ts|
  {
    if ts == [] then []
    else MarksOf(id, ts[..|ts| - 1], marks[..|ts| - 1]) + if ts[|ts| - 1].id == id then [marks[|ts| - 1]] else []
  }

  /** Contacts do not interfere: whatever records are interleaved, each contact's memory
      and marks are those of its own records alone. */
  lemma {:induction false} Projection(rules: Rules, tab: seq<Contact>, ts: seq<Touch>, id: byte)
    requires IdsFit(ts, |tab|) && id < |tab| && Tracked(rules, id)
    ensures TableAfter(rules, tab, ts)[id] == After(rules, tab[id], Of(id, ts))
    ensures MarksOf(id, ts, TableMarks(rules, tab, ts)) == Marks(rules, tab[id], Of(id, ts))
  {
    if ts != [] {
      hide *;
      var front, t := ts[..|ts| - 1], ts[|ts| - 1];
      FrontFits(ts, |tab|);
      Projection(rules, tab, front, id);
      TableSnoc(rules, tab, ts);
      OfSnoc(id, ts, TableMarks(rules, tab, front), StepTable(rules, TableAfter(rules, tab, front), t).1);
      StepTableAt(rules, TableAfter(rules, tab, front), t, id);
      RunSnoc(rules, tab[id], Of(id, front), t);
    }
  }

  lemma FrontFits(ts: seq<Touch>, size: nat)
    requires IdsFit(ts, size) && ts != []
    ensures IdsFit(ts[..|ts| - 1], size) && ts[|ts| - 1].id < size
  {}

  lemma TableSnoc(rules: Rules, tab: seq<Contact>, ts: seq<Touch>)
    requires IdsFit(ts, |tab|) && ts != []
    ensures var front, t := ts[..|ts| - 1], ts[|ts| - 1];
      var (tab', m) := StepTable(rules, TableAfter(rules, tab, front), t);
      && TableAfter(rules, tab, ts) == tab'
      && TableMarks(rules, tab, ts) == TableMarks(rules, tab, front) + [m]
  {}

  lemma RunSnoc(rules: Rules, c: Contact, ts: seq<Touch>, t: Touch)
    ensures var (c', m) := Step(rules, After(rules, c, ts), t);
      After(rules, c, ts + [t]) == c' && Marks(rules, c, ts + [t]) == Marks(rules, c, ts) + [m]
  {
    assert (ts + [t])[..|ts|] == ts;
  }

  lemma OfSnoc(id: byte, ts: seq<Touch>, marks: seq<bool>, m: bool)
    requires ts != [] && |marks| == |ts| - 1
    ensures var front, t := ts[..|ts| - 1], ts[|ts| - 1];
      && Of(id, ts) == (if t.id == id then Of(id, front) + [t] else Of(id, front))
      && MarksOf(id, ts, marks + [m])
         == if t.id == id then MarksOf(id, front, marks) + [m] else MarksOf(id, front, marks)
  {
    assert (marks + [m])[..|marks|] == marks;
  }

  lemma StepTableAt(rules: Rules, tab: seq<Contact>, t: Touch, id: byte)
    requires t.id < |tab| && id < |tab| && Tracked(rules, id)
    ensures var (tab', m) := StepTable(rules, tab, t);
      && (t.id == id ==> (tab'[id], m) == Step(rules, tab[id], t))
      && (t.id != id ==> tab'[id] == tab[id])
  {}

  /** Where record r of the run stands among the records of its contact. */
  lemma {:induction false} OwnPosition(ts: seq<Touch>, marks: seq<bool>, r: nat)
    requires |marks| == |ts| && r < |ts|
    ensures var id, j := ts[r].id, |Of(ts[r].id, ts[..r])|;
      j < |Of(id, ts)| == |MarksOf(id, ts, marks)| && Of(id, ts)[j] == ts[r] && MarksOf(id, ts, marks)[j] == marks[r]
  {
    var id, last := ts[r].id, |ts| - 1;
    SameLength(id, ts, marks);
    SameLength(id, ts[..last], marks[..last]);
    if r < last {
      OwnPosition(ts[..last], marks[..last], r);
      assert ts[..last][..r] == ts[..r];
    }
  }

  lemma {:induction false} SameLength(id: byte, ts: seq<Touch>, marks: seq<bool>)
    requires |marks| == |ts|
    ensures |MarksOf(id, ts, marks)| == |Of(id, ts)|
  {
    if ts != [] {
      SameLength(id, ts[..|ts| - 1], marks[..|ts| - 1]);
    }
  }

  lemma {:induction false} RunAppend(rules: Rules, c: Contact, a: seq<Touch>, b: seq<Touch>)
    ensures After(rules, c, a + b) == After(rules, After(rules, c, a), b)
    ensures Marks(rules, c, a + b) == Marks(rules, c, a) + Marks(rules, After(rules, c, a), b)
  {
    if b == [] {
      assert a + b == a;
    } else {
      var front := b[..|b| - 1];
      assert (a + b)[..|a + b| - 1] == a + front;
      RunAppend(rules, c, a, front);
    }
  }

  lemma {:induction false} TableAppend(rules: Rules, tab: seq<Contact>, a: seq<Touch>, b: seq<Touch>)
    requires IdsFit(a, |tab|) && IdsFit(b, |tab|)
    ensures IdsFit(a + b, |tab|)
    ensures TableAfter(rules, tab, a + b) == TableAfter(rules, TableAfter(rules, tab, a), b)
    ensures TableMarks(rules, tab, a + b) == TableMarks(rules, tab, a) + TableMarks(rules, TableAfter(rules, tab, a), b)
  {
    if b == [] {
      assert a + b == a;
    } else {
      hide StepTable;
      var front := b[..|b| - 1];
      assert (a + b)[..|a + b| - 1] == a + front;
      TableAppend(rules, tab, a, front);
    }
  }

  // ------------------------------------------------------ strokes, LG rules

  /** disableFlag is only ever set on a contact that is down. */
  predicate LgConsistent(c: Contact) {
    c.disabled ==> c.pre == LG_DOWN
  }

  lemma {:induction false} LgStaysConsistent(c: Contact, ts: seq<Touch>)
    requires LgConsistent(c)
    ensures LgConsistent(After(LgInCell, c, ts))
  {
    if ts != [] {
      LgStaysConsistent(c, ts[..|ts| - 1]);
    }
  }

  /** The first record of the run of DOWN records that record j belongs to. */
  function StrokeStart(ts: seq<Touch>, j: nat): (a: nat)
    requires j < |ts| && ts[j].status == LG_DOWN
    ensures a <= j && forall i | a <= i <= j :: ts[i].status == LG_DOWN
    ensures a == 0 || ts[a - 1].status != LG_DOWN
  {
    if j > 0 && ts[j - 1].status == LG_DOWN then StrokeStart(ts, j - 1) else j
  }

  /** Record j is down and its stroke began in a zone. */
  predicate StrokeMasked(ts: seq<Touch>, j: nat) {
    j < |ts| && ts[j].status == LG_DOWN && ts[StrokeStart(ts, j)].inside
  }

  lemma {:induction false} LgStrokeFrom(c: Contact, ts: seq<Touch>, a: nat)
    requires LgConsistent(c) && a < |ts| && forall i | a <= i < |ts| :: ts[i].status == LG_DOWN
    requires (if a == 0 then c.pre else ts[a - 1].status) != LG_DOWN
    ensures After(LgInCell, c, ts) == Contact(LG_DOWN, ts[a].inside)
    ensures Marks(LgInCell, c, ts)[|ts| - 1] == ts[a].inside
  {
    var front := ts[..|ts| - 1];
    if a < |front| {
      LgStrokeFrom(c, front, a);
    } else {
      LgStaysConsistent(c, front);
      assert After(LgInCell, c, front).pre != LG_DOWN;
    }
  }

  lemma {:induction false} MarksPrefix(rules: Rules, c: Contact, ts: seq<Touch>, k: nat)
    requires k <= |ts|
    ensures Marks(rules, c, ts)[..k] == Marks(rules, c, ts[..k])
  {
    RunAppend(rules, c, ts[..k], ts[k..]);
    assert ts == ts[..k] + ts[k..];
  }

  /** All or nothing: a DOWN record is masked if and only if the first point of its
      stroke lay in a zone in force when it came down. */
  lemma LgStroke(c: Contact, ts: seq<Touch>, j: nat)
    requires LgConsistent(c) && c.pre != LG_DOWN && j < |ts| && ts[j].status == LG_DOWN
    ensures Marks(LgInCell, c, ts)[j] == StrokeMasked(ts, j)
  {
    hide Step, After, Marks;
    var cut := ts[..j + 1];
    LgStrokeFrom(c, cut, StrokeStart(ts, j));
    MarksPrefix(LgInCell, c, ts, j + 1);
    assert Marks(LgInCell, c, ts)[j] == Marks(LgInCell, c, cut)[j];
  }

  // --------------------------------------------------- strokes by position in a run

  /** How many records of the contact come before position q of the run. */
  function Rank(id: byte, ts: seq<Touch>, q: nat): nat
    requires q <= |ts|
  {
    |Of(id, ts[..q])|
  }

  lemma RankNext(id: byte, ts: seq<Touch>, q: nat)
    requires q < |ts|
    ensures Rank(id, ts, q + 1) == Rank(id, ts, q) + if ts[q].id == id then 1 else 0
  {
    assert ts[..q + 1][..q] == ts[..q];
  }

  lemma {:induction false} RankGrows(id: byte, ts: seq<Touch>, p: nat, q: nat)
    requires p <= q <= |ts|
    ensures Rank(id, ts, p) <= Rank(id, ts, q)
    ensures p < q && ts[p].id == id ==> Rank(id, ts, p) < Rank(id, ts, q)
    decreases q
  {
    hide Rank;
    if p < q {
      RankNext(id, ts, q - 1);
      RankGrows(id, ts, p, q - 1);
    }
  }

  lemma RankedAt(id: byte, ts: seq<Touch>, q: nat)
    requires q < |ts| && ts[q].id == id
    ensures Rank(id, ts, q) < |Of(id, ts)| && Of(id, ts)[Rank(id, ts, q)] == ts[q]
  {
    OwnPosition(ts, seq(|ts|, _ => false), q);
  }

  /** Where the record of a given rank stands in the run. */
  lemma {:induction false} RankFound(id: byte, ts: seq<Touch>, k: nat) returns (q: nat)
    requires k < |Of(id, ts)|
    ensures q < |ts| && ts[q].id == id && Rank(id, ts, q) == k && Of(id, ts)[k] == ts[q]
  {
    var last := |ts| - 1;
    if k < |Of(id, ts[..last])| {
      q := RankFound(id, ts[..last], k);
      assert ts[..last][..q] == ts[..q];
    } else {
      q := last;
    }
    RankedAt(id, ts, q);
  }

  /** Position b begins the stroke that position r belongs to: from b to r the contact is only
      down, and its record before b, if there is one, is not. */
  ghost predicate Begins(ts: seq<Touch>, b: nat, r: nat)
    requires r < |ts|
  {
    && b <= r && ts[b].id == ts[r].id
    && (forall q | b <= q <= r && ts[q].id == ts[r].id :: ts[q].status == 0x01)
    && ((forall q | 0 <= q < b :: ts[q].id != ts[r].id)
        || exists p | 0 <= p < b :: ts[p].id == ts[r].id && ts[p].status != 0x01
                                    && forall q | p < q < b :: ts[q].id != ts[r].id)
  }

  lemma BeginsOnce(ts: seq<Touch>, b1: nat, b2: nat, r: nat)
    requires r < |ts| && Begins(ts, b1, r) && Begins(ts, b2, r)
    ensures b1 == b2
  {}

  /** Every down record belongs to a stroke, and the beginning of that stroke is the one found
      among the contact's own records. */
  lemma StrokeBegins(ts: seq<Touch>, r: nat) returns (b: nat)
    requires r < |ts| && ts[r].status == LG_DOWN
    ensures b <= r && Begins(ts, b, r)
    ensures var own, j := Of(ts[r].id, ts), Rank(ts[r].id, ts, r);
      j < |own| && StrokeMasked(own, j) == ts[b].inside
  {
    hide Of, Rank, Begins;
    var id := ts[r].id;
    var own, j := Of(id, ts), Rank(id, ts, r);
    RankedAt(id, ts, r);
    var a := StrokeStart(own, j);
    b := RankFound(id, ts, a);
    if r < b {
      RankGrows(id, ts, r, b);
    }
    BeginsAt(ts, b, r);
  }

  lemma BeginsAt(ts: seq<Touch>, b: nat, r: nat)
    requires b <= r < |ts| && ts[b].id == ts[r].id
    requires var id := ts[r].id; var own, j, a := Of(id, ts), Rank(id, ts, r), Rank(id, ts, b);
      && a <= j < |own| && (forall i | a <= i <= j :: own[i].status == LG_DOWN)
      && (a == 0 || own[a - 1].status != LG_DOWN)
    ensures Begins(ts, b, r)
  {
    hide Of, Rank;
    var id := ts[r].id;
    var a := Rank(id, ts, b);
    forall q | b <= q <= r && ts[q].id == id ensures ts[q].status == 0x01 {
      RankedAt(id, ts, q);
      RankGrows(id, ts, b, q);
      RankGrows(id, ts, q, r);
    }
    if a == 0 {
      forall q | 0 <= q < b ensures ts[q].id != id {
        RankGrows(id, ts, q, b);
      }
    } else {
      var p := RankFound(id, ts, a - 1);
      if b <= p {
        RankGrows(id, ts, b, p);
      }
      forall q | p < q < b ensures ts[q].id != id {
        RankNext(id, ts, p);
        RankGrows(id, ts, p + 1, q);
        RankGrows(id, ts, q, b);
      }
    }
  }

  ghost predicate FreshTable(tab: seq<Contact>) {
    |tab| == MAX_CONTACTS && forall i | 0 <= i < |tab| :: tab[i] == FRESH
  }

  /** LG strokes over whole runs: from a cleared table, any interleaving of contacts and
      any change of zones on the way. */
  lemma LgStrokesAreAllOrNothing(tab: seq<Contact>, ts: seq<Touch>, id: byte, j: nat)
    requires FreshTable(tab) && IdsFit(ts, MAX_CONTACTS) && 0 < id < MAX_CONTACTS
    requires j < |Of(id, ts)| && Of(id, ts)[j].status == LG_DOWN
    ensures var marks := MarksOf(id, ts, TableMarks(LgInCell, tab, ts));
      |marks| == |Of(id, ts)| && marks[j] == StrokeMasked(Of(id, ts), j)
  {
    Projection(LgInCell, tab, ts, id);
    LgStroke(FRESH, Of(id, ts), j);
  }

  // ------------------------------------------------- memory and history, IST rules

  /** The status of the contact's record before the k-th one. */
  function Before(c: Contact, ts: seq<Touch>, k: nat): byte
    requires k < |ts|
  {
    if k == 0 then c.pre else ts[k - 1].status
  }

  /** A point in a zone, down or dropped, of a contact that was up. */
  predicate ComesInZone(c: Contact, ts: seq<Touch>, k: nat) {
    && k < |ts| && ts[k].inside && (ts[k].status == 0x07 || ts[k].status == 0x04)
    && (Before(c, ts, k) == 0x00 || Before(c, ts, k) == 0x04)
  }

  predicate Lifts(c: Contact, ts: seq<Touch>, k: nat) {
    k < |ts| && ts[k].status == 0x04 && Before(c, ts, k) == 0x07
  }

  /** The contact came in a zone, or was flagged from the start, and has not lifted since. */
  ghost predicate KeptBack(c: Contact, ts: seq<Touch>) {
    || (c.disabled && forall k | 0 <= k < |ts| :: !Lifts(c, ts, k))
    || exists k | 0 <= k < |ts| :: ComesInZone(c, ts, k) && forall m | k < m < |ts| :: !Lifts(c, ts, m)
  }

  lemma KeptBackSnoc(c: Contact, ts: seq<Touch>)
    requires ts != []
    ensures var last := |ts| - 1;
      KeptBack(c, ts) <==> !Lifts(c, ts, last) && (ComesInZone(c, ts, last) || KeptBack(c, ts[..last]))
  {
    var last := |ts| - 1;
    var front := ts[..last];
    assert forall k | 0 <= k < last :: Lifts(c, front, k) == Lifts(c, ts, k);
    assert forall k | 0 <= k < last :: ComesInZone(c, front, k) == ComesInZone(c, ts, k);
    hide Lifts, ComesInZone;
    if KeptBack(c, front) && !Lifts(c, ts, last) && !c.disabled {
      var k :| 0 <= k < last && ComesInZone(c, front, k) && forall m | k < m < last :: !Lifts(c, front, m);
      assert ComesInZone(c, ts, k);
    }
    LifterIsOut(c, ts);
  }

  lemma LifterIsOut(c: Contact, ts: seq<Touch>)
    requires ts != []
    ensures ComesInZone(c, ts, |ts| - 1) ==> !Lifts(c, ts, |ts| - 1)
  {}

  /** IST memory as a function of the contact's history, record by record. The status kept is
      that of the last record and the flag says whether the contact is kept back. A down (0x07)
      or lifting (0x04) record is masked by its own point behind 0x00 or 0x04, by the flag
      behind 0x07 and not at all behind anything else; no other record is masked. */
  lemma {:induction false} IstMemory(c: Contact, ts: seq<Touch>)
    ensures After(Ist, c, ts) == Contact(if ts == [] then c.pre else ts[|ts| - 1].status, KeptBack(c, ts))
    ensures forall k | 0 <= k < |ts| ::
      Marks(Ist, c, ts)[k] == (
        && (ts[k].status == 0x07 || ts[k].status == 0x04)
        && (if Before(c, ts, k) == 0x00 || Before(c, ts, k) == 0x04 then ts[k].inside
            else Before(c, ts, k) == 0x07 && KeptBack(c, ts[..k])))
  {
    hide KeptBack;
    if ts == [] {
      NothingYet(c);
    } else {
      var front := ts[..|ts| - 1];
      IstMemory(c, front);
      KeptBackSnoc(c, ts);
      forall k | 0 <= k < |front| ensures front[..k] == ts[..k] && Before(c, front, k) == Before(c, ts, k) {}
    }
  }

  lemma NothingYet(c: Contact)
    ensures KeptBack(c, []) == c.disabled
  {}

  // ----------------------------------------------------- lives, IST rules

  /** A contact's life: down records, then the lifting one. */
  ghost predicate Life(ts: seq<Touch>) {
    && |ts| >= 2 && ts[|ts| - 1].status == IST_UP
    && forall i | 0 <= i < |ts| - 1 :: ts[i].status == IST_DOWN
  }

  ghost predicate Ready(c: Contact) {
    c.pre == 0x00 || c.pre == IST_UP
  }

  /** The flag once a first down record has been judged: only a contact that is ready has
      its point looked at. */
  ghost predicate FlagAfterFirst(c: Contact, first: Touch) {
    c.disabled || (Ready(c) && first.inside)
  }

  ghost predicate FirstMasked(c: Contact, first: Touch) {
    if Ready(c) then first.inside else c.pre == IST_DOWN && c.disabled
  }

  lemma {:induction false} IstDowns(c: Contact, ts: seq<Touch>)
    requires ts != [] && forall i | 0 <= i < |ts| :: ts[i].status == IST_DOWN
    ensures After(Ist, c, ts) == Contact(IST_DOWN, FlagAfterFirst(c, ts[0]))
    ensures var m := Marks(Ist, c, ts);
      m[0] == FirstMasked(c, ts[0]) && forall i | 1 <= i < |ts| :: m[i] == FlagAfterFirst(c, ts[0])
  {
    var front := ts[..|ts| - 1];
    if front == [] {
      assert After(Ist, c, front) == c;
    } else {
      IstDowns(c, front);
    }
  }

  /** What a life looks like afterwards, for any contact before it: the first record is judged
      by its own point if the contact was up, by the flag if it was down, and not at all
      otherwise; the later ones by the flag that leaves; the flag ends clear. */
  lemma IstLife(c: Contact, ts: seq<Touch>)
    requires Life(ts)
    ensures After(Ist, c, ts) == Contact(IST_UP, false)
    ensures var m := Marks(Ist, c, ts);
      m[0] == FirstMasked(c, ts[0]) && forall i | 1 <= i < |ts| :: m[i] == FlagAfterFirst(c, ts[0])
  {
    IstDowns(c, ts[..|ts| - 1]);
  }

  ghost predicate Uniform(m: seq<bool>, v: bool) {
    forall i | 0 <= i < |m| :: m[i] == v
  }

  /** The contact memory lets the first point of a life decide. */
  ghost predicate FirstPointDecides(c: Contact, first: Touch) {
    if Ready(c) then !c.disabled || first.inside
    else if c.pre == IST_DOWN then c.disabled == first.inside
    else !c.disabled && !first.inside
  }

  /** A life is masked as a whole, as its first point decides, if and only if the contact was
      up before it and the flag was clear or that point lies in a zone; or it was down and the
      flag agrees with the point; or its status was any other, the flag was clear and the point
      lies in no zone. */
  lemma IstLifeIsUniformExactlyWhen(c: Contact, ts: seq<Touch>)
    requires Life(ts)
    ensures Uniform(Marks(Ist, c, ts), ts[0].inside) <==> FirstPointDecides(c, ts[0])
    ensures !After(Ist, c, ts).disabled
  {
    IstLife(c, ts);
    var m := Marks(Ist, c, ts);
    assert Uniform(m, ts[0].inside) ==> m[0] == ts[0].inside && m[1] == ts[0].inside;
  }

  /** The same for a life anywhere in a run, among any other records and contacts. */
  lemma IstLifeInRun(tab: seq<Contact>, ts: seq<Touch>, id: byte, before: seq<Touch>, life: seq<Touch>, after: seq<Touch>)
    requires IdsFit(ts, |tab|) && id < |tab| && Life(life) && Of(id, ts) == before + life + after
    ensures var marks, c := MarksOf(id, ts, TableMarks(Ist, tab, ts)), After(Ist, tab[id], before);
      && |marks| == |before + life + after|
      && (Uniform(marks[|before|..|before| + |life|], life[0].inside) <==> FirstPointDecides(c, life[0]))
  {
    var c := After(Ist, tab[id], before);
    Projection(Ist, tab, ts, id);
    RunAppend(Ist, tab[id], before + life, after);
    RunAppend(Ist, tab[id], before, life);
    IstLifeIsUniformExactlyWhen(c, life);
    hide Marks, Uniform, FirstPointDecides, After;
    assert MarksOf(id, ts, TableMarks(Ist, tab, ts))[|before|..|before| + |life|] == Marks(Ist, c, life);
  }

  /** The flag is not always clear: a point that drops (0x04) in a zone and comes down
      outside it has its first down record forwarded and the rest of its life masked, the
      lifting record included. */
  lemma DropInZoneSplitsALife()
    ensures Marks(Ist, FRESH, [Touch(1, IST_UP, true), Touch(1, IST_DOWN, false),
                              Touch(1, IST_DOWN, false), Touch(1, IST_UP, false)])
         == [true, false, true, true]
  {
    var drop := Touch(1, IST_UP, true);
    var life := [Touch(1, IST_DOWN, false), Touch(1, IST_DOWN, false), Touch(1, IST_UP, false)];
    assert [drop][..0] == [];
    assert After(Ist, FRESH, [drop]) == Contact(IST_UP, true) && Marks(Ist, FRESH, [drop]) == [true];
    RunAppend(Ist, FRESH, [drop], life);
    IstLife(Contact(IST_UP, true), life);
    assert [drop] + life == [drop, life[0], life[1], life[2]];
  }

  /** A contact whose status was none of those the rules know is not judged when it comes
      down: a life that begins in a zone is then forwarded as a whole. */
  lemma UnknownStatusUnmasksALife()
    ensures Marks(Ist, FRESH, [Touch(1, 0x02, false), Touch(1, IST_DOWN, true),
                              Touch(1, IST_DOWN, true), Touch(1, IST_UP, true)])
         == [false, false, false, false]
  {
    var odd := Touch(1, 0x02, false);
    var life := [Touch(1, IST_DOWN, true), Touch(1, IST_DOWN, true), Touch(1, IST_UP, true)];
    assert [odd][..0] == [];
    assert After(Ist, FRESH, [odd]) == Contact(0x02, false) && Marks(Ist, FRESH, [odd]) == [false];
    RunAppend(Ist, FRESH, [odd], life);
    IstLife(Contact(0x02, false), life);
    assert [odd] + life == [odd, life[0], life[1], life[2]];
  }

  /** A contact that keeps to the protocol: whole lives and records without a touch. */
  ghost predicate Proper(parts: seq<seq<Touch>>) {
    forall i | 0 <= i < |parts| :: Life(parts[i]) || (|parts[i]| == 1 && parts[i][0].status == 0x00)
  }

  function Joined(parts: seq<seq<Touch>>): seq<Touch> {
    if parts == [] then [] else parts[0] + Joined(parts[1..])
  }

  /** Every record of a life is judged by the life's first point. */
  function Judged(parts: seq<seq<Touch>>): seq<bool> {
    if parts == [] then []
    else
      seq(|parts[0]|, _ => parts[0] != [] && parts[0][0].status == IST_DOWN && parts[0][0].inside)
        + Judged(parts[1..])
  }

  lemma {:induction false} IstProperRun(c: Contact, parts: seq<seq<Touch>>)
    requires Proper(parts) && Ready(c) && !c.disabled
    ensures Marks(Ist, c, Joined(parts)) == Judged(parts)
    ensures Ready(After(Ist, c, Joined(parts))) && !After(Ist, c, Joined(parts)).disabled
    decreases |parts|
  {
    if parts != [] {
      var p := parts[0];
      RunAppend(Ist, c, p, Joined(parts[1..]));
      if Life(p) {
        IstLife(c, p);
      } else {
        assert p[..0] == [];
      }
      assert Marks(Ist, c, p) == seq(|p|, _ => p != [] && p[0].status == IST_DOWN && p[0].inside);
      IstProperRun(After(Ist, c, p), parts[1..]);
    }
  }

  /** IST lives over whole runs: a contact whose own records are whole lives is masked
      life by life, whatever else is interleaved with it. */
  lemma IstLivesAreAllOrNothing(tab: seq<Contact>, ts: seq<Touch>, id: byte, parts: seq<seq<Touch>>)
    requires FreshTable(tab) && IdsFit(ts, MAX_CONTACTS) && id < MAX_CONTACTS
    requires Proper(parts) && Of(id, ts) == Joined(parts)
    ensures MarksOf(id, ts, TableMarks(Ist, tab, ts)) == Judged(parts)
    ensures !TableAfter(Ist, tab, ts)[id].disabled
  {
    Projection(Ist, tab, ts, id);
    IstProperRun(FRESH, parts);
  }

  // ----------------------------------------------------------- no zones at all

  ghost predicate AllClear(tab: seq<Contact>) {
    forall i | 0 <= i < |tab| :: !tab[i].disabled
  }

  /** With no flag set and no point in a zone nothing is masked and no flag gets set. */
  lemma {:induction false} NothingMasked(rules: Rules, tab: seq<Contact>, ts: seq<Touch>)
    requires IdsFit(ts, |tab|) && AllClear(tab) && forall i | 0 <= i < |ts| :: !ts[i].inside
    ensures AllClear(TableAfter(rules, tab, ts))
    ensures TableMarks(rules, tab, ts) == seq(|ts|, _ => false)
  {
    if ts != [] {
      NothingMasked(rules, tab, ts[..|ts| - 1]);
    }
  }
}
