/** The loop that walks a HID report descriptor looking for a touch-screen usage.
    Short items follow section 6.2.2.2 of the Device Class Definition for HID 1.11:
    a prefix byte (tag, type, size code) and 0, 1, 2 or 4 data bytes. */
module HidDescriptor {
  import opened Bytes

  const TYPE_GLOBAL := 1
  const TYPE_LOCAL := 2
  const TAG_USAGE_PAGE := 0
  const TAG_USAGE := 0
  const PAGE_DIGITIZER := 0x0D
  const USAGE_TOUCH_SCREEN := 0x04
  const USAGE_FINGER := 0x22

  // ---------------------------------------------------------------- items

  datatype Item = Item(tag: nat, kind: nat, data: seq<byte>) {
    predicate Valid() {
      tag < 16 && kind < 4 && |data| in {0, 1, 2, 4}
    }

    function Prefix(): byte
      requires Valid()
    {
      tag * 16 + kind * 4 + if |data| == 4 then 3 else |data|
    }

    function Encode(): seq<byte>
      requires Valid()
    {
      [Prefix()] + data
    }

    /** The walker evaluates one and two byte values only. */
    predicate Evaluated() {
      |data| == 1 || |data| == 2
    }

    function Value(): u16
      requires Evaluated()
    {
      if |data| == 1 then data[0] else data[0] as int + 0x100 * data[1] as int
    }

    /** The number the data bytes stand for; none stand for zero (section 6.2.2.2). */
    function Number(): nat
      requires Valid()
    {
      if |data| == 0 then 0
      else if |data| == 1 then data[0]
      else if |data| == 2 then data[0] as int + 0x100 * data[1] as int
      else data[0] as int + 0x100 * data[1] as int + 0x1_0000 * data[2] as int + 0x100_0000 * data[3] as int
    }

    predicate Push() {
      kind == 1 && tag == 10
    }

    predicate Pop() {
      kind == 1 && tag == 11
    }

    predicate UsagePage() {
      kind == 1 && tag == 0
    }

    predicate Usage() {
      kind == 2 && tag == 0
    }
  }

  ghost predicate ValidItems(items: seq<Item>) {
    forall it | it in items :: it.Valid()
  }

  function EncodeAll(items: seq<Item>): seq<byte>
    requires ValidItems(items)
  {
    if items == [] then [] else items[0].Encode() + EncodeAll(items[1..])
  }

  // ------------------------------------------- what the walker goes by

  /** The usage page set by the most recent evaluated Usage Page before item k. */
  function PageBefore(items: seq<Item>, k: nat): int
    requires k <= |items|
  {
    if k == 0 then 0
    else if items[k - 1].UsagePage() && items[k - 1].Evaluated() then items[k - 1].Value()
    else PageBefore(items, k - 1)
  }

  /** The usage set by the most recent evaluated Usage before item k. */
  function UsageBefore(items: seq<Item>, k: nat): int
    requires k <= |items|
  {
    if k == 0 then 0
    else if items[k - 1].Usage() && items[k - 1].Evaluated() then items[k - 1].Value()
    else UsageBefore(items, k - 1)
  }

  predicate TouchUsage(usage: int) {
    usage == USAGE_TOUCH_SCREEN || usage == USAGE_FINGER
  }

  /** Item k makes the walker stop: a Usage item met with the digitizer page in force
      and a touch usage remembered, whether this item or an earlier one gave it. */
  predicate Selects(items: seq<Item>, k: nat)
    requires k < |items|
  {
    items[k].Usage() && PageBefore(items, k) == 0x0D && UsageBefore(items, k + 1) in {0x04, 0x22}
  }

  // ------------------------------------------- what the descriptor says

  /** The number in the most recent Usage Page item before item k, whatever its size. */
  function LatestPage(items: seq<Item>, k: nat): nat
    requires k <= |items| && ValidItems(items)
  {
    if k == 0 then 0
    else if items[k - 1].UsagePage() then items[k - 1].Number()
    else LatestPage(items, k - 1)
  }

  /** The usage pages pushed and the one in force before item k (section 6.2.2.7). */
  function Pages(items: seq<Item>, k: nat): (pages: seq<nat>)
    requires k <= |items| && ValidItems(items)
    ensures pages != []
  {
    if k == 0 then [0]
    else
      var pages, it := Pages(items, k - 1), items[k - 1];
      var top := |pages| - 1;
      if it.UsagePage() then pages[top := it.Number()]
      else if it.Push() then pages + [pages[top]]
      else if it.Pop() && top > 0 then pages[..top]
      else pages
  }

  function PageInForce(items: seq<Item>, k: nat): nat
    requires k <= |items| && ValidItems(items)
  {
    var pages := Pages(items, k);
    pages[|pages| - 1]
  }

  /** Item k declares a touch usage under the given page; a Usage item of four bytes carries
      its own page in the upper two (section 6.2.2.8). */
  predicate DeclaresUnder(it: Item, page: nat)
    requires it.Valid()
  {
    && it.Usage()
    && if |it.data| == 4 then
         it.data[2] == 0x0D && it.data[3] == 0 && it.data[0] in {0x04, 0x22} && it.data[1] == 0
       else page == 0x0D && it.Number() in {0x04, 0x22}
  }

  predicate Declares(items: seq<Item>, k: nat)
    requires k < |items| && ValidItems(items)
  {
    items[k] in items && DeclaresUnder(items[k], PageInForce(items, k))
  }

  function OffsetOf(items: seq<Item>, k: nat): nat
    requires ValidItems(items) && k <= |items|
  {
    |EncodeAll(items[..k])|
  }

  // --------------------------------------------------------- the byte walk

  function DataSize(prefix: byte): nat {
    if prefix % 4 == 3 then 4 else prefix % 4
  }

  function Kind(prefix: byte): nat {
    prefix / 4 % 4
  }

  function Tag(prefix: byte): nat {
    prefix / 16
  }

  /** Usage Page and Usage items are the only ones whose data the walker reads. */
  predicate Read(prefix: byte) {
    || (Kind(prefix) == TYPE_GLOBAL && Tag(prefix) == TAG_USAGE_PAGE)
    || (Kind(prefix) == TYPE_LOCAL && Tag(prefix) == TAG_USAGE)
  }

  /** The walker reads `desc[i + 1]` and `desc[i + 2]` without looking at `len`: the data of
      every item it reads from offset i on must lie within the array. */
  predicate ReadsInBounds(desc: seq<byte>, len: int, i: nat)
    decreases len - i
  {
    i < len ==>
      && i < |desc|
      && (Read(desc[i]) && DataSize(desc[i]) < 4 ==> i + DataSize(desc[i]) < |desc|)
      && ReadsInBounds(desc, len, i + 1 + DataSize(desc[i]))
  }

  function NewValue(desc: seq<byte>, i: nat, was: int): int
    requires i < |desc| && (DataSize(desc[i]) < 4 ==> i + DataSize(desc[i]) < |desc|)
  {
    if DataSize(desc[i]) == 1 then desc[i + 1]
    else if DataSize(desc[i]) == 2 then Word(desc[i + 1], desc[i + 2])
    else was
  }

  /** The offset at which the walk stops, starting from offset i. */
  function WalkFrom(desc: seq<byte>, len: int, i: nat, page: int, usage: int): Option<nat>
    requires ReadsInBounds(desc, len, i)
    decreases len - i
  {
    if i >= len then None
    else
      var kind, tag := Kind(desc[i]), Tag(desc[i]);
      var page' := if kind == TYPE_GLOBAL && tag == TAG_USAGE_PAGE then NewValue(desc, i, page) else page;
      var usage' := if kind == TYPE_LOCAL && tag == TAG_USAGE then NewValue(desc, i, usage) else usage;
      if kind == TYPE_LOCAL && tag == TAG_USAGE && page' == PAGE_DIGITIZER && TouchUsage(usage') then Some(i)
      else WalkFrom(desc, len, i + 1 + DataSize(desc[i]), page', usage')
  }

  /** setTouchScreenReportDescAndFeature after the descriptor has been read (`len` is -1
      when that failed); `writesOk` is what the three gadget file writes return. Yields
      the function's result and the value it gives to the descriptor length property. */
  method SetTouchScreenReportDescAndFeature(desc: array<byte>, len: int, writesOk: bool)
    returns (bRet: bool, property: int, at: Option<nat>)
    requires ReadsInBounds(desc[..], len, 0)
    ensures at == WalkFrom(desc[..], len, 0, 0, 0)
    ensures bRet == (at.Some? && writesOk)
    ensures property == if bRet then len else -1
  {
    var i, usagePage, usage := 0, 0, 0;
    at := None;
    bRet := false;
    while i < len
      invariant 0 <= i && ReadsInBounds(desc[..], len, i)
      invariant WalkFrom(desc[..], len, 0, 0, 0) == WalkFrom(desc[..], len, i, usagePage, usage)
      decreases len - i
    {
      var item := desc[i];
      var tag, kind, size := item / 16, item / 4 % 4, item % 4;
      var dataSize := if size == 0 then 0 else if size == 1 then 1 else if size == 2 then 2 else 4;
      if kind == TYPE_GLOBAL && tag == TAG_USAGE_PAGE {
        if dataSize == 1 {
          usagePage := desc[i + 1];
        } else if dataSize == 2 {
          usagePage := Word(desc[i + 1], desc[i + 2]);
        }
      }
      if kind == TYPE_LOCAL && tag == TAG_USAGE {
        if dataSize == 1 {
          usage := desc[i + 1];
        } else if dataSize == 2 {
          usage := Word(desc[i + 1], desc[i + 2]);
        }
        if usagePage == PAGE_DIGITIZER && (usage == USAGE_TOUCH_SCREEN || usage == USAGE_FINGER) {
          at := Some(i);
          bRet := writesOk;
          property := if bRet then len else -1;
          return;
        }
      }
      i := i + 1 + dataSize;
    }
    property := -1;
  }

  // ------------------------------------------------------------ correctness

  lemma PrefixFields(it: Item)
    requires it.Valid()
    ensures Tag(it.Prefix()) == it.tag && Kind(it.Prefix()) == it.kind && DataSize(it.Prefix()) == |it.data|
  {}

  lemma {:induction false} EncodeAppend(a: seq<Item>, b: seq<Item>)
    requires ValidItems(a) && ValidItems(b)
    ensures ValidItems(a + b) && EncodeAll(a + b) == EncodeAll(a) + EncodeAll(b)
  {
    ValidAppend(a, b);
    hide *;
    if a == [] {
      assert a + b == b;
      EncodeNone(a);
    } else {
      assert (a + b)[1..] == a[1..] + b;
      EncodeCons(a);
      EncodeCons(a + b);
      EncodeAppend(a[1..], b);
    }
  }

  lemma ValidAppend(a: seq<Item>, b: seq<Item>)
    requires ValidItems(a) && ValidItems(b)
    ensures ValidItems(a + b)
  {}

  lemma EncodeNone(items: seq<Item>)
    requires items == []
    ensures ValidItems(items) && EncodeAll(items) == []
  {}

  lemma EncodeCons(items: seq<Item>)
    requires ValidItems(items) && items != []
    ensures items[0].Valid() && ValidItems(items[1..])
    ensures EncodeAll(items) == items[0].Encode() + EncodeAll(items[1..])
  {}

  lemma EncodeSplit(items: seq<Item>, k: nat)
    requires ValidItems(items) && k < |items|
    ensures EncodeAll(items) == EncodeAll(items[..k]) + items[k].Encode() + EncodeAll(items[k + 1..])
    ensures OffsetOf(items, k + 1) == OffsetOf(items, k) + 1 + |items[k].data|
  {
    assert EncodeAll([items[k]]) == items[k].Encode() by {
      assert [items[k]][1..] == [];
    }
    EncodeAppend(items[..k], [items[k]]);
    assert items[..k + 1] == items[..k] + [items[k]];
    EncodeAppend(items[..k + 1], items[k + 1..]);
    assert items == items[..k + 1] + items[k + 1..];
  }

  /** `at` is the offset of the first item from item k on that selects, or none does. */
  ghost predicate FirstFrom(items: seq<Item>, at: Option<nat>, k: nat)
    requires ValidItems(items)
  {
    match at
    case None => forall j | k <= j < |items| :: !Selects(items, j)
    case Some(o) => exists j | k <= j < |items| ::
      o == OffsetOf(items, j) && Selects(items, j) && forall h | k <= h < j :: !Selects(items, h)
  }

  lemma FirstBack(items: seq<Item>, at: Option<nat>, k: nat)
    requires ValidItems(items) && k < |items|
    ensures Selects(items, k) ==> FirstFrom(items, Some(OffsetOf(items, k)), k)
    ensures !Selects(items, k) && FirstFrom(items, at, k + 1) ==> FirstFrom(items, at, k)
  {
    hide Selects, OffsetOf;
  }

  lemma FirstAtEnd(items: seq<Item>)
    requires ValidItems(items)
    ensures FirstFrom(items, None, |items|)
  {}

  /** What the walk from item k on finds, for a descriptor of whole items `items` that
      may be followed in its array by any padding. */
  lemma {:induction false} WalkItems(items: seq<Item>, pad: seq<byte>, k: nat)
    requires ValidItems(items) && k <= |items|
    ensures var desc, len := EncodeAll(items) + pad, |EncodeAll(items)|;
      && ReadsInBounds(desc, len, OffsetOf(items, k))
      && FirstFrom(items, WalkFrom(desc, len, OffsetOf(items, k), PageBefore(items, k), UsageBefore(items, k)), k)
    decreases |items| - k
  {
    hide *;
    if k == |items| {
      WalkEnds(items, pad);
      FirstAtEnd(items);
    } else {
      WalkItems(items, pad, k + 1);
      WalkOne(items, pad, k);
      var desc, len := EncodeAll(items) + pad, |EncodeAll(items)|;
      FirstBack(items, WalkFrom(desc, len, OffsetOf(items, k), PageBefore(items, k), UsageBefore(items, k)), k);
    }
  }

  lemma WalkEnds(items: seq<Item>, pad: seq<byte>)
    requires ValidItems(items)
    ensures var desc, len, k := EncodeAll(items) + pad, |EncodeAll(items)|, |items|;
      && ReadsInBounds(desc, len, OffsetOf(items, k))
      && WalkFrom(desc, len, OffsetOf(items, k), PageBefore(items, k), UsageBefore(items, k)) == None
  {
    assert items[..|items|] == items;
  }

  /** Item k seen as bytes at its offset. */
  lemma ItemAt(items: seq<Item>, pad: seq<byte>, k: nat)
    requires ValidItems(items) && k < |items|
    ensures var desc, it, at := EncodeAll(items) + pad, items[k], OffsetOf(items, k);
      && at + |it.data| < |EncodeAll(items)|
      && Tag(desc[at]) == it.tag && Kind(desc[at]) == it.kind && DataSize(desc[at]) == |it.data|
      && (it.Evaluated() ==> forall was :: NewValue(desc, at, was) == it.Value())
      && OffsetOf(items, k + 1) == at + 1 + |it.data|
  {
    EncodeSplit(items, k);
    PrefixFields(items[k]);
    ItemBytes(EncodeAll(items[..k]), items[k], EncodeAll(items[k + 1..]), pad);
  }

  /** One turn of the walk, at the boundary of item k. */
  lemma WalkOne(items: seq<Item>, pad: seq<byte>, k: nat)
    requires ValidItems(items) && k < |items|
    requires ReadsInBounds(EncodeAll(items) + pad, |EncodeAll(items)|, OffsetOf(items, k + 1))
    ensures var desc, len := EncodeAll(items) + pad, |EncodeAll(items)|;
      && ReadsInBounds(desc, len, OffsetOf(items, k))
      && WalkFrom(desc, len, OffsetOf(items, k), PageBefore(items, k), UsageBefore(items, k))
         == if Selects(items, k) then Some(OffsetOf(items, k))
            else WalkFrom(desc, len, OffsetOf(items, k + 1), PageBefore(items, k + 1), UsageBefore(items, k + 1))
  {
    ItemAt(items, pad, k);
    hide EncodeAll, OffsetOf, DataSize, Kind, Tag, Item.Value;
    assert items[k] in items;
  }

  lemma ItemBytes(before: seq<byte>, it: Item, after: seq<byte>, pad: seq<byte>)
    requires it.Valid()
    ensures var s, at := before + it.Encode() + after + pad, |before|;
      && |s| > at + |it.data| && s[at] == it.Prefix()
      && (|it.data| > 0 ==> s[at + 1] == it.data[0]) && (|it.data| > 1 ==> s[at + 2] == it.data[1])
  {}

  /** `at` is the offset of the least item among `hits`, or none is among them. */
  ghost predicate FirstAmong(items: seq<Item>, at: Option<nat>, hits: set<nat>)
    requires ValidItems(items)
  {
    match at
    case None => hits == {}
    case Some(o) => exists j | j in hits && j < |items| :: o == OffsetOf(items, j) && forall h | h in hits :: j <= h
  }

  ghost function Selections(items: seq<Item>): set<nat> {
    set j: nat | j < |items| && Selects(items, j)
  }

  ghost function Declarations(items: seq<Item>): set<nat>
    requires ValidItems(items)
  {
    set j: nat | j < |items| && Declares(items, j)
  }

  /** On any concatenation of short items the walk visits whole items only, stops, and
      picks the first item that selects, or none. */
  lemma WalkFindsFirstSelection(items: seq<Item>, pad: seq<byte>)
    requires ValidItems(items)
    ensures var desc, len := EncodeAll(items) + pad, |EncodeAll(items)|;
      ReadsInBounds(desc, len, 0) && FirstAmong(items, WalkFrom(desc, len, 0, 0, 0), Selections(items))
  {
    WalkItems(items, pad, 0);
    assert OffsetOf(items, 0) == 0;
    assert forall h | h in Selections(items) :: Selects(items, h);
  }

  /** Every Usage and Usage Page item carries one or two bytes. */
  ghost predicate AllEvaluated(items: seq<Item>) {
    forall it | it in items && (it.Usage() || it.UsagePage()) :: it.Evaluated()
  }

  /** Item k is a touch usage under the most recent Usage Page item. */
  predicate DeclaresUnderLatest(items: seq<Item>, k: nat)
    requires k < |items| && ValidItems(items)
  {
    items[k] in items && DeclaresUnder(items[k], LatestPage(items, k))
  }

  lemma {:induction false} PagesAgree(items: seq<Item>, k: nat)
    requires ValidItems(items) && AllEvaluated(items) && k <= |items|
    ensures LatestPage(items, k) == PageBefore(items, k)
  {
    if k > 0 {
      PagesAgree(items, k - 1);
      assert items[k - 1] in items;
    }
  }

  /** When all Usage and Usage Page items carry one or two bytes, the walk picks the first
      Usage item that is a touch usage under the most recent Usage Page, or none. */
  lemma WalkFindsFirstDeclaration(items: seq<Item>, pad: seq<byte>)
    requires ValidItems(items) && AllEvaluated(items)
    ensures var desc, len := EncodeAll(items) + pad, |EncodeAll(items)|;
      && ReadsInBounds(desc, len, 0)
      && FirstAmong(items, WalkFrom(desc, len, 0, 0, 0), set j: nat | j < |items| && DeclaresUnderLatest(items, j))
  {
    WalkFindsFirstSelection(items, pad);
    forall j: nat | j < |items| ensures Selects(items, j) <==> DeclaresUnderLatest(items, j) {
      assert items[j] in items;
      PagesAgree(items, j);
    }
    assert Selections(items) == set j: nat | j < |items| && DeclaresUnderLatest(items, j);
  }

  /** Without Push and Pop items that page is the one in force. */
  lemma {:induction false} LatestIsInForce(items: seq<Item>, k: nat)
    requires ValidItems(items) && k <= |items| && forall it | it in items :: !it.Push() && !it.Pop()
    ensures Pages(items, k) == [LatestPage(items, k)]
  {
    if k > 0 {
      LatestIsInForce(items, k - 1);
      assert items[k - 1] in items;
    }
  }

  lemma {:induction false} OffsetsIncrease(items: seq<Item>, j: nat, k: nat)
    requires ValidItems(items) && j < k <= |items|
    ensures OffsetOf(items, j) < OffsetOf(items, k)
  {
    EncodeSplit(items, k - 1);
    if j < k - 1 {
      OffsetsIncrease(items, j, k - 1);
    }
  }

  ghost predicate Within(items: seq<Item>, hits: set<nat>) {
    forall j | j in hits :: j < |items|
  }

  lemma HitsAreWithin(items: seq<Item>)
    requires ValidItems(items)
    ensures Within(items, Selections(items)) && Within(items, Declarations(items))
  {}

  /** Two sets have the same least element, or are both empty, if and only if whatever is in
      only one of them comes after something that is in both. */
  lemma LeastOfBoth(items: seq<Item>, at: Option<nat>, a: set<nat>, b: set<nat>)
    requires ValidItems(items) && Within(items, a) && Within(items, b)
    requires FirstAmong(items, at, a)
    ensures FirstAmong(items, at, b) <==> forall k | k in (a - b) + (b - a) :: exists d | d in a * b :: d < k
  {
    hide OffsetOf;
    if at.Some? {
      var first :| first in a && first < |items| && at.value == OffsetOf(items, first) && forall h | h in a :: first <= h;
      forall j | j in b && OffsetOf(items, j) == at.value ensures j == first {
        SameOffset(items, first, j);
      }
      if FirstAmong(items, at, b) {
        assert first in a * b;
        forall k | k in (a - b) + (b - a) ensures exists d | d in a * b :: d < k {
          assert first < k;
        }
      } else if first in b {
        var h :| h in b && h < first;
        assert h in (a - b) + (b - a) && forall d | d in a * b :: h < d;
      } else {
        assert first in (a - b) + (b - a) && forall d | d in a * b :: first < d;
      }
    } else {
      assert a * b == {} && (a - b) + (b - a) == b;
      if k :| k in b {
        assert k in (a - b) + (b - a);
      }
    }
  }

  lemma SameOffset(items: seq<Item>, j: nat, k: nat)
    requires ValidItems(items) && j < |items| && k < |items| && OffsetOf(items, j) == OffsetOf(items, k)
    ensures j == k
  {
    hide OffsetOf;
    if j < k {
      OffsetsIncrease(items, j, k);
    } else if k < j {
      OffsetsIncrease(items, k, j);
    }
  }

  /** For every descriptor of short items: the walk picks the first declared touch usage if
      and only if each item that it selects undeclared or passes over declared comes after
      one that is both declared and selected. */
  lemma WalkIsRightExactlyWhen(items: seq<Item>, pad: seq<byte>)
    requires ValidItems(items)
    ensures var desc, len := EncodeAll(items) + pad, |EncodeAll(items)|;
      var selected, declared := Selections(items), Declarations(items);
      && ReadsInBounds(desc, len, 0)
      && (FirstAmong(items, WalkFrom(desc, len, 0, 0, 0), declared)
          <==> forall k | k in (selected - declared) + (declared - selected) ::
            exists d | d in selected * declared :: d < k)
  {
    hide *;
    WalkFindsFirstSelection(items, pad);
    HitsAreWithin(items);
    var at := WalkFrom(EncodeAll(items) + pad, |EncodeAll(items)|, 0, 0, 0);
    LeastOfBoth(items, at, Selections(items), Declarations(items));
  }

  // ----------------------------------------------------------------- witnesses

  const STALE_ITEMS: seq<Item> := [Item(0, 1, [0x01]), Item(0, 2, [0x04]), Item(0, 1, [0x0D]), Item(0, 2, [])]
  const STALE_BYTES: seq<byte> := [0x05, 0x01, 0x09, 0x04, 0x05, 0x0D, 0x08]

  lemma StaleItemsEncoded()
    ensures ValidItems(STALE_ITEMS) && EncodeAll(STALE_ITEMS) == STALE_BYTES
  {
    assert STALE_ITEMS[1..] == [Item(0, 2, [0x04]), Item(0, 1, [0x0D]), Item(0, 2, [])];
    assert STALE_ITEMS[1..][1..] == [Item(0, 1, [0x0D]), Item(0, 2, [])];
    assert STALE_ITEMS[1..][1..][1..] == [Item(0, 2, [])];
  }

  lemma WalkStep(desc: seq<byte>, len: int, i: nat, page: int, usage: int)
    requires i < len && i < |desc| && (Read(desc[i]) && DataSize(desc[i]) < 4 ==> i + DataSize(desc[i]) < |desc|)
    requires ReadsInBounds(desc, len, i + 1 + DataSize(desc[i]))
    ensures ReadsInBounds(desc, len, i)
    ensures var kind, tag := Kind(desc[i]), Tag(desc[i]);
      var page' := if kind == TYPE_GLOBAL && tag == TAG_USAGE_PAGE then NewValue(desc, i, page) else page;
      var usage' := if kind == TYPE_LOCAL && tag == TAG_USAGE then NewValue(desc, i, usage) else usage;
      WalkFrom(desc, len, i, page, usage)
        == if kind == TYPE_LOCAL && tag == TAG_USAGE && page' == PAGE_DIGITIZER && TouchUsage(usage') then Some(i)
           else WalkFrom(desc, len, i + 1 + DataSize(desc[i]), page', usage')
  {}

  lemma StaleWalk()
    ensures ReadsInBounds(STALE_BYTES, 7, 0) && WalkFrom(STALE_BYTES, 7, 0, 0, 0) == Some(6)
  {
    hide ReadsInBounds, WalkFrom;
    PastTheEnd(STALE_BYTES, 7);
    WalkStep(STALE_BYTES, 7, 6, 0x0D, 4);
    WalkStep(STALE_BYTES, 7, 4, 1, 4);
    WalkStep(STALE_BYTES, 7, 2, 1, 0);
    WalkStep(STALE_BYTES, 7, 0, 0, 0);
  }

  lemma PastTheEnd(desc: seq<byte>, len: nat)
    ensures ReadsInBounds(desc, len, len) && forall page, usage :: WalkFrom(desc, len, len, page, usage) == None
  {}

  /** Generic Desktop / Joystick, then the digitizer page, then an empty Usage item: the
      walk stops at the empty item although nothing declares a touch usage. */
  lemma StaleUsageIsSelected()
    ensures ValidItems(STALE_ITEMS) && EncodeAll(STALE_ITEMS) == STALE_BYTES && |STALE_BYTES| == 7
    ensures forall k | 0 <= k < |STALE_ITEMS| :: !Declares(STALE_ITEMS, k)
    ensures ReadsInBounds(STALE_BYTES, 7, 0) && WalkFrom(STALE_BYTES, 7, 0, 0, 0) == Some(6)
  {
    hide EncodeAll, ReadsInBounds, WalkFrom;
    StaleItemsEncoded();
    StaleWalk();
    assert Pages(STALE_ITEMS, 1) == [1];
  }

  const WIDE_PAGE_ITEMS: seq<Item> := [Item(0, 1, [0x0D]), Item(0, 1, [0x01, 0, 0, 0]), Item(0, 2, [0x04])]
  const WIDE_PAGE_BYTES: seq<byte> := [0x05, 0x0D, 0x07, 0x01, 0, 0, 0, 0x09, 0x04]

  /** The digitizer page, then Generic Desktop in four bytes, then Joystick: the walk takes
      the Joystick for a touch screen. */
  lemma WidePageIsOverlooked()
    ensures ValidItems(WIDE_PAGE_ITEMS) && EncodeAll(WIDE_PAGE_ITEMS) == WIDE_PAGE_BYTES && |WIDE_PAGE_BYTES| == 9
    ensures forall k | 0 <= k < |WIDE_PAGE_ITEMS| :: !Declares(WIDE_PAGE_ITEMS, k)
    ensures ReadsInBounds(WIDE_PAGE_BYTES, 9, 0) && WalkFrom(WIDE_PAGE_BYTES, 9, 0, 0, 0) == Some(7)
  {
    hide ReadsInBounds, WalkFrom;
    assert WIDE_PAGE_ITEMS[1..] == [Item(0, 1, [0x01, 0, 0, 0]), Item(0, 2, [0x04])];
    assert WIDE_PAGE_ITEMS[1..][1..] == [Item(0, 2, [0x04])];
    PastTheEnd(WIDE_PAGE_BYTES, 9);
    WalkStep(WIDE_PAGE_BYTES, 9, 7, 0x0D, 0);
    WalkStep(WIDE_PAGE_BYTES, 9, 2, 0x0D, 0);
    WalkStep(WIDE_PAGE_BYTES, 9, 0, 0, 0);
  }

  const WIDE_DIGITIZER_ITEMS: seq<Item> := [Item(0, 1, [0x0D, 0, 0, 0]), Item(0, 2, [0x04])]
  const WIDE_DIGITIZER_BYTES: seq<byte> := [0x07, 0x0D, 0, 0, 0, 0x09, 0x04]

  /** The digitizer page in four bytes, then Touch Screen: the walk finds nothing. */
  lemma WideDigitizerPageIsMissed()
    ensures ValidItems(WIDE_DIGITIZER_ITEMS) && EncodeAll(WIDE_DIGITIZER_ITEMS) == WIDE_DIGITIZER_BYTES
    ensures Declares(WIDE_DIGITIZER_ITEMS, 1) && |WIDE_DIGITIZER_BYTES| == 7
    ensures ReadsInBounds(WIDE_DIGITIZER_BYTES, 7, 0) && WalkFrom(WIDE_DIGITIZER_BYTES, 7, 0, 0, 0) == None
  {
    hide ReadsInBounds, WalkFrom;
    assert WIDE_DIGITIZER_ITEMS[1..] == [Item(0, 2, [0x04])];
    PastTheEnd(WIDE_DIGITIZER_BYTES, 7);
    WalkStep(WIDE_DIGITIZER_BYTES, 7, 5, 0, 0);
    WalkStep(WIDE_DIGITIZER_BYTES, 7, 0, 0, 0);
  }

  const POPPED_ITEMS: seq<Item> :=
    [Item(0, 1, [0x0D]), Item(10, 1, []), Item(0, 1, [0x01]), Item(11, 1, []), Item(0, 2, [0x04])]
  const POPPED_BYTES: seq<byte> := [0x05, 0x0D, 0xA4, 0x05, 0x01, 0xB4, 0x09, 0x04]

  /** The digitizer page is pushed, left and popped again: the walk does not come back to it. */
  lemma PoppedPageIsMissed()
    ensures ValidItems(POPPED_ITEMS) && EncodeAll(POPPED_ITEMS) == POPPED_BYTES
    ensures Declares(POPPED_ITEMS, 4) && |POPPED_BYTES| == 8
    ensures ReadsInBounds(POPPED_BYTES, 8, 0) && WalkFrom(POPPED_BYTES, 8, 0, 0, 0) == None
  {
    PoppedItemsEncoded();
    PoppedPages();
    hide EncodeAll, Pages, ReadsInBounds, WalkFrom;
    PastTheEnd(POPPED_BYTES, 8);
    WalkStep(POPPED_BYTES, 8, 6, 1, 0);
    WalkStep(POPPED_BYTES, 8, 5, 1, 0);
    WalkStep(POPPED_BYTES, 8, 3, 0x0D, 0);
    WalkStep(POPPED_BYTES, 8, 2, 0x0D, 0);
    WalkStep(POPPED_BYTES, 8, 0, 0, 0);
  }

  lemma PoppedItemsEncoded()
    ensures ValidItems(POPPED_ITEMS) && EncodeAll(POPPED_ITEMS) == POPPED_BYTES
  {
    assert POPPED_ITEMS[1..] == [Item(10, 1, []), Item(0, 1, [0x01]), Item(11, 1, []), Item(0, 2, [0x04])];
    assert POPPED_ITEMS[1..][1..] == [Item(0, 1, [0x01]), Item(11, 1, []), Item(0, 2, [0x04])];
    assert POPPED_ITEMS[1..][1..][1..] == [Item(11, 1, []), Item(0, 2, [0x04])];
    assert POPPED_ITEMS[1..][1..][1..][1..] == [Item(0, 2, [0x04])];
  }

  lemma PoppedPages()
    ensures ValidItems(POPPED_ITEMS) && Pages(POPPED_ITEMS, 4) == [0x0D]
  {
    assert Pages(POPPED_ITEMS, 1) == [0x0D];
    assert Pages(POPPED_ITEMS, 2) == [0x0D, 0x0D];
    assert Pages(POPPED_ITEMS, 3) == [0x0D, 0x01];
  }

  const EXTENDED_ITEMS: seq<Item> := [Item(0, 2, [0x04, 0, 0x0D, 0])]
  const EXTENDED_BYTES: seq<byte> := [0x0B, 0x04, 0, 0x0D, 0]

  /** A touch screen declared by a Usage item that carries its page: the walk finds nothing. */
  lemma ExtendedUsageIsMissed()
    ensures ValidItems(EXTENDED_ITEMS) && EncodeAll(EXTENDED_ITEMS) == EXTENDED_BYTES
    ensures Declares(EXTENDED_ITEMS, 0) && |EXTENDED_BYTES| == 5
    ensures ReadsInBounds(EXTENDED_BYTES, 5, 0) && WalkFrom(EXTENDED_BYTES, 5, 0, 0, 0) == None
  {
    hide ReadsInBounds, WalkFrom;
    assert EXTENDED_ITEMS[1..] == [];
    PastTheEnd(EXTENDED_BYTES, 5);
    WalkStep(EXTENDED_BYTES, 5, 0, 0, 0);
  }
}
