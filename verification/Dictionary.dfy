/** The string dictionary behind the ini parser: parallel arrays with holes, cached
    hashes, a wrap-around search for a free slot and doubling growth. A `Str` holds
    the bytes of a C string before its terminator. */
module Dictionary {
  import opened Bytes

  type Str = seq<bv8>

  const DICTMINSZ := 128

  // ---------------------------------------------------------------- hashing

  function Mix(h: bv32, c: bv8): bv32 {
    var added := h + (c as bv32);
    var spread := added + (added << 10);
    spread ^ (spread >> 6)
  }

  function Absorb(key: Str): bv32 {
    if key == [] then 0 else Mix(Absorb(key[..|key| - 1]), key[|key| - 1])
  }

  function Finish(h: bv32): bv32 {
    var h1 := h + (h << 3);
    var h2 := h1 ^ (h1 >> 11);
    h2 + (h2 << 15)
  }

  function Hash(key: Str): bv32 {
    Finish(Absorb(key))
  }

  method DictionaryHash(key: Str) returns (hash: bv32)
    ensures hash == Hash(key)
  {
    hash := 0;
    for i := 0 to |key|
      invariant hash == Absorb(key[..i])
    {
      assert key[..i + 1][..i] == key[..i];
      hash := Mix(hash, key[i]);
    }
    assert key[..|key|] == key;
    hash := Finish(hash);
  }

  /** Hashes of known strings: the empty one, "a" and "ab". */
  lemma KnownHashes()
    ensures Hash([]) == 0 && Hash([0x61]) == 0xca2e_9442 && Hash([0x61, 0x62]) == 0x45e6_1e58
  {
    var ab: Str := [0x61, 0x62];
    assert ab[..1] == [0x61] && ab[..1][..0] == [];
    assert Absorb(ab[..1]) == Mix(0, 0x61);
    assert Absorb(ab) == Mix(Mix(0, 0x61), 0x62);
  }

  // ------------------------------------------------- what the arrays represent

  function Used(keys: seq<Option<Str>>): nat {
    if keys == [] then 0 else Used(keys[1..]) + if keys[0].Some? then 1 else 0
  }

  ghost predicate Distinct(keys: seq<Option<Str>>) {
    forall i, j :: 0 <= i < j < |keys| && keys[i].Some? && keys[j].Some? ==> keys[i] != keys[j]
  }

  ghost predicate Cached(keys: seq<Option<Str>>, hashes: seq<bv32>) {
    |keys| == |hashes| && forall i :: 0 <= i < |keys| && keys[i].Some? ==> hashes[i] == Hash(keys[i].value)
  }

  function SlotOf(keys: seq<Option<Str>>, k: Str): (i: nat)
    requires Some(k) in keys
    ensures i < |keys| && keys[i] == Some(k)
  {
    if keys[0] == Some(k) then 0 else 1 + SlotOf(keys[1..], k)
  }

  function KeySet(keys: seq<Option<Str>>): set<Str> {
    set o | o in keys && o.Some? :: o.value
  }

  /** The map a key array and a value array stand for; a NULL value stays present. */
  ghost function Entries(keys: seq<Option<Str>>, vals: seq<Option<Str>>): (m: map<Str, Option<Str>>)
    requires |keys| == |vals|
    ensures forall k :: k in m <==> Some(k) in keys
  {
    map k | k in KeySet(keys) :: vals[SlotOf(keys, k)]
  }

  lemma {:induction false} UsedUpdate(keys: seq<Option<Str>>, i: nat, k: Option<Str>)
    requires i < |keys|
    ensures Used(keys[i := k])
         == Used(keys) - (if keys[i].Some? then 1 else 0) + (if k.Some? then 1 else 0)
  {
    if i == 0 {
      assert keys[i := k][1..] == keys[1..];
    } else {
      assert keys[i := k][1..] == keys[1..][i - 1 := k];
      UsedUpdate(keys[1..], i - 1, k);
    }
  }

  lemma {:induction false} UsedAppend(a: seq<Option<Str>>, b: seq<Option<Str>>)
    ensures Used(a + b) == Used(a) + Used(b)
  {
    if a == [] {
      assert a + b == b;
    } else {
      assert (a + b)[1..] == a[1..] + b;
      UsedAppend(a[1..], b);
    }
  }

  /** Pigeonhole: fewer keys than slots leaves a hole, and no holes means a full count. */
  lemma {:induction false} HoleExists(keys: seq<Option<Str>>)
    ensures Used(keys) <= |keys|
    ensures Used(keys) < |keys| <==> exists i :: 0 <= i < |keys| && keys[i].None?
  {
    if keys != [] {
      HoleExists(keys[1..]);
      if Used(keys) < |keys| && keys[0].Some? {
        var i :| 0 <= i < |keys[1..]| && keys[1..][i].None?;
        assert keys[i + 1].None?;
      }
      if i :| 0 <= i < |keys| && keys[i].None? {
        assert i > 0 ==> keys[1..][i - 1].None?;
      }
    }
  }

  function Holes(m: nat): seq<Option<Str>> {
    seq(m, _ => None)
  }

  lemma {:induction false} UsedBlank(m: nat)
    ensures Used(Holes(m)) == 0
  {
    if m > 0 {
      assert Holes(m)[1..] == Holes(m - 1);
      UsedBlank(m - 1);
    }
  }

  /** `n` is the size of the represented map. */
  lemma {:induction false} UsedIsMapSize(keys: seq<Option<Str>>, vals: seq<Option<Str>>)
    requires |keys| == |vals| && Distinct(keys)
    ensures |Entries(keys, vals)| == Used(keys)
  {
    var all := Entries(keys, vals);
    if keys == [] {
      assert all == map[];
    } else {
      UsedIsMapSize(keys[1..], vals[1..]);
      var rest := Entries(keys[1..], vals[1..]);
      assert forall o :: o in keys <==> o == keys[0] || o in keys[1..];
      if keys[0].None? {
        assert all.Keys == rest.Keys;
      } else {
        assert all.Keys == rest.Keys + {keys[0].value};
        assert keys[0] !in keys[1..];
      }
    }
  }

  lemma EntriesReplace(keys: seq<Option<Str>>, vals: seq<Option<Str>>, i: nat, v: Option<Str>)
    requires |keys| == |vals| && Distinct(keys) && i < |keys| && keys[i].Some?
    ensures Entries(keys, vals[i := v]) == Entries(keys, vals)[keys[i].value := v]
  {
    assert SlotOf(keys, keys[i].value) == i;
  }

  lemma EntriesInsert(keys: seq<Option<Str>>, vals: seq<Option<Str>>, i: nat, k: Str, v: Option<Str>)
    requires |keys| == |vals| && Distinct(keys) && i < |keys| && keys[i].None?
    requires k !in Entries(keys, vals)
    ensures Distinct(keys[i := Some(k)])
    ensures Entries(keys[i := Some(k)], vals[i := v]) == Entries(keys, vals)[k := v]
  {
    var keys', vals' := keys[i := Some(k)], vals[i := v];
    var was, now := Entries(keys, vals), Entries(keys', vals');
    assert keys'[i] == Some(k);
    assert Distinct(keys') by {
      assert Some(k) !in keys;
    }
    assert SlotOf(keys', k) == i;
    forall o: Str | o != k ensures (Some(o) in keys <==> Some(o) in keys')
    {
      if Some(o) in keys {
        assert keys'[SlotOf(keys, o)] == Some(o);
      }
      if Some(o) in keys' {
        assert keys[SlotOf(keys', o)] == Some(o);
      }
    }
    forall o | o in was ensures now[o] == was[o] {
      assert keys'[SlotOf(keys, o)] == Some(o);
      assert SlotOf(keys', o) == SlotOf(keys, o);
    }
  }

  lemma EntriesRemove(keys: seq<Option<Str>>, vals: seq<Option<Str>>, i: nat)
    requires |keys| == |vals| && Distinct(keys) && i < |keys| && keys[i].Some?
    ensures Distinct(keys[i := None])
    ensures Entries(keys[i := None], vals[i := None]) == Entries(keys, vals) - {keys[i].value}
  {
    var keys', vals' := keys[i := None], vals[i := None];
    var was, now := Entries(keys, vals), Entries(keys', vals');
    forall o | o in was && o != keys[i].value ensures o in now && now[o] == was[o] {
      assert keys'[SlotOf(keys, o)] == Some(o);
      assert SlotOf(keys', o) == SlotOf(keys, o);
    }
    forall o | o in now ensures o in was && o != keys[i].value {
      assert keys[SlotOf(keys', o)] == Some(o);
    }
  }

  /** Doubling pads with holes and represents the same map. */
  lemma EntriesGrow(keys: seq<Option<Str>>, vals: seq<Option<Str>>, pad: seq<Option<Str>>)
    requires |keys| == |vals| && Distinct(keys)
    requires forall i :: 0 <= i < |pad| ==> pad[i].None?
    ensures Distinct(keys + pad)
    ensures Entries(keys + pad, vals + pad) == Entries(keys, vals)
  {}

  // ---------------------------------------------------- the wrap-around scan

  /** Steps a scan that wraps at `size` takes from `i` to reach `hole`. */
  function CyclicDistance(i: nat, hole: nat, size: nat): nat
    requires i < size && hole < size
  {
    if i <= hole then hole - i else size - i + hole
  }

  /** No hole lies on the cyclic walk from `from` up to, not including, `to`. */
  ghost predicate FullBetween(keys: seq<Option<Str>>, from: nat, to: nat) {
    forall j :: 0 <= j < |keys| && (if from <= to then from <= j < to else from <= j || j < to) ==> keys[j].Some?
  }

  /** mem_double. */
  method MemDouble<T>(ptr: array<T>, zero: T) returns (newptr: array<T>)
    ensures fresh(newptr) && newptr[..] == ptr[..] + seq(ptr.Length, _ => zero)
  {
    newptr := new T[2 * ptr.Length](_ => zero);
    for i := 0 to ptr.Length
      invariant forall j :: 0 <= j < i ==> newptr[j] == ptr[j]
      invariant forall j :: i <= j < newptr.Length ==> newptr[j] == zero
    {
      newptr[i] := ptr[i];
    }
  }

  class Dictionary {
    var n: int
    var size: int
    var val: array<Option<Str>>
    var key: array<Option<Str>>
    var hash: array<bv32>

    ghost predicate Shape()
      reads this
    {
      && 0 < size
      && key != val && hash as object !in {key as object, val as object}
      && key.Length == val.Length == hash.Length == size
    }

    ghost predicate Valid()
      reads this, key, hash
    {
      Shape() && n == Used(key[..]) && Distinct(key[..]) && Cached(key[..], hash[..])
    }

    ghost function Contents(): map<Str, Option<Str>>
      requires Valid()
      reads this, key, val, hash
    {
      Entries(key[..], val[..])
    }

    ghost function Repr(): set<object>
      reads this
    {
      {this, key, val, hash}
    }

    /** Either the arrays were kept or all three were replaced by new ones. */
    twostate predicate SameOrFresh()
      reads this
    {
      || (key == old(key) && val == old(val) && hash == old(hash))
      || (fresh(key) && fresh(val) && fresh(hash))
    }

    /** dictionary_new. */
    constructor (size: int)
      ensures Valid() && Contents() == map[]
      ensures this.size == if size < 128 then 128 else size
      ensures fresh(Repr())
    {
      var room := if size < DICTMINSZ then DICTMINSZ else size;
      this.size := room;
      n := 0;
      val := new Option<Str>[room](_ => None);
      key := new Option<Str>[room](_ => None);
      hash := new bv32[room](_ => 0);
      new;
      assert key[..] == Holes(room);
      UsedBlank(room);
    }

    /** The search loop of get, set and unset: hashes first, then the strings. A hash
        mismatch never skips the key sought, whatever collisions there are. */
    method Find(k: Str, h: bv32) returns (i: nat)
      requires Valid() && h == Hash(k)
      ensures i <= size
      ensures i < size ==> key[i] == Some(k) && k in Contents() && Contents()[k] == val[i]
      ensures i == size ==> k !in Contents()
    {
      i := 0;
      while i < size
        invariant i <= size
        invariant forall j :: 0 <= j < i ==> key[j] != Some(k)
      {
        if key[i].Some? && h == hash[i] && k == key[i].value {
          assert key[..][i].Some?;
          return;
        }
        assert key[..][i] == key[i];
        i := i + 1;
      }
      assert forall j :: 0 <= j < size ==> key[..][j] != Some(k);
    }

    /** dictionary_get. */
    method Get(k: Str, def: Option<Str>) returns (r: Option<Str>)
      requires Valid()
      ensures r == if k in Contents() then Contents()[k] else def
    {
      var h := DictionaryHash(k);
      var i := Find(k, h);
      r := if i < size then val[i] else def;
    }

    /** The insertion scan: from slot n upwards, wrapping, to the first hole. */
    method FreeSlot() returns (i: nat)
      requires Valid() && n < size
      ensures i < size && key[i].None? && FullBetween(key[..], n, i)
    {
      HoleExists(key[..]);
      ghost var hole :| 0 <= hole < |key[..]| && key[..][hole].None?;
      i := n;
      while key[i].Some?
        invariant 0 <= i < size
        invariant CyclicDistance(i, hole, size) <= CyclicDistance(n, hole, size)
        invariant FullBetween(key[..], n, i)
        decreases CyclicDistance(i, hole, size)
      {
        i := i + 1;
        if i == size {
          i := 0;
        }
      }
    }

    method Grow()
      requires Valid() && n == size
      modifies this
      ensures Valid() && Contents() == old(Contents())
      ensures n == old(n) && size == 2 * old(size) && n < size
      ensures fresh(key) && fresh(val) && fresh(hash)
    {
      ghost var pad := Holes(key.Length);
      var newVal := MemDouble(val, None);
      var newKey := MemDouble(key, None);
      var newHash := MemDouble(hash, 0);
      UsedAppend(key[..], pad);
      UsedBlank(key.Length);
      EntriesGrow(key[..], val[..], pad);
      hide Used, Distinct, Entries, Hash;
      val, key, hash := newVal, newKey, newHash;
      size := 2 * size;
    }

    /** dictionary_set; None for a pointer means NULL. */
    method Set(k: Option<Str>, v: Option<Str>) returns (ret: int)
      requires Valid()
      modifies this, key, val, hash
      ensures Valid() && SameOrFresh()
      ensures ret == if k.None? then -1 else 0
      ensures Contents() == if k.None? then old(Contents()) else old(Contents())[k.value := v]
      ensures size == if k.Some? && k.value !in old(Contents()) && old(n) == old(size) then 2 * old(size) else old(size)
    {
      if k.None? {
        return -1;
      }
      var h := DictionaryHash(k.value);
      if n > 0 {
        var i := Find(k.value, h);
        if i < size {
          EntriesReplace(key[..], val[..], i, v);
          val[i] := v;
          assert val[..] == old(val[..])[i := v];
          return 0;
        }
      } else {
        UsedIsMapSize(key[..], val[..]);
      }
      Insert(k.value, v, h);
      return 0;
    }

    /** The part of dictionary_set that adds a key it has not found. */
    method Insert(k: Str, v: Option<Str>, h: bv32)
      requires Valid() && k !in Contents() && h == Hash(k)
      modifies this, key, val, hash
      ensures Valid() && SameOrFresh()
      ensures Contents() == old(Contents())[k := v]
      ensures size == if old(n) == old(size) then 2 * old(size) else old(size)
    {
      HoleExists(key[..]);
      if n == size {
        Grow();
      }
      var i := FreeSlot();
      Store(i, k, v, h);
    }

    method Store(i: nat, k: Str, v: Option<Str>, h: bv32)
      requires Valid() && i < size && key[i].None? && k !in Contents() && h == Hash(k)
      modifies this`n, key, val, hash
      ensures Valid() && Contents() == old(Contents())[k := v] && n == old(n) + 1
    {
      EntriesInsert(key[..], val[..], i, k, v);
      UsedUpdate(key[..], i, Some(k));
      key[i] := Some(k);
      val[i] := v;
      hash[i] := h;
      n := n + 1;
      assert key[..] == old(key[..])[i := Some(k)];
      assert val[..] == old(val[..])[i := v];
    }

    /** dictionary_unset. */
    method Unset(k: Option<Str>)
      requires Valid()
      modifies this`n, key, val, hash
      ensures Valid() && size == old(size)
      ensures Contents() == if k.None? then old(Contents()) else old(Contents()) - {k.value}
    {
      if k.None? {
        return;
      }
      var h := DictionaryHash(k.value);
      var i := Find(k.value, h);
      if i < size {
        Clear(i);
      }
    }

    method Clear(i: nat)
      requires Valid() && i < size && key[i].Some?
      modifies this`n, key, val, hash
      ensures Valid() && Contents() == old(Contents()) - {old(key[i].value)}
    {
      EntriesRemove(key[..], val[..], i);
      UsedUpdate(key[..], i, None);
      hide Used, Distinct, Entries, Hash;
      key[i] := None;
      val[i] := None;
      hash[i] := 0;
      n := n - 1;
      assert key[..] == old(key[..])[i := None];
      assert val[..] == old(val[..])[i := None];
    }

    /** Any one call. */
    method Perform(c: Call) returns (answer: Answer)
      requires Valid()
      modifies this, key, val, hash
      ensures Valid() && SameOrFresh()
      ensures (Contents(), answer) == MapCall(old(Contents()), c)
    {
      hide Used, Distinct, Entries, Hash, Cached;
      match c {
        case SetCall(k, v) =>
          var ret := Set(k, v);
          answer := Code(ret);
        case UnsetCall(k) =>
          Unset(k);
          answer := Done;
        case GetCall(k, def) =>
          var text := Get(k, def);
          answer := Text(text);
      }
    }
  }

  // ------------------------------------------------------- whole histories

  datatype Call =
    | SetCall(key: Option<Str>, val: Option<Str>)
    | UnsetCall(key: Option<Str>)
    | GetCall(wanted: Str, def: Option<Str>)

  datatype Answer = Code(code: int) | Done | Text(text: Option<Str>)

  type Store = map<Str, Option<Str>>

  /** One call on a plain map. */
  function MapCall(m: Store, c: Call): (Store, Answer) {
    match c
    case SetCall(k, v) => if k.None? then (m, Code(-1)) else (m[k.value := v], Code(0))
    case UnsetCall(k) => (if k.None? then m else m - {k.value}, Done)
    case GetCall(k, def) => (m, Text(if k in m then m[k] else def))
  }

  function MapAfter(calls: seq<Call>): Store {
    if calls == [] then map[] else MapCall(MapAfter(calls[..|calls| - 1]), calls[|calls| - 1]).0
  }

  function MapAnswers(calls: seq<Call>): seq<Answer> {
    if calls == [] then []
    else
      var front := calls[..|calls| - 1];
      MapAnswers(front) + [MapCall(MapAfter(front), calls[|calls| - 1]).1]
  }

  /** Any history of calls on a new dictionary answers as a plain map would, and
      leaves as many entries counted as that map has keys. */
  method Replay(initialSize: int, calls: seq<Call>) returns (answers: seq<Answer>, count: int)
    ensures answers == MapAnswers(calls)
    ensures count == |MapAfter(calls)|
  {
    var d := new Dictionary(initialSize);
    answers := [];
    for i := 0 to |calls|
      invariant fresh(d.Repr()) && d.Valid()
      invariant d.Contents() == MapAfter(calls[..i])
      invariant answers == MapAnswers(calls[..i])
    {
      hide Used, Distinct, Entries, Hash, Cached, MapCall, MapAfter, MapAnswers;
      CallsSnoc(calls, i);
      var answer := d.Perform(calls[i]);
      answers := answers + [answer];
    }
    assert calls[..|calls|] == calls;
    UsedIsMapSize(d.key[..], d.val[..]);
    count := d.n;
  }

  lemma CallsSnoc(calls: seq<Call>, i: nat)
    requires i < |calls|
    ensures MapAfter(calls[..i + 1]) == MapCall(MapAfter(calls[..i]), calls[i]).0
    ensures MapAnswers(calls[..i + 1]) == MapAnswers(calls[..i]) + [MapCall(MapAfter(calls[..i]), calls[i]).1]
  {
    assert calls[..i + 1][..i] == calls[..i];
  }

  function SetAll(keys: seq<Str>, v: Option<Str>): seq<Call> {
    seq(|keys|, i requires 0 <= i < |keys| => SetCall(Some(keys[i]), v))
  }

  function UnsetAll(keys: seq<Str>): seq<Call> {
    seq(|keys|, i requires 0 <= i < |keys| => UnsetCall(Some(keys[i])))
  }

  lemma {:induction false} AfterSetAll(keys: seq<Str>, v: Option<Str>)
    ensures MapAfter(SetAll(keys, v)) == map k | k in keys :: v
  {
    if keys != [] {
      var m := |keys| - 1;
      assert SetAll(keys, v)[..m] == SetAll(keys[..m], v);
      AfterSetAll(keys[..m], v);
      assert forall k :: k in keys <==> k in keys[..m] || k == keys[m];
    }
  }

  lemma {:induction false} AfterUnsetAll(before: seq<Call>, keys: seq<Str>)
    ensures MapAfter(before + UnsetAll(keys)) == MapAfter(before) - (set k | k in keys)
  {
    if keys == [] {
      assert before + UnsetAll(keys) == before;
    } else {
      var m := |keys| - 1;
      assert (before + UnsetAll(keys))[..|before| + m] == before + UnsetAll(keys[..m]);
      AfterUnsetAll(before, keys[..m]);
      assert forall k :: k in keys <==> k in keys[..m] || k == keys[m];
    }
  }

  function GetAll(keys: seq<Str>, def: Option<Str>): seq<Call> {
    seq(|keys|, i requires 0 <= i < |keys| => GetCall(keys[i], def))
  }

  /** Reading keys bound to v gives v each time and changes nothing. */
  lemma {:induction false} AfterGetAll(before: seq<Call>, keys: seq<Str>, v: Option<Str>, def: Option<Str>)
    requires forall k | k in keys :: k in MapAfter(before) && MapAfter(before)[k] == v
    ensures MapAfter(before + GetAll(keys, def)) == MapAfter(before)
    ensures MapAnswers(before + GetAll(keys, def)) == MapAnswers(before) + seq(|keys|, _ => Text(v))
  {
    hide MapAfter, MapAnswers;
    var calls := before + GetAll(keys, def);
    if keys == [] {
      assert calls == before;
    } else {
      var m := |keys| - 1;
      assert calls[..|before| + m] == before + GetAll(keys[..m], def);
      AfterGetAll(before, keys[..m], v, def);
      assert calls[|before| + m] == GetCall(keys[m], def) && keys[m] in keys;
      CallsSnoc(calls, |before| + m);
      assert calls[..|before| + m + 1] == calls;
    }
  }

  lemma {:induction false} AnswersPrefix(a: seq<Call>, b: seq<Call>)
    ensures |MapAnswers(a)| == |a| && |MapAnswers(a + b)| == |a| + |b| && MapAnswers(a) <= MapAnswers(a + b)
  {
    if b == [] {
      assert a + b == a;
      if a != [] {
        AnswersPrefix(a[..|a| - 1], []);
        assert a[..|a| - 1] + [] == a[..|a| - 1];
      }
    } else {
      assert (a + b)[..|a + b| - 1] == a + b[..|b| - 1];
      AnswersPrefix(a, b[..|b| - 1]);
    }
  }

  /** Setting keys, reading them and unsetting them again, on a plain map. */
  lemma SetGetUnset(keys: seq<Str>, v: Option<Str>, def: Option<Str>)
    ensures var calls := SetAll(keys, v) + GetAll(keys, def);
      && MapAfter(calls + UnsetAll(keys)) == map[]
      && |MapAnswers(calls + UnsetAll(keys))| == 3 * |keys|
      && MapAnswers(calls + UnsetAll(keys))[|keys|..2 * |keys|] == seq(|keys|, _ => Text(v))
  {
    var sets, calls := SetAll(keys, v), SetAll(keys, v) + GetAll(keys, def);
    AfterSetAll(keys, v);
    AfterGetAll(sets, keys, v, def);
    AfterUnsetAll(calls, keys);
    AnswersPrefix(sets, []);
    AnswersPrefix(calls, UnsetAll(keys));
    assert sets + [] == sets;
    hide MapAnswers, MapAfter;
    assert MapAnswers(calls + UnsetAll(keys))[..2 * |keys|] == MapAnswers(calls);
    assert MapAnswers(calls)[|keys|..] == seq(|keys|, _ => Text(v));
  }

  /** The file's own exercise: keys set in a new dictionary are all found, and after they
      are unset the count is back at zero, whatever the dictionary grew to in between. */
  method Exercise(initialSize: int, keys: seq<Str>, v: Option<Str>, def: Option<Str>)
    returns (found: seq<Answer>, count: int)
    ensures found == seq(|keys|, _ => Text(v))
    ensures count == 0
  {
    SetGetUnset(keys, v, def);
    var answers, left := Replay(initialSize, SetAll(keys, v) + GetAll(keys, def) + UnsetAll(keys));
    found, count := answers[|keys|..2 * |keys|], left;
  }
}
