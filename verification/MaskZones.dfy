/** The fifteen slots for screen rectangles whose touches stay on the board, and the
    test of a touch against them. */
module MaskZones {
  import opened Geometry

  const MAX_PENETRATION_REGION := 15

  /** A slot keeps its old rectangle when it is given up. */
  datatype Zone = Zone(used: bool, rect: Rect)

  /** The rectangles in force, with their multiplicity. */
  function InForce(zones: seq<Zone>): multiset<Rect> {
    if zones == [] then multiset{}
    else InForce(zones[..|zones| - 1]) + Part(zones[|zones| - 1])
  }

  /** The point lies in one of the rectangles in force. */
  ghost predicate Masked(zones: multiset<Rect>, x: int, y: int) {
    exists r | r in zones :: r.Contains(x, y)
  }

  function Count(zones: seq<Zone>): nat {
    if zones == [] then 0 else Count(zones[..|zones| - 1]) + if zones[|zones| - 1].used then 1 else 0
  }

  lemma {:induction false} InForceSize(zones: seq<Zone>)
    ensures |InForce(zones)| == Count(zones)
  {
    if zones != [] {
      InForceSize(zones[..|zones| - 1]);
    }
  }

  /** The slots are exhausted exactly when every one is used. */
  lemma {:induction false} CountFull(zones: seq<Zone>)
    ensures Count(zones) <= |zones|
    ensures Count(zones) == |zones| <==> forall i | 0 <= i < |zones| :: zones[i].used
  {
    if zones != [] {
      var front := zones[..|zones| - 1];
      CountFull(front);
      assert forall i | 0 <= i < |front| :: front[i] == zones[i];
      if Count(zones) == |zones| {
        assert forall i | 0 <= i < |front| :: front[i].used;
      }
    }
  }

  lemma InForceSnoc(zones: seq<Zone>, r: Rect)
    requires zones != []
    ensures var last := |zones| - 1; r in InForce(zones) <==> r in InForce(zones[..last]) || zones[last] == Zone(true, r)
  {}

  lemma {:induction false} InForceMember(zones: seq<Zone>, r: Rect)
    ensures r in InForce(zones) <==> exists i | 0 <= i < |zones| :: zones[i] == Zone(true, r)
  {
    if zones == [] {
      assert InForce(zones) == multiset{};
    } else {
      var last := |zones| - 1;
      InForceMember(zones[..last], r);
      InForceSnoc(zones, r);
      if r in InForce(zones[..last]) {
        var i :| 0 <= i < last && zones[..last][i] == Zone(true, r);
        assert zones[i] == Zone(true, r);
      }
      if i :| 0 <= i < |zones| && zones[i] == Zone(true, r) {
        assert i < last ==> zones[..last][i] == zones[i];
      }
    }
  }

  function Part(z: Zone): multiset<Rect> {
    if z.used then multiset{z.rect} else multiset{}
  }

  lemma Exchange(front: multiset<Rect>, last: multiset<Rect>, out: multiset<Rect>, in_: multiset<Rect>)
    requires out <= front
    ensures out <= front + last
    ensures front - out + in_ + last == (front + last) - out + in_
  {}

  lemma {:induction false} InForceUpdate(zones: seq<Zone>, i: nat, z: Zone)
    requires i < |zones|
    ensures Part(zones[i]) <= InForce(zones)
    ensures InForce(zones[i := z]) == InForce(zones) - Part(zones[i]) + Part(z)
  {
    hide Part;
    var last := |zones| - 1;
    var front := zones[..last];
    var added := Part(z);
    if i == last {
      assert zones[i := z][..last] == front;
      Undo(InForce(front), Part(zones[last]), added);
    } else {
      assert zones[i := z][..last] == front[i := z];
      InForceUpdate(front, i, z);
      Exchange(InForce(front), Part(zones[last]), Part(zones[i]), added);
    }
  }

  lemma Undo(a: multiset<Rect>, b: multiset<Rect>, c: multiset<Rect>)
    ensures b <= a + b && a + c == a + b - b + c
  {}

  /** A change of the zones, and what it does to a bounded multiset. */
  datatype Change = Add(rect: Rect) | Delete(rect: Rect)

  function Apply(m: multiset<Rect>, c: Change): multiset<Rect> {
    match c
    case Add(r) => if |m| < 15 then m + multiset{r} else m
    case Delete(r) => m - multiset{r}
  }

  class ZoneTable {
    const zone: array<Zone>

    ghost predicate Valid() {
      zone.Length == MAX_PENETRATION_REGION
    }

    ghost function Zones(): multiset<Rect>
      reads zone
    {
      InForce(zone[..])
    }

    constructor ()
      ensures Valid() && Zones() == multiset{} && fresh(zone)
    {
      zone := new Zone[MAX_PENETRATION_REGION](_ => Zone(false, Rect(0, 0, 0, 0)));
      new;
      assert forall i | 0 <= i < |zone[..]| :: !zone[..][i].used;
      NoneInForce(zone[..]);
    }

    /** addMaskZone: one more copy, exactly when a slot is free. */
    method AddMaskZone(r: Rect) returns (ret: bool)
      requires Valid()
      modifies zone
      ensures ret == (|old(Zones())| < 15)
      ensures Zones() == if ret then old(Zones()) + multiset{r} else old(Zones())
    {
      hide Count, InForce;
      InForceSize(zone[..]);
      CountFull(zone[..]);
      for i := 0 to MAX_PENETRATION_REGION
        invariant forall j | 0 <= j < i :: zone[j].used
        invariant zone[..] == old(zone[..])
      {
        if !zone[i].used {
          assert !zone[..][i].used;
          InForceUpdate(zone[..], i, Zone(true, r));
          zone[i] := Zone(true, r);
          assert zone[..] == old(zone[..])[i := Zone(true, r)];
          return true;
        }
      }
      return false;
    }

    /** deleteMaskZone: one copy less, exactly when there is one. */
    method DeleteMaskZone(r: Rect) returns (ret: bool)
      requires Valid()
      modifies zone
      ensures ret == (r in old(Zones()))
      ensures Zones() == if ret then old(Zones()) - multiset{r} else old(Zones())
    {
      InForceMember(zone[..], r);
      for i := 0 to MAX_PENETRATION_REGION
        invariant forall j | 0 <= j < i :: zone[j] != Zone(true, r)
        invariant zone[..] == old(zone[..])
      {
        if zone[i].used && zone[i].rect.x1 == r.x1 && zone[i].rect.y1 == r.y1
          && zone[i].rect.x2 == r.x2 && zone[i].rect.y2 == r.y2
        {
          InForceUpdate(zone[..], i, zone[i].(used := false));
          assert zone[..][i] == Zone(true, r);
          zone[i] := zone[i].(used := false);
          assert zone[..] == old(zone[..])[i := Zone(false, r)];
          return true;
        }
      }
      return false;
    }

    method Make(c: Change)
      requires Valid()
      modifies zone
      ensures Zones() == Apply(old(Zones()), c)
    {
      hide InForce;
      match c {
        case Add(r) =>
          var _ := AddMaskZone(r);
        case Delete(r) =>
          ghost var was := Zones();
          var ok := DeleteMaskZone(r);
          assert !ok ==> was - multiset{r} == was;
      }
    }

    /** The loop of isPointDownInsideOsdRegion: membership in the union of the rectangles. */
    method PointInside(x: int, y: int) returns (inside: bool)
      requires Valid()
      ensures inside == Masked(Zones(), x, y)
      ensures inside <==> exists r | r in Zones() :: r.x1 <= x <= r.x2 && r.y1 <= y <= r.y2
    {
      for i := 0 to MAX_PENETRATION_REGION
        invariant forall j | 0 <= j < i :: !(zone[j].used && zone[j].rect.Contains(x, y))
      {
        if zone[i].used && (x >= zone[i].rect.x1 && x <= zone[i].rect.x2)
          && y >= zone[i].rect.y1 && y <= zone[i].rect.y2
        {
          InForceMember(zone[..], zone[i].rect);
          assert zone[..][i] == Zone(true, zone[i].rect);
          return true;
        }
      }
      forall r | r in Zones() ensures !r.Contains(x, y) {
        InForceMember(zone[..], r);
      }
      return false;
    }
  }

  lemma {:induction false} NoneInForce(zones: seq<Zone>)
    requires forall i | 0 <= i < |zones| :: !zones[i].used
    ensures InForce(zones) == multiset{}
  {
    if zones != [] {
      NoneInForce(zones[..|zones| - 1]);
    }
  }

  /** Any history of additions and deletions on an empty table, on a bounded multiset. */
  function ApplyAll(changes: seq<Change>): multiset<Rect> {
    if changes == [] then multiset{} else Apply(ApplyAll(changes[..|changes| - 1]), changes[|changes| - 1])
  }

  method Replay(changes: seq<Change>, x: int, y: int) returns (inside: bool)
    ensures inside <==> exists r | r in ApplyAll(changes) :: r.x1 <= x <= r.x2 && r.y1 <= y <= r.y2
  {
    var table := new ZoneTable();
    for i := 0 to |changes|
      invariant fresh(table.zone) && table.Valid()
      invariant table.Zones() == ApplyAll(changes[..i])
    {
      assert changes[..i + 1][..i] == changes[..i];
      table.Make(changes[i]);
    }
    assert changes[..|changes|] == changes;
    inside := table.PointInside(x, y);
  }
}
