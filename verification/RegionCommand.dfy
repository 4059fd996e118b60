/** The command that tells a touch frame which screen rectangle not to pass through:
    pixel corners are scaled to the frame's 0..32767 coordinates. */
module RegionCommand {
  import opened Bytes
  import opened Geometry

  const TP_MAX := 32767
  const COMMAND_LEN := 17

  datatype Extent = Extent(width: int, height: int)

  /** The three resolutions the command knows; any other leaves all corners zero. */
  function ExtentOf(resolution: int): Option<Extent> {
    if resolution == 0 then Some(Extent(1920, 1080))
    else if resolution == 1 then Some(Extent(3840, 2160))
    else if resolution == 2 then Some(Extent(5120, 2160))
    else None
  }

  /** C division, which truncates toward zero. */
  function Quotient(a: int, b: int): int
    requires b > 0
  {
    if a >= 0 then a / b else -(-a / b)
  }

  function Scale(v: int, extent: int): int
    requires extent > 0
  {
    Quotient(v * TP_MAX, extent)
  }

  /** The pixel a scaled coordinate came from: division rounding up. */
  function Unscale(t: nat, extent: int): int
    requires extent > 0
  {
    (t * extent + TP_MAX - 1) / TP_MAX
  }

  predicate Int32(v: int) {
    -0x8000_0000 <= v < 0x8000_0000
  }

  method ScaleCorners(resolution: int, x: int, y: int, w: int, h: int) returns (xt: int, yt: int, wt: int, ht: int)
    requires Int32(x * TP_MAX) && Int32(y * TP_MAX) && Int32((x + w) * TP_MAX) && Int32((y + h) * TP_MAX)
    ensures match ExtentOf(resolution)
      case None => xt == yt == wt == ht == 0
      case Some(e) => (
        && xt == Scale(x, e.width) && yt == Scale(y, e.height)
        && wt == Scale(x + w, e.width) && ht == Scale(y + h, e.height))
  {
    xt, yt, wt, ht := 0, 0, 0, 0;
    if resolution == 0 {
      xt := Quotient(x * 32767, 1920);
      yt := Quotient(y * 32767, 1080);
      wt := Quotient((x + w) * 32767, 1920);
      ht := Quotient((y + h) * 32767, 1080);
    } else if resolution == 1 {
      xt := Quotient(x * 32767, 3840);
      yt := Quotient(y * 32767, 2160);
      wt := Quotient((x + w) * 32767, 3840);
      ht := Quotient((y + h) * 32767, 2160);
    } else if resolution == 2 {
      xt := Quotient(x * 32767, 5120);
      yt := Quotient(y * 32767, 2160);
      wt := Quotient((x + w) * 32767, 5120);
      ht := Quotient((y + h) * 32767, 2160);
    }
  }

  /** The 17 bytes of the command for scaled corners. */
  method Pack(id: int, xt: int, yt: int, wt: int, ht: int) returns (command: seq<byte>)
    ensures |command| == COMMAND_LEN && command[..7] == [0x1F, 0xF7, 0xFC, 0xB4, 0x01, 0x09, 0x00]
    ensures command[7] == id % 256
    ensures command[16] == Total(command[..16]) % 0x100
    ensures CornersOf(command) == Rect(xt % 0x1_0000, yt % 0x1_0000, wt % 0x1_0000, ht % 0x1_0000)
  {
    hide Bytes.Sum8, Bytes.Total, Bytes.Low, Bytes.High, Bytes.Word;
    HalvesOf(id);
    HalvesOf(xt);
    HalvesOf(yt);
    HalvesOf(wt);
    HalvesOf(ht);
    var p := new byte[COMMAND_LEN](_ => 0);
    CopyBytes(p, 0, [0x1F, 0xF7, 0xFC, 0xB4, 0x01, 0x09, 0x00, Low(id),
                     Low(xt), High(xt), Low(yt), High(yt), Low(wt), High(wt), Low(ht), High(ht)]);
    var sum := CalcCheckSum(p, 16);
    ghost var body := p[..16];
    p[16] := sum;
    command := p[..];
    assert command[..16] == body;
  }

  /** The corners a receiver of the command takes from it. */
  function CornersOf(command: seq<byte>): Rect
    requires |command| == COMMAND_LEN
  {
    Rect(Word(command[8], command[9]), Word(command[10], command[11]),
         Word(command[12], command[13]), Word(command[14], command[15]))
  }

  /** setNonThroughTouchRegion, up to the write of the command: the caller's values must
      not overflow the source's 32-bit products. */
  method SetNonThroughTouchRegion(id: int, resolution: int, x: int, y: int, w: int, h: int) returns (command: seq<byte>)
    requires Int32(x * TP_MAX) && Int32(y * TP_MAX) && Int32((x + w) * TP_MAX) && Int32((y + h) * TP_MAX)
    ensures |command| == COMMAND_LEN && command[..7] == [0x1F, 0xF7, 0xFC, 0xB4, 0x01, 0x09, 0x00]
    ensures command[7] == id % 256
    ensures command[16] == Total(command[..16]) % 0x100
    ensures resolution == 0 ==> CornersAt(command, x, y, w, h, 1920, 1080)
    ensures resolution == 1 ==> CornersAt(command, x, y, w, h, 3840, 2160)
    ensures resolution == 2 ==> CornersAt(command, x, y, w, h, 5120, 2160)
    ensures resolution !in {0, 1, 2} ==> forall k | 8 <= k < 16 :: command[k] == 0
    ensures match ExtentOf(resolution)
      case None => CornersOf(command) == Rect(0, 0, 0, 0)
      case Some(e) => (
        && CornersOf(command).x1 == Scale(x, e.width) % 0x1_0000
        && CornersOf(command).y1 == Scale(y, e.height) % 0x1_0000
        && CornersOf(command).x2 == Scale(x + w, e.width) % 0x1_0000
        && CornersOf(command).y2 == Scale(y + h, e.height) % 0x1_0000)
  {
    hide *;
    var xt, yt, wt, ht := ScaleCorners(resolution, x, y, w, h);
    command := Pack(id, xt, yt, wt, ht);
    CornersInBytes(command, resolution, x, y, w, h);
  }

  /** t is v scaled from `extent` pixels to 0..32767 and truncated toward zero. */
  predicate ScaledTo(t: int, v: int, extent: int) {
    if v >= 0 then t * extent <= v * 32767 < (t + 1) * extent else (t - 1) * extent < v * 32767 <= t * extent
  }

  /** Two command bytes hold the low sixteen bits of a scaled coordinate, the low byte first. */
  ghost predicate Holds(lo: byte, hi: byte, v: int, extent: int) {
    exists t :: ScaledTo(t, v, extent) && lo as int + 256 * hi as int == t % 0x1_0000
  }

  /** The corners of a rectangle on a screen of the given size. */
  ghost predicate CornersAt(command: seq<byte>, x: int, y: int, w: int, h: int, width: int, height: int) {
    && |command| == 17
    && Holds(command[8], command[9], x, width) && Holds(command[10], command[11], y, height)
    && Holds(command[12], command[13], x + w, width) && Holds(command[14], command[15], y + h, height)
  }

  lemma QuotientTruncates(a: int, b: int)
    requires b > 0
    ensures var q := Quotient(a, b);
      if a >= 0 then q * b <= a < (q + 1) * b else (q - 1) * b < a <= q * b
  {
    if a >= 0 {
      QuotientAtLeast(a, b, a / b);
      QuotientAtLeast(a, b, a / b + 1);
    } else {
      var p := -a / b;
      QuotientAtLeast(-a, b, p);
      QuotientAtLeast(-a, b, p + 1);
      assert (-p) * b == -(p * b) && (-p - 1) * b == -((p + 1) * b);
    }
  }

  lemma ScaleHolds(lo: byte, hi: byte, v: int, extent: int)
    requires extent > 0 && Word(lo, hi) == Scale(v, extent) % 0x1_0000
    ensures Holds(lo, hi, v, extent)
  {
    QuotientTruncates(v * 32767, extent);
    assert v >= 0 <==> v * 32767 >= 0;
    hide Quotient;
    assert ScaledTo(Scale(v, extent), v, extent);
  }

  lemma CornersHold(command: seq<byte>, e: Extent, x: int, y: int, w: int, h: int)
    requires |command| == COMMAND_LEN && e.width > 0 && e.height > 0
    requires CornersOf(command).x1 == Scale(x, e.width) % 0x1_0000
    requires CornersOf(command).y1 == Scale(y, e.height) % 0x1_0000
    requires CornersOf(command).x2 == Scale(x + w, e.width) % 0x1_0000
    requires CornersOf(command).y2 == Scale(y + h, e.height) % 0x1_0000
    ensures CornersAt(command, x, y, w, h, e.width, e.height)
  {
    hide Scale, Word, Holds;
    ScaleHolds(command[8], command[9], x, e.width);
    ScaleHolds(command[10], command[11], y, e.height);
    ScaleHolds(command[12], command[13], x + w, e.width);
    ScaleHolds(command[14], command[15], y + h, e.height);
  }

  lemma CornersInBytes(command: seq<byte>, resolution: int, x: int, y: int, w: int, h: int)
    requires |command| == COMMAND_LEN
    requires match ExtentOf(resolution)
      case None => CornersOf(command) == Rect(0, 0, 0, 0)
      case Some(e) => (
        && CornersOf(command).x1 == Scale(x, e.width) % 0x1_0000
        && CornersOf(command).y1 == Scale(y, e.height) % 0x1_0000
        && CornersOf(command).x2 == Scale(x + w, e.width) % 0x1_0000
        && CornersOf(command).y2 == Scale(y + h, e.height) % 0x1_0000)
    ensures |command| == 17
    ensures resolution == 0 ==> CornersAt(command, x, y, w, h, 1920, 1080)
    ensures resolution == 1 ==> CornersAt(command, x, y, w, h, 3840, 2160)
    ensures resolution == 2 ==> CornersAt(command, x, y, w, h, 5120, 2160)
    ensures resolution !in {0, 1, 2} ==> forall k | 8 <= k < 16 :: command[k] == 0
  {
    hide CornersAt, Scale;
    if ExtentOf(resolution).Some? {
      CornersHold(command, ExtentOf(resolution).value, x, y, w, h);
    }
  }

  lemma HalvesOf(v: int)
    ensures Word(Low(v), High(v)) == v % 0x1_0000 && Low(v) == v % 256
  {}

  // ------------------------------------------------------------ on the screen

  lemma QuotientAtLeast(n: nat, d: nat, k: nat)
    requires d > 0
    ensures k * d <= n <==> k <= n / d
  {
    var q := n / d;
    assert q * d <= n < (q + 1) * d;
    if k <= q {
      assert k * d <= q * d;
    } else {
      assert (q + 1) * d <= k * d;
    }
  }

  lemma ScaleInRange(v: int, extent: int)
    requires 0 <= v <= extent && extent > 0
    ensures 0 <= Scale(v, extent) <= TP_MAX
  {
    QuotientAtLeast(v * TP_MAX, extent, 0);
    QuotientAtLeast(v * TP_MAX, extent, TP_MAX + 1);
  }

  /** Distinct pixels get distinct, equally ordered coordinates. */
  lemma ScaleIsStrict(a: int, b: int, extent: int)
    requires 0 <= a < b && 0 < extent <= TP_MAX
    ensures Scale(a, extent) < Scale(b, extent)
  {
    var p: nat := a * TP_MAX / extent;
    QuotientAtLeast(a * TP_MAX, extent, p);
    assert (p + 1) * extent == p * extent + extent;
    QuotientAtLeast(b * TP_MAX, extent, p + 1);
  }

  /** Rounding up undoes the scaling, on the screen and beyond it. */
  lemma UnscaleInverts(v: int, extent: int)
    requires 0 <= v && 0 < extent <= TP_MAX
    ensures Scale(v, extent) >= 0 && Unscale(Scale(v, extent), extent) == v
  {
    var t := v * TP_MAX / extent;
    var r := v * TP_MAX % extent;
    assert v * TP_MAX == t * extent + r;
    assert t * extent + TP_MAX - 1 == v * TP_MAX + (TP_MAX - 1 - r);
    assert t >= 0;
  }

  predicate OnScreen(e: Extent, x: int, y: int, w: int, h: int) {
    0 <= x && 0 <= w && x + w <= e.width && 0 <= y && 0 <= h && y + h <= e.height
  }

  /** Region command round trip, in each of the three resolutions. */
  method RegionRoundTrip(id: int, resolution: int, x: int, y: int, w: int, h: int) returns (corners: Rect)
    requires ExtentOf(resolution).Some? && OnScreen(ExtentOf(resolution).value, x, y, w, h)
    ensures var e := ExtentOf(resolution).value;
      && 0 <= corners.x1 <= corners.x2 <= TP_MAX && 0 <= corners.y1 <= corners.y2 <= TP_MAX
      && Rect(Unscale(corners.x1, e.width), Unscale(corners.y1, e.height),
              Unscale(corners.x2, e.width), Unscale(corners.y2, e.height)) == Rect(x, y, x + w, y + h)
    ensures var e := ExtentOf(resolution).value; forall px, py | 0 <= px && 0 <= py ::
      Rect(x, y, x + w, y + h).Contains(px, py) <==> corners.Contains(Scale(px, e.width), Scale(py, e.height))
  {
    hide *;
    var e := ExtentOf(resolution).value;
    ScreenFits(resolution, x, y, w, h);
    var command := SetNonThroughTouchRegion(id, resolution, x, y, w, h);
    corners := CornersOf(command);
    CornersAreExact(e, x, y, w, h);
    WordsAreScaled(e, Rect(x, y, x + w, y + h), corners);
  }

  /** On-screen rectangles keep the command's products within 32 bits. */
  lemma ScreenFits(resolution: int, x: int, y: int, w: int, h: int)
    requires ExtentOf(resolution).Some? && OnScreen(ExtentOf(resolution).value, x, y, w, h)
    ensures Int32(x * TP_MAX) && Int32(y * TP_MAX) && Int32((x + w) * TP_MAX) && Int32((y + h) * TP_MAX)
    ensures 0 < ExtentOf(resolution).value.width <= TP_MAX && 0 < ExtentOf(resolution).value.height <= TP_MAX
  {}

  /** Corners in range survive the truncation to 16 bits. */
  lemma WordsAreScaled(e: Extent, r: Rect, words: Rect)
    requires e.width > 0 && e.height > 0
    requires var t := Scaled(e, r); 0 <= t.x1 <= t.x2 <= TP_MAX && 0 <= t.y1 <= t.y2 <= TP_MAX
    requires words.x1 == Scale(r.x1, e.width) % 0x1_0000 && words.y1 == Scale(r.y1, e.height) % 0x1_0000
    requires words.x2 == Scale(r.x2, e.width) % 0x1_0000 && words.y2 == Scale(r.y2, e.height) % 0x1_0000
    ensures words == Scaled(e, r)
  {
    hide Scale;
  }

  ghost function Scaled(e: Extent, r: Rect): Rect
    requires e.width > 0 && e.height > 0
  {
    Rect(Scale(r.x1, e.width), Scale(r.y1, e.height), Scale(r.x2, e.width), Scale(r.y2, e.height))
  }

  lemma CornersAreExact(e: Extent, x: int, y: int, w: int, h: int)
    requires 0 < e.width <= TP_MAX && 0 < e.height <= TP_MAX && OnScreen(e, x, y, w, h)
    ensures var r := Scaled(e, Rect(x, y, x + w, y + h));
      && 0 <= r.x1 <= r.x2 <= TP_MAX && 0 <= r.y1 <= r.y2 <= TP_MAX
      && Unscale(r.x1, e.width) == x && Unscale(r.y1, e.height) == y
      && Unscale(r.x2, e.width) == x + w && Unscale(r.y2, e.height) == y + h
      && forall px, py | 0 <= px && 0 <= py ::
        Rect(x, y, x + w, y + h).Contains(px, py) <==> r.Contains(Scale(px, e.width), Scale(py, e.height))
  {
    var r := Scaled(e, Rect(x, y, x + w, y + h));
    ScaleInRange(x, e.width); ScaleInRange(x + w, e.width);
    ScaleInRange(y, e.height); ScaleInRange(y + h, e.height);
    UnscaleInverts(x, e.width); UnscaleInverts(x + w, e.width);
    UnscaleInverts(y, e.height); UnscaleInverts(y + h, e.height);
    ScaleOrder(x, x + w, e.width);
    ScaleOrder(y, y + h, e.height);
    forall px, py | 0 <= px && 0 <= py
      ensures Rect(x, y, x + w, y + h).Contains(px, py) <==> r.Contains(Scale(px, e.width), Scale(py, e.height))
    {
      ScaleOrder(x, px, e.width); ScaleOrder(px, x + w, e.width);
      ScaleOrder(y, py, e.height); ScaleOrder(py, y + h, e.height);
    }
  }

  lemma ScaleOrder(a: int, b: int, extent: int)
    requires 0 <= a && 0 <= b && 0 < extent <= TP_MAX
    ensures a <= b <==> Scale(a, extent) <= Scale(b, extent)
  {
    if a < b {
      ScaleIsStrict(a, b, extent);
    } else if b < a {
      ScaleIsStrict(b, a, extent);
    }
  }
}
