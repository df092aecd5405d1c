/** Screen geometry: the 0..65535 grid, edge detection and the entry point of a jump. */
module Geometry {

  datatype Rect = Rect(left: int, top: int, right: int, bottom: int)

  const COORD_MAX := 65535
  const SKIP_PIXELS := 1
  const JUMP_PIXELS := 2

  /** Go's integer division, which truncates toward zero. */
  function TruncDiv(a: int, b: int): int
    requires b > 0
  {
    if a >= 0 then a / b else -((-a) / b)
  }

  function Normalize(p: int, lo: int, hi: int): int {
    if hi <= lo then 0 else
      var q := if p < lo then lo else p;
      var r := if q >= hi then hi - 1 else q;
      TruncDiv((r - lo) * COORD_MAX, hi - lo)
  }

  function Denormalize(v: int, lo: int, hi: int): int {
    var w := if v < 0 then 0 else v;
    var u := if w > COORD_MAX then COORD_MAX else w;
    lo + TruncDiv(u * (hi - lo), COORD_MAX)
  }

  // Division facts, one inequality at a time.

  lemma DivBounds(a: int, b: int)
    requires a >= 0 && b > 0
    ensures b * (a / b) <= a < b * (a / b) + b
    ensures a / b >= 0
  {
  }

  lemma MulMono(k: int, a: int, b: int)
    requires k >= 0 && a <= b
    ensures k * a <= k * b
  {
  }

  /** a / b >= q exactly when a >= b * q. */
  lemma DivAtLeast(a: int, b: int, q: int)
    requires a >= 0 && b > 0
    ensures a / b >= q <==> a >= b * q
  {
    DivBounds(a, b);
    if a / b >= q { MulMono(b, q, a / b); }
    if a / b < q { MulMono(b, a / b + 1, q); }
  }

  lemma NormalizeMonotone(p: int, q: int, lo: int, hi: int)
    requires p <= q
    ensures Normalize(p, lo, hi) <= Normalize(q, lo, hi)
    ensures 0 <= Normalize(p, lo, hi) < COORD_MAX
  {
    if lo < hi {
      var a, b := Inside(p, lo, hi) - lo, Inside(q, lo, hi) - lo;
      DivBounds(a * COORD_MAX, hi - lo);
      DivAtLeast(b * COORD_MAX, hi - lo, a * COORD_MAX / (hi - lo));
      DivAtLeast(a * COORD_MAX, hi - lo, COORD_MAX);
    }
  }

  function Inside(p: int, lo: int, hi: int): (r: int)
    requires lo < hi
    ensures lo <= r < hi
  {
    if p < lo then lo else if p >= hi then hi - 1 else p
  }

  lemma DenormalizeMonotone(v: int, u: int, lo: int, hi: int)
    requires v <= u && lo <= hi
    ensures Denormalize(v, lo, hi) <= Denormalize(u, lo, hi)
  {
    var a, b := OnGrid(v), OnGrid(u);
    MulMono(hi - lo, a, b);
    MulMono(hi - lo, 0, a);
    DivBounds(a * (hi - lo), COORD_MAX);
    DivAtLeast(b * (hi - lo), COORD_MAX, a * (hi - lo) / COORD_MAX);
  }

  function OnGrid(v: int): (r: int)
    ensures 0 <= r <= COORD_MAX
  {
    if v < 0 then 0 else if v > COORD_MAX then COORD_MAX else v
  }

  /** A pixel sent over the grid comes back inside the screen and at most ceil(span/65535) to the left of itself;
      so on spans up to 65535 it loses at most one pixel. */
  lemma GridRoundTrip(p: int, lo: int, hi: int)
    requires lo <= p < hi
    ensures var q := Denormalize(Normalize(p, lo, hi), lo, hi);
            lo <= q < hi && p - (hi - lo + COORD_MAX - 1) / COORD_MAX <= q <= p
    ensures hi - lo <= COORD_MAX ==> Denormalize(Normalize(p, lo, hi), lo, hi) in {p - 1, p}
  {
    var w, d := hi - lo, p - lo;
    NormalizeMonotone(p, p, lo, hi);
    var n := d * COORD_MAX / w;
    assert Normalize(p, lo, hi) == n;
    DivBounds(d * COORD_MAX, w);
    MulMono(w, 0, n);
    var back := n * w / COORD_MAX;
    assert Denormalize(n, lo, hi) == lo + back;
    DivBounds(n * w, COORD_MAX);
    assert back <= d by { DivAtLeast(n * w, COORD_MAX, d + 1); }
    var c := (w + COORD_MAX - 1) / COORD_MAX;
    DivBounds(w + COORD_MAX - 1, COORD_MAX);
    assert n * w > d * COORD_MAX - w >= (d - c) * COORD_MAX - COORD_MAX + 1 - 1;
    assert back >= d - c by { DivAtLeast(n * w, COORD_MAX, d - c); }
  }

  /** The way back from the grid stays on the screen except at the last grid point, which lands one past it. */
  lemma DenormalizeRange(v: int, lo: int, hi: int)
    requires lo < hi
    ensures lo <= Denormalize(v, lo, hi) <= hi
    ensures Denormalize(v, lo, hi) < hi <==> v < COORD_MAX
  {
    var u, w := OnGrid(v), hi - lo;
    MulMono(w, 0, u);
    MulMono(w, u, COORD_MAX);
    if u < COORD_MAX { MulMono(w, u, COORD_MAX - 1); }
    assert Denormalize(v, lo, hi) == lo + u * w / COORD_MAX;
    DivAtLeast(u * w, COORD_MAX, 0);
    DivAtLeast(u * w, COORD_MAX, w);
    DivAtLeast(u * w, COORD_MAX, w + 1);
  }

  // Edges.

  datatype Edge = EdgeNone | EdgeLeft | EdgeRight | EdgeTop | EdgeBottom

  function DetectEdge(x: int, y: int, b: Rect, skip: int): Edge {
    if x < b.left + skip then EdgeLeft
    else if x >= b.right - skip then EdgeRight
    else if y < b.top + skip then EdgeTop
    else if y >= b.bottom - skip then EdgeBottom
    else EdgeNone
  }

  /** A coordinate lies in one of the two trigger strips of its axis. */
  predicate Triggers(c: int, lo: int, hi: int) {
    c < lo + SKIP_PIXELS || c >= hi - SKIP_PIXELS
  }

  function JumpNorm(jump: int, span: int): int {
    if span <= 0 then 2 else
      var j := TruncDiv(jump * COORD_MAX, span);
      if j > 2 then j else 2
  }

  function EntryForJump(x: int, y: int, from: Rect, edge: Edge, jump: int): (int, int) {
    var k := if jump < 1 then 1 else jump;
    var jx, jy := JumpNorm(k, from.right - from.left), JumpNorm(k, from.bottom - from.top);
    match edge
    case EdgeRight => (jx, Normalize(y, from.top, from.bottom))
    case EdgeLeft => (COORD_MAX - jx, Normalize(y, from.top, from.bottom))
    case EdgeBottom => (Normalize(x, from.left, from.right), jy)
    case EdgeTop => (Normalize(x, from.left, from.right), COORD_MAX - jy)
    case EdgeNone => (0, 0)
  }

  lemma JumpNormRange(w: int)
    requires w >= 4
    ensures var j := JumpNorm(JUMP_PIXELS, w);
            && 2 <= j <= COORD_MAX / 2
            && j * w > COORD_MAX
  {
    var q := JUMP_PIXELS * COORD_MAX / w;
    DivBounds(JUMP_PIXELS * COORD_MAX, w);
    DivAtLeast(JUMP_PIXELS * COORD_MAX, w, COORD_MAX / 2 + 1);
    if w <= COORD_MAX {
      DivAtLeast(JUMP_PIXELS * COORD_MAX, w, 2);
    }
  }

  lemma InsetProduct(j: int, w: int)
    requires 2 <= j <= COORD_MAX / 2 && w >= 4
    ensures 0 <= j * w && 2 * (j * w) < COORD_MAX * w && (COORD_MAX - j) * w == COORD_MAX * w - j * w
  {
    MulMono(w, 0, j);
    MulMono(w, j, COORD_MAX / 2);
  }

  /** The pixel offsets of the two insets, for p = j*w. */
  lemma InsetQuotients(p: int, w: int)
    requires w >= 4 && 0 <= p && 2 * p < COORD_MAX * w
    ensures p / COORD_MAX < w - 1 && (p / COORD_MAX >= 1 <==> p >= COORD_MAX)
    ensures (COORD_MAX * w - p) / COORD_MAX >= 1 && ((COORD_MAX * w - p) / COORD_MAX >= w - 1 <==> p <= COORD_MAX)
  {
    DivAtLeast(p, COORD_MAX, 1);
    DivAtLeast(p, COORD_MAX, w - 1);
    DivAtLeast(COORD_MAX * w - p, COORD_MAX, 1);
    DivAtLeast(COORD_MAX * w - p, COORD_MAX, w - 1);
  }

  /** An inset of j grid steps from the low side of a span of w pixels clears both strips exactly when j*w >= 65535. */
  lemma LowEntry(j: int, lo: int, hi: int)
    requires 2 <= j <= COORD_MAX / 2 && hi - lo >= 4
    ensures !Triggers(Denormalize(j, lo, hi), lo, hi) <==> j * (hi - lo) >= COORD_MAX
  {
    var p := j * (hi - lo);
    InsetProduct(j, hi - lo);
    assert Denormalize(j, lo, hi) == lo + p / COORD_MAX;
    InsetQuotients(p, hi - lo);
  }

  /** From the high side it does exactly when j*w > 65535. */
  lemma HighEntry(j: int, lo: int, hi: int)
    requires 2 <= j <= COORD_MAX / 2 && hi - lo >= 4
    ensures !Triggers(Denormalize(COORD_MAX - j, lo, hi), lo, hi) <==> j * (hi - lo) > COORD_MAX
  {
    var p := j * (hi - lo);
    InsetProduct(j, hi - lo);
    assert Denormalize(COORD_MAX - j, lo, hi) == lo + (COORD_MAX * (hi - lo) - p) / COORD_MAX;
    InsetQuotients(p, hi - lo);
  }

  /** Where the peer's cursor lands. */
  function Landing(entry: (int, int), to: Rect): (int, int) {
    (Denormalize(entry.0, to.left, to.right), Denormalize(entry.1, to.top, to.bottom))
  }

  /** Crossing from one screen to another, the landing point is outside both trigger strips of the crossed axis exactly
      when the inset spans one peer pixel (strictly more from the high side); always, when the peer is no smaller. */
  lemma AntiBounce(x: int, y: int, from: Rect, to: Rect, edge: Edge)
    requires edge != EdgeNone
    requires if edge == EdgeLeft || edge == EdgeRight then from.right - from.left >= 4 && to.right - to.left >= 4
             else from.bottom - from.top >= 4 && to.bottom - to.top >= 4
    ensures var horizontal := edge == EdgeLeft || edge == EdgeRight;
            var (w, w') := if horizontal then (from.right - from.left, to.right - to.left)
                           else (from.bottom - from.top, to.bottom - to.top);
            var at := Landing(EntryForJump(x, y, from, edge, JUMP_PIXELS), to);
            var clear := if horizontal then !Triggers(at.0, to.left, to.right) else !Triggers(at.1, to.top, to.bottom);
            var inset := JumpNorm(JUMP_PIXELS, w) * w';
            && (clear <==> if edge == EdgeRight || edge == EdgeBottom then inset >= COORD_MAX else inset > COORD_MAX)
            && (w' >= w ==> clear)
  {
    hide Denormalize, Triggers;
    var w, h := from.right - from.left, from.bottom - from.top;
    var jx, jy := JumpNorm(JUMP_PIXELS, w), JumpNorm(JUMP_PIXELS, h);
    if edge == EdgeLeft || edge == EdgeRight {
      JumpNormRange(w);
      LowEntry(jx, to.left, to.right);
      HighEntry(jx, to.left, to.right);
      if to.right - to.left >= w { MulMono(jx, w, to.right - to.left); }
    } else {
      JumpNormRange(h);
      LowEntry(jy, to.top, to.bottom);
      HighEntry(jy, to.top, to.bottom);
      if to.bottom - to.top >= h { MulMono(jy, h, to.bottom - to.top); }
    }
  }

  /** And it fails: from a 3840 pixel wide screen into a 1280 pixel one, the pointer lands where the left edge fires. */
  lemma BouncesIntoSmaller(y: int)
    ensures var from, to := Rect(0, 0, 3840, 2160), Rect(0, 0, 1280, 720);
            var at := Landing(EntryForJump(3839, y, from, EdgeRight, JUMP_PIXELS), to);
            at.0 == 0 && DetectEdge(at.0, at.1, to, SKIP_PIXELS) == EdgeLeft
  {
    assert JumpNorm(JUMP_PIXELS, 3840) == 34 && Denormalize(34, 0, 1280) == 0;
  }

  /** Between screens of equal extent along the edge, the landing point keeps the cursor's place along it, to a pixel
      on extents up to 65535. */
  lemma LandsAlongside(x: int, y: int, from: Rect, to: Rect, edge: Edge)
    requires edge != EdgeNone && from.left <= x < from.right && from.top <= y < from.bottom
    ensures var at := Landing(EntryForJump(x, y, from, edge, JUMP_PIXELS), to);
            if edge == EdgeLeft || edge == EdgeRight then
              (to.top, to.bottom) == (from.top, from.bottom) && to.bottom - to.top <= COORD_MAX ==> at.1 in {y - 1, y}
            else
              (to.left, to.right) == (from.left, from.right) && to.right - to.left <= COORD_MAX ==> at.0 in {x - 1, x}
  {
    hide Normalize, Denormalize, JumpNorm;
    GridRoundTrip(x, from.left, from.right);
    GridRoundTrip(y, from.top, from.bottom);
  }

  /** The edge detector reports an edge exactly when the point is within a pixel of it or beyond, left before right and
      sideways before up and down. */
  lemma EdgesAreStrips(x: int, y: int, b: Rect)
    ensures var e := DetectEdge(x, y, b, SKIP_PIXELS);
            && (e == EdgeNone <==> !Triggers(x, b.left, b.right) && !Triggers(y, b.top, b.bottom))
            && (e == EdgeLeft <==> x <= b.left)
            && (e == EdgeRight <==> x > b.left && x >= b.right - 1)
            && (e == EdgeTop <==> !Triggers(x, b.left, b.right) && y <= b.top)
            && (e == EdgeBottom <==> !Triggers(x, b.left, b.right) && y > b.top && y >= b.bottom - 1)
  {
  }

  /** One leaves by the right and arrives in the left half, and so for every edge: the pointer comes in at the side
      opposite to the one it left by. */
  lemma ComesInOpposite(x: int, y: int, from: Rect, to: Rect, edge: Edge)
    requires edge != EdgeNone
    requires if edge == EdgeLeft || edge == EdgeRight then from.right - from.left >= 4 && to.right - to.left >= 4
             else from.bottom - from.top >= 4 && to.bottom - to.top >= 4
    ensures var at := Landing(EntryForJump(x, y, from, edge, JUMP_PIXELS), to);
            match edge
            case EdgeRight => 2 * (at.0 - to.left) < to.right - to.left
            case EdgeLeft => 2 * (at.0 - to.left) > to.right - to.left - 2
            case EdgeBottom => 2 * (at.1 - to.top) < to.bottom - to.top
            case EdgeTop => 2 * (at.1 - to.top) > to.bottom - to.top - 2
            case EdgeNone => true
  {
    hide Normalize, JumpNorm;
    if edge == EdgeLeft || edge == EdgeRight {
      JumpNormRange(from.right - from.left);
      HalvesOf(JumpNorm(JUMP_PIXELS, from.right - from.left), to.left, to.right);
    } else {
      JumpNormRange(from.bottom - from.top);
      HalvesOf(JumpNorm(JUMP_PIXELS, from.bottom - from.top), to.top, to.bottom);
    }
  }

  lemma HalvesOf(j: int, lo: int, hi: int)
    requires 2 <= j <= COORD_MAX / 2 && hi - lo >= 4
    ensures 2 * (Denormalize(j, lo, hi) - lo) < hi - lo
    ensures 2 * (Denormalize(COORD_MAX - j, lo, hi) - lo) > hi - lo - 2
  {
    var w, p := hi - lo, j * (hi - lo);
    InsetProduct(j, w);
    assert Denormalize(j, lo, hi) == lo + p / COORD_MAX;
    assert Denormalize(COORD_MAX - j, lo, hi) == lo + (COORD_MAX * w - p) / COORD_MAX;
    DivBounds(p, COORD_MAX);
    DivBounds(COORD_MAX * w - p, COORD_MAX);
  }

  /** An empty range normalises to zero. */
  lemma EmptyRange(p: int, lo: int, hi: int)
    requires hi <= lo
    ensures Normalize(p, lo, hi) == 0
  {
  }

  /** Division rounds toward zero on both sides of it. */
  lemma TruncatesToZero(a: int, b: int)
    requires b > 0
    ensures TruncDiv(-a, b) == -TruncDiv(a, b)
    ensures a >= 0 ==> b * TruncDiv(a, b) <= a < b * TruncDiv(a, b) + b
  {
    if a >= 0 { DivBounds(a, b); }
  }
}
