// The size of the blocks and of the grid that a kernel is launched with. The macros work on C
// ints, and on floats where a quotient or a root is rounded up; here those are reals.

module Launch {
  import opened Arithmetic

  const MIN_BLOCKS := 28

  /** The multiple of 32 at or below n: n & ~31. */
  function Truncate32(n: nat): (r: nat)
    ensures r % 32 == 0 && r <= n < r + 32
  {
    n / 32 * 32
  }

  /** The value of (int)ceil(q) for q >= 0. */
  function Ceil(q: real): (c: nat)
    requires q >= 0.0
    ensures c as real - 1.0 < q <= c as real
  {
    if q.Floor as real == q then q.Floor else q.Floor + 1
  }

  /** The value of (int)ceil(sqrt((float)t)), the root being exact. */
  function CeilSqrt(t: nat): (s: nat)
    ensures t <= s * s && forall r: nat | r < s :: r * r < t
  {
    CeilSqrtFrom(t, 0)
  }

  function CeilSqrtFrom(t: nat, k: nat): (s: nat)
    requires forall r: nat | r < k :: r * r < t
    ensures t <= s * s && forall r: nat | r < s :: r * r < t
    decreases t - k * k
  {
    if t <= k * k then k
    else
      assert (k + 1) * (k + 1) == k * k + 2 * k + 1;
      CeilSqrtFrom(t, k + 1)
  }

  lemma CeilSqrtAtMost(t: nat)
    ensures CeilSqrt(t) <= t
  {
    var s := CeilSqrt(t);
    assert t < s ==> t * t < t;
    Below(1, if t > 0 then t else 1, t);
  }

  function Min(a: int, b: int): int { if a > b then b else a }

  function Max(a: int, b: int): int { if a > b then a else b }

  /** P4A_min and P4A_max of an int and a float, assigned to an int. */
  function MinTruncated(a: int, q: real): int { if a as real > q then q.Floor else a }

  function MaxTruncated(a: int, q: real): int { if a as real > q then a else q.Floor }

  /** With a quotient of ints they are the minimum and maximum with the integer quotient. */
  lemma TruncatedQuotient(a: nat, t: nat, b: nat)
    requires b > 0
    ensures MinTruncated(a, t as real / b as real) == Min(a, t / b)
    ensures MaxTruncated(a, t as real / b as real) == Max(a, t / b)
  {
    Quotient(t, b);
    RealQuotient(t, b, t / b, t as real / b as real);
  }

  // ----- the number of threads of a block, and of blocks -----

  /** Blocks of b cover n points along one axis, and no block is superfluous. */
  ghost predicate Covers(n: nat, b: nat, g: nat) {
    b > 0 && n <= g * b < n + b
  }

  lemma CeilDivCovers(n: nat, b: nat)
    requires b > 0
    ensures Covers(n, b, (n + b - 1) / b)
  {
    Quotient(n + b - 1, b);
  }

  /** When few threads do for a block, many blocks are needed. */
  lemma ManyBlocks(points: nat, room: nat, tpb: nat, blocks: nat)
    requires MIN_BLOCKS * (tpb - 1) < points <= blocks * room && room <= tpb && tpb >= MIN_BLOCKS
    ensures blocks >= MIN_BLOCKS
  {
    if blocks < MIN_BLOCKS {
      Below(blocks, MIN_BLOCKS - 1, room);
    }
  }

  // ----- one dimension -----

  lemma OneBlock(size: nat, tpb: nat, grid: nat)
    requires 0 < size < tpb && grid == (size + tpb - 1) / tpb
    ensures grid == 1
  {
    Quotient(size + tpb - 1, tpb);
    QuotientUnique(size + tpb - 1, tpb, grid, 1);
  }

  /** A block of one dimension: all points when they are at most 32, or else a multiple of 32
      within the limit; more than 32 only if 28 such blocks fit the points; and 32 more would
      exceed the limit, or be too large for that. */
  ghost predicate IsBlock1d(maxThreads: nat, size: nat, block: nat) {
    if size <= 32 then block == size
    else
      && 32 <= block <= size && block % 32 == 0
      && (block == 32 || (block <= maxThreads && 28 * block <= size))
      && (block + 32 <= maxThreads ==> size < 28 * (block + 32))
  }

  lemma BlockUnique1d(maxThreads: nat, size: nat, block: nat, block': nat)
    requires IsBlock1d(maxThreads, size, block) && IsBlock1d(maxThreads, size, block')
    ensures block == block'
  {
  }

  lemma GridUnique(n: nat, b: nat, g: nat, g': nat)
    requires Covers(n, b, g) && Covers(n, b, g')
    ensures g == g'
  {
    if g < g' {
      Below(g + 1, g', b);
      Distribute(g, 1, b);
    } else if g' < g {
      Below(g' + 1, g, b);
      Distribute(g', 1, b);
    }
  }

  /** P4A_create_1d_thread_descriptors of CUDA. */
  method Create1d(maxThreads: nat, size: nat) returns (block: nat, grid: nat)
    requires size > 0
    ensures IsBlock1d(maxThreads, size, block) && Covers(size, block, grid)
    ensures size >= 896 ==> grid >= 28
  {
    var tpb := Min(maxThreads, size / MIN_BLOCKS);
    tpb := Truncate32(tpb);
    tpb := Max(tpb, 32);
    block := Min(size, tpb);
    grid := (size + tpb - 1) / tpb;
    CeilDivCovers(size, tpb);
    if size < tpb {
      OneBlock(size, tpb, grid);
    }
    if size >= 896 {
      ManyBlocks(size, tpb, tpb, grid);
    }
  }

  // ----- two dimensions -----

  /** A number of threads for a block: a multiple of 32; more than 32 only within the limit and
      if 28 blocks of one thread less do not reach all points; and 32 more would exceed the
      limit, or be more than 28 blocks need. */
  ghost predicate IsThreads(maxThreads: nat, points: nat, tpb: nat) {
    && tpb >= 32 && tpb % 32 == 0
    && (tpb == 32 || (tpb <= maxThreads && 28 * (tpb - 1) < points))
    && (tpb + 32 <= maxThreads ==> points <= 28 * (tpb + 31))
  }

  lemma ThreadsUnique(maxThreads: nat, points: nat, tpb: nat, tpb': nat)
    requires IsThreads(maxThreads, points, tpb) && IsThreads(maxThreads, points, tpb')
    ensures tpb == tpb'
  {
  }

  /** The threads that the two-dimensional macros give a block. */
  method ThreadsFor2d(maxThreads: nat, nx: nat, ny: nat) returns (tpb: nat)
    requires nx > 0 && ny > 0
    ensures IsThreads(maxThreads, nx * ny, tpb)
  {
    var points := nx * ny;
    var wanted := Ceil(points as real / MIN_BLOCKS as real);
    Wanted(points, wanted);
    tpb := Min(maxThreads, wanted);
    tpb := Truncate32(tpb);
    tpb := Max(tpb, 32);
  }

  lemma Wanted(n: nat, c: nat)
    requires c as real - 1.0 < n as real / MIN_BLOCKS as real <= c as real
    ensures MIN_BLOCKS * (c - 1) < n <= MIN_BLOCKS * c
  {
  }

  /** The width that the block starts with. */
  function FirstWidth(tpb: nat, nx: nat): (w: nat)
    requires nx > 0
    ensures w > 0
  {
    Min(nx, Max(CeilSqrt(tpb), 32))
  }

  /** The same by inequalities: a square block as far as possible, at least 32 wide, but no
      wider than the points. */
  ghost predicate IsFirstWidth(tpb: nat, nx: nat, f: nat) {
    && 0 < f <= nx
    && (f == nx || (f >= 32 && f * f >= tpb))
    && (f <= 32 || (f - 1) * (f - 1) < tpb)
  }

  lemma FirstWidthIs(tpb: nat, nx: nat)
    requires nx > 0
    ensures IsFirstWidth(tpb, nx, FirstWidth(tpb, nx))
  {
    var s, f := CeilSqrt(tpb), FirstWidth(tpb, nx);
    if 32 < f {
      assert f - 1 < s;
    }
    if f < nx {
      assert f >= s;
      Below(s, f, s);
      Below(s, f, f);
    }
  }

  lemma FirstWidthUnique(tpb: nat, nx: nat, f: nat, g: nat)
    requires IsFirstWidth(tpb, nx, f) && IsFirstWidth(tpb, nx, g)
    ensures f == g
  {
    if f < g {
      Below(f, g - 1, f);
      Below(f, g - 1, g - 1);
    } else if g < f {
      Below(g, f - 1, g);
      Below(g, f - 1, f - 1);
    }
  }

  /** What makes a block of tpb threads from that width f: as high as the points and f leave
      room for, and as wide as the height then leaves room for. */
  ghost predicate IsBlockFrom(tpb: nat, ny: nat, f: nat, w: nat, h: nat) {
    && 0 < h <= ny && h * f <= tpb && (h == ny || tpb < (h + 1) * f)
    && IsQuotient(tpb, h, w)
  }

  ghost predicate IsBlock(tpb: nat, nx: nat, ny: nat, w: nat, h: nat) {
    exists f :: IsFirstWidth(tpb, nx, f) && IsBlockFrom(tpb, ny, f, w, h)
  }

  lemma BlockUniqueFrom(tpb: nat, ny: nat, f: nat, w: nat, h: nat, w': nat, h': nat)
    requires f > 0 && IsBlockFrom(tpb, ny, f, w, h) && IsBlockFrom(tpb, ny, f, w', h')
    ensures w == w' && h == h'
  {
    if h < h' {
      Below(h + 1, h', f);
    } else if h' < h {
      Below(h' + 1, h, f);
    }
    QuotientUnique(tpb, h, w, w');
  }

  /** The number of threads and of points fixes the block. */
  lemma BlockUnique(tpb: nat, nx: nat, ny: nat, w: nat, h: nat, w': nat, h': nat)
    requires IsBlock(tpb, nx, ny, w, h) && IsBlock(tpb, nx, ny, w', h')
    ensures w == w' && h == h'
  {
    hide IsFirstWidth, IsBlockFrom;
    var f: nat :| IsFirstWidth(tpb, nx, f) && IsBlockFrom(tpb, ny, f, w, h);
    var g: nat :| IsFirstWidth(tpb, nx, g) && IsBlockFrom(tpb, ny, g, w', h');
    FirstWidthUnique(tpb, nx, f, g);
    FirstWidthPositive(tpb, nx, f);
    BlockUniqueFrom(tpb, ny, f, w, h, w', h');
  }

  lemma FirstWidthPositive(tpb: nat, nx: nat, f: nat)
    requires IsFirstWidth(tpb, nx, f)
    ensures f > 0 && f >= Min(nx, 32)
  {
  }

  lemma WholeRows(t: nat, f: nat, w: nat, h: nat)
    requires f > 0 && h > 0 && h * f <= t && IsQuotient(t, h, w)
    ensures w >= f && w * h <= t < 2 * (w * h)
  {
    assert h * f == f * h;
    QuotientLargest(t, h, w, f);
    Below(1, w, h);
  }

  /** Every block is at least as wide as a warp or the points, within its threads, and uses more
      than half of them. */
  lemma BlockIsLarge(tpb: nat, nx: nat, ny: nat, w: nat, h: nat)
    requires IsBlock(tpb, nx, ny, w, h)
    ensures w >= Min(nx, 32) && h > 0 && w * h <= tpb < 2 * (w * h)
  {
    hide IsFirstWidth, IsQuotient;
    var f: nat :| IsFirstWidth(tpb, nx, f) && IsBlockFrom(tpb, ny, f, w, h);
    FirstWidthPositive(tpb, nx, f);
    WholeRows(tpb, f, w, h);
  }

  /** For 512 threads and many points, 32 by 16. */
  lemma BlockOf512(w: nat, h: nat)
    requires IsBlock(512, 1000, 1000, w, h)
    ensures w == 32 && h == 16
  {
    assert IsFirstWidth(512, 1000, 32) && IsBlockFrom(512, 1000, 32, 32, 16);
    BlockUnique(512, 1000, 1000, w, h, 32, 16);
  }

  /** The block of the two-dimensional macros of CUDA and OpenCL. */
  method Block2d(tpb: nat, nx: nat, ny: nat) returns (w: nat, h: nat)
    requires nx > 0 && ny > 0 && tpb >= 32
    ensures IsBlock(tpb, nx, ny, w, h)
  {
    hide IsBlock;
    w := Max(CeilSqrt(tpb), 32);
    w := Min(nx, w);
    ghost var first := w;
    FirstFits(tpb, nx, first);
    TruncatedQuotient(ny, tpb, w);
    h := MinTruncated(ny, tpb as real / w as real);
    TruncatedQuotient(w, tpb, h);
    w := MaxTruncated(w, tpb as real / h as real);
    BlockIs(tpb, nx, ny, w, h);
  }

  lemma FirstFits(tpb: nat, nx: nat, first: nat)
    requires nx > 0 && tpb >= 32 && first == FirstWidth(tpb, nx)
    ensures 1 <= tpb / first
  {
    CeilSqrtAtMost(tpb);
    Quotient(tpb, first);
    QuotientLargest(tpb, first, tpb / first, 1);
  }

  lemma BlockIs(tpb: nat, nx: nat, ny: nat, w: nat, h: nat)
    requires nx > 0 && ny > 0 && tpb >= 32
    requires var first := FirstWidth(tpb, nx);
             1 <= tpb / first && h == Min(ny, tpb / first) && w == Max(first, tpb / h)
    ensures IsBlock(tpb, nx, ny, w, h)
  {
    hide FirstWidth, IsFirstWidth;
    var first := FirstWidth(tpb, nx);
    FirstWidthIs(tpb, nx);
    FitsBlock(tpb, first, h);
    Quotient(tpb, first);
    Distribute(tpb / first, 1, first);
    assert IsBlockFrom(tpb, ny, first, w, h);
  }

  /** A height that a width leaves room for leaves room for that width. */
  lemma FitsBlock(tpb: nat, first: nat, h: nat)
    requires 0 < first && 0 < h <= tpb / first
    ensures h * first <= tpb && first <= tpb / h && IsQuotient(tpb, h, tpb / h)
  {
    Quotient(tpb, first);
    Quotient(tpb, h);
    var w := tpb / h;
    QuotientLargest(tpb, first, tpb / first, h);
    QuotientLargest(tpb, h, w, first);
  }

  /** P4A_create_2d_thread_descriptors of CUDA. */
  method Create2d(maxThreads: nat, nx: nat, ny: nat) returns (tpb: nat, w: nat, h: nat, gx: nat, gy: nat)
    requires nx > 0 && ny > 0
    ensures IsThreads(maxThreads, nx * ny, tpb) && IsBlock(tpb, nx, ny, w, h)
    ensures Covers(nx, w, gx) && Covers(ny, h, gy)
    ensures nx * ny >= 896 ==> gx * gy >= 28
  {
    hide IsBlock;
    tpb := ThreadsFor2d(maxThreads, nx, ny);
    w, h := Block2d(tpb, nx, ny);
    BlockIsLarge(tpb, nx, ny, w, h);
    gx := (nx + w - 1) / w;
    gy := (ny + h - 1) / h;
    CeilDivCovers(nx, w);
    CeilDivCovers(ny, h);
    AreaCovered(nx, ny, w, h, gx, gy);
    if nx * ny >= 896 {
      ManyBlocks(nx * ny, w * h, tpb, gx * gy);
    }
  }

  lemma AreaCovered(nx: nat, ny: nat, w: nat, h: nat, gx: nat, gy: nat)
    requires nx <= gx * w && ny <= gy * h
    ensures nx * ny <= (gx * gy) * (w * h)
  {
    Below(nx, gx * w, ny);
    Below(ny, gy * h, gx * w);
    Interchange(gx, w, gy, h);
  }

  lemma Interchange(a: nat, b: nat, c: nat, d: nat)
    ensures (a * b) * (c * d) == (a * c) * (b * d)
  {
  }

  /** P4A_create_3d_thread_descriptors of CUDA: the third dimension is not blocked. */
  method Create3d(maxThreads: nat, nx: nat, ny: nat, nz: nat)
    returns (tpb: nat, w: nat, h: nat, d: nat, gx: nat, gy: nat, gz: nat)
    requires nx > 0 && ny > 0 && nz > 0
    ensures IsThreads(maxThreads, nx * ny, tpb) && IsBlock(tpb, nx, ny, w, h)
    ensures Covers(nx, w, gx) && Covers(ny, h, gy) && Covers(nz, d, gz) && d == 1
    ensures nx * ny >= 896 ==> gx * gy * gz >= 28 * nz
  {
    hide IsBlock;
    tpb, w, h, gx, gy := Create2d(maxThreads, nx, ny);
    d := 1;
    gz := nz;
    if nx * ny >= 896 {
      Below(MIN_BLOCKS, gx * gy, nz);
    }
  }

  // ----- OpenCL -----

  /** The least multiple of b strictly above n. */
  ghost predicate IsLeastMultipleAbove(n: nat, b: nat, s: nat) {
    n < s && (exists k: nat :: s == k * b) && forall k: nat :: k * b <= n || s <= k * b
  }

  lemma RoundedUp(n: nat, b: nat)
    requires b > 0
    ensures IsLeastMultipleAbove(n, b, n + b - n % b)
  {
    var q := n / b;
    assert n == q * b + n % b;
    Distribute(q, 1, b);
    var s := n + b - n % b;
    assert s == (q + 1) * b;
    forall k: nat
      ensures k * b <= n || s <= k * b
    {
      if k <= q {
        Below(k, q, b);
      } else {
        Below(q + 1, k, b);
      }
    }
  }

  /** The work-group and the global sizes of P4A_create_2d_thread_descriptors of OpenCL. The
      global size is a multiple of the group's, as section 5.8 of the OpenCL 1.1 specification
      asks, and strictly above the number of points along both axes. */
  method CreateOpenCl2d(maxThreads: nat, nx: nat, ny: nat) returns (tpb: nat, w: nat, h: nat, sx: nat, sy: nat)
    requires nx > 0 && ny > 0
    ensures IsThreads(maxThreads, nx * ny, tpb) && IsBlock(tpb, nx, ny, w, h)
    ensures IsLeastMultipleAbove(nx, w, sx) && IsLeastMultipleAbove(ny, h, sy)
  {
    hide IsBlock, IsLeastMultipleAbove;
    tpb := ThreadsFor2d(maxThreads, nx, ny);
    w, h := Block2d(tpb, nx, ny);
    BlockIsLarge(tpb, nx, ny, w, h);
    RoundedUp(nx, w);
    RoundedUp(ny, h);
    sx := nx + w - nx % w;
    sy := ny + h - ny % h;
  }
}
