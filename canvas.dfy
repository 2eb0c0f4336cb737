/**
 * The canvas engine of backend/canvas.cpp: a 50 x 50 grid of pixels that
 * users paint under a freeze flag, a bounds check and a per-user cooldown,
 * three quest counters, a chat log of at most 100 messages, periodic
 * snapshots and the end-of-episode reset. The wall clock is a parameter,
 * and each of the three background threads becomes one method that does
 * a single iteration of its loop.
 */
module CanvasEngine {
  import opened Common
  import opened CanvasTypes
  import opened Snapshot
  import opened DbFormat
  import Store

  const CANVAS_SIZE: int := 50
  /** Seconds an episode lasts. */
  const EPISODE_DURATION: int := 900
  /** Seconds between two placements by the same logged-in user, and by the same guest id. */
  const USER_COOLDOWN: int := 5
  const GUEST_COOLDOWN: int := 10
  /** Chat messages kept. */
  const CHAT_LIMIT: nat := 100
  /** Palette indexes the engine relies on: white for an empty cell, blue for the first quest. */
  const WHITE_INDEX: uint8 := 15
  const BLUE_INDEX: uint8 := 2
  /** The rotation `seasonLoop` steps through. */
  const SEASONS: seq<Season> := [Bloom, Frost, Warm, Calm]

  function Min(a: int, b: int): int { if a < b then a else b }
  function Max(a: int, b: int): int { if a < b then b else a }

  // ----- the grid -----

  predicate InGrid(row: int, col: int)
  {
    0 <= row < CANVAS_SIZE && 0 <= col < CANVAS_SIZE
  }

  /** The cell at column `x`, row `y` of an empty canvas: white, calm, never placed. */
  function Blank(x: int32, y: int32): Pixel
  {
    Pixel(x, y, WHITE_INDEX, CALM, 0, 0)
  }

  predicate IsGrid(g: array2<Pixel>)
  {
    g.Length0 == CANVAS_SIZE && g.Length1 == CANVAS_SIZE
  }

  /** Every cell records its own place: row `r`, column `c` holds a pixel with `y == r` and `x == c`. */
  ghost predicate Located(g: array2<Pixel>)
    reads g
  {
    IsGrid(g) && forall r, c :: InGrid(r, c) ==> g[r, c].x == c && g[r, c].y == r
  }

  /** Every cell is the blank pixel of its place. */
  ghost predicate IsBlank(g: array2<Pixel>)
    reads g
  {
    IsGrid(g) && forall r, c :: InGrid(r, c) ==> g[r, c] == Blank(c, r)
  }

  lemma BlankIsLocated(g: array2<Pixel>)
    requires IsBlank(g)
    ensures Located(g)
  {
  }

  // ----- row-major traversal -----

  /** The (row, column) places of row `row`, columns `x0 .. x1 - 1`, left to right. */
  function RowCoords(row: int, x0: int, x1: int): (cs: seq<(int, int)>)
    ensures |cs| == if x0 <= x1 then x1 - x0 else 0
    ensures forall k :: 0 <= k < |cs| ==> cs[k] == (row, x0 + k)
    decreases x1 - x0
  {
    if x1 <= x0 then [] else RowCoords(row, x0, x1 - 1) + [(row, x1 - 1)]
  }

  /** The places of rows `y0 .. y1 - 1`, columns `x0 .. x1 - 1`, in row-major order. */
  function Coords(y0: int, y1: int, x0: int, x1: int): (cs: seq<(int, int)>)
    ensures forall k :: 0 <= k < |cs| ==> y0 <= cs[k].0 < y1 && x0 <= cs[k].1 < x1
    decreases y1 - y0
  {
    if y1 <= y0 then [] else Coords(y0, y1 - 1, x0, x1) + RowCoords(y1 - 1, x0, x1)
  }

  lemma {:induction false} CoordsLength(y0: int, y1: int, x0: int, x1: int)
    requires y0 <= y1 && x0 <= x1
    ensures |Coords(y0, y1, x0, x1)| == (y1 - y0) * (x1 - x0)
    decreases y1 - y0
  {
    if y0 < y1 {
      CoordsLength(y0, y1 - 1, x0, x1);
      var n, w := y1 - 1 - y0, x1 - x0;
      assert (n + 1) * w == n * w + w;
    }
  }

  lemma {:induction false} MulMonotone(a: int, b: int, w: int)
    requires 0 <= a <= b && 0 <= w
    ensures a * w <= b * w
  {
    assert b * w == a * w + (b - a) * w;
  }

  /**
   * Row-major order: the place `(j, i)` comes at position
   * `(j - y0) * (x1 - x0) + (i - x0)`.
   */
  lemma {:induction false} CoordsRowMajor(y0: int, y1: int, x0: int, x1: int, j: int, i: int)
    requires y0 <= j < y1 && x0 <= i < x1
    ensures |Coords(y0, y1, x0, x1)| == (y1 - y0) * (x1 - x0)
    ensures 0 <= (j - y0) * (x1 - x0) + (i - x0) < |Coords(y0, y1, x0, x1)|
    ensures Coords(y0, y1, x0, x1)[(j - y0) * (x1 - x0) + (i - x0)] == (j, i)
    decreases y1 - y0
  {
    var w := x1 - x0;
    CoordsLength(y0, y1, x0, x1);
    CoordsLength(y0, y1 - 1, x0, x1);
    var front := Coords(y0, y1 - 1, x0, x1);
    assert Coords(y0, y1, x0, x1) == front + RowCoords(y1 - 1, x0, x1);
    MulMonotone(0, j - y0, w);
    if j == y1 - 1 {
      assert |front| == (j - y0) * w;
    } else {
      CoordsRowMajor(y0, y1 - 1, x0, x1, j, i);
      MulMonotone(j - y0 + 1, y1 - 1 - y0, w);
      assert (j - y0 + 1) * w == (j - y0) * w + w;
    }
  }

  /** Row-major order from the origin: the place `(r, c)` comes at position `r * w + c`. */
  lemma CoordsFromOrigin(h: int, w: int, r: int, c: int)
    requires 0 <= r < h && 0 <= c < w
    ensures |Coords(0, h, 0, w)| == h * w
    ensures 0 <= r * w + c < h * w && Coords(0, h, 0, w)[r * w + c] == (r, c)
  {
    CoordsRowMajor(0, h, 0, w, r, c);
  }

  predicate AllInGrid(cs: seq<(int, int)>)
  {
    forall k :: 0 <= k < |cs| ==> InGrid(cs[k].0, cs[k].1)
  }

  /** The pixels at the places `cs`, in that order. */
  function Cells(g: array2<Pixel>, cs: seq<(int, int)>): (ps: seq<Pixel>)
    reads g
    requires IsGrid(g) && AllInGrid(cs)
    ensures |ps| == |cs|
  {
    seq(|cs|, k requires 0 <= k < |cs| reads g => g[cs[k].0, cs[k].1])
  }

  lemma CellsAppend(g: array2<Pixel>, a: seq<(int, int)>, b: seq<(int, int)>)
    requires IsGrid(g) && AllInGrid(a) && AllInGrid(b)
    ensures AllInGrid(a + b)
    ensures Cells(g, a + b) == Cells(g, a) + Cells(g, b)
  {
  }

  /** The pixels of row `row`, columns `x0 .. x1 - 1`, as the inner loops collect them. */
  function RowCells(g: array2<Pixel>, row: int, x0: int, x1: int): (ps: seq<Pixel>)
    reads g
    requires IsGrid(g) && 0 <= x0 && (x0 < x1 ==> 0 <= row < CANVAS_SIZE && x1 <= CANVAS_SIZE)
    decreases x1 - x0
  {
    if x1 <= x0 then [] else RowCells(g, row, x0, x1 - 1) + [g[row, x1 - 1]]
  }

  /** The pixels of rows `y0 .. y1 - 1`, columns `x0 .. x1 - 1`, as the nested loops collect them. */
  function RegionCells(g: array2<Pixel>, y0: int, y1: int, x0: int, x1: int): (ps: seq<Pixel>)
    reads g
    requires IsGrid(g) && 0 <= y0 && 0 <= x0 && (y0 < y1 && x0 < x1 ==> y1 <= CANVAS_SIZE && x1 <= CANVAS_SIZE)
    decreases y1 - y0
  {
    if y1 <= y0 then [] else RegionCells(g, y0, y1 - 1, x0, x1) + RowCells(g, y1 - 1, x0, x1)
  }

  lemma {:induction false} RowCellsAreCells(g: array2<Pixel>, row: int, x0: int, x1: int)
    requires IsGrid(g) && 0 <= x0 && (x0 < x1 ==> 0 <= row < CANVAS_SIZE && x1 <= CANVAS_SIZE)
    ensures AllInGrid(RowCoords(row, x0, x1))
    ensures RowCells(g, row, x0, x1) == Cells(g, RowCoords(row, x0, x1))
    decreases x1 - x0
  {
    if x0 < x1 {
      RowCellsAreCells(g, row, x0, x1 - 1);
      CellsAppend(g, RowCoords(row, x0, x1 - 1), [(row, x1 - 1)]);
    }
  }

  /** The loops collect exactly the pixels at the places of `Coords`. */
  lemma {:induction false} RegionCellsAreCells(g: array2<Pixel>, y0: int, y1: int, x0: int, x1: int)
    requires IsGrid(g) && 0 <= y0 && 0 <= x0 && (y0 < y1 && x0 < x1 ==> y1 <= CANVAS_SIZE && x1 <= CANVAS_SIZE)
    ensures AllInGrid(Coords(y0, y1, x0, x1))
    ensures RegionCells(g, y0, y1, x0, x1) == Cells(g, Coords(y0, y1, x0, x1))
    decreases y1 - y0
  {
    if y0 < y1 {
      RegionCellsAreCells(g, y0, y1 - 1, x0, x1);
      RowCellsAreCells(g, y1 - 1, x0, x1);
      CellsAppend(g, Coords(y0, y1 - 1, x0, x1), RowCoords(y1 - 1, x0, x1));
    }
  }

  /** What `getAllPixelsUnlocked` returns: the whole grid, row by row. */
  ghost function GridPixels(g: array2<Pixel>): seq<Pixel>
    reads g
    requires IsGrid(g)
  {
    Cells(g, Coords(0, g.Length0, 0, g.Length1))
  }

  /** The grid read as 2500 pixels in row-major order. */
  lemma {:induction false} GridPixelsRowMajor(g: array2<Pixel>)
    requires IsGrid(g)
    ensures |GridPixels(g)| == CANVAS_SIZE * CANVAS_SIZE
    ensures forall r, c :: InGrid(r, c) ==> GridPixels(g)[r * CANVAS_SIZE + c] == g[r, c]
  {
    CoordsLength(0, g.Length0, 0, g.Length1);
    forall r, c | InGrid(r, c)
      ensures GridPixels(g)[r * CANVAS_SIZE + c] == g[r, c]
    {
      CoordsFromOrigin(g.Length0, g.Length1, r, c);
    }
  }

  /**
   * The places `getRegion(x, y, width, height)` reads, as written: rows
   * from `y` and columns from `x`, each up to the rectangle's end or the
   * grid's edge. Nothing stops a negative `x` or `y`.
   */
  function RegionAsWritten(x: int, y: int, width: int, height: int): (cs: seq<(int, int)>)
    ensures 0 <= x && 0 <= y ==> cs == Region(x, y, width, height)
  {
    Coords(y, Min(y + height, CANVAS_SIZE), x, Min(x + width, CANVAS_SIZE))
  }

  /** A region whose origin is one column left of the grid reads outside it. */
  lemma NegativeOriginEscapes()
    ensures (0, -1) in RegionAsWritten(-1, 0, 2, 1)
    ensures !InGrid(0, -1)
  {
    assert RegionAsWritten(-1, 0, 2, 1) == RowCoords(0, -1, 1);
    assert RowCoords(0, -1, 1)[0] == (0, -1);
  }

  /**
   * The places a region read covers once its origin is clamped to the
   * grid: the part of the rectangle that lies on the grid, row-major.
   */
  function Region(x: int, y: int, width: int, height: int): (cs: seq<(int, int)>)
    ensures AllInGrid(cs)
    ensures forall k :: 0 <= k < |cs| ==> y <= cs[k].0 < y + height && x <= cs[k].1 < x + width
  {
    Coords(Max(y, 0), Min(y + height, CANVAS_SIZE), Max(x, 0), Min(x + width, CANVAS_SIZE))
  }

  /** On a grid whose cells record their places, every pixel of a region lies in the rectangle asked for. */
  lemma {:induction false} RegionPixelsInside(g: array2<Pixel>, x: int, y: int, width: int, height: int)
    requires Located(g)
    ensures forall p :: p in Cells(g, Region(x, y, width, height)) ==>
      x <= p.x < x + width && y <= p.y < y + height && InGrid(p.y, p.x)
  {
    var cs := Region(x, y, width, height);
    forall p | p in Cells(g, cs)
      ensures x <= p.x < x + width && y <= p.y < y + height && InGrid(p.y, p.x)
    {
      var k :| 0 <= k < |cs| && Cells(g, cs)[k] == p;
      assert p == g[cs[k].0, cs[k].1];
    }
  }

  /**
   * The image `endEpisode` exports shows every cell in its palette colour:
   * the grid holds one pixel per place, so the last pixel at a place is
   * the cell itself.
   */
  lemma {:induction false} ExportShowsGrid(g: array2<Pixel>, r: int, c: int, k: int)
    requires Located(g) && InGrid(r, c) && 0 <= k < 3
    ensures 0 <= Offset(c, r, CANVAS_SIZE) && Offset(c, r, CANVAS_SIZE) + k < CANVAS_SIZE * CANVAS_SIZE * 3
    ensures Render(GridPixels(g), CANVAS_SIZE, CANVAS_SIZE)[Offset(c, r, CANVAS_SIZE) + k]
        == Channel(GetRGB(g[r, c].color), k)
  {
    var cs := Coords(0, g.Length0, 0, g.Length1);
    CoordsFromOrigin(g.Length0, g.Length1, r, c);
    assert cs[r * g.Length1 + c] == (r, c);
    LastIsCell(g, cs, r, c);
    assert LastAt(GridPixels(g), c, r) == Some(g[r, c]);
    RenderCell(GridPixels(g), CANVAS_SIZE, CANVAS_SIZE, c, r, k);
  }

  /**
   * Scanning the pixels at distinct places from the end, the last one at
   * `(c, r)` is the cell of row `r`, column `c`.
   */
  lemma {:induction false} LastIsCell(g: array2<Pixel>, cs: seq<(int, int)>, r: int, c: int)
    requires Located(g) && AllInGrid(cs) && InGrid(r, c)
    ensures LastAt(Cells(g, cs), c, r) == if (r, c) in cs then Some(g[r, c]) else None
    decreases |cs|
  {
    if cs != [] {
      var init := cs[..|cs| - 1];
      assert AllInGrid(init);
      assert Cells(g, cs)[..|cs| - 1] == Cells(g, init);
      LastIsCell(g, init, r, c);
      assert cs == init + [cs[|cs| - 1]];
    }
  }

  // ----- quests -----

  /** The quests a new canvas starts with; `updateQuests` tests them in this order. */
  const INITIAL_QUESTS: seq<Quest> := [
    Quest("Place 40 blue pixels", 0, 40, false),
    Quest("Fill top-left 10x10 area", 0, 100, false),
    Quest("Place 20 calm pixels", 0, 20, false)
  ]

  /**
   * `q` is quest `initial` part-way through: same description and target,
   * progress within the target and complete exactly at it.
   */
  predicate QuestOk(q: Quest, initial: Quest)
  {
    q.description == initial.description && q.target == initial.target
    && 0 <= q.progress <= q.target && (q.completed <==> q.progress == q.target)
  }

  predicate QuestsOk(qs: seq<Quest>)
  {
    |qs| == 3 && forall i :: 0 <= i < 3 ==> QuestOk(qs[i], INITIAL_QUESTS[i])
  }

  /**
   * One quest block of `updateQuests`: a matching placement counts while
   * the quest is open, and the count reaching the target completes it.
   */
  function Advance(q: Quest, hit: bool): (r: Quest)
    ensures r.description == q.description && r.target == q.target
    ensures q.completed || !hit ==> r == q
  {
    if hit && !q.completed then
      var p := q.progress + 1;
      q.(progress := p, completed := p >= q.target)
    else q
  }

  /** The quests after a placement at `(x, y)` with `color` and `mood`. */
  function Progressed(qs: seq<Quest>, x: int, y: int, color: uint8, mood: uint8): (r: seq<Quest>)
    requires |qs| == 3
    ensures |r| == 3
    ensures QuestsOk(qs) ==> QuestsOk(r)
    ensures forall i :: 0 <= i < 3 && qs[i].completed ==> r[i] == qs[i]
  {
    [Advance(qs[0], color == BLUE_INDEX), Advance(qs[1], x < 10 && y < 10), Advance(qs[2], mood == CALM)]
  }

  /** The quest after a run of placements, each matching it or not. */
  function AdvanceAll(q: Quest, hits: seq<bool>): Quest
    decreases |hits|
  {
    if hits == [] then q else AdvanceAll(Advance(q, hits[0]), hits[1..])
  }

  function Hits(hits: seq<bool>): nat
    decreases |hits|
  {
    if hits == [] then 0 else (if hits[0] then 1 else 0) + Hits(hits[1..])
  }

  /**
   * A quest counts matching placements up to its target and then stays
   * complete: after any run of placements its progress is the smaller of
   * the target and the old progress plus the matches.
   */
  lemma {:induction false} QuestCountsToTarget(q: Quest, initial: Quest, hits: seq<bool>)
    requires QuestOk(q, initial)
    ensures QuestOk(AdvanceAll(q, hits), initial)
    ensures AdvanceAll(q, hits).progress == Min(q.progress + Hits(hits), q.target)
    ensures q.completed ==> AdvanceAll(q, hits) == q
    decreases |hits|
  {
    if hits != [] {
      QuestCountsToTarget(Advance(q, hits[0]), initial, hits[1..]);
    }
  }

  /** The quests after `resetCanvas`: every count and completion flag cleared. */
  function ClearQuests(qs: seq<Quest>): (r: seq<Quest>)
    ensures |r| == |qs|
  {
    seq(|qs|, i requires 0 <= i < |qs| => qs[i].(progress := 0, completed := false))
  }

  /** Clearing the quests gives back exactly those a new canvas starts with. */
  lemma ClearedQuestsAreInitial(qs: seq<Quest>)
    requires QuestsOk(qs)
    ensures ClearQuests(qs) == INITIAL_QUESTS
  {
    assert QuestOk(qs[0], INITIAL_QUESTS[0]) && QuestOk(qs[1], INITIAL_QUESTS[1]);
    assert QuestOk(qs[2], INITIAL_QUESTS[2]);
  }

  // ----- placement rules -----

  function CooldownOf(isLoggedIn: bool): int
  {
    if isLoggedIn then USER_COOLDOWN else GUEST_COOLDOWN
  }

  /**
   * `placePixel`'s three checks: the episode is not frozen, the place is on
   * the grid, and the user's last placement (if any) is at least a cooldown
   * ago in unsigned 64-bit time.
   */
  predicate Admits(frozen: bool, cooldowns: map<uint32, uint64>, x: int, y: int,
                   userId: uint32, isLoggedIn: bool, now: uint64)
  {
    !frozen && InGrid(y, x)
    && !(userId in cooldowns && Sub64(now, cooldowns[userId]) < CooldownOf(isLoggedIn))
  }

  /** A placement at `t` blocks the same id until a cooldown has passed, and only until then. */
  lemma CooldownWindow(cooldowns: map<uint32, uint64>, x: int, y: int, userId: uint32,
                       isLoggedIn: bool, t: uint64, now: uint64)
    requires InGrid(y, x) && t <= now
    ensures Admits(false, cooldowns[userId := t], x, y, userId, isLoggedIn, now)
        <==> now - t >= CooldownOf(isLoggedIn)
  {
  }

  /**
   * A clock that went back before the last placement wraps the unsigned
   * difference around, so the user may place again at once.
   */
  lemma ClockBackAdmits(cooldowns: map<uint32, uint64>, x: int, y: int, userId: uint32,
                        isLoggedIn: bool, t: uint64, now: uint64)
    requires InGrid(y, x) && now < t && t - now <= TWO_TO_64 - CooldownOf(isLoggedIn)
    ensures Admits(false, cooldowns[userId := t], x, y, userId, isLoggedIn, now)
  {
  }

  // ----- episode clock and seasons -----

  /** `int elapsed = now - episodeStartTime_`: the unsigned difference truncated to a 32-bit `int`. */
  function Elapsed(start: uint64, now: uint64): int32
  {
    ToInt32(Sub64(now, start))
  }

  predicate EpisodeOver(start: uint64, now: uint64)
  {
    Elapsed(start, now) >= EPISODE_DURATION
  }

  /** The season index after `n` steps of `seasonLoop`'s counter, which starts at 0. */
  function SeasonIndexAfter(n: nat): (i: int)
    ensures 0 <= i < 4
  {
    if n == 0 then 0 else (SeasonIndexAfter(n - 1) + 1) % 4
  }

  /**
   * The `n`-th season change sets season `n mod 4`: the first one gives
   * Frost although a new canvas starts in Calm, and Bloom comes back every
   * fourth change.
   */
  lemma {:induction false} SeasonCycle(n: nat)
    ensures SeasonIndexAfter(n) == n % 4
    ensures n >= 1 ==> SEASONS[SeasonIndexAfter(n)] != Calm || n % 4 == 3
    ensures SEASONS[SeasonIndexAfter(1)] == Frost && SEASONS[SeasonIndexAfter(4)] == Bloom
  {
    if n > 0 {
      SeasonCycle(n - 1);
    }
    assert SeasonIndexAfter(1) == 1;
    assert SeasonIndexAfter(4) == 0 by {
      assert SeasonIndexAfter(2) == 2;
      assert SeasonIndexAfter(3) == 3;
    }
  }

  // ----- the engine -----

  class Canvas {
    const db: Store.Database
    /** `canvas_[row][column]`. */
    var grid: array2<Pixel>
    var episodeNumber: uint32
    var episodeStartTime: uint64
    var episodeFrozen: bool
    /** The time of each user's last placement; every guest shares id 0. */
    var cooldowns: map<uint32, uint64>
    var currentSeason: Season
    var quests: seq<Quest>
    var chatMessages: seq<ChatMessage>
    var snapshots: seq<seq<Pixel>>

    /** The grid is 50 x 50 with every cell at its place, the quests are on track and the chat is bounded. */
    ghost predicate Valid()
      reads this, grid
    {
      Located(grid) && QuestsOk(quests) && |chatMessages| <= CHAT_LIMIT
    }

    /** Episode 1, not started, in Calm, with a blank grid and the three quests at zero. */
    constructor(db: Store.Database)
      ensures Valid() && this.db == db && fresh(grid) && IsBlank(grid)
      ensures episodeNumber == 1 && episodeStartTime == 0 && !episodeFrozen && currentSeason == Calm
      ensures cooldowns == map[] && quests == INITIAL_QUESTS && chatMessages == [] && snapshots == []
    {
      this.db := db;
      episodeNumber := 1;
      episodeStartTime := 0;
      episodeFrozen := false;
      currentSeason := Calm;
      cooldowns := map[];
      quests := INITIAL_QUESTS;
      chatMessages := [];
      snapshots := [];
      grid := new Pixel[CANVAS_SIZE, CANVAS_SIZE];
      new;
      ClearGrid();
    }

    /** Sets every cell to its blank pixel, row by row. */
    method ClearGrid()
      requires IsGrid(grid)
      modifies grid
      ensures IsBlank(grid)
    {
      var i := 0;
      while i < CANVAS_SIZE
        invariant 0 <= i <= CANVAS_SIZE
        invariant forall r, c :: InGrid(r, c) && r < i ==> grid[r, c] == Blank(c, r)
      {
        var j := 0;
        while j < CANVAS_SIZE
          invariant 0 <= j <= CANVAS_SIZE
          invariant forall r, c :: InGrid(r, c) && r < i ==> grid[r, c] == Blank(c, r)
          invariant forall c :: 0 <= c < j ==> grid[i, c] == Blank(c, i)
        {
          grid[i, j] := Blank(j, i);
          j := j + 1;
        }
        i := i + 1;
      }
    }

    /**
     * Paints one cell when the episode is running, the place is on the grid
     * and the user is out of cooldown; otherwise changes nothing.
     */
    method PlacePixel(x: int32, y: int32, color: uint8, mood: uint8, userId: uint32,
                      isLoggedIn: bool, now: uint64) returns (ok: bool)
      requires Valid()
      modifies this, grid
      ensures Valid() && grid == old(grid)
      ensures ok <==> Admits(old(episodeFrozen), old(cooldowns), x, y, userId, isLoggedIn, now)
      ensures !ok ==> unchanged(this) && unchanged(grid)
      ensures ok ==> grid[y, x] == Pixel(x, y, color, mood, now, userId)
      ensures ok ==> forall r, c :: InGrid(r, c) && (r, c) != (y as int, x as int) ==> grid[r, c] == old(grid[r, c])
      ensures ok ==> cooldowns == old(cooldowns)[userId := now]
      ensures ok ==> quests == Progressed(old(quests), x, y, color, mood)
      ensures ok ==> (episodeNumber == old(episodeNumber) && episodeStartTime == old(episodeStartTime)
        && !episodeFrozen && currentSeason == old(currentSeason)
        && chatMessages == old(chatMessages) && snapshots == old(snapshots))
    {
      if episodeFrozen {
        return false;
      }
      if x < 0 || x >= CANVAS_SIZE as int32 || y < 0 || y >= CANVAS_SIZE as int32 {
        return false;
      }
      var cooldown := if isLoggedIn then USER_COOLDOWN else GUEST_COOLDOWN;
      if userId in cooldowns {
        if Sub64(now, cooldowns[userId]) < cooldown {
          return false;
        }
      }
      grid[y, x] := Pixel(x, y, color, mood, now, userId);
      cooldowns := cooldowns[userId := now];
      UpdateQuests(x, y, color, mood);
      return true;
    }

    /** The three quest blocks of `updateQuests`, each counting while its quest is open. */
    method UpdateQuests(x: int32, y: int32, color: uint8, mood: uint8)
      requires |quests| == 3
      modifies this
      ensures quests == Progressed(old(quests), x, y, color, mood)
      ensures grid == old(grid) && episodeNumber == old(episodeNumber)
        && episodeStartTime == old(episodeStartTime) && episodeFrozen == old(episodeFrozen)
        && cooldowns == old(cooldowns) && currentSeason == old(currentSeason)
        && chatMessages == old(chatMessages) && snapshots == old(snapshots)
    {
      AdvanceQuest(0, color == BLUE_INDEX);
      AdvanceQuest(1, x < 10 && y < 10);
      AdvanceQuest(2, mood == CALM);
    }

    /** One quest block: count a matching placement while quest `i` is open, and complete it at the target. */
    method AdvanceQuest(i: int, hit: bool)
      requires 0 <= i < |quests|
      modifies this
      ensures quests == old(quests)[i := Advance(old(quests)[i], hit)]
      ensures grid == old(grid) && episodeNumber == old(episodeNumber)
        && episodeStartTime == old(episodeStartTime) && episodeFrozen == old(episodeFrozen)
        && cooldowns == old(cooldowns) && currentSeason == old(currentSeason)
        && chatMessages == old(chatMessages) && snapshots == old(snapshots)
    {
      if hit && !quests[i].completed {
        quests := quests[i := quests[i].(progress := quests[i].progress + 1)];
        if quests[i].progress >= quests[i].target {
          quests := quests[i := quests[i].(completed := true)];
        }
      }
    }

    /**
     * The cells of the rectangle at `(x, y)` of `width` by `height` that lie
     * on the grid, row by row. The origin is clamped to the grid, which the
     * source leaves out (see `RegionAsWritten`).
     */
    method GetRegion(x: int32, y: int32, width: int32, height: int32) returns (result: seq<Pixel>)
      requires Valid()
      ensures result == Cells(grid, Region(x, y, width, height))
    {
      var x0, y0 := Max(x, 0), Max(y, 0);
      var endX, endY := Min(x + width, CANVAS_SIZE), Min(y + height, CANVAS_SIZE);
      result := [];
      var j := y0;
      while j < endY
        invariant y0 <= j <= Max(y0, endY)
        invariant result == RegionCells(grid, y0, j, x0, endX)
      {
        result := CollectRow(result, j, x0, endX);
        j := j + 1;
      }
      RegionCellsAreCells(grid, y0, j, x0, endX);
    }

    /** The inner loop of both grid reads: appends row `j`, columns `x0 .. x1 - 1`, to `acc`. */
    method CollectRow(acc: seq<Pixel>, j: int, x0: int, x1: int) returns (result: seq<Pixel>)
      requires IsGrid(grid) && 0 <= x0 && (x0 < x1 ==> 0 <= j < CANVAS_SIZE && x1 <= CANVAS_SIZE)
      ensures result == acc + RowCells(grid, j, x0, x1)
    {
      result := acc;
      var i := x0;
      while i < x1
        invariant x0 <= i <= Max(x0, x1)
        invariant result == acc + RowCells(grid, j, x0, i)
      {
        result := result + [grid[j, i]];
        i := i + 1;
      }
    }

    /** The whole grid, row by row. */
    method AllPixels() returns (result: seq<Pixel>)
      requires IsGrid(grid)
      ensures result == GridPixels(grid)
    {
      result := [];
      var j := 0;
      while j < CANVAS_SIZE
        invariant 0 <= j <= CANVAS_SIZE
        invariant result == RegionCells(grid, 0, j, 0, CANVAS_SIZE)
      {
        result := CollectRow(result, j, 0, CANVAS_SIZE);
        j := j + 1;
      }
      RegionCellsAreCells(grid, 0, grid.Length0, 0, grid.Length1);
    }

    /** The episode number, the seconds left (never negative) and whether placements are frozen. */
    function GetEpisodeInfo(now: uint64): (info: EpisodeInfo)
      reads this
      ensures info.episodeNumber == episodeNumber
      ensures info.isFrozen == episodeFrozen && info.isActive == !info.isFrozen
      ensures 0 <= info.timeRemaining
      ensures info.timeRemaining == 0 <==> EpisodeOver(episodeStartTime, now)
      ensures episodeStartTime <= now < episodeStartTime + 0x8000_0000 ==>
        info.timeRemaining == Max(0, EPISODE_DURATION - (now - episodeStartTime))
    {
      var elapsed := Elapsed(episodeStartTime, now);
      EpisodeInfo(episodeNumber, Max(0, EPISODE_DURATION - elapsed), !episodeFrozen, episodeFrozen)
    }

    /** Appends a message and drops the oldest once there are more than 100. */
    method AddChatMessage(username: string, message: string, now: uint64)
      requires Valid()
      modifies this
      ensures Valid()
      ensures chatMessages == KeepLatest(old(chatMessages), ChatMessage(username, message, now), CHAT_LIMIT)
      ensures grid == old(grid) && episodeNumber == old(episodeNumber)
        && episodeStartTime == old(episodeStartTime) && episodeFrozen == old(episodeFrozen)
        && cooldowns == old(cooldowns) && currentSeason == old(currentSeason)
        && quests == old(quests) && snapshots == old(snapshots)
    {
      chatMessages := chatMessages + [ChatMessage(username, message, now)];
      if |chatMessages| > CHAT_LIMIT {
        chatMessages := chatMessages[1..];
      }
    }

    /** Blanks the grid, clears every quest's progress and forgets all cooldowns. */
    method ResetCanvas()
      requires IsGrid(grid)
      modifies this, grid
      ensures grid == old(grid) && IsBlank(grid)
      ensures quests == ClearQuests(old(quests)) && cooldowns == map[]
      ensures episodeNumber == old(episodeNumber) && episodeStartTime == old(episodeStartTime)
        && episodeFrozen == old(episodeFrozen) && currentSeason == old(currentSeason)
        && chatMessages == old(chatMessages) && snapshots == old(snapshots)
    {
      ClearGrid();
      var qs, i := quests, 0;
      while i < |qs|
        invariant 0 <= i <= |qs| == |quests|
        invariant forall k :: 0 <= k < i ==> qs[k] == quests[k].(progress := 0, completed := false)
        invariant forall k :: i <= k < |qs| ==> qs[k] == quests[k]
      {
        qs := qs[i := qs[i].(progress := 0, completed := false)];
        i := i + 1;
      }
      quests := qs;
      cooldowns := map[];
    }

    /**
     * The state changes of `endEpisode`: the grid as it stands is exported,
     * the episode is recorded in the database, and the canvas is reset for
     * the next episode, which starts at `restartTime`. `endTime` is the clock
     * when the episode is saved.
     */
    method EndEpisode(endTime: uint64, restartTime: uint64) returns (image: seq<uint8>)
      requires Valid()
      modifies this, grid, db
      ensures Valid() && grid == old(grid)
      ensures image == Render(old(GridPixels(grid)), CANVAS_SIZE, CANVAS_SIZE)
      ensures db.episodes == KeepLatest(old(db.episodes),
        EpisodeMetadata(old(episodeNumber), old(episodeStartTime), endTime), Store.HISTORY_LIMIT)
      ensures db.users == old(db.users) && db.sessions == old(db.sessions)
        && db.nextUserId == old(db.nextUserId) && db.emailToUserId == old(db.emailToUserId)
        && db.userIdIndex == old(db.userIdIndex)
      ensures IsBlank(grid) && quests == INITIAL_QUESTS && cooldowns == map[] && snapshots == []
      ensures episodeNumber == Increment(old(episodeNumber)) && episodeStartTime == restartTime
        && !episodeFrozen
      ensures chatMessages == old(chatMessages) && currentSeason == old(currentSeason)
    {
      image := ArchiveEpisode(endTime);
      StartNextEpisode(restartTime);
    }

    /** The first half of `endEpisode`: freeze, export the grid and record the episode. */
    method ArchiveEpisode(endTime: uint64) returns (image: seq<uint8>)
      requires Valid()
      modifies this, db
      ensures Valid() && episodeFrozen
      ensures image == Render(GridPixels(grid), CANVAS_SIZE, CANVAS_SIZE)
      ensures db.episodes == KeepLatest(old(db.episodes),
        EpisodeMetadata(episodeNumber, episodeStartTime, endTime), Store.HISTORY_LIMIT)
      ensures db.users == old(db.users) && db.sessions == old(db.sessions)
        && db.nextUserId == old(db.nextUserId) && db.emailToUserId == old(db.emailToUserId)
        && db.userIdIndex == old(db.userIdIndex)
      ensures grid == old(grid) && episodeNumber == old(episodeNumber)
        && episodeStartTime == old(episodeStartTime) && cooldowns == old(cooldowns)
        && currentSeason == old(currentSeason) && quests == old(quests)
        && chatMessages == old(chatMessages) && snapshots == old(snapshots)
    {
      episodeFrozen := true;
      var finalSnapshot := AllPixels();
      image := ExportImage(finalSnapshot, CANVAS_SIZE as int32, CANVAS_SIZE as int32);
      db.SaveEpisode(episodeNumber, episodeStartTime, endTime);
    }

    /** The second half of `endEpisode`: a blank canvas for the next episode, which starts unfrozen at `restartTime`. */
    method StartNextEpisode(restartTime: uint64)
      requires Valid()
      modifies this, grid
      ensures Valid() && grid == old(grid)
      ensures IsBlank(grid) && quests == INITIAL_QUESTS && cooldowns == map[] && snapshots == []
      ensures episodeNumber == Increment(old(episodeNumber)) && episodeStartTime == restartTime
        && !episodeFrozen
      ensures chatMessages == old(chatMessages) && currentSeason == old(currentSeason)
    {
      snapshots := [];
      ClearedQuestsAreInitial(quests);
      ResetCanvas();
      BlankIsLocated(grid);
      episodeNumber := Increment(episodeNumber);
      episodeStartTime := restartTime;
      episodeFrozen := false;
    }

    /** One iteration of `episodeLoop`: ends the episode once 900 seconds have elapsed. */
    method EpisodeTick(now: uint64, endTime: uint64, restartTime: uint64) returns (ended: bool, image: seq<uint8>)
      requires Valid()
      modifies this, grid, db
      ensures Valid() && grid == old(grid)
      ensures ended <==> EpisodeOver(old(episodeStartTime), now)
      ensures ended <==> old(GetEpisodeInfo(now)).timeRemaining == 0
      ensures !ended ==> unchanged(this) && unchanged(grid) && unchanged(db) && image == []
      ensures ended ==> (image == Render(old(GridPixels(grid)), CANVAS_SIZE, CANVAS_SIZE)
        && db.episodes == KeepLatest(old(db.episodes),
          EpisodeMetadata(old(episodeNumber), old(episodeStartTime), endTime), Store.HISTORY_LIMIT)
        && IsBlank(grid) && quests == INITIAL_QUESTS && cooldowns == map[] && snapshots == []
        && episodeNumber == Increment(old(episodeNumber)) && episodeStartTime == restartTime
        && !episodeFrozen)
      ensures ended ==> (db.users == old(db.users) && db.sessions == old(db.sessions)
        && db.nextUserId == old(db.nextUserId) && db.emailToUserId == old(db.emailToUserId)
        && db.userIdIndex == old(db.userIdIndex))
      ensures ended ==> chatMessages == old(chatMessages) && currentSeason == old(currentSeason)
    {
      image := [];
      ended := Elapsed(episodeStartTime, now) >= EPISODE_DURATION;
      if ended {
        image := EndEpisode(endTime, restartTime);
      }
    }

    /** One iteration of `seasonLoop`: steps the loop's counter and sets the season it names. */
    method SeasonTick(seasonIndex: int) returns (next: int)
      requires 0 <= seasonIndex < 4
      modifies this
      ensures next == (seasonIndex + 1) % 4 && currentSeason == SEASONS[next]
      ensures grid == old(grid) && episodeNumber == old(episodeNumber)
        && episodeStartTime == old(episodeStartTime) && episodeFrozen == old(episodeFrozen)
        && cooldowns == old(cooldowns) && quests == old(quests)
        && chatMessages == old(chatMessages) && snapshots == old(snapshots)
    {
      next := (seasonIndex + 1) % 4;
      currentSeason := SEASONS[next];
    }

    /** One iteration of `snapshotLoop`: records the whole grid unless the episode is frozen. */
    method SnapshotTick()
      requires IsGrid(grid)
      modifies this
      ensures grid == old(grid)
      ensures snapshots == if old(episodeFrozen) then old(snapshots) else old(snapshots) + [GridPixels(grid)]
      ensures episodeNumber == old(episodeNumber)
        && episodeStartTime == old(episodeStartTime) && episodeFrozen == old(episodeFrozen)
        && cooldowns == old(cooldowns) && currentSeason == old(currentSeason)
        && quests == old(quests) && chatMessages == old(chatMessages)
    {
      if !episodeFrozen {
        var snapshot := AllPixels();
        snapshots := snapshots + [snapshot];
      }
    }
  }
}
