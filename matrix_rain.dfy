/** The rain engine (class MatrixRain): the set of live trails and the frame
    buffer they are painted into on every tick. */
module Rain {
  import opened Sampling
  import opened Trails

  const Blank: char := ' '

  /** The engine's configuration (struct MatrixRainParameters). */
  datatype Parameters = Parameters(
    height: int,
    width: int,
    characters: seq<char>,
    density: real,
    speed: real,
    maxTrailLength: int)

  /** The four uniform draws one call of `spawn_trail` consumes: for the
      trail's maximum length, its speed, its column and its start row. */
  datatype SpawnDraw = SpawnDraw(length: real, speed: real, x: real, y: real)

  predicate ValidDraw(d: SpawnDraw) {
    InUnit(d.length) && InUnit(d.speed) && InUnit(d.x) && InUnit(d.y)
  }

  /** The glyphs a paint can write: the index `r(0, size - 1)` is at most
      size - 2, so every character of the string but the last; the only
      character of a one-character string; and the terminating NUL, read at
      index 0, for an empty string. */
  function Drawable(characters: seq<char>): seq<char> {
    if |characters| == 0 then ['\0']
    else if |characters| == 1 then characters
    else characters[..|characters| - 1]
  }

  /** The glyph painted for one cell: `characters[r(0, size - 1)]`. */
  function Glyph(characters: seq<char>, u: real): (c: char)
    requires InUnit(u)
    ensures c in Drawable(characters)
    ensures |characters| >= 1 ==> c in characters
  {
    var i := SampleInt(u, 0, |characters| - 1);
    if i < |characters| then characters[i] else '\0'
  }

  /** Every glyph of Drawable is painted for some draw, so Drawable is
      exactly the set of glyphs a paint can write. */
  lemma GlyphReaches(characters: seq<char>, i: nat)
    requires i < |Drawable(characters)|
    ensures exists u :: InUnit(u) && Glyph(characters, u) == Drawable(characters)[i]
  {
    if |characters| >= 2 {
      var span := (|characters| - 1) as real;
      var u := i as real / span;
      assert u * span == i as real;
      assert SampleReal(u, 0 as real, (|characters| - 1) as real) == i as real;
      assert Glyph(characters, u) == characters[i];
    } else {
      assert Glyph(characters, 0.0) == Drawable(characters)[i];
    }
  }

  /** How many trails one spawn event creates: `r(1, (int)(20 * density))`.
      The sampler drops the lower bound 1, so the count lies in
      [0, (int)(20 * density) - 2] rather than in [1, (int)(20 * density)]. */
  function SpawnCount(density: real, u: real): (n: int)
    requires InUnit(u)
    ensures 0.0 <= density ==> 0 <= n
    ensures n <= Trunc(20.0 * density) - 2 || n <= 0
  {
    SampleInt(u, 1, Trunc(20.0 * density))
  }

  /** At the program's density 0.35, a spawn event creates between 0 and 5
      trails, and a zero draw creates none. */
  lemma SpawnCountAtDefaultDensity(u: real)
    requires InUnit(u)
    ensures 0 <= SpawnCount(0.35, u) <= 5
    ensures SpawnCount(0.35, 0.0) == 0
  {
    assert Trunc(20.0 * 0.35) == 7;
  }

  /** The start cell of a spawned trail: `r(0, width)` and
      `r(-max_trail_length, height)`. Because the sampler drops the lower
      bound, the start row is never above the screen's top edge. */
  function SpawnStart(d: SpawnDraw, width: int, height: int, maxTrailLength: int): (p: Particle)
    requires ValidDraw(d) && 0 <= width && 0 <= height && 0 <= maxTrailLength
    ensures 0 <= p.x && (p.x < width || p.x == 0)
    ensures 0 <= p.y && (p.y < height + maxTrailLength || p.y == 0)
  {
    Particle(SampleInt(d.x, 0, width), SampleInt(d.y, -maxTrailLength, height))
  }

  /** The maximum length of a spawned trail, `r(1, max_trail_length)`: never
      negative, and 0 for a zero draw. */
  function SpawnLength(d: SpawnDraw, maxTrailLength: int): (n: int)
    requires ValidDraw(d) && 0 <= maxTrailLength
    ensures 0 <= n && (n <= maxTrailLength - 2 || n == 0)
  {
    SampleInt(d.length, 1, maxTrailLength)
  }

  /** The speed of a spawned trail, `r(speed * 1.0, speed * 3.0)`: in
      [0, 2 * speed), not in [speed, 3 * speed). */
  function SpawnSpeed(d: SpawnDraw, speed: real): (s: real)
    requires ValidDraw(d) && 0.0 <= speed
    ensures 0.0 <= s && (s < 2.0 * speed || s == 0.0)
  {
    SampleReal(d.speed, speed * 1.0, speed * 3.0)
  }

  lemma ElementsAppend<T>(s: seq<T>, x: T)
    ensures (set y | y in s + [x]) == (set y | y in s) + {x}
  {
    assert forall y :: y in s + [x] <==> y in s || y == x;
  }

  /** Every particle of the trail lies at non-negative coordinates. */
  ghost predicate OnGrid(t: Trail)
    reads t
  {
    forall p :: p in t.trail ==> 0 <= p.x && 0 <= p.y
  }

  /** `t->last().y > height`: the trail's tail has left the screen. Since
      the tail is the topmost particle, this holds exactly when every
      particle lies below row `height`. */
  function OffScreen(t: Trail, height: int): (gone: bool)
    reads t
    requires t.Valid()
    ensures gone <==> forall p :: p in t.trail ==> p.y > height
  {
    t.Last().y > height
  }

  /** Cell (row, col) holds a particle of one of the trails `ts`. */
  ghost predicate Covered(ts: set<Trail>, row: int, col: int)
    reads ts
  {
    exists t :: t in ts && Particle(col, row) in t.trail
  }

  /** A column whose particles all have non-negative coordinates keeps them
      non-negative under `advance_by`. */
  lemma AdvancedByStaysOnGrid(t: seq<Particle>, maxLength: int, n: nat)
    requires IsColumn(t) && Fits(|t|, maxLength)
    requires forall p :: p in t ==> 0 <= p.x && 0 <= p.y
    ensures forall p :: p in AdvancedBy(t, maxLength, n) ==> 0 <= p.x && 0 <= p.y
  {
    AdvancedByMovesHead(t, maxLength, n);
    var r := AdvancedBy(t, maxLength, n);
    assert t[|t| - 1] in t;
    forall p | p in r
      ensures 0 <= p.x && 0 <= p.y
    {
      var i :| 0 <= i < |r| && r[i] == p;
      assert r[i].y == r[0].y - i;
    }
  }

  class MatrixRain {
    const height: int
    const width: int
    const characters: seq<char>
    const density: real
    const speed: real
    const maxTrailLength: int
    /** The frame buffer: `display[y][x]` is row y, column x. */
    const display: array2<char>
    var trails: set<Trail>

    ghost predicate Valid()
      reads this, trails
    {
      && Configured()
      && display.Length0 == height
      && display.Length1 == width
      && forall t :: t in trails ==> t.Valid() && OnGrid(t)
    }

    /** The display starts as a height x width grid of blanks, with no
        trails. Building the rows with a negative size would throw, so the
        dimensions are non-negative. */
    constructor (params: Parameters)
      requires 0 <= params.height && 0 <= params.width
      requires 0.0 <= params.speed && 0 <= params.maxTrailLength
      ensures Valid() && fresh(display) && trails == {}
      ensures height == params.height && width == params.width
      ensures characters == params.characters && density == params.density
      ensures speed == params.speed && maxTrailLength == params.maxTrailLength
      ensures forall i, j :: 0 <= i < height && 0 <= j < width ==> display[i, j] == Blank
    {
      height := params.height;
      width := params.width;
      characters := params.characters;
      density := params.density;
      speed := params.speed;
      maxTrailLength := params.maxTrailLength;
      display := new char[params.height, params.width]((i, j) => Blank);
      trails := {};
    }

    /** Blanks every cell of the display, row by row. */
    method Clear()
      requires Valid()
      modifies display
      ensures display.Length0 == height && display.Length1 == width
      ensures forall i, j :: 0 <= i < height && 0 <= j < width ==> display[i, j] == Blank
    {
      for i := 0 to height
        invariant forall r, c :: 0 <= r < i && 0 <= c < width ==> display[r, c] == Blank
      {
        for j := 0 to width
          invariant forall r, c :: 0 <= r < i && 0 <= c < width ==> display[r, c] == Blank
          invariant forall c :: 0 <= c < j ==> display[i, c] == Blank
        {
          display[i, j] := Blank;
        }
      }
    }

    /** The configuration constraints the constructor establishes. */
    predicate Configured() {
      0 <= height && 0 <= width && 0.0 <= speed && 0 <= maxTrailLength
    }

    /** The trail created by `spawn_trail` from the draws `d`. */
    ghost predicate SpawnedFrom(t: Trail, d: SpawnDraw)
      reads t
      requires Configured() && ValidDraw(d)
    {
      && t.maxLength == SpawnLength(d, maxTrailLength)
      && t.speed == SpawnSpeed(d, speed)
      && t.trail == [SpawnStart(d, width, height, maxTrailLength)]
      && t.advanceCount == 0.0
    }

    /** `spawn_trail()`: adds one new trail built from the draws `d`; the
        ghost result names it. */
    method SpawnTrail(d: SpawnDraw) returns (ghost t: Trail)
      requires Valid() && ValidDraw(d)
      modifies this
      ensures Valid()
      ensures fresh(t) && trails == old(trails) + {t} && SpawnedFrom(t, d)
    {
      var start := SpawnStart(d, width, height, maxTrailLength);
      var trail := new Trail(SpawnLength(d, maxTrailLength), SpawnSpeed(d, speed), start.x, start.y);
      trails := trails + {trail};
      t := trail;
    }

    /** `spawn_trails(n)`: `n` calls of `spawn_trail`, the i-th with the draws
        `draws(i)`; a negative `n` spawns nothing. The ghost result lists the
        new trails in order. */
    method SpawnTrails(n: int, draws: nat -> SpawnDraw) returns (ghost spawned: seq<Trail>)
      requires Valid() && forall i :: ValidDraw(draws(i))
      modifies this
      ensures Valid()
      ensures |spawned| == (if n < 0 then 0 else n)
      ensures trails == old(trails) + set t | t in spawned
      ensures forall i, j :: 0 <= i < j < |spawned| ==> spawned[i] != spawned[j]
      ensures forall i :: 0 <= i < |spawned| ==> fresh(spawned[i]) && SpawnedFrom(spawned[i], draws(i))
    {
      spawned := [];
      var i := 0;
      while i < n
        invariant 0 <= i <= (if n < 0 then 0 else n)
        invariant Valid() && |spawned| == i
        invariant trails == old(trails) + set t | t in spawned
        invariant forall j, k :: 0 <= j < k < i ==> spawned[j] != spawned[k]
        invariant forall j :: 0 <= j < i ==> fresh(spawned[j]) && SpawnedFrom(spawned[j], draws(j))
      {
        ghost var before, listed := trails, spawned;
        ghost var t := SpawnTrail(draws(i));
        assert t !in before;
        spawned := spawned + [t];
        ElementsAppend(listed, t);
        forall j | 0 <= j <= i
          ensures fresh(spawned[j]) && SpawnedFrom(spawned[j], draws(j))
        {
          if j < i {
            assert spawned[j] == listed[j];
          } else {
            assert spawned[j] == t;
          }
        }
        i := i + 1;
      }
    }

    /** Paints the particles of `t` that pass the bounds guard, consuming one
        glyph draw per painted cell from index `k` on; returns the next
        unused draw index. */
    method PaintTrail(t: Trail, k: nat, draw: nat -> real) returns (next: nat)
      requires Valid() && t in trails
      requires forall i :: InUnit(draw(i))
      modifies display
      ensures k <= next
      ensures forall i, j :: 0 <= i < height && 0 <= j < width ==>
        if Particle(j, i) in t.trail then display[i, j] in Drawable(characters)
        else display[i, j] == old(display[i, j])
    {
      next := k;
      for n := 0 to |t.trail|
        invariant k <= next
        invariant forall i, j :: 0 <= i < height && 0 <= j < width ==>
          if Particle(j, i) in t.trail[..n] then display[i, j] in Drawable(characters)
          else display[i, j] == old(display[i, j])
      {
        assert t.trail[..n + 1] == t.trail[..n] + [t.trail[n]];
        var p := t.trail[n];
        // The guard checks only the upper bounds, exactly as the source does.
        // The lower bounds the array write needs, 0 <= p.x and 0 <= p.y, are
        // a precondition: Valid() keeps every particle of every live trail at
        // non-negative coordinates (OnGrid), which spawning establishes.
        assert p in t.trail;
        if p.x < width && p.y < height {
          display[p.y, p.x] := Glyph(characters, draw(next));
          next := next + 1;
        }
      }
      assert t.trail[..|t.trail|] == t.trail;
    }

    /** Paints every live trail onto a blank display: afterwards a cell
        holds a drawable glyph exactly when some live trail has a particle
        there, and is blank otherwise. */
    method PaintTrails(draw: nat -> real)
      requires Valid()
      requires forall i :: InUnit(draw(i))
      requires forall i, j :: 0 <= i < height && 0 <= j < width ==> display[i, j] == Blank
      modifies display
      ensures forall i, j :: 0 <= i < height && 0 <= j < width ==>
        if Covered(trails, i, j) then display[i, j] in Drawable(characters)
        else display[i, j] == Blank
    {
      var rest := trails;
      var k := 0;
      while rest != {}
        invariant rest <= trails
        invariant forall i, j :: 0 <= i < height && 0 <= j < width ==>
          if Covered(trails - rest, i, j) then display[i, j] in Drawable(characters)
          else display[i, j] == Blank
        decreases rest
      {
        var t :| t in rest;
        ghost var done := trails - rest;
        k := PaintTrail(t, k, draw);
        rest := rest - {t};
        assert trails - rest == done + {t};
        forall i, j | 0 <= i < height && 0 <= j < width
          ensures Covered(trails - rest, i, j) <==> Covered(done, i, j) || Particle(j, i) in t.trail
        {
          if Particle(j, i) in t.trail {
            assert t in trails - rest;
          }
        }
      }
      assert trails - rest == trails;
    }

    /** `update_display()`: clear the display, retire every trail whose tail
        has left the screen, and paint the rest. */
    method UpdateDisplay(draw: nat -> real)
      requires Valid()
      requires forall i :: InUnit(draw(i))
      modifies this, display
      ensures Valid()
      ensures trails == old(set t | t in trails && !OffScreen(t, height))
      ensures forall i, j :: 0 <= i < height && 0 <= j < width ==>
        if Covered(trails, i, j) then display[i, j] in Drawable(characters)
        else display[i, j] == Blank
    {
      Clear();
      // The source erases a trail from the set while a range-for iterates
      // over that set, which invalidates the loop's iterator. Retirement is
      // modelled as the filter that loop intends, applied before painting:
      // retired trails are not painted and every kept trail is painted once.
      trails := set t | t in trails && !OffScreen(t, height);
      PaintTrails(draw);
    }

    /** `update_positions()`: every live trail advances once. */
    method UpdatePositions()
      requires Valid()
      modifies trails
      ensures Valid()
      ensures forall t :: t in trails ==>
        Snapshot(t.trail, t.advanceCount)
          == AdvanceEffect(Snapshot(old(t.trail), old(t.advanceCount)), t.maxLength, t.speed)
    {
      var rest := trails;
      while rest != {}
        invariant rest <= trails
        invariant Valid()
        invariant forall t :: t in rest ==>
          t.trail == old(t.trail) && t.advanceCount == old(t.advanceCount)
        invariant forall t :: t in trails - rest ==>
          Snapshot(t.trail, t.advanceCount)
            == AdvanceEffect(Snapshot(old(t.trail), old(t.advanceCount)), t.maxLength, t.speed)
        decreases rest
      {
        var t :| t in rest;
        AdvancedByStaysOnGrid(t.trail, t.maxLength, Accumulate(t.advanceCount, t.speed).steps);
        ghost var start := Snapshot(t.trail, t.advanceCount);
        t.Advance();
        assert Snapshot(t.trail, t.advanceCount) == AdvanceEffect(start, t.maxLength, t.speed);
        rest := rest - {t};
      }
    }

    /** One pass of the loop in `test()`, without the stop flag, the screen
        output and the pause: maybe spawn, repaint, then advance. */
    method Tick(chanceDraw: real, countDraw: real, spawnDraws: nat -> SpawnDraw, glyphDraws: nat -> real)
      requires Valid()
      requires InUnit(chanceDraw) && InUnit(countDraw)
      requires forall i :: ValidDraw(spawnDraws(i))
      requires forall i :: InUnit(glyphDraws(i))
      modifies this, display, trails
      ensures Valid()
      ensures forall t :: t in trails ==> t in old(trails) || fresh(t)
      ensures forall t :: t in old(trails) && old(OffScreen(t, height)) ==> t !in trails
    {
      if Chance(chanceDraw, density) {
        ghost var spawned := SpawnTrails(SpawnCount(density, countDraw), spawnDraws);
      }
      UpdateDisplay(glyphDraws);
      UpdatePositions();
    }
  }
}
