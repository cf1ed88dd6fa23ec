/** A single falling column of the rain (class Trail): a bounded history of
    grid cells, front = head (lowest row reached) and back = tail, that
    advances at a fractional speed. */
module Trails {

  datatype Particle = Particle(x: int, y: int)

  /** The largest size a trail reaches. The tail is popped only when the size
      exceeds `max_length`, and only right after a push, so a trail with
      `max_length` 0 still keeps one particle. */
  function Cap(maxLength: int): (c: nat)
    ensures c >= 1 && c >= maxLength
    ensures maxLength >= 1 ==> c == maxLength
  {
    if maxLength < 1 then 1 else maxLength
  }

  function Min(a: int, b: int): int {
    if a < b then a else b
  }

  /** The pop test `trail.size() > max_length` compares an unsigned size with
      `max_length` converted to unsigned, so a negative `max_length` becomes a
      huge bound and never evicts. */
  predicate Evicts(size: nat, maxLength: int) {
    0 <= maxLength && size > maxLength
  }

  /** A size a trail with this `max_length` can have: any size when the
      bound is negative, at most Cap(maxLength) otherwise. */
  predicate Fits(size: nat, maxLength: int) {
    maxLength < 0 || size <= Cap(maxLength)
  }

  /** The size of a trail of `len` cells after `n` passes of `advance_by`:
      it grows by one per pass, up to the cap when the bound is
      non-negative. */
  function Grown(len: nat, n: nat, maxLength: int): nat {
    if maxLength < 0 then len + n else Min(len + n, Cap(maxLength))
  }

  /** The `len` cells of one column with its head at (x, headY): entry i is
      i rows above the head. */
  function Column(x: int, headY: int, len: nat): seq<Particle> {
    seq(len, i => Particle(x, headY - i))
  }

  /** A non-empty contiguous vertical run ordered from head to tail. */
  ghost predicate IsColumn(t: seq<Particle>) {
    |t| >= 1 && forall i :: 0 <= i < |t| ==> t[i] == Particle(t[0].x, t[0].y - i)
  }

  /** One pass of the loop in `advance_by`: push a new head one row below the
      current head, in the same column, then pop the tail if the size now
      exceeds `maxLength`. */
  function Step(t: seq<Particle>, maxLength: int): (r: seq<Particle>)
    requires |t| >= 1
    ensures |r| >= 1 && r[0] == Particle(t[0].x, t[0].y + 1)
    ensures !Evicts(|t| + 1, maxLength) ==> r[1..] == t
    ensures Evicts(|t| + 1, maxLength) ==> r[1..] == t[..|t| - 1]
  {
    var pushed := [Particle(t[0].x, t[0].y + 1)] + t;
    if Evicts(|pushed|, maxLength) then pushed[..|pushed| - 1] else pushed
  }

  /** `n` passes of that loop. */
  function AdvancedBy(t: seq<Particle>, maxLength: int, n: nat): (r: seq<Particle>)
    requires |t| >= 1
    ensures |r| >= 1
  {
    if n == 0 then t else Step(AdvancedBy(t, maxLength, n - 1), maxLength)
  }

  /** After `n` passes the head is `n` rows lower in its column, whatever
      the rest of the trail holds. */
  lemma {:induction false} AdvancedByHead(t: seq<Particle>, maxLength: int, n: nat)
    requires |t| >= 1
    ensures AdvancedBy(t, maxLength, n)[0] == Particle(t[0].x, t[0].y + n)
  {
    if n > 0 {
      AdvancedByHead(t, maxLength, n - 1);
    }
  }

  /** One pass on a column keeps it a column: the head moves one row down
      and the size grows by one until it reaches the cap. */
  lemma StepColumn(x: int, headY: int, len: nat, maxLength: int)
    requires 1 <= len && Fits(len, maxLength)
    ensures Step(Column(x, headY, len), maxLength) == Column(x, headY + 1, Grown(len, 1, maxLength))
  {
    var c := Column(x, headY, len);
    var pushed := [Particle(x, headY + 1)] + c;
    assert pushed == Column(x, headY + 1, len + 1);
    if Evicts(|pushed|, maxLength) {
      assert pushed[..len] == Column(x, headY + 1, len);
    }
  }

  /** The closed form of `advance_by`: after `n` passes a column has its head
      `n` rows lower and holds min(len + n, cap) particles, or len + n
      particles when `max_length` is negative. */
  lemma {:induction false} AdvancedByColumn(x: int, headY: int, len: nat, maxLength: int, n: nat)
    requires 1 <= len && Fits(len, maxLength)
    ensures AdvancedBy(Column(x, headY, len), maxLength, n)
         == Column(x, headY + n, Grown(len, n, maxLength))
  {
    if n > 0 {
      var before, after := Grown(len, n - 1, maxLength), Grown(len, n, maxLength);
      var prevHead := headY + n - 1;
      assert Grown(before, 1, maxLength) == after;
      assert prevHead + 1 == headY + n;
      AdvancedByColumn(x, headY, len, maxLength, n - 1);
      StepColumn(x, prevHead, before, maxLength);
    }
  }

  /** What `advance_by(n)` promises of a trail: it stays a contiguous column
      in the same x, between 1 and the cap in size when `max_length` is not
      negative; the head moves down by exactly `n`; the tail never moves up;
      and the size grows by `n` until it reaches the cap, or without limit
      when `max_length` is negative. */
  lemma AdvancedByMovesHead(t: seq<Particle>, maxLength: int, n: nat)
    requires IsColumn(t) && Fits(|t|, maxLength)
    ensures var r := AdvancedBy(t, maxLength, n);
      && IsColumn(r)
      && Fits(|r|, maxLength)
      && (0 <= maxLength ==> |r| == Min(|t| + n, Cap(maxLength)))
      && (maxLength < 0 ==> |r| == |t| + n)
      && r[0] == Particle(t[0].x, t[0].y + n)
      && (forall i :: 0 <= i < |r| ==> r[i].x == t[0].x)
      && r[|r| - 1].y >= t[|t| - 1].y
  {
    assert t == Column(t[0].x, t[0].y, |t|);
    AdvancedByColumn(t[0].x, t[0].y, |t|, maxLength, n);
  }

  /** Running `advance_by` in two calls pushes the same cells as one call
      with the summed count. */
  lemma {:induction false} AdvancedByAdd(t: seq<Particle>, maxLength: int, a: nat, b: nat)
    requires |t| >= 1
    ensures AdvancedBy(AdvancedBy(t, maxLength, a), maxLength, b) == AdvancedBy(t, maxLength, a + b)
  {
    if b > 0 {
      AdvancedByAdd(t, maxLength, a, b - 1);
    }
  }

  /** A trail of maximum length 3 started at (2, 0) and advanced one cell
      per tick: after two passes it holds rows 2, 1, 0; after three the
      oldest cell (2, 0) has been evicted and (2, 3) is the new head. */
  lemma ThreeCellExample()
    ensures AdvancedBy([Particle(2, 0)], 3, 2) == [Particle(2, 2), Particle(2, 1), Particle(2, 0)]
    ensures AdvancedBy([Particle(2, 0)], 3, 3) == [Particle(2, 3), Particle(2, 2), Particle(2, 1)]
  {
    assert [Particle(2, 0)] == Column(2, 0, 1);
    AdvancedByColumn(2, 0, 1, 3, 2);
    AdvancedByColumn(2, 0, 1, 3, 3);
  }

  /** With `max_length` -1 the unsigned pop test never fires: three passes
      leave all four cells in place. */
  lemma NegativeLengthExample()
    ensures AdvancedBy([Particle(0, 0)], -1, 3)
         == [Particle(0, 3), Particle(0, 2), Particle(0, 1), Particle(0, 0)]
  {
    assert [Particle(0, 0)] == Column(0, 0, 1);
    AdvancedByColumn(0, 0, 1, -1, 3);
  }

  /** The whole cells a call of `advance()` moves, and the fraction it keeps. */
  datatype Progress = Progress(steps: nat, remainder: real)

  /** The arithmetic of `advance()`: add the speed to the accumulator; once
      it reaches 1, move by its floor and keep the fractional part. */
  function Accumulate(count: real, speed: real): (p: Progress)
    requires 0.0 <= count && 0.0 <= speed
    ensures p.steps as real + p.remainder == count + speed
    ensures 0.0 <= p.remainder < 1.0
    ensures count + speed < 1.0 ==> p.steps == 0
  {
    var total := count + speed;
    if total >= 1.0 then Progress(total.Floor, total - total.Floor as real)
    else Progress(0, total)
  }

  /** `ticks` successive calls of `advance()`, the accumulator starting at
      `count`: the cells moved in all, and the accumulator afterwards. */
  function Ticks(count: real, speed: real, ticks: nat): (p: Progress)
    requires 0.0 <= count < 1.0 && 0.0 <= speed
    ensures p.steps as real + p.remainder == count + Fed(speed, ticks)
    ensures 0.0 <= p.remainder < 1.0
  {
    if ticks == 0 then Progress(0, count)
    else
      var before := Ticks(count, speed, ticks - 1);
      var last := Accumulate(before.remainder, speed);
      Progress(before.steps + last.steps, last.remainder)
  }

  /** The speed fed into the accumulator over `ticks` calls. */
  function Fed(speed: real, ticks: nat): real {
    if ticks == 0 then 0.0 else Fed(speed, ticks - 1) + speed
  }

  lemma {:induction false} FedIsProduct(speed: real, ticks: nat)
    ensures Fed(speed, ticks) == ticks as real * speed
  {
    if ticks > 0 {
      FedIsProduct(speed, ticks - 1);
      var k := (ticks - 1) as real;
      assert k * speed + speed == (k + 1.0) * speed;
    }
  }

  /** Over `ticks` calls of `advance()` from a fresh accumulator, the head
      moves by exactly the floor of the accumulated speed: one cell per tick
      at speed 1, one every two ticks at speed 1/2, two per tick at speed 2. */
  lemma TicksFloor(speed: real, ticks: nat)
    requires 0.0 <= speed
    ensures Ticks(0.0, speed, ticks).steps == (ticks as real * speed).Floor
  {
    var p := Ticks(0.0, speed, ticks);
    FedIsProduct(speed, ticks);
    assert p.steps as real <= ticks as real * speed < p.steps as real + 1.0;
  }

  /** The state of a trail that `advance()` changes: its cells and its
      accumulator. */
  datatype Snapshot = Snapshot(cells: seq<Particle>, count: real)

  /** The effect of one `advance()` call: the cells advance by the whole
      steps of the accumulator and it keeps the fraction. */
  function AdvanceEffect(s: Snapshot, maxLength: int, speed: real): (r: Snapshot)
    requires |s.cells| >= 1 && 0.0 <= s.count && 0.0 <= speed
    ensures |r.cells| >= 1 && 0.0 <= r.count < 1.0
  {
    var p := Accumulate(s.count, speed);
    Snapshot(AdvancedBy(s.cells, maxLength, p.steps), p.remainder)
  }

  /** One `advance()` call keeps the head in its column and moves it by
      exactly the whole part of count + speed. */
  lemma AdvanceEffectMovesHead(s: Snapshot, maxLength: int, speed: real)
    requires |s.cells| >= 1 && 0.0 <= s.count && 0.0 <= speed
    ensures var r := AdvanceEffect(s, maxLength, speed);
      && r.cells[0].x == s.cells[0].x
      && (r.cells[0].y - s.cells[0].y) as real + r.count == s.count + speed
  {
    AdvancedByHead(s.cells, maxLength, Accumulate(s.count, speed).steps);
  }

  /** `ticks` successive `advance()` calls. */
  function AdvancedTimes(s: Snapshot, maxLength: int, speed: real, ticks: nat): (r: Snapshot)
    requires |s.cells| >= 1 && 0.0 <= s.count < 1.0 && 0.0 <= speed
    ensures |r.cells| >= 1 && 0.0 <= r.count < 1.0
  {
    if ticks == 0 then s
    else AdvanceEffect(AdvancedTimes(s, maxLength, speed, ticks - 1), maxLength, speed)
  }

  /** Over `ticks` calls the head keeps its column, and the rows it moved
      plus the final accumulator equal the start accumulator plus the speed
      fed in. */
  lemma {:induction false} AdvancedTimesBalance(s: Snapshot, maxLength: int, speed: real, ticks: nat)
    requires |s.cells| >= 1 && 0.0 <= s.count < 1.0 && 0.0 <= speed
    ensures var r := AdvancedTimes(s, maxLength, speed, ticks);
      && r.cells[0].x == s.cells[0].x
      && (r.cells[0].y - s.cells[0].y) as real + r.count == s.count + Fed(speed, ticks)
  {
    if ticks > 0 {
      var prev := AdvancedTimes(s, maxLength, speed, ticks - 1);
      AdvancedTimesBalance(s, maxLength, speed, ticks - 1);
      AdvanceEffectMovesHead(prev, maxLength, speed);
    }
  }

  /** `ticks` calls of `advance()` do to the cells what one `advance_by` with
      the accumulated whole steps does, and leave the accumulator where
      `Ticks` says. */
  lemma {:induction false} AdvancedTimesIsTicks(t: seq<Particle>, maxLength: int, count: real, speed: real, ticks: nat)
    requires |t| >= 1 && 0.0 <= count < 1.0 && 0.0 <= speed
    ensures var r := AdvancedTimes(Snapshot(t, count), maxLength, speed, ticks);
      r.cells == AdvancedBy(t, maxLength, Ticks(count, speed, ticks).steps)
    ensures AdvancedTimes(Snapshot(t, count), maxLength, speed, ticks).count
         == Ticks(count, speed, ticks).remainder
  {
    if ticks > 0 {
      var before := Ticks(count, speed, ticks - 1);
      var last := Accumulate(before.remainder, speed);
      var prev := AdvancedTimes(Snapshot(t, count), maxLength, speed, ticks - 1);
      var cur := AdvancedTimes(Snapshot(t, count), maxLength, speed, ticks);
      AdvancedTimesIsTicks(t, maxLength, count, speed, ticks - 1);
      assert cur == AdvanceEffect(prev, maxLength, speed);
      assert Accumulate(prev.count, speed) == last;
      assert cur.cells == AdvancedBy(prev.cells, maxLength, last.steps) && cur.count == last.remainder;
      AdvancedByAdd(t, maxLength, before.steps, last.steps);
      assert Ticks(count, speed, ticks) == Progress(before.steps + last.steps, last.remainder);
    }
  }


  /** From a fresh accumulator, `ticks` calls of `advance()` at speed s move
      a trail's head by exactly floor(ticks * s) rows, keep it in its column,
      and leave the trail a contiguous column within its size bound. */
  lemma AdvancedTimesMovesHead(t: seq<Particle>, maxLength: int, speed: real, ticks: nat)
    requires IsColumn(t) && Fits(|t|, maxLength) && 0.0 <= speed
    ensures var r := AdvancedTimes(Snapshot(t, 0.0), maxLength, speed, ticks).cells;
      && r[0] == Particle(t[0].x, t[0].y + (ticks as real * speed).Floor)
      && IsColumn(r) && Fits(|r|, maxLength)
  {
    AdvancedTimesIsTicks(t, maxLength, 0.0, speed, ticks);
    TicksFloor(speed, ticks);
    AdvancedByMovesHead(t, maxLength, Ticks(0.0, speed, ticks).steps);
  }

  class Trail {
    const maxLength: int
    const speed: real
    /** The deque: front = head, back = tail. */
    var trail: seq<Particle>
    var advanceCount: real

    /** The shape of the history: a column of at most Cap(maxLength) cells
        (of any size when `max_length` is negative). */
    ghost predicate Shaped()
      reads this
    {
      && 0.0 <= speed
      && IsColumn(trail)
      && Fits(|trail|, maxLength)
    }

    ghost predicate Valid()
      reads this
    {
      Shaped() && 0.0 <= advanceCount < 1.0
    }

    /** A trail starts as one particle at (startX, startY). */
    constructor (length: int, speed: real, startX: int, startY: int)
      requires 0.0 <= speed
      ensures Valid()
      ensures maxLength == length && this.speed == speed
      ensures trail == [Particle(startX, startY)] && advanceCount == 0.0
    {
      maxLength := length;
      this.speed := speed;
      trail := [Particle(startX, startY)];
      advanceCount := 0.0;
    }

    /** The head's column, shared by every particle of the trail. */
    function X(): (x: int)
      reads this
      requires Valid()
      ensures forall i :: 0 <= i < |trail| ==> trail[i].x == x
    {
      trail[0].x
    }

    /** The head's row: particle i sits i rows above it. */
    function Y(): (y: int)
      reads this
      requires Valid()
      ensures forall i :: 0 <= i < |trail| ==> trail[i].y == y - i
    {
      trail[0].y
    }

    /** The tail: the topmost particle of the trail. */
    function Last(): (p: Particle)
      reads this
      requires Valid()
      ensures p in trail
      ensures forall q :: q in trail ==> p.x == q.x && p.y <= q.y
      ensures p.y == Y() - (|trail| - 1)
    {
      trail[|trail| - 1]
    }

    method AdvanceBy(n: int)
      requires Shaped()
      modifies this
      ensures Shaped()
      ensures trail == AdvancedBy(old(trail), maxLength, if n < 0 then 0 else n)
      ensures advanceCount == old(advanceCount)
    {
      var i := 0;
      while i < n
        invariant 0 <= i <= (if n < 0 then 0 else n)
        invariant Shaped()
        invariant trail == AdvancedBy(old(trail), maxLength, i)
        invariant advanceCount == old(advanceCount)
      {
        AdvancedByMovesHead(trail, maxLength, 1);
        trail := [Particle(trail[0].x, trail[0].y + 1)] + trail;
        // `trail.size() > max_length` is an unsigned comparison (Evicts).
        if Evicts(|trail|, maxLength) {
          trail := trail[..|trail| - 1];
        }
        i := i + 1;
      }
    }

    method Advance()
      requires Valid()
      modifies this
      ensures Valid()
      ensures Snapshot(trail, advanceCount)
           == AdvanceEffect(Snapshot(old(trail), old(advanceCount)), maxLength, speed)
    {
      advanceCount := advanceCount + speed;
      if advanceCount >= 1.0 {
        AdvanceBy(advanceCount.Floor);
        advanceCount := advanceCount - advanceCount.Floor as real;
      }
    }
  }
}
