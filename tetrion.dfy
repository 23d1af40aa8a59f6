/**
 * The value types of the simulator bridge, the board matrix and the
 * owner of a native simulator handle (tetrion.py).  The native simulator
 * itself is foreign code; a handle is modelled by the frame it has been
 * asked to simulate to and the events it has been given.
 */
module Tetrion {
  import opened Wrappers
  import opened Bytes

  datatype Vec2 = Vec2(x: int, y: int)

  /** The keys the simulator library defines, with their wire values 0, 1, 2. */
  datatype Key = Left | Right | Drop

  datatype EventType = Pressed | Released

  datatype Event = Event(key: Key, eventType: EventType, frame: U64)

  datatype TetrominoType = Empty | I | J | L | O | S | T | Z

  function KeyValue(k: Key): Byte
  {
    match k
    case Left => 0
    case Right => 1
    case Drop => 2
  }

  /** Key(b): the enum lookup, which fails for a value the enum does not define. */
  function KeyOf(b: Byte): (r: Option<Key>)
    ensures r.Some? <==> b < 3
    ensures r.Some? ==> KeyValue(r.value) == b
  {
    if b == 0 then Some(Left) else if b == 1 then Some(Right) else if b == 2 then Some(Drop) else None
  }

  function EventTypeValue(t: EventType): Byte
  {
    match t
    case Pressed => 0
    case Released => 1
  }

  /** EventType(b): fails for every value other than 0 and 1. */
  function EventTypeOf(b: Byte): (r: Option<EventType>)
    ensures r.Some? <==> b < 2
    ensures r.Some? ==> EventTypeValue(r.value) == b
  {
    if b == 0 then Some(Pressed) else if b == 1 then Some(Released) else None
  }

  lemma KeyRoundTrip(k: Key)
    ensures KeyOf(KeyValue(k)) == Some(k)
  {
  }

  lemma EventTypeRoundTrip(t: EventType)
    ensures EventTypeOf(EventTypeValue(t)) == Some(t)
  {
  }

  // ---------------------------------------------------------------------
  // _grouper and Matrix

  /** What iterating zip(*[iter(s)] * n, strict=True) produces: the complete
      tuples in order, and whether it then raises because of a ragged tail. */
  datatype Grouped<T> = Grouped(rows: seq<seq<T>>, raggedTail: bool)

  function Flatten<T>(rows: seq<seq<T>>): seq<T>
  {
    if rows == [] then [] else rows[0] + Flatten(rows[1..])
  }

  /** _grouper(s, n).  With n <= 0 the zip has no arguments and yields nothing. */
  function Grouper<T>(s: seq<T>, n: int): (g: Grouped<T>)
    ensures n <= 0 ==> g == Grouped([], false)
    ensures forall i :: 0 <= i < |g.rows| ==> |g.rows[i]| == n
    decreases |s|
  {
    if n <= 0 then Grouped([], false)
    else if |s| < n then Grouped([], |s| > 0)
    else
      var rest := Grouper(s[n..], n);
      Grouped([s[..n]] + rest.rows, rest.raggedTail)
  }

  /** The grouper yields |s| / n full tuples that concatenate to the front of
      s, and fails afterwards exactly when a ragged tail is left. */
  lemma GrouperSpec<T>(s: seq<T>, n: int)
    requires n > 0
    ensures |Grouper(s, n).rows| == |s| / n
    ensures Flatten(Grouper(s, n).rows) == s[..|s| / n * n]
    ensures Grouper(s, n).raggedTail <==> |s| % n != 0
  {
    GrouperCount(s, n, |s| / n, |s| % n);
  }

  lemma {:induction false} GrouperCount<T>(s: seq<T>, n: int, q: nat, r: nat)
    requires 0 <= r < n && |s| == q * n + r
    ensures q * n <= |s|
    ensures |Grouper(s, n).rows| == q
    ensures Flatten(Grouper(s, n).rows) == s[..q * n]
    ensures Grouper(s, n).raggedTail <==> r != 0
  {
    if q == 0 {
      assert |s| == r;
    } else {
      var front := q * n;
      var restFront := (q - 1) * n;
      assert front == restFront + n;
      var tail := s[n..];
      assert |tail| == restFront + r;
      GrouperCount(tail, n, q - 1, r);
      var rest := Grouper(tail, n);
      assert Flatten([s[..n]] + rest.rows) == s[..n] + Flatten(rest.rows);
      assert s[..front] == s[..n] + tail[..restFront];
    }
  }

  lemma MulAtLeast(k: int, n: int)
    requires k >= 1 && n > 0
    ensures k * n >= n
  {
  }

  /** Quotient and remainder are determined by a == q * n + r, 0 <= r < n. */
  lemma DivModUnique(a: int, n: int, q: int, r: int)
    requires 0 < n && 0 <= r < n && a == q * n + r
    ensures a / n == q && a % n == r
  {
    var q0, r0 := a / n, a % n;
    assert a == q0 * n + r0;
    if q0 > q {
      assert (q0 - q) * n == r - r0;
      MulAtLeast(q0 - q, n);
    } else if q0 < q {
      assert (q - q0) * n == r0 - r;
      MulAtLeast(q - q0, n);
    }
  }

  /** The board cells of a simulator, row-major; the constructor's checks hold. */
  datatype Grid = Grid(minos: seq<TetrominoType>, width: nat)

  type Matrix = m: Grid | m.width > 0 && |m.minos| % m.width == 0 witness Grid([], 1)

  datatype MatrixError =
    | ZeroWidth      // len(minos) % 0 raises ZeroDivisionError
    | RaggedMinos    // the constructor's assertion fails

  /** Matrix(minos, width). */
  function NewMatrix(minos: seq<TetrominoType>, width: nat): (r: Result<Matrix, MatrixError>)
    ensures r.Ok? <==> width > 0 && |minos| % width == 0
    ensures width == 0 ==> r == Err(ZeroWidth)
    ensures r.Ok? ==> r.value.minos == minos && Width(r.value) == width
    ensures r.Ok? ==> Height(r.value) == |minos| / width
  {
    if width == 0 then Err(ZeroWidth)
    else if |minos| % width != 0 then Err(RaggedMinos)
    else Ok(Grid(minos, width))
  }

  /** Matrix.width: positive, and it divides len(minos). */
  function Width(m: Matrix): (w: nat)
    ensures w > 0 && |m.minos| % w == 0
  {
    m.width
  }

  /** len(minos) // width, exact because of the constructor's check. */
  function Height(m: Matrix): (h: nat)
    ensures h * Width(m) == |m.minos|
  {
    |m.minos| / m.width
  }

  /** Matrix.rows: the grouper never reaches its ragged-tail failure here. */
  function Rows(m: Matrix): (rows: seq<seq<TetrominoType>>)
    ensures |rows| == Height(m)
    ensures forall y :: 0 <= y < |rows| ==> |rows[y]| == Width(m)
    ensures Flatten(rows) == m.minos
    ensures !Grouper(m.minos, Width(m)).raggedTail && rows == Grouper(m.minos, Width(m)).rows
  {
    var g := Grouper(m.minos, m.width);
    GrouperSpec(m.minos, m.width);
    assert Height(m) * Width(m) == |m.minos|;
    g.rows
  }

  datatype IndexError = InvalidPosition(position: Vec2)

  /** Matrix.__getitem__. */
  function Get(m: Matrix, position: Vec2): (r: Result<TetrominoType, IndexError>)
    ensures r.Ok? <==> 0 <= position.x < Width(m) && 0 <= position.y < Height(m)
    ensures r.Err? ==> r.error == InvalidPosition(position)
  {
    if !(0 <= position.x < m.width) || !(0 <= position.y < Height(m)) then
      Err(InvalidPosition(position))
    else
      CellIndexInRange(position.x, position.y, m.width, Height(m));
      Ok(m.minos[position.y * m.width + position.x])
  }

  lemma CellIndexInRange(x: nat, y: nat, width: nat, height: nat)
    requires x < width && y < height
    ensures y * width + x < height * width
  {
    assert y * width <= (height - 1) * width;
  }

  /** An element of a flattened list of rows that all have length w. */
  lemma {:induction false} FlattenAt<T>(rows: seq<seq<T>>, w: nat, x: nat, y: nat)
    requires forall i :: 0 <= i < |rows| ==> |rows[i]| == w
    requires x < w && y < |rows|
    ensures |Flatten(rows)| == |rows| * w
    ensures y * w + x < |Flatten(rows)| && Flatten(rows)[y * w + x] == rows[y][x]
  {
    FlattenLength(rows, w);
    if y > 0 {
      var tail := rows[1..];
      FlattenAt(tail, w, x, y - 1);
      var k := (y - 1) * w + x;
      MulPred(y, w);
      assert Flatten(rows) == rows[0] + Flatten(tail);
      assert |rows[0]| == w;
      assert Flatten(rows)[w + k] == Flatten(tail)[k];
    }
  }

  lemma MulPred(y: int, w: int)
    requires y >= 1
    ensures y * w == (y - 1) * w + w
  {
  }

  lemma {:induction false} FlattenLength<T>(rows: seq<seq<T>>, w: nat)
    requires forall i :: 0 <= i < |rows| ==> |rows[i]| == w
    ensures |Flatten(rows)| == |rows| * w
  {
    if rows != [] {
      FlattenLength(rows[1..], w);
    }
  }

  /** Indexing the matrix and reading cell x of row y of Matrix.rows agree. */
  lemma GetIsRowsCell(m: Matrix, x: int, y: int)
    requires 0 <= x < Width(m) && 0 <= y < Height(m)
    ensures Get(m, Vec2(x, y)) == Ok(Rows(m)[y][x])
  {
    FlattenAt(Rows(m), Width(m), x, y);
  }

  // ---------------------------------------------------------------------
  // Tetrion.matrix

  /** The cells a row-major double loop over height rows of width cells reads. */
  function RowMajor(cell: Vec2 -> TetrominoType, width: nat, height: nat): (s: seq<TetrominoType>)
    ensures |s| == height * width
  {
    if height == 0 then [] else RowMajor(cell, width, height - 1) + seq(width, x => cell(Vec2(x, height - 1)))
  }

  lemma {:induction false} RowMajorAt(cell: Vec2 -> TetrominoType, width: nat, height: nat, x: nat, y: nat)
    requires x < width && y < height
    ensures y * width + x < height * width
    ensures RowMajor(cell, width, height)[y * width + x] == cell(Vec2(x, y))
  {
    CellIndexInRange(x, y, width, height);
    if y < height - 1 {
      RowMajorAt(cell, width, height - 1, x, y);
      CellIndexInRange(x, y, width, height - 1);
    } else {
      assert |RowMajor(cell, width, height - 1)| == y * width;
    }
  }

  /**
   * The owner of one native simulator.  `handle` is the native object, None
   * once destroyed; `destroyCalls` counts the native destroy calls made for it.
   * `simulatedUpTo` is the frame the native simulator has been asked to reach
   * (-1 before any request) and `enqueued` the events it has been handed.
   */
  class Tetrion {
    var handle: Option<nat>
    ghost var destroyCalls: nat
    var simulatedUpTo: int
    var enqueued: seq<Event>
    /** The board size the native library reports. */
    const width: nat
    const height: nat

    /** The handle is released at most once, and is gone exactly when it was. */
    ghost predicate Valid()
      reads this
    {
      destroyCalls <= 1 && (handle.None? <==> destroyCalls == 1)
    }

    constructor (native: nat, width: nat, height: nat)
      ensures Valid() && handle == Some(native) && destroyCalls == 0
      ensures simulatedUpTo == -1 && enqueued == []
      ensures this.width == width && this.height == height
    {
      handle := Some(native);
      destroyCalls := 0;
      simulatedUpTo := -1;
      enqueued := [];
      this.width := width;
      this.height := height;
    }

    /** simulate_up_until: the native simulator never goes back. */
    method SimulateUpUntil(frame: U64)
      modifies this`simulatedUpTo
      ensures simulatedUpTo == if frame > old(simulatedUpTo) then frame else old(simulatedUpTo)
    {
      if frame > simulatedUpTo {
        simulatedUpTo := frame;
      }
    }

    method EnqueueEvent(event: Event)
      modifies this`enqueued
      ensures enqueued == old(enqueued) + [event]
    {
      enqueued := enqueued + [event];
    }

    /** __del__: destroys the native handle if it is still there. */
    method Del()
      requires Valid()
      modifies this`handle, this`destroyCalls
      ensures Valid() && handle.None?
      ensures destroyCalls == if old(handle).Some? then old(destroyCalls) + 1 else old(destroyCalls)
    {
      if handle.Some? {
        destroyCalls := destroyCalls + 1;
        handle := None;
      }
    }

    /** __exit__: releases the handle and lets an exception propagate. */
    method Exit(exceptionRaised: bool) returns (suppress: bool)
      requires Valid()
      modifies this`handle, this`destroyCalls
      ensures Valid() && handle.None?
      ensures destroyCalls == if old(handle).Some? then old(destroyCalls) + 1 else old(destroyCalls)
      ensures suppress <==> !exceptionRaised
    {
      Del();
      suppress := !exceptionRaised;
    }

    /** Tetrion.matrix, with the native cell getter as the function `cell`. */
    method ReadMatrix(cell: Vec2 -> TetrominoType) returns (r: Result<Matrix, MatrixError>)
      ensures width == 0 <==> r.Err?
      ensures r.Ok? ==> Width(r.value) == width && Height(r.value) == height
      ensures r.Ok? ==> forall x, y :: 0 <= x < width && 0 <= y < height ==>
                          Get(r.value, Vec2(x, y)) == Ok(cell(Vec2(x, y)))
    {
      var minos: seq<TetrominoType> := [];
      var y := 0;
      while y < height
        invariant 0 <= y <= height
        invariant minos == RowMajor(cell, width, y)
      {
        var x := 0;
        while x < width
          invariant 0 <= x <= width
          invariant minos == RowMajor(cell, width, y) + seq(x, i => cell(Vec2(i, y)))
        {
          minos := minos + [cell(Vec2(x, y))];
          x := x + 1;
        }
        y := y + 1;
      }
      r := NewMatrix(minos, width);
      if width > 0 {
        DivModUnique(|minos|, width, height, 0);
        forall x, y | 0 <= x < width && 0 <= y < height
          ensures Get(r.value, Vec2(x, y)) == Ok(cell(Vec2(x, y)))
        {
          RowMajorAt(cell, width, height, x, y);
        }
      }
    }
  }

  /** A with-block followed by garbage collection destroys the handle once. */
  method WithBlock(t: Tetrion, exceptionRaised: bool) returns (suppress: bool)
    requires t.Valid() && t.handle.Some?
    modifies t
    ensures t.Valid() && t.handle.None? && t.destroyCalls == 1
    ensures suppress <==> !exceptionRaised
  {
    suppress := t.Exit(exceptionRaised);
    t.Del();
  }
}
