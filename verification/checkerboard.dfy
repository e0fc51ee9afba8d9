/** The checkerboard texture: two colours alternating over unit cells of
    the scaled texture coordinates. */
module Checkerboard {
  import opened Colors

  datatype Vec2 = Vec2(x: real, y: real)

  datatype Option<T> = None | Some(value: T)

  function GetOr<T>(o: Option<T>, default: T): (v: T)
    ensures o.Some? ==> v == o.value
    ensures o.None? ==> v == default
  {
    match o
    case None => default
    case Some(x) => x
  }

  datatype Texture = Texture(color0: Color, color1: Color, scale: Vec2)

  /** The constructor: each of `color0`, `color1` and `scale` is read from the
      scene description when present; otherwise black, white and (1, 1). */
  function FromProperties(color0: Option<Color>, color1: Option<Color>, scale: Option<Vec2>): (t: Texture)
    ensures color0.None? ==> t.color0 == Gray(0.0)
    ensures color1.None? ==> t.color1 == Gray(1.0)
    ensures scale.None? ==> t.scale == Vec2(1.0, 1.0)
    ensures color0.Some? ==> t.color0 == color0.value
    ensures color1.Some? ==> t.color1 == color1.value
    ensures scale.Some? ==> t.scale == scale.value
  {
    Texture(GetOr(color0, Gray(0.0)), GetOr(color1, Gray(1.0)), GetOr(scale, Vec2(1.0, 1.0)))
  }

  function Abs(n: int): nat { if n < 0 then -n else n }

  /** The cell index along one axis: the absolute value of the floor of the
      scaled coordinate. */
  function Cell(c: real, s: real): (n: nat)
    ensures n as real == (c * s).Floor as real || n as real == -((c * s).Floor as real)
  {
    Abs((c * s).Floor)
  }

  /** `evaluate`: `color0` when the two cell indices' remainders mod 2 do
      not add up to 1, `color1` otherwise. */
  function Evaluate(t: Texture, u: real, v: real): (c: Color)
    ensures c == t.color0 || c == t.color1
    ensures Cell(u, t.scale.x) % 2 == Cell(v, t.scale.y) % 2 ==> c == t.color0
    ensures Cell(u, t.scale.x) % 2 != Cell(v, t.scale.y) % 2 ==> c == t.color1
  {
    var cx, cy := Cell(u, t.scale.x), Cell(v, t.scale.y);
    if (cx % 2) + (cy % 2) != 1 then t.color0 else t.color1
  }

  /** Neighbouring integers have absolute values of different parity, also
      across zero. */
  lemma {:induction false} AbsParityAlternates(n: int)
    ensures Abs(n + 1) % 2 != Abs(n) % 2
  {
    if n >= 0 {
      assert Abs(n + 1) == Abs(n) + 1;
    } else {
      assert Abs(n) == Abs(n + 1) + 1;
    }
  }

  lemma CellOfFloor(c: real, s: real, k: int)
    requires (c * s).Floor == k
    ensures Cell(c, s) == Abs(k)
  {
  }

  /** The board alternates: stepping to the next cell along `u` swaps the
      colour, on both sides of the origin. */
  lemma {:induction false} NeighbourCellsAlternate(t: Texture, u: real, u': real, v: real)
    requires (u' * t.scale.x).Floor == (u * t.scale.x).Floor + 1
    requires t.color0 != t.color1
    ensures Evaluate(t, u', v) != Evaluate(t, u, v)
  {
    var n := (u * t.scale.x).Floor;
    AbsParityAlternates(n);
    CellOfFloor(u', t.scale.x, n + 1);
    CellOfFloor(u, t.scale.x, n);
    var a, b, c := Cell(u', t.scale.x), Cell(u, t.scale.x), Cell(v, t.scale.y);
    assert a % 2 != b % 2;
    assert a % 2 < 2 && b % 2 < 2 && c % 2 < 2;
    if a % 2 == c % 2 {
      assert Evaluate(t, u', v) == t.color0 && Evaluate(t, u, v) == t.color1;
    } else {
      assert b % 2 == c % 2;
      assert Evaluate(t, u', v) == t.color1 && Evaluate(t, u, v) == t.color0;
    }
  }
}
