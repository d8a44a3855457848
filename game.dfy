/** The page's mutable state and the operations of one animation tick
    (main.js): the 32 x 16 grid of cells, the per-row masks, and the one
    falling piece, updated in place by updateGrid, updatePiece, fakeMove,
    getPiece and run. The random choices of the page are parameters. */
module Game {
  import opened Bits
  import opened Bitboard

  class Trix {
    /** `grid[r].value`: the 16-bit mask of the stopped columns of row r. */
    const mask: array<nat>
    /** `grid[r].data[c].dataset.stopped === 'true'`. */
    const stopped: array2<bool>
    /** `grid[r].data[c].style.backgroundColor`. */
    const paint: array2<Color>
    /** The falling piece. */
    var pos: nat
    var color: Color
    var value: nat

    /** The grid has 32 rows of 16 cells. */
    predicate Shaped()
    {
      mask.Length == ROWS && stopped.Length0 == ROWS && stopped.Length1 == COLS
      && paint.Length0 == ROWS && paint.Length1 == COLS
    }

    /** The grid's invariant: every mask is a 16-bit value, and the floor row
        is full, stopped and red. */
    ghost predicate GridValid()
      reads mask, stopped, paint
    {
      Shaped() && MasksFit(mask[..]) && mask[LAST_ROW] == FULL_ROW
      && forall c :: 0 <= c < COLS ==> stopped[LAST_ROW, c] && paint[LAST_ROW, c] == RED
    }

    function Current(): Piece
      reads this
    {
      Piece(pos, color, value)
    }

    /** The state between two ticks: the grid invariant, a piece with no bit
        in the edge columns, and room for the piece to be tested one row down
        without reaching the floor. */
    ghost predicate Valid()
      reads this, mask, stopped, paint
    {
      GridValid() && EdgeFree(value) && AboveFloor(Below(Current()))
    }

    /** The stopped flags of row r, column 0 first. */
    ghost function StoppedRow(r: nat): (s: seq<bool>)
      requires Shaped() && r < ROWS
      reads stopped
      ensures |s| == COLS && forall c :: 0 <= c < COLS ==> s[c] == stopped[r, c]
    {
      seq(COLS, c requires 0 <= c < COLS reads stopped => stopped[r, c])
    }

    /** The page as it is first drawn, followed by getPiece: rows 0..30 empty
        and unpainted, row 31 full, stopped and red. */
    constructor (kind: nat, rot: nat)
      requires kind < 5 && rot < 4
      ensures Valid()
      ensures Current() == Spawn(kind, rot)
      ensures forall r :: 0 <= r < LAST_ROW ==> mask[r] == 0
      ensures forall r, c :: 0 <= r < LAST_ROW && 0 <= c < COLS ==> !stopped[r, c] && paint[r, c] == UNPAINTED
      ensures fresh(mask) && fresh(stopped) && fresh(paint)
    {
      mask := new nat[ROWS](r => if r == LAST_ROW then FULL_ROW else 0);
      stopped := new bool[ROWS, COLS]((r, c) => r == LAST_ROW);
      paint := new Color[ROWS, COLS]((r, c) => if r == LAST_ROW then RED else UNPAINTED);
      new;
      GetPiece(kind, rot);
    }

    /** getPiece: the piece restarts at the top with the chosen template. */
    method GetPiece(kind: nat, rot: nat)
      requires kind < 5 && rot < 4
      modifies this`pos, this`color, this`value
      ensures Current() == Spawn(kind, rot)
      ensures EdgeFree(value) && AboveFloor(Below(Current()))
    {
      TableShape();
      var p := PIECES[kind];
      pos := 0;
      color := p.color;
      value := p.values[rot];
      TemplatesEdgeFree(kind, rot);
    }

    /** updateGrid: every row above the floor gets the mask of its stopped
        cells, and every cell of those rows that is not stopped is painted
        black. The floor row, the stopped flags and the piece are untouched. */
    method UpdateGrid()
      requires GridValid()
      modifies mask, paint
      ensures GridValid()
      ensures forall r :: 0 <= r < LAST_ROW ==> mask[r] == RowValue(StoppedRow(r))
      ensures forall r, c :: 0 <= r < LAST_ROW && 0 <= c < COLS ==> (Bit(mask[r], c) <==> stopped[r, c])
      ensures forall r, c :: 0 <= r < ROWS && 0 <= c < COLS ==>
                paint[r, c] == if r < LAST_ROW && !stopped[r, c] then BLACK else old(paint[r, c])
    {
      for r := 0 to ROWS
        invariant forall r' :: 0 <= r' < ROWS ==> mask[r'] < 0x10000
        invariant forall r' {:trigger mask[r']} :: 0 <= r' < r && r' < LAST_ROW ==> mask[r'] == RowValue(StoppedRow(r'))
        invariant forall r' {:trigger mask[r']} :: 0 <= r' < ROWS && (r' >= r || r' == LAST_ROW) ==> mask[r'] == old(mask[r'])
        invariant forall r', c {:trigger paint[r', c]} :: 0 <= r' < ROWS && 0 <= c < COLS ==>
                    paint[r', c] == if r' < r && r' < LAST_ROW && !stopped[r', c] then BLACK else old(paint[r', c])
      {
        if r < LAST_ROW {
          var v := CleanRow(r);
          mask[r] := v;
        }
      }
      forall r, c | 0 <= r < LAST_ROW && 0 <= c < COLS ensures Bit(mask[r], c) <==> stopped[r, c] {
        RowValueBits(StoppedRow(r), c);
      }
    }

    /** The body of updateGrid for one row r above the floor: the OR of
        2^c over its stopped columns c, painting every other cell black. */
    method CleanRow(r: nat) returns (v: nat)
      requires Shaped() && r < LAST_ROW
      modifies paint
      ensures v == RowValue(StoppedRow(r)) && v < 0x10000
      ensures forall r', c :: 0 <= r' < ROWS && 0 <= c < COLS ==>
                paint[r', c] == if r' == r && !stopped[r', c] then BLACK else old(paint[r', c])
    {
      ghost var row := StoppedRow(r);
      v := 0;
      for c := 0 to COLS
        invariant v == RowValue(row[..c])
        invariant forall r', c' {:trigger paint[r', c']} :: 0 <= r' < ROWS && 0 <= c' < COLS ==>
                    paint[r', c'] == if r' == r && c' < c && !stopped[r', c'] then BLACK else old(paint[r', c'])
      {
        RowValueStep(row, c, v);
        if !stopped[r, c] {
          paint[r, c] := BLACK;
        } else {
          v := Or(v, Pow2(c));
        }
      }
      assert row[..COLS] == row;
      RowValueFits(row);
    }

    /** updatePiece(stop): every cell the piece covers in rows 0..31 is
        painted the piece's colour and, with stop, becomes stopped; nothing
        else changes. Without stop the piece then moves one row down. */
    method UpdatePiece(stop: bool)
      requires Shaped()
      modifies this, paint, stopped
      ensures pos == if stop then old(pos) else old(pos) + 1
      ensures color == old(color) && value == old(value)
      ensures forall r, c :: 0 <= r < ROWS && 0 <= c < COLS ==>
                paint[r, c] == if Covers(old(Current()), r, c) then old(color) else old(paint[r, c])
      ensures forall r, c :: 0 <= r < ROWS && 0 <= c < COLS ==>
                stopped[r, c] == (old(stopped[r, c]) || (stop && Covers(old(Current()), r, c)))
    {
      ghost var p := Current();
      for slot := 0 to 4
        invariant Current() == p
        invariant forall r, c {:trigger paint[r, c]} :: 0 <= r < ROWS && 0 <= c < COLS ==>
                    paint[r, c] == if Covers(p, r, c) && p.pos + 3 < r + slot then p.color else old(paint[r, c])
        invariant forall r, c {:trigger stopped[r, c]} :: 0 <= r < ROWS && 0 <= c < COLS ==>
                    stopped[r, c] == (old(stopped[r, c]) || (stop && Covers(p, r, c) && p.pos + 3 < r + slot))
      {
        if pos + 3 - slot < ROWS {
          DrawRow(slot, stop);
        }
      }
      if !stop {
        pos := pos + 1;
      }
    }

    /** The body of updatePiece for one shape row: row `slot` of the shape
        (counted from the bottom) lands on grid row pos + 3 - slot, and every
        column whose bit is set there is painted and, with stop, stopped. */
    method DrawRow(slot: nat, stop: bool)
      requires Shaped() && slot < 4 && pos + 3 - slot < ROWS
      modifies paint, stopped
      ensures forall r, c :: 0 <= r < ROWS && 0 <= c < COLS ==>
                paint[r, c] == if r + slot == pos + 3 && Covers(Current(), r, c) then color else old(paint[r, c])
      ensures forall r, c :: 0 <= r < ROWS && 0 <= c < COLS ==>
                stopped[r, c] == (old(stopped[r, c]) || (stop && r + slot == pos + 3 && Covers(Current(), r, c)))
    {
      var id := pos + 3 - slot;
      for c := 0 to COLS
        invariant forall r, c' {:trigger paint[r, c']} :: 0 <= r < ROWS && 0 <= c' < COLS ==>
                    paint[r, c'] == if r == id && c' < c && Bit(value, c' + slot * COLS) then color else old(paint[r, c'])
        invariant forall r, c' {:trigger stopped[r, c']} :: 0 <= r < ROWS && 0 <= c' < COLS ==>
                    stopped[r, c'] == (old(stopped[r, c']) || (stop && r == id && c' < c && Bit(value, c' + slot * COLS)))
      {
        AndPow2(c + slot * COLS, value);
        if And(Pow2(c + slot * COLS), value) != 0 {
          paint[id, c] := color;
          if stop {
            stopped[id, c] := true;
          }
        }
      }
    }

    /** fakeMove: the shifted value is committed when it has no bit in the
        guarded column and does not collide where the piece is. An edge-free
        piece stays edge-free, and a piece above the floor stays above it. */
    method FakeMove(dir: Direction)
      requires GridValid()
      modifies this`value
      ensures value == Nudge(mask[..], old(Current()), dir)
      ensures old(EdgeFree(value)) ==> EdgeFree(value)
      ensures old(AboveFloor(Current())) ==> AboveFloor(Current())
    {
      ghost var p := Current();
      if dir == Right {
        var v := value * 2;
        if And(0x8000800080008000, v) == 0 {
          CollidingIsCollision(mask[..], Piece(pos, color, v));
          if IsColliding(mask[..], Piece(pos, color, v)) == 0 {
            value := v;
          }
        }
      } else {
        var v := value / 2;
        if And(0x1000100010001, v) == 0 {
          CollidingIsCollision(mask[..], Piece(pos, color, v));
          if IsColliding(mask[..], Piece(pos, color, v)) == 0 {
            value := v;
          }
        }
      }
      assert value == Nudge(mask[..], p, dir);
      if EdgeFree(p.value) {
        NudgeEdgeFree(mask[..], p, dir);
      }
      if AboveFloor(p) {
        MoveAboveFloor(mask[..], p, dir);
        assert p.(value := Nudge(mask[..], p, dir)) == Current();
      }
    }

    /** The first three steps of run: the masks are rebuilt from the stopped
        flags, the piece is drawn and moves down one row, and makes its move.
        The piece is then edge-free and clear of the floor, and no stopped
        flag has changed. */
    method Descend(dir: Direction)
      requires Valid()
      modifies this, mask, paint, stopped
      ensures GridValid() && EdgeFree(value) && AboveFloor(Current())
      ensures forall r :: 0 <= r < LAST_ROW ==> mask[r] == RowValue(old(StoppedRow(r)))
      ensures Current() == Piece(old(pos) + 1, old(color), Nudge(mask[..], Below(old(Current())), dir))
      ensures forall r, c :: 0 <= r < ROWS && 0 <= c < COLS ==> stopped[r, c] == old(stopped[r, c])
      ensures forall r, c :: 0 <= r < ROWS && 0 <= c < COLS ==>
                paint[r, c] == if Covers(old(Current()), r, c) then old(color)
                               else if r < LAST_ROW && !old(stopped[r, c]) then BLACK
                               else old(paint[r, c])
    {
      ghost var p := Current();
      UpdateGrid();
      ghost var m := mask[..];
      UpdatePiece(false);
      assert Current() == Below(p);
      forall c | 0 <= c < COLS ensures !Covers(p, LAST_ROW, c) {
        if Covers(p, LAST_ROW, c) {
          CoversAboveFloor(p, LAST_ROW, c);
        }
      }
      FakeMove(dir);
      assert mask[..] == m;
    }

    /** isColliding: the hex probe of the four rows below the piece's
        position, AND-ed with the piece, is the arithmetic collision of the
        piece moved one row down. */
    method Colliding() returns (hit: nat)
      requires GridValid()
      ensures hit == Collision(mask[..], Below(Current()))
    {
      CollidingIsCollision(mask[..], Below(Current()));
      hit := IsColliding(mask[..], Below(Current()));
    }

    /** run: one tick. After Descend the piece is tested one row further
        down. If that collides, the piece is frozen where it is (its cells
        are painted and stopped, all above the floor) and a new piece is
        spawned; otherwise it stays one row lower than at entry. */
    method Run(kind: nat, rot: nat, dir: Direction) returns (ghost at: Piece, ghost landed: bool)
      requires Valid() && kind < 5 && rot < 4
      modifies this, mask, paint, stopped
      ensures Valid()
      ensures forall r :: 0 <= r < LAST_ROW ==> mask[r] == RowValue(old(StoppedRow(r)))
      ensures at == Piece(old(pos) + 1, old(color), Nudge(mask[..], Below(old(Current())), dir))
      ensures landed == (Collision(mask[..], Below(at)) != 0)
      ensures Current() == if landed then Spawn(kind, rot) else at
      ensures landed ==> forall r: nat, c: nat :: Covers(at, r, c) ==> r < LAST_ROW
      ensures forall r, c :: 0 <= r < ROWS && 0 <= c < COLS ==>
                stopped[r, c] == (old(stopped[r, c]) || (landed && Covers(at, r, c)))
      ensures forall r, c :: 0 <= r < ROWS && 0 <= c < COLS ==>
                paint[r, c] == if landed && Covers(at, r, c) then at.color
                               else if Covers(old(Current()), r, c) then old(color)
                               else if r < LAST_ROW && !old(stopped[r, c]) then BLACK
                               else old(paint[r, c])
    {
      Descend(dir);
      ghost var m := mask[..];
      at := Current();
      forall r: nat, c: nat | Covers(at, r, c) ensures r < LAST_ROW {
        CoversAboveFloor(at, r, c);
      }
      var hit := Colliding();
      landed := hit != 0;
      if hit != 0 {
        UpdatePiece(true);
        GetPiece(kind, rot);
      } else {
        NoCollisionAboveFloor(mask[..], Below(at));
      }
      assert mask[..] == m;
    }
  }
}
