/** The bitboard: the constant piece table, a piece's 64-bit shape, the
    collision probe built from four 16-bit row masks, and the guarded
    one-column shift of the demo's random move (main.js).

    Layout. Grid row r has a 16-bit mask in which bit c is column c.
    A piece at `pos` covers grid rows pos..pos+3; its shape row i
    (0 <= i < 4) sits at grid row pos + i and is bits 16*(3-i) .. 16*(3-i)+15
    of the piece value, so shape row 0 is the most significant 16 bits. */
module Bitboard {
  import opened Bits
  import opened Hex

  const ROWS: nat := 32        // GRID_NUMBER_OF_ROWS
  const COLS: nat := 16        // GRID_NUMBER_OF_COLS
  const LAST_ROW: nat := 31    // GRID_LAST_ROW_ID, the floor
  const FULL_ROW: nat := 0xFFFF  // (1 << GRID_NUMBER_OF_COLS) - 1

  /** A CSS colour as the page writes it into `style.backgroundColor`. */
  type Color = string

  const RED: Color := "#FF0000"
  const BLACK: Color := "black"
  /** The background of a cell the page has never painted. */
  const UNPAINTED: Color := ""

  /** One entry of PIECES: four rotations and a colour. */
  datatype Template = Template(values: seq<nat>, color: Color)

  const PIECES: seq<Template> := [
    Template([0x080008000800080, 0x3C0000000000000,
              0x080008000800080, 0x3C0000000000000], "#FF8000"),
    Template([0x080038000000000, 0x180008000800000,
              0x380020000000000, 0x200020003000000], "#00FF00"),
    Template([0x1C0008000000000, 0x080018000800000,
              0x08000C000800000, 0x08001C000000000], "#0000FF"),
    Template([0x08000C000400000, 0x0C0018000000000,
              0x0C0018000000000, 0x08000C000400000], "#00FFFF"),
    Template([0x180018000000000, 0x180018000000000,
              0x180018000000000, 0x180018000000000], "#0080FF")
  ]

  /** The falling piece, or a copy of it (`{...piece, pos}`, `{...piece, value}`). */
  datatype Piece = Piece(pos: nat, color: Color, value: nat)

  /** Direction of the demo move: Right is `value << 1` (towards higher
      column numbers), Left is `value >> 1`. */
  datatype Direction = Right | Left

  lemma TableShape()
    ensures |PIECES| == 5
    ensures forall kind :: 0 <= kind < 5 ==> |PIECES[kind].values| == 4
  {
  }

  /** What getPiece installs for a chosen entry and rotation. */
  function Spawn(kind: nat, rot: nat): Piece
    requires kind < 5 && rot < 4
  {
    TableShape();
    Piece(0, PIECES[kind].color, PIECES[kind].values[rot])
  }

  // ---------------------------------------------------------------- shapes

  /** Shape row i of a piece value: the 16 bits that land on grid row pos + i
      (`(v >> 16 * (3 - i)) & 0xFFFF`). */
  function ShapeRow(v: nat, i: nat): nat
    requires i < 4
  {
    if i == 3 then v % 0x10000
    else if i == 2 then (v / 0x10000) % 0x10000
    else if i == 1 then (v / 0x10000 / 0x10000) % 0x10000
    else (v / 0x10000 / 0x10000 / 0x10000) % 0x10000
  }

  /** Four 16-bit rows packed most significant first into one 64-bit value. */
  function Stack(rows: seq<nat>): nat
    requires |rows| == 4
  {
    ((rows[0] * 0x10000 + rows[1]) * 0x10000 + rows[2]) * 0x10000 + rows[3]
  }

  /** Four rows, each a 16-bit value. */
  predicate RowsFit(rows: seq<nat>)
  {
    |rows| == 4 && forall i :: 0 <= i < 4 ==> rows[i] < 0x10000
  }

  /** The piece covers grid cell (r, c): shape row r - pos has bit c set. */
  predicate Covers(p: Piece, r: nat, c: nat)
  {
    p.pos <= r <= p.pos + 3 && c < COLS && Bit(p.value, c + COLS * (p.pos + 3 - r))
  }

  /** No bit of v lies in the first or the last column of any row, and v fits in 64 bits. */
  ghost predicate EdgeFree(v: nat)
  {
    v < 0x1_0000_0000_0000_0000 && forall k: nat :: Bit(v, k) ==> 0 < k % 16 < 15
  }

  /** Within the 64-bit window, no bit of v lies in column c. */
  predicate ColumnClear(v: nat, c: nat)
  {
    forall k: nat :: k < 64 && Bit(v, k) ==> k % 16 != c
  }

  lemma BitOfSum16(a: nat, b: nat, k: nat)
    requires b < 0x10000
    ensures Bit(a * 0x10000 + b, k) <==> if k < 16 then Bit(b, k) else Bit(a, k - 16)
  {
    Pow2Values();
    BitOfSumAt(a, b, 16, k, a * 0x10000 + b);
  }

  /** Bit k of v is a bit of its low 16 bits or of the rest shifted down by 16. */
  lemma Split16(v: nat, k: nat)
    ensures Bit(v, k) <==> if k < 16 then Bit(v % 0x10000, k) else Bit(v / 0x10000, k - 16)
  {
    BitOfSum16(v / 0x10000, v % 0x10000, k);
  }

  /** `v & 0xFFFF` keeps bits 0..15 of v. */
  lemma Low16(v: nat, c: nat)
    ensures Bit(v % 0x10000, c) <==> c < 16 && Bit(v, c)
  {
    Split16(v, c);
    if c >= 16 && Bit(v % 0x10000, c) {
      BitBound(v % 0x10000, c);
      Pow2Values();
      Pow2Monotone(16, c);
    }
  }

  /** Bit c of shape row i is bit 16 * (3 - i) + c of the value. */
  lemma ShapeRowBit(v: nat, i: nat, c: nat)
    requires i < 4
    ensures Bit(ShapeRow(v, i), c) <==> c < 16 && Bit(v, 16 * (3 - i) + c)
  {
    if i == 3 {
      Low16(v, c);
    } else if i == 2 {
      Low16(v / 0x10000, c);
      Split16(v, c + 16);
    } else if i == 1 {
      Low16(v / 0x10000 / 0x10000, c);
      Split16(v / 0x10000, c + 16);
      Split16(v, c + 32);
    } else {
      Low16(v / 0x10000 / 0x10000 / 0x10000, c);
      Split16(v / 0x10000 / 0x10000, c + 16);
      Split16(v / 0x10000, c + 32);
      Split16(v, c + 48);
    }
  }

  /** Below 2^64, bit k is bit k % 16 of shape row 3 - k / 16, and there is no bit from 64 up. */
  lemma ValueBit(v: nat, k: nat)
    requires v < 0x1_0000_0000_0000_0000
    ensures Bit(v, k) <==> k < 64 && Bit(ShapeRow(v, 3 - k / 16), k % 16)
  {
    if k >= 64 {
      if Bit(v, k) {
        BitBound(v, k);
        Pow2Values();
        Pow2Monotone(64, k);
      }
    } else {
      ShapeRowBit(v, 3 - k / 16, k % 16);
    }
  }

  lemma DivMod16(hi: nat, lo: nat)
    requires lo < 0x10000
    ensures (hi * 0x10000 + lo) / 0x10000 == hi && (hi * 0x10000 + lo) % 0x10000 == lo
  {
  }

  /** Shape row i of a stack of 16-bit rows is row i. */
  lemma StackRows(rows: seq<nat>, i: nat)
    requires RowsFit(rows) && i < 4
    ensures ShapeRow(Stack(rows), i) == rows[i]
  {
    var top := rows[0] * 0x10000 + rows[1];
    var upper := top * 0x10000 + rows[2];
    DivMod16(upper, rows[3]);
    DivMod16(top, rows[2]);
    DivMod16(rows[0], rows[1]);
  }

  /** Bit k of a stack of 16-bit rows is bit k % 16 of row 3 - k / 16. */
  lemma StackBit(rows: seq<nat>, k: nat)
    requires RowsFit(rows)
    ensures Bit(Stack(rows), k) <==> k < 64 && Bit(rows[3 - k / 16], k % 16)
  {
    ValueBit(Stack(rows), k);
    if k < 64 {
      StackRows(rows, 3 - k / 16);
    }
  }

  /** Rows with bit 0 and bit 15 clear in each. */
  predicate RowsInside(rows: seq<nat>)
  {
    RowsFit(rows) && forall i :: 0 <= i < 4 ==> rows[i] % 2 == 0 && rows[i] < 0x8000
  }

  /** An even row below 2^15 has neither bit 0 nor bit 15 set. */
  lemma RowInsideBit(row: nat, c: nat)
    requires row % 2 == 0 && row < 0x8000 && Bit(row, c)
    ensures c != 0 && c != 15
  {
    if c == 15 {
      BitBound(row, 15);
      Pow2Values();
    }
  }

  /** Stacking rows that avoid bits 0 and 15 gives an edge-free value. */
  lemma EdgeFreeStack(rows: seq<nat>)
    requires RowsInside(rows)
    ensures EdgeFree(Stack(rows))
  {
    forall k: nat | Bit(Stack(rows), k) ensures 0 < k % 16 < 15 {
      StackBit(rows, k);
      RowInsideBit(rows[3 - k / 16], k % 16);
    }
  }

  /** The rows of each template of PIECES, top row first. */
  lemma TemplateRows(kind: nat, rot: nat) returns (rows: seq<nat>)
    requires kind < 5 && rot < 4
    ensures RowsInside(rows) && Spawn(kind, rot).value == Stack(rows)
  {
    if kind == 0 {
      rows := IRows(rot);
    } else if kind == 1 {
      rows := LRows(rot);
    } else if kind == 2 {
      rows := TRows(rot);
    } else if kind == 3 {
      rows := SRows(rot);
    } else {
      rows := [0x180, 0x180, 0, 0];
    }
  }

  lemma IRows(rot: nat) returns (rows: seq<nat>)
    requires rot < 4
    ensures RowsInside(rows) && Spawn(0, rot).value == Stack(rows)
  {
    rows := if rot % 2 == 0 then [0x80, 0x80, 0x80, 0x80] else [0x3C0, 0, 0, 0];
  }

  lemma LRows(rot: nat) returns (rows: seq<nat>)
    requires rot < 4
    ensures RowsInside(rows) && Spawn(1, rot).value == Stack(rows)
  {
    rows := if rot == 0 then [0x80, 0x380, 0, 0] else if rot == 1 then [0x180, 0x80, 0x80, 0]
            else if rot == 2 then [0x380, 0x200, 0, 0] else [0x200, 0x200, 0x300, 0];
  }

  lemma TRows(rot: nat) returns (rows: seq<nat>)
    requires rot < 4
    ensures RowsInside(rows) && Spawn(2, rot).value == Stack(rows)
  {
    rows := if rot == 0 then [0x1C0, 0x80, 0, 0] else if rot == 1 then [0x80, 0x180, 0x80, 0]
            else if rot == 2 then [0x80, 0xC0, 0x80, 0] else [0x80, 0x1C0, 0, 0];
  }

  lemma SRows(rot: nat) returns (rows: seq<nat>)
    requires rot < 4
    ensures RowsInside(rows) && Spawn(3, rot).value == Stack(rows)
  {
    rows := if rot == 0 || rot == 3 then [0x80, 0xC0, 0x40, 0] else [0xC0, 0x180, 0, 0];
  }

  /** No template of PIECES has a bit in column 0 or 15, and each fits in 64 bits. */
  lemma TemplatesEdgeFree(kind: nat, rot: nat)
    requires kind < 5 && rot < 4
    ensures EdgeFree(Spawn(kind, rot).value)
  {
    var rows := TemplateRows(kind, rot);
    EdgeFreeStack(rows);
  }

  // ---------------------------------------------------------------- rows

  /** The row mask updateGrid computes from a row's stopped flags: the OR of
      2^c over the stopped columns c, accumulated left to right. */
  function RowValue(stopped: seq<bool>): (m: nat)
    ensures m < Pow2(|stopped|)
  {
    if stopped == [] then 0
    else RowValue(stopped[..|stopped| - 1]) + (if stopped[|stopped| - 1] then Pow2(|stopped| - 1) else 0)
  }

  /** Bit c of the row mask is set exactly when column c is stopped. */
  lemma {:induction false} RowValueBits(stopped: seq<bool>, c: nat)
    ensures Bit(RowValue(stopped), c) <==> c < |stopped| && stopped[c]
  {
    if stopped == [] {
      BitZero(c);
    } else {
      var n := |stopped| - 1;
      var init := stopped[..n];
      RowValueBits(init, c);
      var b := if stopped[n] then 1 else 0;
      assert RowValue(stopped) == b * Pow2(n) + RowValue(init);
      BitOfSum(b, RowValue(init), n, c);
      if c > n {
        BitZero(c - n - 1);
      }
    }
  }

  /** A mask built from one row's 16 flags is a 16-bit value. */
  lemma RowValueFits(stopped: seq<bool>)
    requires |stopped| == COLS
    ensures RowValue(stopped) < 0x10000
  {
    Pow2Values();
  }

  /** One step of updateGrid's inner loop: OR-ing 2^c in for a stopped
      column c extends the mask of the first c columns to the first c + 1. */
  lemma RowValueStep(stopped: seq<bool>, c: nat, v: nat)
    requires c < |stopped| && v == RowValue(stopped[..c])
    ensures RowValue(stopped[..c + 1]) == if stopped[c] then Or(v, Pow2(c)) else v
  {
    assert stopped[..c + 1][..c] == stopped[..c];
    if stopped[c] {
      OrPow2Above(v, c);
    }
  }

  // ---------------------------------------------------------------- probe

  /** `grid[id].value`, with the implicit full row below the grid. */
  function RowMask(masks: seq<nat>, id: nat): nat
    requires |masks| == ROWS
  {
    if id >= ROWS then FULL_ROW else masks[id]
  }

  /** Every row mask is a 16-bit value. */
  predicate MasksFit(masks: seq<nat>)
  {
    |masks| == ROWS && forall r :: 0 <= r < ROWS ==> masks[r] < 0x10000
  }

  /** `m.toString(16).padStart(4, '0')`. */
  function Digits(m: nat): string
  {
    PadStart(ToHex(m), 4, '0')
  }

  lemma DigitsAreHex(m: nat)
    ensures IsHex(Digits(m))
  {
    var hex := ToHex(m);
    var s := Digits(m);
    forall i | 0 <= i < |s| ensures IsHexDigit(s[i]) {
      if i >= |s| - |hex| {
        assert s[i] == s[|s| - |hex|..][i - (|s| - |hex|)];
      }
    }
  }

  /** The joined digits of the four row masks under a piece at pos. */
  function ProbeText(masks: seq<nat>, pos: nat): (s: string)
    requires |masks| == ROWS
    ensures IsHex(s)
  {
    var a, b := Digits(RowMask(masks, pos)), Digits(RowMask(masks, pos + 1));
    var c, d := Digits(RowMask(masks, pos + 2)), Digits(RowMask(masks, pos + 3));
    DigitsAreHex(RowMask(masks, pos));
    DigitsAreHex(RowMask(masks, pos + 1));
    DigitsAreHex(RowMask(masks, pos + 2));
    DigitsAreHex(RowMask(masks, pos + 3));
    ParseConcat(a, b);
    ParseConcat(a + b, c);
    ParseConcat(a + b + c, d);
    a + b + c + d
  }

  /** The probe value `BigInt('0x' + joined digits)`. */
  function Probe(masks: seq<nat>, pos: nat): nat
    requires |masks| == ROWS
  {
    ParseHex(ProbeText(masks, pos))
  }

  /** isColliding(p): the probe under p ANDed with p's shape. */
  function IsColliding(masks: seq<nat>, p: Piece): nat
    requires |masks| == ROWS
  {
    And(Probe(masks, p.pos), p.value)
  }

  /** The default argument of isColliding: the piece one row further down. */
  function Below(p: Piece): Piece
  {
    p.(pos := p.pos + 1)
  }

  /** The four row masks under pos as one 64-bit number, top row most significant. */
  function Window(masks: seq<nat>, pos: nat): nat
    requires |masks| == ROWS
  {
    Stack(ProbeRows(masks, pos))
  }

  /** isColliding read arithmetically: the window under p ANDed with p's shape. */
  function Collision(masks: seq<nat>, p: Piece): nat
    requires |masks| == ROWS
  {
    And(Window(masks, p.pos), p.value)
  }

  /** Because every mask is below 2^16, the four padded hex strings read back
      as the masks placed side by side. */
  lemma ProbeIsWindow(masks: seq<nat>, pos: nat)
    requires MasksFit(masks)
    ensures Probe(masks, pos) == Window(masks, pos)
  {
    var rows := ProbeRows(masks, pos);
    JoinedDigits(rows[0], rows[1], rows[2], rows[3]);
  }

  /** The probe is the sum of mask(pos + i) * 2^(16 * (3 - i)) over the four rows. */
  lemma ProbeIsSum(masks: seq<nat>, pos: nat)
    requires MasksFit(masks)
    ensures Probe(masks, pos) == RowMask(masks, pos) * Pow2(48) + RowMask(masks, pos + 1) * Pow2(32)
                                 + RowMask(masks, pos + 2) * Pow2(16) + RowMask(masks, pos + 3)
  {
    ProbeIsWindow(masks, pos);
    WindowIsSum(masks, pos);
  }

  lemma WindowIsSum(masks: seq<nat>, pos: nat)
    requires |masks| == ROWS
    ensures Window(masks, pos) == RowMask(masks, pos) * Pow2(48) + RowMask(masks, pos + 1) * Pow2(32)
                                  + RowMask(masks, pos + 2) * Pow2(16) + RowMask(masks, pos + 3)
  {
    var rows := ProbeRows(masks, pos);
    StackSum(rows[0], rows[1], rows[2], rows[3]);
  }

  /** On a grid of 16-bit masks the string probe and the arithmetic reading agree. */
  lemma CollidingIsCollision(masks: seq<nat>, p: Piece)
    requires MasksFit(masks)
    ensures IsColliding(masks, p) == Collision(masks, p)
  {
    ProbeIsWindow(masks, p.pos);
  }

  /** The four row masks under a piece at pos, top row first. */
  function ProbeRows(masks: seq<nat>, pos: nat): (rows: seq<nat>)
    requires |masks| == ROWS
    ensures |rows| == 4 && forall i :: 0 <= i < 4 ==> rows[i] == RowMask(masks, pos + i)
  {
    [RowMask(masks, pos), RowMask(masks, pos + 1), RowMask(masks, pos + 2), RowMask(masks, pos + 3)]
  }

  lemma JoinedDigits(m0: nat, m1: nat, m2: nat, m3: nat)
    requires m0 < 0x10000 && m1 < 0x10000 && m2 < 0x10000 && m3 < 0x10000
    ensures IsHex(Digits(m0) + Digits(m1) + Digits(m2) + Digits(m3))
    ensures ParseHex(Digits(m0) + Digits(m1) + Digits(m2) + Digits(m3))
              == ((m0 * 0x10000 + m1) * 0x10000 + m2) * 0x10000 + m3
  {
    var a, b, c, d := Digits(m0), Digits(m1), Digits(m2), Digits(m3);
    Padded4(m0);
    Padded4(m1);
    Padded4(m2);
    Padded4(m3);
    ParseJoin4(a, b, c, d);
  }

  lemma StackSum(m0: nat, m1: nat, m2: nat, m3: nat)
    ensures Stack([m0, m1, m2, m3]) == m0 * Pow2(48) + m1 * Pow2(32) + m2 * Pow2(16) + m3
  {
    Pow2Values();
  }

  /** Bit k of the window under pos is bit k % 16 of the grid row that shape
      row 3 - k / 16 lands on; the window has no bit at or above 64. */
  lemma WindowBit(masks: seq<nat>, pos: nat, k: nat)
    requires MasksFit(masks)
    ensures Bit(Window(masks, pos), k) <==> k < 64 && Bit(RowMask(masks, pos + 3 - k / 16), k % 16)
  {
    StackBit(ProbeRows(masks, pos), k);
  }

  /** A common bit of the window and the piece is a covered cell whose row bit is set. */
  lemma CommonBitIsOverlap(masks: seq<nat>, p: Piece, k: nat)
    requires MasksFit(masks) && Bit(Window(masks, p.pos), k) && Bit(p.value, k)
    ensures k < 64 && Covers(p, p.pos + 3 - k / 16, k % 16) && Bit(RowMask(masks, p.pos + 3 - k / 16), k % 16)
  {
    WindowBit(masks, p.pos, k);
    assert k % 16 + 16 * (k / 16) == k;
  }

  /** A covered cell whose row bit is set is a common bit of the window and the piece. */
  lemma OverlapIsCommonBit(masks: seq<nat>, p: Piece, r: nat, c: nat)
    requires MasksFit(masks) && Covers(p, r, c) && Bit(RowMask(masks, r), c)
    ensures Bit(Window(masks, p.pos), c + 16 * (p.pos + 3 - r)) && Bit(p.value, c + 16 * (p.pos + 3 - r))
  {
    var k := c + 16 * (p.pos + 3 - r);
    assert k / 16 == p.pos + 3 - r && k % 16 == c;
    WindowBit(masks, p.pos, k);
  }

  /** isColliding(p) is nonzero exactly when the piece covers a cell whose
      row mask bit is set (the floor row below the grid counts as full). */
  lemma CollisionOverlap(masks: seq<nat>, p: Piece)
    requires MasksFit(masks)
    ensures Collision(masks, p) != 0 ==> exists r: nat, c: nat :: Covers(p, r, c) && Bit(RowMask(masks, r), c)
    ensures (exists r: nat, c: nat :: Covers(p, r, c) && Bit(RowMask(masks, r), c)) ==> Collision(masks, p) != 0
  {
    AndNonzeroIff(Window(masks, p.pos), p.value);
    if Collision(masks, p) != 0 {
      var k: nat :| Bit(Window(masks, p.pos), k) && Bit(p.value, k);
      CommonBitIsOverlap(masks, p, k);
    }
    if r: nat, c: nat :| Covers(p, r, c) && Bit(RowMask(masks, r), c) {
      OverlapIsCommonBit(masks, p, r, c);
    }
  }

  /** Bit c of a grid row and bit 16 * (3 - i) + c of a piece value make the
      row and shape row i share a bit, and conversely. */
  lemma RowShareBit(row: nat, v: nat, i: nat, c: nat)
    requires i < 4 && c < 16
    ensures Bit(row, c) && Bit(v, 16 * (3 - i) + c) ==> And(row, ShapeRow(v, i)) != 0
  {
    ShapeRowBit(v, i, c);
    if Bit(row, c) && Bit(v, 16 * (3 - i) + c) {
      AndSharedBit(row, ShapeRow(v, i), c);
    }
  }

  /** A common bit k of the window and the piece lies in some shape row i,
      whose grid row then shares a bit with it. */
  lemma CommonBitInRow(masks: seq<nat>, p: Piece, k: nat) returns (i: nat)
    requires MasksFit(masks) && Bit(Window(masks, p.pos), k) && Bit(p.value, k)
    ensures i < 4 && And(RowMask(masks, p.pos + i), ShapeRow(p.value, i)) != 0
  {
    WindowBit(masks, p.pos, k);
    i := 3 - k / 16;
    var c := k % 16;
    SplitIndex(k, i, c);
    RowShareBit(RowMask(masks, p.pos + i), p.value, i, c);
  }

  lemma SplitIndex(k: nat, i: nat, c: nat)
    requires k < 64 && i == 3 - k / 16 && c == k % 16
    ensures i < 4 && c < 16 && 16 * (3 - i) + c == k
  {
  }

  /** A bit shared by shape row i and the grid row under it is a common bit
      of the window and the piece. */
  lemma RowBitInCommon(masks: seq<nat>, p: Piece, i: nat)
    requires MasksFit(masks) && i < 4
    requires And(RowMask(masks, p.pos + i), ShapeRow(p.value, i)) != 0
    ensures Collision(masks, p) != 0
  {
    var c := SharedRowBit(RowMask(masks, p.pos + i), p.value, i);
    var k := 16 * (3 - i) + c;
    assert k / 16 == 3 - i && k % 16 == c;
    WindowBit(masks, p.pos, k);
    AndSharedBit(Window(masks, p.pos), p.value, k);
  }

  /** A bit shared by a grid row and shape row i, as a column of the row and a bit of the value. */
  lemma SharedRowBit(row: nat, v: nat, i: nat) returns (c: nat)
    requires i < 4 && And(row, ShapeRow(v, i)) != 0
    ensures c < 16 && Bit(row, c) && Bit(v, 16 * (3 - i) + c)
  {
    AndNonzeroIff(row, ShapeRow(v, i));
    c :| Bit(row, c) && Bit(ShapeRow(v, i), c);
    ShapeRowBit(v, i, c);
  }

  /** isColliding(p) is nonzero exactly when, for some shape row i, the grid
      row under it and the shape row share a set bit: the row-by-row reading
      of the single 64-bit AND. */
  lemma CollisionIff(masks: seq<nat>, p: Piece)
    requires MasksFit(masks)
    ensures Collision(masks, p) != 0 ==>
              exists i :: 0 <= i < 4 && And(RowMask(masks, p.pos + i), ShapeRow(p.value, i)) != 0
    ensures (exists i :: 0 <= i < 4 && And(RowMask(masks, p.pos + i), ShapeRow(p.value, i)) != 0) ==>
              Collision(masks, p) != 0
  {
    if Collision(masks, p) != 0 {
      AndNonzeroIff(Window(masks, p.pos), p.value);
      var k: nat :| Bit(Window(masks, p.pos), k) && Bit(p.value, k);
      var i := CommonBitInRow(masks, p, k);
    }
    if i :| 0 <= i < 4 && And(RowMask(masks, p.pos + i), ShapeRow(p.value, i)) != 0 {
      RowBitInCommon(masks, p, i);
    }
  }

  /** The floor: a piece with a non-empty shape row at or below row 31
      always collides, so every falling piece is eventually stopped. */
  lemma FloorStops(masks: seq<nat>, p: Piece, i: nat)
    requires MasksFit(masks) && masks[LAST_ROW] == FULL_ROW
    requires i < 4 && p.pos + i >= LAST_ROW && ShapeRow(p.value, i) != 0
    ensures Collision(masks, p) != 0
  {
    var row := ShapeRow(p.value, i);
    NonzeroIffBit(row);
    var c: nat :| Bit(row, c);
    ShapeRowBit(p.value, i, c);
    FullRowBit(c);
    assert RowMask(masks, p.pos + i) == FULL_ROW;
    AndSharedBit(FULL_ROW, row, c);
    RowBitInCommon(masks, p, i);
  }

  /** The full row has exactly the sixteen column bits set. */
  lemma FullRowBit(c: nat)
    ensures Bit(FULL_ROW, c) <==> c < 16
  {
    Pow2Values();
    BitAllOnes(16, c);
  }

  /** A piece whose non-empty shape rows all lie above the floor row. */
  predicate AboveFloor(p: Piece)
  {
    forall i :: 0 <= i < 4 ==> ShapeRow(p.value, i) != 0 ==> p.pos + i < LAST_ROW
  }

  /** Every cell a piece above the floor covers is in a row above the floor. */
  lemma CoversAboveFloor(p: Piece, r: nat, c: nat)
    requires AboveFloor(p) && Covers(p, r, c)
    ensures r < LAST_ROW
  {
    var i := r - p.pos;
    ShapeRowBit(p.value, i, c);
    BitZero(c);
  }

  /** A piece that does not collide on a grid with the full floor is above the floor. */
  lemma NoCollisionAboveFloor(masks: seq<nat>, p: Piece)
    requires MasksFit(masks) && masks[LAST_ROW] == FULL_ROW
    requires Collision(masks, p) == 0
    ensures AboveFloor(p)
  {
    forall i | 0 <= i < 4 && ShapeRow(p.value, i) != 0 ensures p.pos + i < LAST_ROW {
      if p.pos + i >= LAST_ROW {
        FloorStops(masks, p, i);
      }
    }
  }

  /** fakeMove keeps a piece above the floor: a kept value stays where it
      was, and a committed one passed the collision test at pos. */
  lemma MoveAboveFloor(masks: seq<nat>, p: Piece, dir: Direction)
    requires MasksFit(masks) && masks[LAST_ROW] == FULL_ROW && AboveFloor(p)
    ensures AboveFloor(p.(value := Nudge(masks, p, dir)))
  {
    if Nudge(masks, p, dir) != p.value {
      NoCollisionAboveFloor(masks, p.(value := Shifted(p.value, dir)));
    }
  }

  /** On the page's starting grid (rows 0..30 empty), a freshly spawned piece
      can always fall one row. This does not hold for later spawns. */
  lemma SpawnFallsOnEmptyGrid(masks: seq<nat>, kind: nat, rot: nat)
    requires MasksFit(masks) && forall r :: 0 <= r < LAST_ROW ==> masks[r] == 0
    requires kind < 5 && rot < 4
    ensures IsColliding(masks, Below(Spawn(kind, rot))) == 0
  {
    CollidingIsCollision(masks, Below(Spawn(kind, rot)));
  }

  // ---------------------------------------------------------------- move

  /** `value << 1` or `value >> 1`. */
  function Shifted(v: nat, dir: Direction): nat
  {
    if dir == Right then v * 2 else v / 2
  }

  /** The column the guard of a move tests: 15 going right, 0 going left. */
  function GuardColumn(dir: Direction): nat
  {
    if dir == Right then 15 else 0
  }

  /** The literals of fakeMove: 0x8000800080008000 and 0x1000100010001. */
  function Guard(dir: Direction): nat
  {
    if dir == Right then 0x8000800080008000 else 0x1000100010001
  }

  /** The row of each guard literal: bit 15 going right, bit 0 going left. */
  function GuardRow(dir: Direction): nat
  {
    if dir == Right then 0x8000 else 1
  }

  /** Each guard literal repeats its guard row in each of the four rows. */
  lemma GuardRows(dir: Direction) returns (rows: seq<nat>)
    ensures RowsFit(rows) && Guard(dir) == Stack(rows)
    ensures forall i :: 0 <= i < 4 ==> rows[i] == GuardRow(dir)
  {
    rows := if dir == Right then [0x8000, 0x8000, 0x8000, 0x8000] else [1, 1, 1, 1];
  }

  /** The guard row has exactly the bit of the guard column. */
  lemma GuardRowBit(dir: Direction, c: nat)
    ensures Bit(GuardRow(dir), c) <==> c == GuardColumn(dir)
  {
    Pow2Values();
    BitPow2(GuardColumn(dir), c);
  }

  /** `guard & v` is zero exactly when v has no bit in the guarded column. */
  lemma GuardIff(dir: Direction, v: nat)
    ensures And(Guard(dir), v) == 0 <==> ColumnClear(v, GuardColumn(dir))
  {
    AndNonzeroIff(Guard(dir), v);
    forall k: nat ensures Bit(Guard(dir), k) <==> k < 64 && k % 16 == GuardColumn(dir) {
      GuardBit(dir, k);
    }
  }

  /** The guard has exactly the bits of its column in each of the four rows. */
  lemma GuardBit(dir: Direction, k: nat)
    ensures Bit(Guard(dir), k) <==> k < 64 && k % 16 == GuardColumn(dir)
  {
    var rows := GuardRows(dir);
    StackBit(rows, k);
    GuardRowBit(dir, k % 16);
  }

  /** fakeMove's decision: the value the piece has afterwards. */
  function Nudge(masks: seq<nat>, p: Piece, dir: Direction): nat
    requires |masks| == ROWS
  {
    var v := Shifted(p.value, dir);
    if And(Guard(dir), v) == 0 && Collision(masks, p.(value := v)) == 0 then v else p.value
  }

  /** The move is committed exactly when the shifted value has no bit in the
      guarded column and does not collide at the current row; otherwise the
      value is kept. */
  lemma NudgeCommits(masks: seq<nat>, p: Piece, dir: Direction)
    requires |masks| == ROWS
    ensures Nudge(masks, p, dir) ==
              if ColumnClear(Shifted(p.value, dir), GuardColumn(dir))
                 && Collision(masks, p.(value := Shifted(p.value, dir))) == 0
              then Shifted(p.value, dir) else p.value
  {
    GuardIff(dir, Shifted(p.value, dir));
  }

  /** A set bit of an edge-free value lies below bit 64. */
  lemma EdgeFreeBitBelow64(v: nat, k: nat)
    requires EdgeFree(v) && Bit(v, k)
    ensures k < 64
  {
    BitBound(v, k);
    Pow2Values();
    if k >= 64 {
      Pow2Monotone(64, k);
    }
  }

  /** `<< 1` of an edge-free value that clears the guard of column 15 is edge-free. */
  lemma ShiftRightEdgeFree(v: nat)
    requires EdgeFree(v) && ColumnClear(2 * v, 15)
    ensures EdgeFree(2 * v)
  {
    Pow2Values();
    assert !Bit(v, 63);
    ClearTopBit(v, 63);
    forall k: nat | Bit(2 * v, k) ensures 0 < k % 16 < 15 {
      ShiftRightBit(v, k);
    }
  }

  lemma ShiftRightBit(v: nat, k: nat)
    requires EdgeFree(v) && ColumnClear(2 * v, 15) && Bit(2 * v, k)
    ensures 0 < k % 16 < 15
  {
    BitOfDouble(v, k);
    EdgeFreeBitBelow64(v, k - 1);
  }

  /** `>> 1` of an edge-free value drops no set bit, and when it clears the
      guard of column 0 it is edge-free. */
  lemma ShiftLeftEdgeFree(v: nat)
    requires EdgeFree(v) && ColumnClear(v / 2, 0)
    ensures EdgeFree(v / 2) && (v / 2) * 2 == v
  {
    assert !Bit(v, 0);
    forall k: nat | Bit(v / 2, k) ensures 0 < k % 16 < 15 {
      assert Bit(v, k + 1);
      EdgeFreeBitBelow64(v, k + 1);
    }
  }

  /** An edge-free value stays edge-free under the move, and a committed
      `>> 1` drops no set bit. */
  lemma NudgeEdgeFree(masks: seq<nat>, p: Piece, dir: Direction)
    requires |masks| == ROWS && EdgeFree(p.value)
    ensures EdgeFree(Nudge(masks, p, dir))
    ensures Nudge(masks, p, dir) == p.value || Nudge(masks, p, dir) * 2 == p.value
              || Nudge(masks, p, dir) == p.value * 2
  {
    if Nudge(masks, p, dir) != p.value {
      GuardIff(dir, Shifted(p.value, dir));
      if dir == Right {
        ShiftRightEdgeFree(p.value);
      } else {
        ShiftLeftEdgeFree(p.value);
      }
    }
  }

  /** On an edge-free piece, `<< 1` moves every covered cell one column right
      and `>> 1` one column left, within the same grid row: nothing wraps. */
  lemma ShiftMovesOneColumn(p: Piece, dir: Direction, r: nat, c: nat)
    requires EdgeFree(p.value)
    ensures dir == Right ==> (Covers(p.(value := Shifted(p.value, dir)), r, c) <==> c > 0 && Covers(p, r, c - 1))
    ensures dir == Left ==> (Covers(p.(value := Shifted(p.value, dir)), r, c) <==> c < 15 && Covers(p, r, c + 1))
  {
    if p.pos <= r <= p.pos + 3 {
      var s := p.pos + 3 - r;
      if dir == Right {
        BitOfDouble(p.value, c + 16 * s);
      } else {
        assert Bit(p.value / 2, c + 16 * s) <==> Bit(p.value, c + 1 + 16 * s);
      }
    }
  }

  /** The guard tests the shifted value, not the piece at the wall: a piece
      whose only cell is column 0 of grid row 2 is not held back by `>> 1`,
      and the cell reappears in column 15 of grid row 3. Template pieces
      never reach this state (TemplatesEdgeFree, NudgeEdgeFree). */
  lemma WallBitWraps(masks: seq<nat>)
    requires MasksFit(masks) && forall r :: 0 <= r < LAST_ROW ==> masks[r] == 0
    ensures var p := Piece(0, RED, 0x10000);
            Covers(p, 2, 0) && Nudge(masks, p, Left) == 0x8000
            && Covers(p.(value := 0x8000), 3, 15) && !Covers(p.(value := 0x8000), 2, 0)
  {
    Pow2Values();
    BitPow2(16, 16);
    BitPow2(15, 15);
    BitPow2(15, 16);
    forall k: nat | k < 64 && Bit(0x8000, k) ensures k % 16 != 0 {
      BitPow2(15, k);
    }
    GuardIff(Left, 0x8000);
    assert Window(masks, 0) == 0;
  }
}
