/**
  The text layout of the font renderer: a loop that takes its index back when
  a line is full, against a layout that never does.
 */
module TextLayout {

  import opened Unicode
  import opened Utf16

  const NEWLINE: u16 := 10
  const UNDERSCORE: u16 := 95

  /** The fields of `struct font_info` that steer the layout. */
  datatype Config = Config(textWidth: u16, textHeight: u16, size: byte, multiLine: bool, showPixel: bool,
                           bigendian: bool)
  {
    /** A line fits, and no coordinate can leave 16 bits. */
    predicate Valid() {
      0 < size <= textHeight && textHeight + size < 0x1_0000 && textWidth + 255 < 0x1_0000
    }

    /** There is room for one more line below the one at `y`. */
    predicate HasLineBelow(y: nat) {
      y + size + size <= textHeight
    }
  }

  /** The box of a drawn glyph, `size` high. */
  datatype Cell = Cell(x: nat, y: nat, width: nat)

  /** Where glyphs go, how many units were taken, the last line, and the width summed up in 16 bits. */
  datatype Outcome = Outcome(cells: seq<Cell>, taken: nat, y: nat, stringWidth: u16)

  function Sum16(a: u16, b: u16): u16 {
    (a + b) % 0x1_0000
  }

  /** The width shown for a unit: a missing glyph is shown as an underscore, if that has one. */
  function Shown(glyph: u16 -> byte, u: u16): byte {
    if glyph(u) != 0 then glyph(u) else glyph(UNDERSCORE)
  }

  function Before(cells: seq<Cell>, o: Outcome): Outcome {
    o.(cells := cells + o.cells, taken := o.taken + 1)
  }

  /** The lowest line reached by trying every line below `y`. */
  function LastLine(c: Config, y: nat): (last: nat)
    requires c.Valid()
    ensures y + c.size <= c.textHeight ==> last + c.size <= c.textHeight
    decreases c.textHeight - y
  {
    if c.HasLineBelow(y) then LastLine(c, y + c.size) else y
  }

  /** The width summed up by trying a glyph on every line from `y` on. */
  function Tried(c: Config, y: nat, width: u16, w: byte): u16
    requires c.Valid()
    decreases c.textHeight - y
  {
    if c.HasLineBelow(y) then Tried(c, y + c.size, Sum16(width, w), w) else Sum16(width, w)
  }

  /** What becomes of one unit. */
  datatype Move =
    | Stop(lastLine: nat, widthAtEnd: u16)
    | Skip(lineX: nat, lineY: nat)
    | Put(cell: Cell, widthAfter: u16)

  /**
    The rule for one unit at `(x, y)`: a glyph goes to the current line if it
    fits, else to the start of the next one; one wider than the box, or that
    finds no line, ends the text.
   */
  function Rule(c: Config, glyph: u16 -> byte, u: u16, x: nat, y: nat, width: u16): Move
    requires c.Valid()
  {
    if u == 0 then Stop(y, width)
    else if u == NEWLINE then
      if c.HasLineBelow(y) then Skip(0, y + c.size) else Stop(y, width)
    else
      var w := Shown(glyph, u);
      if w == 0 then Skip(x, y)
      else if x + w <= c.textWidth then Put(Cell(x, y, w), Sum16(width, w))
      else if !c.multiLine then Stop(y, Sum16(width, w))
      else if w > c.textWidth then Stop(LastLine(c, y), Tried(c, y, width, w))
      else if c.HasLineBelow(y) then Put(Cell(0, y + c.size, w), Sum16(Sum16(width, w), w))
      else Stop(y, Sum16(width, w))
  }

  /** The layout of a text, unit by unit. */
  function Layout(c: Config, glyph: u16 -> byte, us: seq<u16>, x: nat, y: nat, width: u16): Outcome
    requires c.Valid()
    decreases |us|
  {
    if us == [] then Outcome([], 0, y, width)
    else
      match Rule(c, glyph, us[0], x, y, width)
      case Stop(y', width') => Outcome([], 0, y', width')
      case Skip(x', y') => Before([], Layout(c, glyph, us[1..], x', y', width))
      case Put(cell, width') => Before([cell], Layout(c, glyph, us[1..], cell.x + cell.width, cell.y, width'))
  }

  // ----- the cells -----

  /** The cell lies inside the box, further right than `x` on line `y` or on a lower line. */
  predicate Inside(c: Config, cell: Cell, x: nat, y: nat) {
    && 0 < cell.width && cell.x + cell.width <= c.textWidth && cell.y + c.size <= c.textHeight
    && ((cell.y == y && x <= cell.x) || y + c.size <= cell.y)
  }

  /** Where one unit may go. */
  lemma {:induction false} RuleInside(c: Config, glyph: u16 -> byte, u: u16, x: nat, y: nat, width: u16)
    requires c.Valid() && y + c.size <= c.textHeight
    ensures match Rule(c, glyph, u, x, y, width)
            case Stop(y', _) => y' + c.size <= c.textHeight
            case Skip(x', y') => y' + c.size <= c.textHeight && ((x', y') == (x, y) || y' == y + c.size)
            case Put(cell, _) => Inside(c, cell, x, y)
  {}

  /** All cells are inside the box, on or after the place `(x, y)`. */
  ghost predicate AllInside(c: Config, cells: seq<Cell>, x: nat, y: nat) {
    forall i :: 0 <= i < |cells| ==> Inside(c, cells[i], x, y)
  }

  /** Any two cells are disjoint: the later one begins right of the earlier or on a lower line. */
  ghost predicate Apart(c: Config, cells: seq<Cell>) {
    forall i, j :: 0 <= i < j < |cells| ==> Inside(c, cells[j], cells[i].x + cells[i].width, cells[i].y)
  }

  lemma {:induction false} InsideLater(c: Config, cells: seq<Cell>, x: nat, y: nat, x': nat, y': nat)
    requires AllInside(c, cells, x', y') && ((y' == y && x <= x') || y + c.size <= y')
    ensures AllInside(c, cells, x, y)
  {}

  lemma {:induction false} OneMoreApart(c: Config, cell: Cell, rest: seq<Cell>)
    requires AllInside(c, rest, cell.x + cell.width, cell.y) && Apart(c, rest)
    ensures Apart(c, [cell] + rest)
  {
    var cells := [cell] + rest;
    forall i, j | 0 <= i < j < |cells| ensures Inside(c, cells[j], cells[i].x + cells[i].width, cells[i].y) {
      assert cells[j] == rest[j - 1];
      if i > 0 {
        assert cells[i] == rest[i - 1];
      }
    }
  }

  /** What becomes of a text after its first unit. */
  lemma {:induction false} CellsAfter(c: Config, glyph: u16 -> byte, us: seq<u16>, x: nat, y: nat, width: u16)
    requires c.Valid() && us != []
    ensures var o := Layout(c, glyph, us, x, y, width);
            match Rule(c, glyph, us[0], x, y, width)
            case Stop(_, _) => o.cells == [] && o.taken == 0
            case Skip(x', y') =>
              var r := Layout(c, glyph, us[1..], x', y', width); o.cells == r.cells && o.taken == 1 + r.taken
            case Put(cell, width') =>
              var r := Layout(c, glyph, us[1..], cell.x + cell.width, cell.y, width');
              o.cells == [cell] + r.cells && o.taken == 1 + r.taken
  {}

  /** All cells of a layout are inside the box. */
  lemma {:induction false} LaidInside(c: Config, glyph: u16 -> byte, us: seq<u16>, x: nat, y: nat, width: u16)
    requires c.Valid() && y + c.size <= c.textHeight
    ensures AllInside(c, Layout(c, glyph, us, x, y, width).cells, x, y)
    decreases |us|
  {
    if us != [] {
      CellsAfter(c, glyph, us, x, y, width);
      RuleInside(c, glyph, us[0], x, y, width);
      match Rule(c, glyph, us[0], x, y, width)
      case Stop(_, _) =>
      case Skip(x', y') =>
        LaidInside(c, glyph, us[1..], x', y', width);
        InsideLater(c, Layout(c, glyph, us[1..], x', y', width).cells, x, y, x', y');
      case Put(cell, width') =>
        LaidInside(c, glyph, us[1..], cell.x + cell.width, cell.y, width');
        InsideLater(c, Layout(c, glyph, us[1..], cell.x + cell.width, cell.y, width').cells, x, y,
                    cell.x + cell.width, cell.y);
    }
  }

  /** Any two cells of a layout are disjoint. */
  lemma {:induction false} LaidApart(c: Config, glyph: u16 -> byte, us: seq<u16>, x: nat, y: nat, width: u16)
    requires c.Valid() && y + c.size <= c.textHeight
    ensures Apart(c, Layout(c, glyph, us, x, y, width).cells)
    decreases |us|
  {
    if us != [] {
      CellsAfter(c, glyph, us, x, y, width);
      RuleInside(c, glyph, us[0], x, y, width);
      match Rule(c, glyph, us[0], x, y, width)
      case Stop(_, _) =>
      case Skip(x', y') => LaidApart(c, glyph, us[1..], x', y', width);
      case Put(cell, width') =>
        var rest := Layout(c, glyph, us[1..], cell.x + cell.width, cell.y, width').cells;
        LaidInside(c, glyph, us[1..], cell.x + cell.width, cell.y, width');
        LaidApart(c, glyph, us[1..], cell.x + cell.width, cell.y, width');
        OneMoreApart(c, cell, rest);
    }
  }

  /** The widths of the glyphs a run of units shows. */
  function Glyphs(glyph: u16 -> byte, us: seq<u16>): seq<nat> {
    if us == [] then []
    else if us[0] == NEWLINE || Shown(glyph, us[0]) == 0 then Glyphs(glyph, us[1..])
    else [Shown(glyph, us[0]) as nat] + Glyphs(glyph, us[1..])
  }

  function Widths(cells: seq<Cell>): seq<nat> {
    if cells == [] then [] else [cells[0].width] + Widths(cells[1..])
  }

  /** The first unit and the rest of those taken. */
  lemma {:induction false} TakenStep(us: seq<u16>, n: nat)
    requires us != [] && us[0] != 0 && n < |us| && 0 !in us[1..][..n]
    ensures us[..n + 1][0] == us[0] && us[..n + 1][1..] == us[1..][..n] && 0 !in us[..n + 1]
  {
    assert us[..n + 1] == [us[0]] + us[1..][..n];
  }

  lemma {:induction false} WidthsFirst(cell: Cell, cells: seq<Cell>)
    ensures Widths([cell] + cells) == [cell.width] + Widths(cells)
  {
    assert ([cell] + cells)[1..] == cells;
  }

  /** The width of the cell a unit is put into. */
  lemma {:induction false} RuleWidth(c: Config, glyph: u16 -> byte, u: u16, x: nat, y: nat, width: u16)
    requires c.Valid()
    ensures match Rule(c, glyph, u, x, y, width)
            case Stop(_, _) => true
            case Skip(_, _) => u != 0 && (u == NEWLINE || Shown(glyph, u) == 0)
            case Put(cell, _) => u != 0 && u != NEWLINE && cell.width == Shown(glyph, u) > 0
  {}

  /** Every unit taken has its glyph among the cells, in order; the text ends before the first zero. */
  lemma {:induction false} TakenAreLaid(c: Config, glyph: u16 -> byte, us: seq<u16>, x: nat, y: nat, width: u16)
    requires c.Valid()
    ensures var o := Layout(c, glyph, us, x, y, width);
            o.taken <= |us| && Widths(o.cells) == Glyphs(glyph, us[..o.taken]) && 0 !in us[..o.taken]
    decreases |us|
  {
    if us == [] {
      assert us[..0] == [];
    } else {
      CellsAfter(c, glyph, us, x, y, width);
      RuleWidth(c, glyph, us[0], x, y, width);
      match Rule(c, glyph, us[0], x, y, width)
      case Stop(_, _) =>
        assert us[..0] == [];
      case Skip(x', y') =>
        TakenAreLaid(c, glyph, us[1..], x', y', width);
        TakenStep(us, Layout(c, glyph, us[1..], x', y', width).taken);
      case Put(cell, width') =>
        var r := Layout(c, glyph, us[1..], cell.x + cell.width, cell.y, width');
        TakenAreLaid(c, glyph, us[1..], cell.x + cell.width, cell.y, width');
        TakenStep(us, r.taken);
        WidthsFirst(cell, r.cells);
    }
  }

  // ----- the loop -----

  lemma {:induction false} ReadUnits(str: seq<byte>, bigendian: bool, k: nat)
    requires |str| % 2 == 0 && 2 * k < |str|
    ensures |ReadAll(str, bigendian)| == |str| / 2
    ensures ReadAll(str, bigendian)[k] == ReadUnit(str, bigendian, 2 * k)
    decreases k
  {
    ReadLength(str, bigendian);
    if k > 0 {
      ReadUnits(str[2..], bigendian, k - 1);
    }
  }

  lemma {:induction false} ReadLength(str: seq<byte>, bigendian: bool)
    requires |str| % 2 == 0
    ensures |ReadAll(str, bigendian)| == |str| / 2
    decreases |str|
  {
    if str != [] {
      ReadLength(str[2..], bigendian);
    }
  }

  /** Asks for what `Laying` says of a text. */
  ghost predicate RecallText(us: seq<u16>) {
    true
  }

  /** `all` is what `cells` and `k` units have made of it so far, the rest being laid out from `(x, y)`. */
  ghost predicate Laying(c: Config, glyph: u16 -> byte, us: seq<u16>, all: Outcome,
                         cells: seq<Cell>, k: nat, x: nat, y: nat, width: u16)
    requires c.Valid()
  {
    && k <= |us| && y + c.size <= c.textHeight && x <= c.textWidth
    && forall t: seq<u16> {:trigger RecallText(t)} :: RecallText(t) && t == us ==>
         var o := Layout(c, glyph, t[k..], x, y, width);
         all == Outcome(cells + o.cells, k + o.taken, o.y, o.stringWidth)
  }

  lemma {:induction false} LaysOne(c: Config, glyph: u16 -> byte, us: seq<u16>, all: Outcome,
                                   cells: seq<Cell>, k: nat, x: nat, y: nat, width: u16)
    requires c.Valid() && Laying(c, glyph, us, all, cells, k, x, y, width) && k < |us|
    ensures match Rule(c, glyph, us[k], x, y, width)
            case Stop(y', width') => all == Outcome(cells, k, y', width')
            case Skip(x', y') => Laying(c, glyph, us, all, cells, k + 1, x', y', width)
            case Put(cell, width') =>
              Laying(c, glyph, us, all, cells + [cell], k + 1, cell.x + cell.width, cell.y, width')
  {
    assert RecallText(us);
    assert us[k..][1..] == us[k + 1..];
    var rest := us[k + 1..];
    match Rule(c, glyph, us[k], x, y, width)
    case Stop(_, _) =>
      assert cells + [] == cells;
    case Skip(x', y') =>
      var o := Layout(c, glyph, rest, x', y', width);
      assert cells + ([] + o.cells) == cells + o.cells;
    case Put(cell, width') =>
      var o := Layout(c, glyph, rest, cell.x + cell.width, cell.y, width');
      assert cells + ([cell] + o.cells) == cells + [cell] + o.cells;
  }

  /** The unit at `(x, y)` finds the line full and another one below it. */
  predicate Retries(c: Config, glyph: u16 -> byte, u: u16, x: nat, y: nat)
    requires c.Valid()
  {
    && u != 0 && u != NEWLINE && Shown(glyph, u) > 0
    && x + Shown(glyph, u) > c.textWidth && c.multiLine && c.HasLineBelow(y)
  }

  /** Taking the index back to try the same glyph on the next line does not change the layout. */
  lemma {:induction false} RetrySame(c: Config, glyph: u16 -> byte, u: u16, x: nat, y: nat, width: u16)
    requires c.Valid() && Retries(c, glyph, u, x, y)
    ensures Rule(c, glyph, u, x, y, width) == Rule(c, glyph, u, 0, y + c.size, Sum16(width, Shown(glyph, u)))
  {}

  lemma {:induction false} LaysAgain(c: Config, glyph: u16 -> byte, us: seq<u16>, all: Outcome,
                                     cells: seq<Cell>, k: nat, x: nat, y: nat, width: u16)
    requires c.Valid() && Laying(c, glyph, us, all, cells, k, x, y, width) && k < |us| && Retries(c, glyph, us[k], x, y)
    ensures Laying(c, glyph, us, all, cells, k, 0, y + c.size, Sum16(width, Shown(glyph, us[k])))
  {
    RetrySame(c, glyph, us[k], x, y, width);
    assert RecallText(us);
    assert us[k..][0] == us[k];
    var a := Layout(c, glyph, us[k..], x, y, width);
    var b := Layout(c, glyph, us[k..], 0, y + c.size, Sum16(width, Shown(glyph, us[k])));
    if Rule(c, glyph, us[k], x, y, width).Stop? {
      assert a == b;
    }
  }

  /** How the body of the loop is left. */
  datatype Exit = Break | Rewound | Onward

  /** What the body of the loop does to unit `u`: the place and width after it, and the cells it puts. */
  ghost predicate Did(c: Config, glyph: u16 -> byte, u: u16, x: nat, y: nat, width: u16,
                      exit: Exit, x': nat, y': nat, width': u16, put: seq<Cell>)
    requires c.Valid()
  {
    if exit.Rewound? then
      Retries(c, glyph, u, x, y) && x' == 0 && y' == y + c.size && width' == Sum16(width, Shown(glyph, u)) && put == []
    else
      !Retries(c, glyph, u, x, y) &&
      match Rule(c, glyph, u, x, y, width)
      case Stop(lastLine, widthAtEnd) => exit.Break? && y' == lastLine && width' == widthAtEnd && put == []
      case Skip(lineX, lineY) => exit.Onward? && x' == lineX && y' == lineY && width' == width && put == []
      case Put(cell, widthAfter) =>
        exit.Onward? && x' == cell.x + cell.width && y' == cell.y && width' == widthAfter && put == [cell]
  }

  lemma {:induction false} LaysBody(c: Config, glyph: u16 -> byte, us: seq<u16>, all: Outcome, cells: seq<Cell>, k: nat,
                                    x: nat, y: nat, width: u16, exit: Exit, x': nat, y': nat, width': u16,
                                    put: seq<Cell>)
    requires c.Valid() && Laying(c, glyph, us, all, cells, k, x, y, width) && k < |us|
    requires Did(c, glyph, us[k], x, y, width, exit, x', y', width', put)
    ensures exit.Break? ==> all == Outcome(cells, k, y', width') && put == [] && y' + c.size <= c.textHeight
    ensures exit.Rewound? ==> Laying(c, glyph, us, all, cells + put, k, x', y', width') && y' > y
    ensures exit.Onward? ==> Laying(c, glyph, us, all, cells + put, k + 1, x', y', width') && y' >= y
  {
    assert cells + [] == cells;
    if exit.Rewound? {
      LaysAgain(c, glyph, us, all, cells, k, x, y, width);
    } else {
      LaysOne(c, glyph, us, all, cells, k, x, y, width);
    }
  }

  lemma {:induction false} LaysAll(c: Config, glyph: u16 -> byte, us: seq<u16>, all: Outcome,
                                   cells: seq<Cell>, x: nat, y: nat, width: u16)
    requires c.Valid() && Laying(c, glyph, us, all, cells, |us|, x, y, width)
    ensures all == Outcome(cells, |us|, y, width)
  {
    assert RecallText(us) && us[|us|..] == [] && cells + [] == cells;
  }

  /** The index after the body: `i -= 2` before the loop's `i += 2` where the unit is to be tried again. */
  method NextIndex(i: u16, exit: Exit) returns (next: u16)
    requires i < 0xFFFE
    ensures next == if exit.Rewound? then i else i + 2
  {
    next := i;
    if exit == Rewound {
      next := (i - 2) % 0x1_0000;
    }
    next := (next + 2) % 0x1_0000;
  }

  function Visible(c: Config, cells: seq<Cell>): seq<Cell> {
    if c.showPixel then cells else []
  }

  lemma {:induction false} VisibleJoins(c: Config, was: seq<Cell>, cells: seq<Cell>, put: seq<Cell>)
    ensures was + Visible(c, cells) + Visible(c, put) == was + Visible(c, cells + put)
  {}

  class Renderer {
    const config: Config
    const glyph: u16 -> byte
    var stringWidth: u16
    var stringHeight: u16
    /** The glyphs drawn on the panel, in order. */
    var drawn: seq<Cell>

    constructor (config: Config, glyph: u16 -> byte)
      ensures this.config == config && this.glyph == glyph && drawn == []
    {
      this.config := config;
      this.glyph := glyph;
      stringWidth, stringHeight, drawn := 0, 0, [];
    }

    /** The body of the loop: the next place, and whether the loop ends, tries the unit again or goes on. */
    method Body(text: u16, x: u16, y: u16) returns (xpos: u16, ypos: u16, exit: Exit, ghost put: seq<Cell>)
      requires config.Valid() && x <= config.textWidth && y + config.size <= config.textHeight
      modifies this`stringWidth, this`drawn
      ensures Did(config, glyph, text, x, y, old(stringWidth), exit, xpos, ypos, stringWidth, put)
      ensures drawn == old(drawn) + Visible(config, put)
    {
      xpos, ypos, put := x, y, [];
      if text == 0 {
        return xpos, ypos, Break, put;
      }
      var width: u16 := glyph(text);
      if text == NEWLINE {
        xpos := 0;
        ypos := Sum16(ypos, config.size);
        if ypos + config.size > config.textHeight {
          ypos := ypos - config.size;
          return xpos, ypos, Break, put;
        }
        return xpos, ypos, Onward, put;
      }
      if width == 0 {
        width := glyph(UNDERSCORE);
        if width == 0 {
          return xpos, ypos, Onward, put;
        }
      }
      xpos, ypos, exit, put := Advance(text, width, xpos, ypos);
    }

    /** The rest of the body, for a glyph of some width. */
    method Advance(ghost text: u16, width: u16, x: u16, y: u16)
      returns (xpos: u16, ypos: u16, exit: Exit, ghost put: seq<Cell>)
      requires config.Valid() && x <= config.textWidth && y + config.size <= config.textHeight
      requires text != 0 && text != NEWLINE && width == Shown(glyph, text) && width > 0
      modifies this`stringWidth, this`drawn
      ensures Did(config, glyph, text, x, y, old(stringWidth), exit, xpos, ypos, stringWidth, put)
      ensures drawn == old(drawn) + Visible(config, put)
    {
      put := [];
      xpos, ypos := Sum16(x, width), y;
      stringWidth := Sum16(stringWidth, width);
      if xpos > config.textWidth {
        if config.multiLine {
          xpos := 0;
          ypos := Sum16(ypos, config.size);
          if ypos + config.size > config.textHeight {
            ypos := ypos - config.size;
            return xpos, ypos, Break, put;
          }
          return xpos, ypos, Rewound, put;
        } else {
          return xpos, ypos, Break, put;
        }
      }
      if config.showPixel {
        drawn := drawn + [Cell(xpos - width, ypos, width)];
      }
      put := [Cell(xpos - width, ypos, width)];
      exit := Onward;
    }

    /** `TextOutW_Unicode`. */
    method TextOut(str: seq<byte>) returns (taken: u16)
      requires config.Valid() && |str| % 2 == 0 && |str| < 0x1_0000
      modifies this
      ensures var o := Layout(config, glyph, ReadAll(str, config.bigendian), 0, 0, 0);
              taken == 2 * o.taken && stringWidth == o.stringWidth && stringHeight == o.y + config.size &&
              drawn == old(drawn) + Visible(config, o.cells)
    {
      ghost var us, cells, k: nat := ReadAll(str, config.bigendian), [], 0;
      ghost var all := Layout(config, glyph, us, 0, 0, 0);
      ReadLength(str, config.bigendian);
      assert us[0..] == us;
      var xpos: u16, ypos: u16, i: u16 := 0, 0, 0;
      stringWidth := 0;
      while i < |str|
        invariant i == 2 * k && k <= |us|
        invariant Laying(config, glyph, us, all, cells, k, xpos, ypos, stringWidth)
        invariant drawn == old(drawn) + Visible(config, cells)
        decreases config.textHeight - ypos, |str| - i
      {
        var done;
        i, xpos, ypos, done, cells, k := Turn(str, i, xpos, ypos, us, all, cells, k, old(drawn));
        if done {
          stringHeight := ypos + config.size;
          return i;
        }
      }
      LaysAll(config, glyph, us, all, cells, xpos, ypos, stringWidth);
      stringHeight := ypos + config.size;
      taken := i;
    }

    /** One turn of the loop, up to the index of the next; `done` when it is left by a `break`. */
    method Turn(str: seq<byte>, i: u16, x: u16, y: u16, ghost us: seq<u16>, ghost all: Outcome,
                ghost cells0: seq<Cell>, ghost k0: nat, ghost drawn0: seq<Cell>)
      returns (next: u16, xpos: u16, ypos: u16, done: bool, ghost cells: seq<Cell>, ghost k: nat)
      requires config.Valid() && |str| % 2 == 0 && |str| < 0x1_0000 && us == ReadAll(str, config.bigendian)
      requires i == 2 * k0 && i < |str| && k0 < |us| && drawn == drawn0 + Visible(config, cells0)
      requires Laying(config, glyph, us, all, cells0, k0, x, y, stringWidth)
      modifies this`stringWidth, this`drawn
      ensures drawn == drawn0 + Visible(config, cells) && next == 2 * k && k <= |us|
      ensures done ==> all == Outcome(cells, k, ypos, stringWidth) && ypos + config.size <= config.textHeight
      ensures !done ==> Laying(config, glyph, us, all, cells, k, xpos, ypos, stringWidth)
      ensures !done ==> y < ypos <= config.textHeight || (y == ypos && i < next)
    {
      ReadUnits(str, config.bigendian, k0);
      ghost var width := stringWidth;
      var exit: Exit;
      ghost var put: seq<Cell>;
      xpos, ypos, exit, put := Body(ReadUnit(str, config.bigendian, i), x, y);
      LaysBody(config, glyph, us, all, cells0, k0, x, y, width, exit, xpos, ypos, stringWidth, put);
      VisibleJoins(config, drawn0, cells0, put);
      done, next, cells, k := exit == Break, i, cells0 + put, k0;
      if done {
        assert cells0 + [] == cells0;
      } else {
        k := if exit.Rewound? then k0 else k0 + 1;
        next := NextIndex(i, exit);
      }
    }

    /** `font_unicode_display` up to the panel: the layout is that of the text's units, their number cut to 15 bits. */
    method Display(pixbuf: seq<byte>)
      requires config.Valid() && |pixbuf| < 0x1_0000
      modifies this
      ensures var us := Units(pixbuf);
              var o := Layout(config, glyph, us[..|us| % 0x8000], 0, 0, 0);
              drawn == old(drawn) + Visible(config, o.cells) && stringWidth == o.stringWidth &&
              stringHeight == o.y + config.size
    {
      ghost var us := Units(pixbuf);
      var unicbuf := new byte[2 * |pixbuf|](_ => 0);
      var utf16Len := Utf8ToUtf16(pixbuf, config.bigendian, unicbuf);
      assert unicbuf[..][..2 * |us|] == unicbuf[..2 * |us|];
      BufferReads(unicbuf[..], us, config.bigendian, utf16Len);
      assert unicbuf[..utf16Len] == unicbuf[..][..utf16Len];
      var taken := TextOut(unicbuf[..utf16Len]);
    }
  }
}
