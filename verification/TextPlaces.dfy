/**
  Where the glyphs of a laid out text are, where the text ends, and what its
  width adds up to, said of the cells and the characters taken alone.
 */
module TextPlaces {
  import opened Unicode
  import opened Utf16
  import opened TextLayout

  /** For each glyph of a text the number of line feeds since the glyph before it, `f` having come before the text. */
  function Feeds(glyph: u16 -> byte, us: seq<u16>, f: nat): seq<nat> {
    if us == [] then []
    else if us[0] == NEWLINE then Feeds(glyph, us[1..], f + 1)
    else if Shown(glyph, us[0]) == 0 then Feeds(glyph, us[1..], f)
    else [f] + Feeds(glyph, us[1..], 0)
  }

  /** The line feeds after the last glyph. */
  function Trailing(glyph: u16 -> byte, us: seq<u16>, f: nat): nat {
    if us == [] then f
    else if us[0] == NEWLINE then Trailing(glyph, us[1..], f + 1)
    else if Shown(glyph, us[0]) == 0 then Trailing(glyph, us[1..], f)
    else Trailing(glyph, us[1..], 0)
  }

  /** A place in the box. */
  datatype Place = Place(x: nat, y: nat)

  function EndOf(cell: Cell): Place {
    Place(cell.x + cell.width, cell.y)
  }

  /** Where the glyph before cell `n` ended; the text starts at `start`. */
  function EndBefore(start: Place, cells: seq<Cell>, n: nat): Place
    requires n <= |cells|
  {
    if n == 0 then start else EndOf(cells[n - 1])
  }

  /**
    The place of a glyph that follows the end of another one after `f` line
    feeds: on the same line if it fits there, and else at the start of a line,
    lower by one for each line feed, or by one for the wrap.
   */
  function Follow(c: Config, end: Place, f: nat, width: nat): Place {
    if f == 0 && end.x + width <= c.textWidth then end
    else Place(0, end.y + c.size * (if f == 0 then 1 else f))
  }

  /** Every cell is where it should be. */
  ghost predicate AllPlaced(c: Config, start: Place, cells: seq<Cell>, feeds: seq<nat>) {
    && |feeds| == |cells|
    && forall n :: 0 <= n < |cells| ==>
         Place(cells[n].x, cells[n].y) == Follow(c, EndBefore(start, cells, n), feeds[n], cells[n].width)
  }

  /** The place after `f` line feeds. */
  function After(c: Config, end: Place, f: nat): Place {
    if f == 0 then end else Place(0, end.y + c.size * f)
  }

  /** The widths summed up: that of a glyph counts twice where it was first tried on a full line. */
  function Tally(y: nat, cells: seq<Cell>, feeds: seq<nat>): nat
    requires |feeds| == |cells|
    decreases cells
  {
    if cells == [] then 0
    else
      var times := if feeds[0] == 0 && cells[0].y > y then 2 else 1;
      cells[0].width * times + Tally(cells[0].y, cells[1..], feeds[1..])
  }

  /** A glyph wider than the box is tried on every line below `y`, `k` of them. */
  predicate TriedOn(c: Config, y: nat, k: nat, lastLine: nat) {
    && lastLine == y + c.size * k && !c.HasLineBelow(lastLine)
    && (k > 0 ==> lastLine + c.size <= c.textHeight)
  }

  /** Why a text ends at its character `n`, from the place before it; its last line and the width summed up. */
  ghost predicate Ends(c: Config, glyph: u16 -> byte, us: seq<u16>, n: nat, end: Place, tally: nat, o: Outcome) {
    if n >= |us| || us[n] == 0 then o.y == end.y && o.stringWidth == tally % 0x1_0000
    else if us[n] == NEWLINE then
      !c.HasLineBelow(end.y) && o.y == end.y && o.stringWidth == tally % 0x1_0000
    else
      var w: nat := Shown(glyph, us[n]);
      0 < w && end.x + w > c.textWidth &&
      if c.multiLine && w > c.textWidth
      then exists k: nat :: TriedOn(c, end.y, k, o.y) && o.stringWidth == (tally + w * (k + 1)) % 0x1_0000
      else (c.multiLine ==> !c.HasLineBelow(end.y)) && o.y == end.y && o.stringWidth == (tally + w) % 0x1_0000
  }

  /** What is said of the layout of a text that goes on from `end` after `f` line feeds. */
  ghost predicate Placed(c: Config, glyph: u16 -> byte, us: seq<u16>, end: Place, f: nat, width: nat, o: Outcome) {
    && o.taken <= |us|
    && var feeds := Feeds(glyph, us[..o.taken], f);
       && AllPlaced(c, end, o.cells, feeds)
       && Ends(c, glyph, us, o.taken,
               After(c, EndBefore(end, o.cells, |o.cells|), Trailing(glyph, us[..o.taken], f)),
               width + Tally(end.y, o.cells, feeds), o)
  }

  lemma {:induction false} SumsJoin(a: nat, b: nat, n: nat)
    requires b == a % 0x1_0000
    ensures (b + n) % 0x1_0000 == (a + n) % 0x1_0000
  {}

  lemma {:induction false} OneMoreTime(a: nat, k: nat)
    ensures a * (k + 1) == a * k + a
  {}

  lemma {:induction false} TriesAreCounted(c: Config, y: nat, width: u16, w: byte) returns (k: nat)
    requires c.Valid() && y + c.size <= c.textHeight
    ensures TriedOn(c, y, k, LastLine(c, y)) && Tried(c, y, width, w) == (width + (w as nat) * (k + 1)) % 0x1_0000
    decreases c.textHeight - y
  {
    if c.HasLineBelow(y) {
      var again := Sum16(width, w);
      assert LastLine(c, y) == LastLine(c, y + c.size) && Tried(c, y, width, w) == Tried(c, y + c.size, again, w);
      hide LastLine, Tried;
      var more := TriesAreCounted(c, y + c.size, again, w);
      k := more + 1;
      OneMoreTime(w, k);
      OneMoreTime(c.size, more);
      SumsJoin(width + w, again, (w as nat) * k);
    } else {
      k := 0;
    }
  }

  /** The text ends before its first character. */
  lemma {:induction false} EndsHere(c: Config, glyph: u16 -> byte, us: seq<u16>, end: Place, f: nat, width: u16)
    requires c.Valid() && us != [] && end.y + c.size * f + c.size <= c.textHeight
    requires var p := After(c, end, f); Rule(c, glyph, us[0], p.x, p.y, width).Stop?
    ensures var p := After(c, end, f);
            var m := Rule(c, glyph, us[0], p.x, p.y, width);
            Placed(c, glyph, us, end, f, width, Outcome([], 0, m.lastLine, m.widthAtEnd))
  {
    var p := After(c, end, f);
    var m := Rule(c, glyph, us[0], p.x, p.y, width);
    var w := Shown(glyph, us[0]);
    assert us[..0] == [];
    if us[0] != 0 && us[0] != NEWLINE && c.multiLine && w > c.textWidth {
      var k := TriesAreCounted(c, p.y, width, w);
    }
  }

  /** One character is skipped: a line feed, or a glyph without width. */
  lemma {:induction false} PlacedAfterSkip(c: Config, glyph: u16 -> byte, us: seq<u16>, end: Place, f: nat,
                                           width: nat, r: Outcome)
    requires us != [] && (us[0] == NEWLINE || (us[0] != 0 && Shown(glyph, us[0]) == 0))
    requires Placed(c, glyph, us[1..], end, if us[0] == NEWLINE then f + 1 else f, width, r)
    ensures Placed(c, glyph, us, end, f, width, r.(taken := r.taken + 1))
  {
    var n := r.taken;
    assert us[..n + 1][1..] == us[1..][..n] && us[..n + 1][0] == us[0];
    assert n < |us[1..]| ==> us[n + 1] == us[1..][n];
  }

  /** One glyph is put into a cell. */
  lemma {:induction false} PlacedAfterPut(c: Config, glyph: u16 -> byte, us: seq<u16>, end: Place, f: nat, width: nat,
                                          cell: Cell, width': nat, r: Outcome)
    requires us != [] && us[0] != 0 && us[0] != NEWLINE && 0 < Shown(glyph, us[0]) == cell.width
    requires Place(cell.x, cell.y) == Follow(c, end, f, cell.width)
    requires width' == (width + cell.width * (if f == 0 && cell.y > end.y then 2 else 1)) % 0x1_0000
    requires Placed(c, glyph, us[1..], EndOf(cell), 0, width', r)
    ensures Placed(c, glyph, us, end, f, width, Before([cell], r))
  {
    hide Feeds, Trailing, EndBefore, Ends, AllPlaced, Follow, Shown, Tally, After;
    var n, cells := r.taken, [cell] + r.cells;
    var feeds := Feeds(glyph, us[1..][..n], 0);
    GlyphFirst(glyph, us, n, f);
    LastBehind(end, cell, r.cells);
    FeedsMatch(c, EndOf(cell), r.cells, feeds);
    PlacedFirst(c, end, cell, r.cells, f, feeds);
    TallyFirst(end.y, cell, r.cells, f, feeds);
    var t := cell.width * (if f == 0 && cell.y > end.y then 2 else 1);
    var last := After(c, EndBefore(end, cells, |cells|), Trailing(glyph, us[..n + 1], f));
    EndsWithSum(c, glyph, us, n, last, width', width + t, Tally(cell.y, r.cells, feeds), r, Before([cell], r));
  }

  lemma {:induction false} FeedsMatch(c: Config, start: Place, cells: seq<Cell>, feeds: seq<nat>)
    requires AllPlaced(c, start, cells, feeds)
    ensures |feeds| == |cells|
  {}

  /** The line feeds of a text that starts with a glyph. */
  lemma {:induction false} GlyphFirst(glyph: u16 -> byte, us: seq<u16>, n: nat, f: nat)
    requires us != [] && n <= |us| - 1 && us[0] != NEWLINE && Shown(glyph, us[0]) > 0
    ensures Feeds(glyph, us[..n + 1], f) == [f] + Feeds(glyph, us[1..][..n], 0)
    ensures Trailing(glyph, us[..n + 1], f) == Trailing(glyph, us[1..][..n], 0)
  {
    TakenFirst(us, n);
    hide Shown;
  }

  lemma {:induction false} LastBehind(end: Place, cell: Cell, rest: seq<Cell>)
    ensures EndBefore(end, [cell] + rest, |rest| + 1) == EndBefore(EndOf(cell), rest, |rest|)
  {}

  lemma {:induction false} TakenFirst(us: seq<u16>, n: nat)
    requires us != [] && n <= |us| - 1
    ensures us[..n + 1] != [] && us[..n + 1][1..] == us[1..][..n] && us[..n + 1][0] == us[0]
  {}

  lemma {:induction false} PlacedFirst(c: Config, start: Place, cell: Cell, rest: seq<Cell>, f: nat, feeds: seq<nat>)
    requires Place(cell.x, cell.y) == Follow(c, start, f, cell.width) && AllPlaced(c, EndOf(cell), rest, feeds)
    ensures AllPlaced(c, start, [cell] + rest, [f] + feeds)
  {
    hide Follow;
    var cells := [cell] + rest;
    forall n | 0 <= n < |cells|
      ensures Place(cells[n].x, cells[n].y) == Follow(c, EndBefore(start, cells, n), ([f] + feeds)[n], cells[n].width)
    {
      if n > 0 {
        assert cells[n] == rest[n - 1] && EndBefore(start, cells, n) == EndBefore(EndOf(cell), rest, n - 1);
      }
    }
  }

  lemma {:induction false} TallyFirst(y: nat, cell: Cell, rest: seq<Cell>, f: nat, feeds: seq<nat>)
    requires |feeds| == |rest|
    ensures Tally(y, [cell] + rest, [f] + feeds) ==
            cell.width * (if f == 0 && cell.y > y then 2 else 1) + Tally(cell.y, rest, feeds)
  {
    assert ([cell] + rest)[1..] == rest && ([f] + feeds)[1..] == feeds;
  }

  /** The end of a text, one character later and with another start of the sum. */
  lemma {:induction false} EndsWithSum(c: Config, glyph: u16 -> byte, us: seq<u16>, n: nat, end: Place, a': nat,
                                       a: nat, t: nat, r: Outcome, o: Outcome)
    requires us != [] && a' == a % 0x1_0000 && o.y == r.y && o.stringWidth == r.stringWidth
    requires Ends(c, glyph, us[1..], n, end, a' + t, r)
    ensures Ends(c, glyph, us, n + 1, end, a + t, o)
  {
    SumsJoin(a, a', t);
    if n < |us[1..]| {
      assert us[n + 1] == us[1..][n];
      var w: nat := Shown(glyph, us[n + 1]);
      hide Shown;
      SumsJoin(a, a', t + w);
      if us[n + 1] != 0 && us[n + 1] != NEWLINE && c.multiLine && w > c.textWidth {
        var k: nat :| TriedOn(c, end.y, k, r.y) && r.stringWidth == (a' + t + w * (k + 1)) % 0x1_0000;
        hide TriedOn;
        var more := w * (k + 1);
        SumsJoin(a, a', t + more);
        assert o.stringWidth == (a + t + more) % 0x1_0000;
      }
    }
  }

  /** What the rule does to a character, said of the glyph before it. */
  lemma {:induction false} RuleFollows(c: Config, glyph: u16 -> byte, u: u16, end: Place, f: nat, width: u16)
    requires c.Valid() && end.y + c.size * f + c.size <= c.textHeight && end.x <= c.textWidth
    ensures var p := After(c, end, f);
            match Rule(c, glyph, u, p.x, p.y, width)
            case Stop(_, _) => true
            case Skip(x, y) =>
              var g := if u == NEWLINE then f + 1 else f;
              && (u == NEWLINE || (u != 0 && Shown(glyph, u) == 0))
              && Place(x, y) == After(c, end, g) && end.y + c.size * g + c.size <= c.textHeight
            case Put(cell, width') =>
              && u != 0 && u != NEWLINE && 0 < Shown(glyph, u) == cell.width
              && Place(cell.x, cell.y) == Follow(c, end, f, cell.width)
              && width' == (width + cell.width * (if f == 0 && cell.y > end.y then 2 else 1)) % 0x1_0000
              && cell.y + c.size <= c.textHeight && cell.x + cell.width <= c.textWidth
  {
    OneMoreTime(c.size, f);
    hide LastLine, Tried;
    var w := Shown(glyph, u);
    SumsJoin(width + w, Sum16(width, w), w);
    hide Shown;
  }

  lemma {:induction false} LayoutStep(c: Config, glyph: u16 -> byte, us: seq<u16>, x: nat, y: nat, width: u16)
    requires c.Valid() && us != []
    ensures Layout(c, glyph, us, x, y, width) ==
            match Rule(c, glyph, us[0], x, y, width)
            case Stop(y', width') => Outcome([], 0, y', width')
            case Skip(x', y') => Before([], Layout(c, glyph, us[1..], x', y', width))
            case Put(cell, width') =>
              Before([cell], Layout(c, glyph, us[1..], cell.x + cell.width, cell.y, width'))
  {
    hide Rule, Before;
  }

  lemma {:induction false} NothingLaid(c: Config, glyph: u16 -> byte, us: seq<u16>, end: Place, f: nat, width: u16)
    requires c.Valid() && us == []
    ensures var p := After(c, end, f); Placed(c, glyph, us, end, f, width, Layout(c, glyph, us, p.x, p.y, width))
  {
    assert us[..0] == [];
  }

  /** The layout of a text that goes on from `end` after `f` line feeds. */
  lemma {:induction false} LaidFrom(c: Config, glyph: u16 -> byte, us: seq<u16>, end: Place, f: nat, width: u16)
    requires c.Valid() && end.y + c.size * f + c.size <= c.textHeight && end.x <= c.textWidth
    ensures var p := After(c, end, f); Placed(c, glyph, us, end, f, width, Layout(c, glyph, us, p.x, p.y, width))
    decreases |us|
  {
    hide Layout, Rule, Placed, After, Follow, Shown, Before;
    var p := After(c, end, f);
    if us == [] {
      NothingLaid(c, glyph, us, end, f, width);
    } else {
      RuleFollows(c, glyph, us[0], end, f, width);
      LayoutStep(c, glyph, us, p.x, p.y, width);
      match Rule(c, glyph, us[0], p.x, p.y, width)
      case Stop(_, _) => EndsHere(c, glyph, us, end, f, width);
      case Skip(x, y) =>
        LaidFrom(c, glyph, us[1..], end, if us[0] == NEWLINE then f + 1 else f, width);
        PlacedAfterSkip(c, glyph, us, end, f, width, Layout(c, glyph, us[1..], x, y, width));
        NothingBefore(Layout(c, glyph, us[1..], x, y, width));
      case Put(cell, width') =>
        LaidFrom(c, glyph, us[1..], EndOf(cell), 0, width');
        NoFeeds(c, EndOf(cell));
        PlacedAfterPut(c, glyph, us, end, f, width, cell, width',
                       Layout(c, glyph, us[1..], cell.x + cell.width, cell.y, width'));
    }
  }

  lemma {:induction false} NoFeeds(c: Config, end: Place)
    ensures After(c, end, 0) == end
  {}

  lemma {:induction false} NothingBefore(o: Outcome)
    ensures Before([], o) == o.(taken := o.taken + 1)
  {
    assert [] + o.cells == o.cells;
  }

  /**
    Where every glyph of a text is: the first one at the left of the first line,
    or of a lower one after line feeds, and each further one behind the one
    before it, or at the start of the line it was fed or wrapped to; why and
    where the text ends; and its width summed up in 16 bits.
   */
  lemma {:induction false} TextIsPlaced(c: Config, glyph: u16 -> byte, us: seq<u16>)
    requires c.Valid()
    ensures Placed(c, glyph, us, Place(0, 0), 0, 0, Layout(c, glyph, us, 0, 0, 0))
  {
    LaidFrom(c, glyph, us, Place(0, 0), 0, 0);
  }
}
