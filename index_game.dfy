/**
 * The colour-bias quiz of src/index.ts: the `State` of one test question,
 * built from the draws of its constructor, its rendering, the answer
 * parser, and the per-channel command handler of `apply`.
 */
module IndexGame {
  import opened Wrappers
  import Numeral
  import Color
  import SectorHsv
  import Bias
  import Grid

  /** `MAX_LEVEL`: the last level of a test. */
  const MaxLevel := 9

  /** One question: its level, grid, target cell, the two colours and the palette. */
  datatype State = State(
    level: nat, size: nat, line: nat, row: nat,
    base: string, biased: string, bgColor: string, fgColor: string)

  /** A question that can be stored: a level of the test and a target inside its grid. */
  predicate WellFormed(st: State) {
    && st.level <= MaxLevel
    && st.size == Grid.Size(st.level)
    && st.line < st.size && st.row < st.size
  }

  /**
   * `st` is what `new State(level)` builds from the draws `d` when the three
   * decay curves of `level` evaluate to `rg`.
   */
  ghost predicate Constructed(st: State, level: nat, d: Bias.Draws, rg: Bias.Ranges)
    requires Bias.ValidDraws(d) && Bias.Within(rg, Bias.IndexProfile)
  {
    Bias.ProfilesBounded(rg);
    var size := Grid.Size(level);
    var b := Bias.Base(d);
    var c := Bias.Biased(d, rg);
    && st.level == level && st.size == size
    && st.line == Bias.RandomInt(d.line, size) && st.row == Bias.RandomInt(d.row, size)
    && SectorHsv.Hsv(b.h, b.s, b.v) == Some(st.base)
    && SectorHsv.Hsv(c.h, c.s, c.v) == Some(st.biased)
    && (st.bgColor, st.fgColor) == Bias.Legibility(b.s, b.v)
  }

  /**
   * `new State(level)` (src/index.ts:44-85): the target cell lies inside the
   * grid, both colours are defined `#rrggbb` strings, and the palette is
   * black on white.
   */
  method NewState(level: nat, d: Bias.Draws, rg: Bias.Ranges) returns (st: State)
    requires Bias.ValidDraws(d) && Bias.Within(rg, Bias.IndexProfile)
    ensures Constructed(st, level, d, rg)
    ensures 4 <= st.size && st.line < st.size && st.row < st.size
    ensures level <= MaxLevel ==> WellFormed(st)
    ensures Color.ParseColor(st.base).Some? && Color.ParseColor(st.biased).Some?
    ensures st.bgColor == Color.White && st.fgColor == Color.Black
  {
    var size := Grid.Size(level);
    var line := Bias.RandomInt(d.line, size);
    var row := Bias.RandomInt(d.row, size);
    var b := Bias.Base(d);
    var h, s, v := b.h, b.s, b.v;
    var base := SectorHsv.Hsv(h, s, v).value;
    SectorHsv.HsvSpans(h, s, v);

    Bias.ProfilesBounded(rg);
    var f := Bias.Factors(d);
    var c := Bias.Generate(b, f, rg, d.signS, d.signV, d.signH);
    var biased := SectorHsv.Hsv(c.h, c.s, c.v).value;
    SectorHsv.HsvSpans(c.h, c.s, c.v);

    var palette := Bias.Legibility(s, v);
    Bias.AlwaysBlackOnWhite(d);
    st := State(level, size, line, row, base, biased, palette.0, palette.1);
  }

  /**
   * `State.render` (src/index.ts:87-119) without the canvas: the palette,
   * the labels `1..size` across the top and `A, B, ...` down the side, and
   * the cells, of which the one at row `line` and column `row` is biased.
   */
  method Render(st: State) returns (pic: Grid.Picture)
    requires st.size + 64 < 0xD800
    ensures pic.background == st.bgColor && pic.foreground == st.fgColor
    ensures |pic.columnLabels| == st.size && |pic.rowLabels| == st.size
    ensures forall j | 0 <= j < st.size :: pic.columnLabels[j] == Grid.ColumnLabel(j + 1)
    ensures forall i | 0 <= i < st.size :: pic.rowLabels[i] == [(i + 65) as char]
    ensures Grid.Square(pic.cells, st.size)
    ensures st.line < st.size && st.row < st.size ==> pic.cells[st.line][st.row] == st.biased
    ensures forall i, j | 0 <= i < st.size && 0 <= j < st.size && (i != st.line || j != st.row) ::
      pic.cells[i][j] == st.base
  {
    var columns, rows := Grid.DrawLabels(st.size);
    var cells := Grid.DrawCells(st.size, st.line, st.row, st.base, st.biased);
    pic := Grid.Picture(st.bgColor, st.fgColor, columns, rows, cells);
  }

  /** `[a-z]` under the `i` flag: an ASCII letter of either case. */
  predicate IsLetter(c: char) {
    'a' <= c <= 'z' || 'A' <= c <= 'Z'
  }

  /**
   * `/^[a-z]\d+$/i`: one letter followed by one or more decimal digits. The
   * letter's code modulo 32 is then its place in the alphabet, 1 to 26, in
   * either case.
   */
  predicate Matches(p: string): (b: bool)
    ensures b ==> |p| >= 2 && 1 <= p[0] as int % 32 <= 26
  {
    |p| >= 2 && IsLetter(p[0]) && Numeral.AllDigits(p[1..], 10)
  }

  /**
   * The answer parser (src/index.ts:153-158): `None` for a string the
   * pattern rejects, otherwise the zero-based row from the letter
   * (`charCode % 32 - 1`, so `A` and `a` are both 0) and the zero-based
   * column from the number.
   */
  function ParsePosition(p: string): (r: Option<(int, int)>)
    ensures r.Some? <==> Matches(p)
    ensures r.Some? ==> 0 <= r.value.0 < 26 && -1 <= r.value.1
  {
    if Matches(p) then Some((p[0] as int % 32 - 1, Numeral.Parse(p[1..], 10) - 1)) else None
  }

  /** The row letter of row `i`, upper case as drawn or lower case as a player may type it. */
  function RowLetter(i: nat, lower: bool): (s: string)
    requires i < 26
    ensures |s| == 1 && IsLetter(s[0])
  {
    [((if lower then 97 else 65) + i) as char]
  }

  /**
   * Typing the letter drawn beside row `i` (in either case) and the number
   * drawn above column `j` parses back to the cell `(i, j)`.
   */
  lemma {:induction false} LabelsRoundTrip(i: nat, j: nat, lower: bool)
    requires i < 26
    ensures Grid.RowLabel(i + 1) == RowLetter(i, false)
    ensures ParsePosition(RowLetter(i, lower) + Grid.ColumnLabel(j + 1)) == Some((i, j))
  {
    var number := Grid.ColumnLabel(j + 1);
    var p := RowLetter(i, lower) + number;
    assert p[1..] == number;
    assert Matches(p);
    assert p[0] as int % 32 == i + 1;
  }

  /** The reply kinds of the command handler; the reply text is not modelled. */
  datatype Reply =
    | NoActiveTest  // a position or quit without a running test
    | Started       // a new test at level 0
    | Stopped       // quit
    | AskPosition   // no position given
    | Malformed     // the position does not match the pattern
    | Wrong         // not the target cell
    | Completed     // the target cell at the last level
    | Advanced      // the target cell below the last level

  /** JavaScript truthiness of the optional position: absent and empty are both false. */
  predicate Present(position: Option<string>): (b: bool)
    ensures b ==> position.Some? && |position.value| >= 1
    ensures position.Some? && Matches(position.value) ==> b
  {
    position.Some? && position.value != ""
  }

  /**
   * The reply of the handler for the channel's current question (if any),
   * the position argument and the quit option, in the order the handler
   * tests them.
   */
  function Decide(current: Option<State>, position: Option<string>, quit: bool): (reply: Reply)
    ensures current.None? <==> reply in {NoActiveTest, Started}
    ensures current.None? ==> (reply == NoActiveTest <==> Present(position) || quit)
    ensures current.Some? && quit ==> reply == Stopped
    ensures current.Some? && !quit && !Present(position) ==> reply == AskPosition
    ensures current.Some? && !quit && Present(position) ==>
      (reply == Malformed <==> !Matches(position.value))
    ensures current.Some? && !quit && Present(position) && Matches(position.value) ==>
      (reply == Wrong <==> ParsePosition(position.value) != Some((current.value.line, current.value.row)))
    ensures reply in {Wrong, Completed, Advanced} ==> Present(position) && Matches(position.value)
    ensures reply in {Completed, Advanced} ==>
      (reply == Completed <==> current.value.level == MaxLevel)
    ensures current.Some? && !quit && Present(position)
            && ParsePosition(position.value) == Some((current.value.line, current.value.row)) ==>
      reply == (if current.value.level == MaxLevel then Completed else Advanced)
  {
    match current
    case None =>
      if Present(position) || quit then NoActiveTest else Started
    case Some(st) =>
      if quit then Stopped
      else if !Present(position) then AskPosition
      else
        match ParsePosition(position.value)
        case None => Malformed
        case Some((x, y)) =>
          if x != st.line || y != st.row then Wrong
          else if st.level == MaxLevel then Completed
          else Advanced
  }

  /**
   * Answering with the labels of cell `(i, j)` is accepted exactly when it
   * is the target cell: the last level completes the test, any other
   * advances it.
   */
  lemma {:induction false} AnswerByLabels(st: State, i: nat, j: nat, lower: bool)
    requires WellFormed(st) && i < st.size && j < st.size
    ensures Decide(Some(st), Some(RowLetter(i, lower) + Grid.ColumnLabel(j + 1)), false) ==
      if i != st.line || j != st.row then Wrong
      else if st.level == MaxLevel then Completed
      else Advanced
  {
    LabelsRoundTrip(i, j, lower);
  }

  /** The running questions of `apply`, keyed by channel id. */
  class Sessions {
    var states: map<string, State>

    /** Every stored question is a level of the test with its target inside the grid. */
    ghost predicate Valid()
      reads this
    {
      forall id | id in states :: WellFormed(states[id])
    }

    constructor()
      ensures states == map[] && Valid()
    {
      states := map[];
    }

    /**
     * The command handler (src/index.ts:132-171) for channel `id`. `next`
     * is the question `new State(level)` builds for the level the handler
     * moves to (0 for a new test, one more than the stored level otherwise);
     * it is stored only when the handler starts or advances a test.
     */
    method Handle(id: string, position: Option<string>, quit: bool, next: State) returns (reply: Reply)
      requires Valid()
      requires next.level == (if id in states then states[id].level + 1 else 0)
      requires next.size == Grid.Size(next.level) && next.line < next.size && next.row < next.size
      modifies this
      ensures Valid()
      ensures reply == Decide(if id in old(states) then Some(old(states)[id]) else None, position, quit)
      ensures forall k | k != id :: (k in states <==> k in old(states))
      ensures forall k | k != id && k in states :: states[k] == old(states)[k]
      ensures reply in {NoActiveTest, AskPosition, Malformed, Wrong} ==> states == old(states)
      ensures reply in {Stopped, Completed} ==> states == old(states) - {id}
      ensures reply in {Started, Advanced} ==> states == old(states)[id := next]
    {
      if id !in states {
        if Present(position) || quit {
          return NoActiveTest;
        }
        states := states[id := next];
        return Started;
      }

      if quit {
        states := states - {id};
        return Stopped;
      }

      var state := states[id];
      if !Present(position) {
        return AskPosition;
      }

      var parsed := ParsePosition(position.value);
      if parsed.None? {
        return Malformed;
      }
      var (x, y) := parsed.value;
      if x != state.line || y != state.row {
        return Wrong;
      }

      if state.level == MaxLevel {
        states := states - {id};
        return Completed;
      }

      states := states[id := next];
      return Advanced;
    }

    /**
     * One command on channel `id` with the draws `d` and the decay values
     * `rg` of the level it moves to: the question for that level is built
     * by `NewState` and handed to `Handle`.
     */
    method Command(id: string, position: Option<string>, quit: bool, d: Bias.Draws, rg: Bias.Ranges)
      returns (reply: Reply)
      requires Valid()
      requires Bias.ValidDraws(d) && Bias.Within(rg, Bias.IndexProfile)
      modifies this
      ensures Valid()
      ensures reply == Decide(if id in old(states) then Some(old(states)[id]) else None, position, quit)
      ensures forall k | k != id :: (k in states <==> k in old(states))
      ensures forall k | k != id && k in states :: states[k] == old(states)[k]
      ensures reply == Started ==> id in states && Constructed(states[id], 0, d, rg)
      ensures reply == Advanced ==>
        id in old(states) && id in states && Constructed(states[id], old(states)[id].level + 1, d, rg)
      ensures reply in {NoActiveTest, AskPosition, Malformed, Wrong} ==> states == old(states)
      ensures reply in {Stopped, Completed} ==> states == old(states) - {id}
    {
      var level := if id in states then states[id].level + 1 else 0;
      var next := NewState(level, d, rg);
      reply := Handle(id, position, quit, next);
    }
  }
}
