/** Reading a saved automaton (RobustLife.java:108-238).  The file is a
    visibility range line, a noise quantum line, a "width height" line and
    then one "x y" line per live cell of the newest generation.  Opening the
    file and splitting it into lines is left to the caller: each line comes
    in already run through the three parsers `load` applies to it. */
module Loading {
  import opened Life
  import opened ConeSpec
  import opened AutomatonSpec

  datatype Option<T> = None | Some(value: T)

  /** One line as `load` sees it: the whole line through Integer.parseInt and
      through Double.parseDouble (None where the parser throws
      NumberFormatException), and its space-separated tokens, each trimmed
      and put through Integer.parseInt. */
  datatype Line = Line(asInt: Option<int>, asReal: Option<real>, tokens: seq<Option<int>>)

  /** The IOExceptions `load` raises, one per message. */
  datatype LoadError =
    | UnexpectedEof  // "Unexpected EOF"
    | BadRange       // "Invalid visibility range value"
    | BadNoise       // "Invalid noise quantum value"
    | BadDimensions  // "Invalid dimensions"
    | BadWidth       // "Invalid width value"
    | BadHeight      // "Invalid height value"
    | BadX           // "Invalid x value"
    | BadCellLine    // "Invalid cell values"
    | BadY           // "Invalid y value" / "Invalid height y"

  datatype Result<T> = Success(value: T) | Failure(error: LoadError)

  /** The error a result reports, if any. */
  function ErrorOf<T>(r: Result<T>): Option<LoadError>
  {
    if r.Failure? then Some(r.error) else None
  }

  /** What a well-formed file says: the header and the live cells it lists. */
  datatype Settings = Settings(range: int, noise: real, width: int, height: int, live: seq<(int, int)>)

  // ------------------------------------------------------------------
  // Parsing, in the order `load` checks
  // ------------------------------------------------------------------

  /** The dimensions line: a positive width, then a positive height; tokens
      after the second are ignored. */
  function ParseDimensions(line: Line): (r: Result<(int, int)>)
    ensures r.Success? ==> r.value.0 > 0 && r.value.1 > 0
  {
    if |line.tokens| == 0 then Failure(BadDimensions)
    else if line.tokens[0].None? || line.tokens[0].value <= 0 then Failure(BadWidth)
    else if |line.tokens| < 2 then Failure(BadDimensions)
    else if line.tokens[1].None? || line.tokens[1].value <= 0 then Failure(BadHeight)
    else Success((line.tokens[0].value, line.tokens[1].value))
  }

  /** A cell line: one without tokens is skipped (None); otherwise an x in
      [0, width), then a y in [0, height); tokens after the second are
      ignored. */
  function ParseCell(line: Line, width: int, height: int): Result<Option<(int, int)>>
  {
    if |line.tokens| == 0 then Success(None)
    else if line.tokens[0].None? || !(0 <= line.tokens[0].value < width) then Failure(BadX)
    else if |line.tokens| < 2 then Failure(BadCellLine)
    else if line.tokens[1].None? || !(0 <= line.tokens[1].value < height) then Failure(BadY)
    else Success(Some((line.tokens[0].value, line.tokens[1].value)))
  }

  /** The cell lines in order; the first bad line decides the error. */
  function ParseCells(lines: seq<Line>, width: int, height: int): Result<seq<(int, int)>>
  {
    if |lines| == 0 then Success([])
    else
      match ParseCell(lines[0], width, height)
      case Failure(e) => Failure(e)
      case Success(c) =>
        match ParseCells(lines[1..], width, height)
        case Failure(e) => Failure(e)
        case Success(cs) => Success(if c.Some? then [c.value] + cs else cs)
  }

  /** The whole file, checked in the order `load` checks it. */
  function ParseFile(lines: seq<Line>): (r: Result<Settings>)
    ensures r.Success? ==> |lines| >= 3 && r.value.range > 0 && r.value.width > 0 && r.value.height > 0
    ensures r.Success? ==> ParseCells(lines[3..], r.value.width, r.value.height) == Success(r.value.live)
  {
    if |lines| == 0 then Failure(UnexpectedEof)
    else if lines[0].asInt.None? || lines[0].asInt.value <= 0 then Failure(BadRange)
    else if |lines| == 1 then Failure(UnexpectedEof)
    else if lines[1].asReal.None? || lines[1].asReal.value < 0.0 || lines[1].asReal.value > 1.0 then Failure(BadNoise)
    else if |lines| == 2 then Failure(UnexpectedEof)
    else
      match ParseDimensions(lines[2])
      case Failure(e) => Failure(e)
      case Success(d) =>
        match ParseCells(lines[3..], d.0, d.1)
        case Failure(e) => Failure(e)
        case Success(live) => Success(Settings(lines[0].asInt.value, lines[1].asReal.value, d.0, d.1, live))
  }

  // ------------------------------------------------------------------
  // Which files are accepted, stated line by line
  // ------------------------------------------------------------------

  /** `line` names cell (x, y). */
  predicate ListsCell(line: Line, x: int, y: int)
  {
    |line.tokens| >= 2 && line.tokens[0] == Some(x) && line.tokens[1] == Some(y)
  }

  /** A cell line is blank or names a cell of the width-by-height grid. */
  predicate CellLineOk(line: Line, width: int, height: int)
  {
    |line.tokens| == 0
    || (|line.tokens| >= 2 && line.tokens[0].Some? && line.tokens[1].Some?
        && 0 <= line.tokens[0].value < width && 0 <= line.tokens[1].value < height)
  }

  /** A file `load` accepts: a positive range, a noise quantum in [0, 1],
      positive dimensions, and only blank or in-grid cell lines after them. */
  predicate WellFormedFile(lines: seq<Line>)
  {
    |lines| >= 3
    && lines[0].asInt.Some? && lines[0].asInt.value > 0
    && lines[1].asReal.Some? && 0.0 <= lines[1].asReal.value <= 1.0
    && |lines[2].tokens| >= 2 && lines[2].tokens[0].Some? && lines[2].tokens[1].Some?
    && lines[2].tokens[0].value > 0 && lines[2].tokens[1].value > 0
    && forall i :: 3 <= i < |lines| ==> CellLineOk(lines[i], lines[2].tokens[0].value, lines[2].tokens[1].value)
  }

  /** The cell lines parse exactly when each is blank or in the grid, and
      then a cell is listed exactly when some line names it. */
  lemma {:induction false} ParseCellsMeaning(lines: seq<Line>, width: int, height: int)
    ensures ParseCells(lines, width, height).Success? <==> forall i :: 0 <= i < |lines| ==> CellLineOk(lines[i], width, height)
    ensures ParseCells(lines, width, height).Success? ==>
      forall x, y :: (x, y) in ParseCells(lines, width, height).value <==> exists i :: 0 <= i < |lines| && ListsCell(lines[i], x, y)
  {
    if |lines| > 0 {
      ParseCellsMeaning(lines[1..], width, height);
      assert forall i :: 1 <= i < |lines| ==> lines[i] == lines[1..][i - 1];
      var r := ParseCells(lines, width, height);
      if r.Success? {
        var cs := ParseCells(lines[1..], width, height).value;
        forall x, y
          ensures (x, y) in r.value <==> exists i :: 0 <= i < |lines| && ListsCell(lines[i], x, y)
        {
          if (x, y) in r.value && (x, y) !in cs {
            assert ListsCell(lines[0], x, y);
          }
          if exists i :: 0 <= i < |lines| && ListsCell(lines[i], x, y) {
            var i :| 0 <= i < |lines| && ListsCell(lines[i], x, y);
            if i > 0 {
              assert ListsCell(lines[1..][i - 1], x, y);
            }
          }
        }
      }
    }
  }

  /** `load` accepts exactly the well-formed files, and then takes the range,
      noise and dimensions from the header and the live cells from the lines
      after it, each in the grid. */
  lemma ParseFileMeaning(lines: seq<Line>)
    ensures ParseFile(lines).Success? <==> WellFormedFile(lines)
    ensures ParseFile(lines).Success? ==>
      var s := ParseFile(lines).value;
      s.range == lines[0].asInt.value && s.noise == lines[1].asReal.value
      && s.width == lines[2].tokens[0].value && s.height == lines[2].tokens[1].value
      && forall x, y :: (x, y) in s.live <==> exists i :: 3 <= i < |lines| && ListsCell(lines[i], x, y)
  {
    if |lines| >= 3 {
      var rest := lines[3..];
      var d := ParseDimensions(lines[2]);
      if d.Success? {
        ParseCellsMeaning(rest, d.value.0, d.value.1);
        assert forall i :: 3 <= i < |lines| ==> lines[i] == rest[i - 3];
        if ParseFile(lines).Success? {
          forall x, y, i | 3 <= i < |lines| && ListsCell(lines[i], x, y)
            ensures exists j :: 0 <= j < |rest| && ListsCell(rest[j], x, y)
          {
            assert ListsCell(rest[i - 3], x, y);
          }
        }
        if WellFormedFile(lines) {
          assert forall i :: 0 <= i < |rest| ==> CellLineOk(rest[i], d.value.0, d.value.1) by {
            forall i | 0 <= i < |rest|
              ensures CellLineOk(rest[i], d.value.0, d.value.1)
            {
              assert rest[i] == lines[i + 3];
            }
          }
        }
      }
    }
  }

  /** Every listed cell lies in the grid. */
  lemma {:induction false} ParsedCellsInGrid(lines: seq<Line>, width: int, height: int)
    requires ParseCells(lines, width, height).Success?
    ensures forall c :: c in ParseCells(lines, width, height).value ==> 0 <= c.0 < width && 0 <= c.1 < height
  {
    if |lines| > 0 {
      ParsedCellsInGrid(lines[1..], width, height);
    }
  }

  // ------------------------------------------------------------------
  // Loading, validated first and applied all at once
  // ------------------------------------------------------------------

  /** The history a loaded file sets up: the listed cells live in the newest
      layer, everything else dead. */
  function LoadedHistory(s: Settings): (H: History)
    requires s.range >= 0 && s.width >= 0 && s.height >= 0
    ensures |H| == s.range && IsHistory(H, s.width, s.height)
  {
    seq(s.range, l => seq(s.width, x => seq(s.height, y => l == 0 && (x, y) in s.live)))
  }

  /** The automaton a well-formed file describes; the settle countdown
      restarts, the internal distance and the random stream are kept. */
  function Apply(a: Automaton, s: Settings): Automaton
    requires s.range >= 0 && s.width >= 0 && s.height >= 0
  {
    a.(range := s.range, synchCount := s.range - 1, noise := s.noise, width := s.width, height := s.height,
       history := LoadedHistory(s))
  }

  /** `load`, with every check made before anything is assigned: a rejected
      file leaves the automaton as it was. */
  function LoadF(a: Automaton, lines: seq<Line>): (r: (Automaton, Option<LoadError>))
  {
    match ParseFile(lines)
    case Failure(e) => (a, Some(e))
    case Success(s) => (Apply(a, s), None)
  }

  /** A load keeps the automaton well shaped, changes nothing when it fails,
      and otherwise leaves exactly the listed cells live in the newest layer,
      every older layer dead and the countdown at range - 1. */
  lemma LoadMeaning(a: Automaton, lines: seq<Line>)
    requires WellShaped(a)
    ensures WellShaped(LoadF(a, lines).0)
    ensures LoadF(a, lines).1.Some? <==> !WellFormedFile(lines)
    ensures LoadF(a, lines).1.Some? ==> LoadF(a, lines).0 == a
    ensures LoadF(a, lines).1.None? ==>
      var r := LoadF(a, lines).0;
      r.range == lines[0].asInt.value && r.synchCount == r.range - 1 && r.noise == lines[1].asReal.value
      && r.width == lines[2].tokens[0].value && r.height == lines[2].tokens[1].value
      && r.internalDistance == a.internalDistance && r.drawn == a.drawn
      && forall l, x, y :: 0 <= l < r.range && InGrid(r, x, y) ==>
           (r.history[l][x][y] <==> l == 0 && exists i :: 3 <= i < |lines| && ListsCell(lines[i], x, y))
  {
    ParseFileMeaning(lines);
  }

  // ------------------------------------------------------------------
  // Loading as RobustLife.java:108-238 writes it
  // ------------------------------------------------------------------

  /** The newest layer with cell c set live. */
  function SetLive(a: Automaton, c: (int, int)): (r: Automaton)
    requires |a.history| >= 1 && IsHistory(a.history, a.width, a.height) && InGrid(a, c.0, c.1)
    ensures |r.history| == |a.history| && IsHistory(r.history, a.width, a.height)
  {
    a.(history := a.history[0 := a.history[0][c.0 := a.history[0][c.0][c.1 := true]]])
  }

  /** The cell loop as written: each good line sets its cell at once, so a
      bad line stops the load with the earlier cells already set. */
  function LoadCellsAsWritten(a: Automaton, lines: seq<Line>): (r: (Automaton, Option<LoadError>))
    requires |a.history| >= 1 && IsHistory(a.history, a.width, a.height)
    ensures r.1 == ErrorOf(ParseCells(lines, a.width, a.height))
    decreases |lines|
  {
    if |lines| == 0 then (a, None)
    else
      match ParseCell(lines[0], a.width, a.height)
      case Failure(e) => (a, Some(e))
      case Success(None) => LoadCellsAsWritten(a, lines[1..])
      case Success(Some(c)) => LoadCellsAsWritten(SetLive(a, c), lines[1..])
  }

  /** `load` as written: range, countdown and noise are assigned as soon as
      their own line parses, before the checks that follow can still reject
      the file, and the grid is replaced before the cell lines are checked. */
  function LoadAsWrittenF(a: Automaton, lines: seq<Line>): (r: (Automaton, Option<LoadError>))
    ensures r.1 == LoadF(a, lines).1
  {
    if |lines| == 0 then (a, Some(UnexpectedEof))
    else if lines[0].asInt.None? then (a, Some(BadRange))
    else
      var a1 := a.(range := lines[0].asInt.value);
      if a1.range <= 0 then (a1, Some(BadRange))
      else
        var a2 := a1.(synchCount := a1.range - 1);
        if |lines| == 1 then (a2, Some(UnexpectedEof))
        else if lines[1].asReal.None? then (a2, Some(BadNoise))
        else
          var a3 := a2.(noise := lines[1].asReal.value);
          if a3.noise < 0.0 || a3.noise > 1.0 then (a3, Some(BadNoise))
          else if |lines| == 2 then (a3, Some(UnexpectedEof))
          else
            match ParseDimensions(lines[2])
            case Failure(e) => (a3, Some(e))
            case Success(d) =>
              LoadCellsAsWritten(a3.(width := d.0, height := d.1, history := Blank(a3.range, d.0, d.1)), lines[3..])
  }

  /** A file rejected at its noise line still changes the range: an automaton
      with one layer, given a file asking for two layers and a noise quantum
      of 2.0, reports the bad noise but is left claiming two layers while
      its grid holds one, so the next step reads a layer that does not
      exist. */
  lemma LoadAsWrittenBreaksShape()
    ensures var a := Automaton(1, 0, 0.0, 0.0, 1, 1, [[[false]]], 0);
            var lines := [Line(Some(2), Some(2.0), [Some(2)]), Line(None, Some(2.0), [None])];
            WellShaped(a) && LoadAsWrittenF(a, lines).1 == Some(BadNoise)
            && LoadAsWrittenF(a, lines).0.range == 2 && |LoadAsWrittenF(a, lines).0.history| == 1
            && !WellShaped(LoadAsWrittenF(a, lines).0)
            && LoadF(a, lines).0 == a
  {
    var a := Automaton(1, 0, 0.0, 0.0, 1, 1, [[[false]]], 0);
    assert IsHistory(a.history, 1, 1);
  }

  /** Cells set one by one from a history whose newest layer already holds
      the cells `pre` end up holding `pre` plus the parsed ones. */
  lemma {:induction false} LoadCellsAsWrittenSets(a: Automaton, lines: seq<Line>, pre: seq<(int, int)>)
    requires a.range >= 1 && a.width >= 0 && a.height >= 0 && |a.history| == a.range && IsHistory(a.history, a.width, a.height)
    requires forall l, x, y :: 0 <= l < a.range && InGrid(a, x, y) ==> (a.history[l][x][y] <==> l == 0 && (x, y) in pre)
    requires ParseCells(lines, a.width, a.height).Success?
    ensures LoadCellsAsWritten(a, lines).0
         == a.(history := LoadedHistory(Settings(a.range, a.noise, a.width, a.height,
                                                 pre + ParseCells(lines, a.width, a.height).value)))
    decreases |lines|
  {
    var all := pre + ParseCells(lines, a.width, a.height).value;
    if |lines| == 0 {
      assert all == pre;
      var L := LoadedHistory(Settings(a.range, a.noise, a.width, a.height, all));
      forall l, x, y | 0 <= l < a.range && 0 <= x < a.width && 0 <= y < a.height
        ensures a.history[l][x][y] == L[l][x][y]
      {
        assert InGrid(a, x, y);
      }
      HistoryExtensionality(a.history, L, a.range, a.width, a.height);
    } else {
      var c := ParseCell(lines[0], a.width, a.height).value;
      var cs := ParseCells(lines[1..], a.width, a.height).value;
      if c.Some? {
        var b := SetLive(a, c.value);
        SetLiveAdds(a, c.value, pre);
        LoadCellsAsWrittenSets(b, lines[1..], pre + [c.value]);
        assert pre + [c.value] + cs == all;
      } else {
        LoadCellsAsWrittenSets(a, lines[1..], pre);
      }
    }
  }

  /** Setting cell c live adds it to the cells the newest layer holds. */
  lemma SetLiveAdds(a: Automaton, c: (int, int), pre: seq<(int, int)>)
    requires a.range >= 1 && |a.history| == a.range && IsHistory(a.history, a.width, a.height) && InGrid(a, c.0, c.1)
    requires forall l, x, y :: 0 <= l < a.range && InGrid(a, x, y) ==> (a.history[l][x][y] <==> l == 0 && (x, y) in pre)
    ensures forall l, x, y :: 0 <= l < a.range && InGrid(a, x, y) ==>
      (SetLive(a, c).history[l][x][y] <==> l == 0 && (x, y) in pre + [c])
  {
    var b := SetLive(a, c);
    forall l, x, y | 0 <= l < a.range && InGrid(a, x, y)
      ensures b.history[l][x][y] <==> l == 0 && (x, y) in pre + [c]
    {
      assert (x, y) in pre + [c] <==> (x, y) in pre || (x, y) == c;
      if l == 0 && x == c.0 {
        assert b.history[0][x] == a.history[0][x][c.1 := true];
      }
    }
  }

  /** Where the written `load` succeeds it ends where the atomic one does;
      both report the same error on every file. */
  lemma LoadAsWrittenAgrees(a: Automaton, lines: seq<Line>)
    ensures LoadAsWrittenF(a, lines).1 == LoadF(a, lines).1
    ensures LoadAsWrittenF(a, lines).1.None? ==> LoadAsWrittenF(a, lines).0 == LoadF(a, lines).0
  {
    if ParseFile(lines).Success? {
      var s := ParseFile(lines).value;
      var b := a.(range := s.range, synchCount := s.range - 1, noise := s.noise, width := s.width, height := s.height,
                  history := Blank(s.range, s.width, s.height));
      LoadCellsAsWrittenSets(b, lines[3..], []);
      assert [] + s.live == s.live;
    }
  }
}
