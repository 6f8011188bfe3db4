/** Day 5: a drawing of crate stacks, a blank line, then one move per line
    ("move N from A to B"). The crane lifts one crate at a time, so a block
    of crates arrives on the target stack in reverse order. A stack is a
    sequence of crate cells with the bottom crate first. */
module SupplyStacks {
  import opened Results
  import opened GoStrings

  /** A move with 0-based stack numbers. */
  datatype Move = Move(numCrates: int, from: int, to: int)

  datatype Error =
    | BadNumber            // a number of a move line does not parse
    | SameStack(stack: int)  // a move names the same (1-based) stack twice
    | NoSeparator          // the input has no blank line

  predicate NoSpace(w: string) {
    forall i :: 0 <= i < |w| ==> w[i] != ' '
  }

  // ---------------------------------------------------------------------
  // trimNumber

  /** A one-character separator occurs exactly where its character is. */
  lemma SpaceAt(s: string, k: int)
    requires 0 <= k < |s|
    ensures OccursAt(s, " ", k) <==> s[k] == ' '
  {
    assert s[k..k + 1] == [s[k]];
  }

  /** The end of the first word: the position of the first space, or the
      length when there is none. */
  function WordEnd(s: string): (i: nat)
    ensures i <= |s|
  {
    var i := Index(s, " ");
    if i == -1 then |s| else i
  }

  /** The first word holds no space and ends at a space or at the end. */
  lemma WordEndSpec(s: string)
    ensures NoSpace(s[..WordEnd(s)])
    ensures WordEnd(s) < |s| ==> s[WordEnd(s)] == ' '
  {
    IndexSpec(s, " ");
    forall k | 0 <= k < |s| { SpaceAt(s, k); }
  }

  /** trimNumber: the number before the first space and the text from that
      space on. */
  function TrimNumber(s: string): (r: Result<(string, int), Error>)
    ensures r.Err? ==> r.error == BadNumber
  {
    var i := WordEnd(s);
    match Atoi(s[..i])
    case None => Err(BadNumber)
    case Some(n) => Ok((s[i..], n))
  }

  /** trimNumber reads the first word of `s` as a number and keeps the rest,
      which is empty or starts with the space that ended the word; it fails
      exactly when the first word is not a number. */
  lemma TrimNumberSpec(s: string)
    ensures TrimNumber(s).Ok? ==>
      var (rest, n) := TrimNumber(s).value;
      var w := s[..|s| - |rest|];
      && |rest| <= |s| && s == w + rest && NoSpace(w)
      && Atoi(w) == Some(n)
      && (rest == "" || rest[0] == ' ')
    ensures TrimNumber(s).Err? <==> !IsDecimal(s[..WordEnd(s)])
  {
    var i := WordEnd(s);
    WordEndSpec(s);
    assert s == s[..i] + s[i..];
  }

  /** The first word is the whole run of non-space characters at the start,
      so trimNumber of a word followed by a space (or by nothing) reads that
      word, and fails exactly when the word is not a number. */
  lemma TrimNumberOf(w: string, rest: string)
    requires NoSpace(w) && (rest == "" || rest[0] == ' ')
    ensures TrimNumber(w + rest) ==
      if Atoi(w).Some? then Ok((rest, Atoi(w).value)) else Err(BadNumber)
  {
    var s := w + rest;
    var i := WordEnd(s);
    WordEndSpec(s);
    assert forall k :: 0 <= k < |w| ==> s[k] != ' ' by {
      assert forall k :: 0 <= k < |w| ==> s[k] == w[k];
    }
    assert forall k :: 0 <= k < i ==> s[k] != ' ' by {
      assert forall k :: 0 <= k < i ==> s[..i][k] == s[k];
    }
    assert |w| < |s| ==> s[|w|] == ' ';
    assert i == |w|;
    assert s[..i] == w && s[i..] == rest;
  }

  // ---------------------------------------------------------------------
  // parseMoves

  /** One step of parseMoves: drop an optional `tag`, then trimNumber. */
  function Field(s: string, tag: string): Result<(string, int), Error> {
    TrimNumber(TrimPrefix(s, tag))
  }

  /** A field written as its tag, a number and the rest of the line
      reads back as that number and that rest. */
  lemma FieldOf(tag: string, w: string, rest: string)
    requires NoSpace(w) && (rest == "" || rest[0] == ' ')
    ensures Field(tag + (w + rest), tag) ==
      if Atoi(w).Some? then Ok((rest, Atoi(w).value)) else Err(BadNumber)
  {
    TrimPrefixOf(tag, w + rest);
    TrimNumberOf(w, rest);
  }

  /** One line of parseMoves: each of "move ", " from " and " to " is
      trimmed if present and followed by a number; anything after the last
      number and a space is ignored. Stack numbers become 0-based. */
  function ParseMove(line: string): Result<Move, Error> {
    match Field(line, "move ")
    case Err(e) => Err(e)
    case Ok((rest, n)) => ParseFrom(rest, n)
  }

  /** The rest of a move line after its number of crates. */
  function ParseFrom(s: string, n: int): Result<Move, Error> {
    match Field(s, " from ")
    case Err(e) => Err(e)
    case Ok((rest, from)) => ParseTo(rest, n, from)
  }

  /** The rest of a move line after its source stack. */
  function ParseTo(s: string, n: int, from: int): Result<Move, Error> {
    match Field(s, " to ")
    case Err(e) => Err(e)
    case Ok((_, to)) =>
      if from == to then Err(SameStack(from)) else Ok(Move(n, from - 1, to - 1))
  }

  /** The three stages of ParseMove, one field at a time. */
  lemma ParseToOf(s: string, rest: string, n: int, from: int, to: int)
    requires Field(s, " to ") == Ok((rest, to))
    ensures ParseTo(s, n, from) == if from == to then Err(SameStack(from)) else Ok(Move(n, from - 1, to - 1))
  {
  }

  lemma ParseFromOf(s: string, rest: string, n: int, from: int)
    requires Field(s, " from ") == Ok((rest, from))
    ensures ParseFrom(s, n) == ParseTo(rest, n, from)
  {
  }

  lemma ParseMoveOf(line: string, rest: string, n: int)
    requires Field(line, "move ") == Ok((rest, n))
    ensures ParseMove(line) == ParseFrom(rest, n)
  {
  }

  /** After a number the rest of the line is empty or starts with a space;
      without its tag there, the next field reads an empty word and fails.
      So " from " and " to " are required even though TrimPrefix is. */
  lemma FieldWithoutTag(s: string, tag: string)
    requires s == "" || s[0] == ' '
    requires !(tag <= s)
    ensures Field(s, tag) == Err(BadNumber)
  {
    TrimPrefixSpec(s, tag);
    WordEndSpec(s);
    assert WordEnd(s) == 0;
    assert !IsDecimal(s[..0]);
  }

  /** The leading "move " alone may be left out: a line starting with the
      number of crates parses as if the word were there. */
  lemma ParseWithoutMove(n: string, rest: string, k: int)
    requires NoSpace(n) && Atoi(n) == Some(k)
    requires rest == "" || rest[0] == ' '
    ensures ParseMove(n + rest) == ParseMove("move " + (n + rest))
  {
    assert n[0] != 'm';
    assert !("move " <= n + rest) by {
      assert (n + rest)[0] == n[0];
    }
    TrimPrefixSpec(n + rest, "move ");
    TrimNumberOf(n, rest);
    ParseMoveOf(n + rest, rest, k);
    FieldOf("move ", n, rest);
    ParseMoveOf("move " + (n + rest), rest, k);
  }

  /** The line the puzzle input uses for a move. */
  function FormatMove(m: Move): string {
    "move " + Itoa(m.numCrates) + " from " + Itoa(m.from + 1) + " to " + Itoa(m.to + 1)
  }

  /** A line that spells out three numbers in the puzzle's format. */
  lemma ParseLine(n: string, f: string, t: string, k: int, from: int, to: int)
    requires NoSpace(n) && NoSpace(f) && NoSpace(t)
    requires Atoi(n) == Some(k) && Atoi(f) == Some(from) && Atoi(t) == Some(to)
    ensures ParseMove("move " + n + " from " + f + " to " + t) ==
      if from == to then Err(SameStack(from)) else Ok(Move(k, from - 1, to - 1))
  {
    var afterFrom := " to " + (t + "");
    var afterN := " from " + (f + afterFrom);
    assert "move " + n + " from " + f + " to " + t == "move " + (n + afterN);
    FieldOf("move ", n, afterN);
    ParseMoveOf("move " + (n + afterN), afterN, k);
    FieldOf(" from ", f, afterFrom);
    ParseFromOf(afterN, afterFrom, k, from);
    FieldOf(" to ", t, "");
    ParseToOf(afterFrom, "", k, from, to);
  }

  /** Every move line reads back as the move it was written from, except that
      a move whose source is its target is rejected. */
  lemma ParseFormat(m: Move)
    ensures ParseMove(FormatMove(m)) ==
      if m.from == m.to then Err(SameStack(m.from + 1)) else Ok(m)
  {
    AtoiItoa(m.numCrates);
    AtoiItoa(m.from + 1);
    AtoiItoa(m.to + 1);
    ParseLine(Itoa(m.numCrates), Itoa(m.from + 1), Itoa(m.to + 1), m.numCrates, m.from + 1, m.to + 1);
  }

  /** The values of the results in order, or the first error among them. */
  function Collect(rs: seq<Result<Move, Error>>): Result<seq<Move>, Error>
    decreases |rs|
  {
    if |rs| == 0 then Ok([])
    else
      match Collect(rs[..|rs| - 1])
      case Err(e) => Err(e)
      case Ok(ms) =>
        match rs[|rs| - 1]
        case Err(e) => Err(e)
        case Ok(m) => Ok(ms + [m])
  }

  /** The results collect exactly when none is an error, and then into
      their values in order. */
  lemma {:induction false} CollectOk(rs: seq<Result<Move, Error>>)
    ensures Collect(rs).Ok? <==> forall i :: 0 <= i < |rs| ==> rs[i].Ok?
    ensures Collect(rs).Ok? ==> |Collect(rs).value| == |rs|
    ensures Collect(rs).Ok? ==> forall i :: 0 <= i < |rs| ==> Collect(rs).value[i] == rs[i].value
    decreases |rs|
  {
    if |rs| > 0 {
      var init := rs[..|rs| - 1];
      CollectOk(init);
      assert forall i :: 0 <= i < |init| ==> init[i] == rs[i];
    }
  }

  /** Result `i` is the first error. */
  predicate FirstError(rs: seq<Result<Move, Error>>, i: int) {
    && 0 <= i < |rs|
    && rs[i].Err?
    && forall j :: 0 <= j < i ==> rs[j].Ok?
  }

  /** When the results do not collect, the error is the first error. */
  lemma {:induction false} CollectErr(rs: seq<Result<Move, Error>>)
    requires Collect(rs).Err?
    ensures exists i :: FirstError(rs, i) && rs[i].error == Collect(rs).error
    decreases |rs|
  {
    var init := rs[..|rs| - 1];
    if Collect(init).Err? {
      CollectErr(init);
      var i :| FirstError(init, i) && init[i].error == Collect(init).error;
      assert forall j :: 0 <= j < |init| ==> init[j] == rs[j];
      assert FirstError(rs, i);
    } else {
      CollectOk(init);
      assert forall j :: 0 <= j < |init| ==> init[j] == rs[j];
      assert FirstError(rs, |rs| - 1);
    }
  }

  /** An error among the first `n` results is the error of all of them. */
  lemma {:induction false} CollectErrPrefix(rs: seq<Result<Move, Error>>, n: nat)
    requires n <= |rs| && Collect(rs[..n]).Err?
    ensures Collect(rs) == Collect(rs[..n])
    decreases |rs|
  {
    if n < |rs| {
      var init := rs[..|rs| - 1];
      assert init[..n] == rs[..n];
      CollectErrPrefix(init, n);
    } else {
      assert rs[..n] == rs;
    }
  }

  /** The result of parsing each line. */
  function ParsedLines(lines: seq<string>): (rs: seq<Result<Move, Error>>)
    ensures |rs| == |lines|
  {
    seq(|lines|, i requires 0 <= i < |lines| => ParseMove(lines[i]))
  }

  /** The moves of the lines, in order, or the error of the first line
      that does not parse. */
  function MovesOf(lines: seq<string>): Result<seq<Move>, Error> {
    Collect(ParsedLines(lines))
  }

  /** One move per line, in line order, when every line parses; otherwise
      the error of the first line that does not parse. */
  lemma MovesOfSpec(lines: seq<string>)
    ensures MovesOf(lines).Ok? <==> forall i :: 0 <= i < |lines| ==> ParseMove(lines[i]).Ok?
    ensures MovesOf(lines).Ok? ==> |MovesOf(lines).value| == |lines|
    ensures MovesOf(lines).Ok? ==>
      forall i :: 0 <= i < |lines| ==> MovesOf(lines).value[i] == ParseMove(lines[i]).value
    ensures MovesOf(lines).Err? ==>
      exists i :: && 0 <= i < |lines|
                  && ParseMove(lines[i]).Err?
                  && (forall j :: 0 <= j < i ==> ParseMove(lines[j]).Ok?)
                  && MovesOf(lines).error == ParseMove(lines[i]).error
  {
    var rs := ParsedLines(lines);
    CollectOk(rs);
    assert forall i :: 0 <= i < |lines| ==> rs[i] == ParseMove(lines[i]);
    if Collect(rs).Err? {
      CollectErr(rs);
      var i :| FirstError(rs, i) && rs[i].error == Collect(rs).error;
      assert rs[i] == ParseMove(lines[i]);
    }
  }

  /** parseMoves: the moves of the lines of `s`, stopping at the first
      line that does not parse. */
  method ParseMoves(s: string) returns (r: Result<seq<Move>, Error>)
    ensures r == MovesOf(Split(s, "\n"))
  {
    var lines := Split(s, "\n");
    ghost var rs := ParsedLines(lines);
    var moves: seq<Move> := [];
    for i := 0 to |lines|
      invariant Collect(rs[..i]) == Ok(moves)
    {
      var m := ParseMove(lines[i]);
      assert rs[..i + 1][..i] == rs[..i] && rs[i] == m;
      if m.Err? {
        CollectErrPrefix(rs, i + 1);
        return Err(m.error);
      }
      moves := moves + [m.value];
    }
    assert rs[..|lines|] == rs;
    return Ok(moves);
  }

  /** No move that parses names the same stack twice. */
  lemma ParsedMovesDistinct(lines: seq<string>)
    requires MovesOf(lines).Ok?
    ensures forall i :: 0 <= i < |MovesOf(lines).value| ==>
      MovesOf(lines).value[i].from != MovesOf(lines).value[i].to
  {
    MovesOfSpec(lines);
    forall i | 0 <= i < |lines|
      ensures ParseMove(lines[i]).value.from != ParseMove(lines[i]).value.to
    {
      ParseMoveDistinct(lines[i]);
    }
  }

  /** A single line that parses moves crates between two different stacks. */
  lemma ParseMoveDistinct(line: string)
    requires ParseMove(line).Ok?
    ensures ParseMove(line).value.from != ParseMove(line).value.to
  {
    var (afterN, n) := Field(line, "move ").value;
    ParseMoveOf(line, afterN, n);
    var (afterFrom, from) := Field(afterN, " from ").value;
    ParseFromOf(afterN, afterFrom, n, from);
    var (rest, to) := Field(afterFrom, " to ").value;
    ParseToOf(afterFrom, rest, n, from, to);
  }

  // ---------------------------------------------------------------------
  // parseCrates

  /** The number of stacks a drawing whose first line is `first` has room
      for: one per four characters, the last column needing only three. */
  function StackCount(first: string): nat {
    (|first| + 1) / 4
  }

  /** The text of column `k` in a row of the drawing: four characters from
      position 4k, cut short at the end of the row. */
  function Cell(line: string, k: nat): string
    requires 4 * k <= |line|
  {
    var q := if 4 * k + 4 >= |line| then |line| else 4 * k + 4;
    line[4 * k..q]
  }

  /** Every row reaches the start of the last column, so no cell is cut off
      before it begins. */
  predicate RowsFit(rows: seq<string>, count: nat) {
    forall i :: 0 <= i < |rows| ==> count == 0 || 4 * (count - 1) <= |rows[i]|
  }

  /** A crate drawn in a cell: anything that is not all white space, which
      is what trimming the white space off it to nothing tells apart. */
  predicate IsCrate(cell: string) {
    !AllSpace(cell)
  }

  /** Stack `k` of a drawing: the crates of column `k`, from the bottom row
      (the last one) up to the top row (the first one). */
  function Column(rows: seq<string>, k: nat): seq<string>
    requires forall i :: 0 <= i < |rows| ==> 4 * k <= |rows[i]|
    decreases |rows|
  {
    if |rows| == 0 then []
    else
      Column(rows[1..], k) + RowCrate(rows[0], k)
  }

  /** A row added at the bottom puts its crate, if any, at the bottom of
      the stack. */
  lemma {:induction false} ColumnBelow(rows: seq<string>, row: string, k: nat)
    requires forall i :: 0 <= i < |rows| ==> 4 * k <= |rows[i]|
    requires 4 * k <= |row|
    ensures Column(rows + [row], k) ==
      (if IsCrate(Cell(row, k)) then [Cell(row, k)] else []) + Column(rows, k)
    decreases |rows|
  {
    if |rows| > 0 {
      assert (rows + [row])[1..] == rows[1..] + [row];
      ColumnBelow(rows[1..], row, k);
    } else {
      assert [row][1..] == [];
    }
  }

  /** Every crate of a stack is a crate drawn in its column, and the
      stack has one crate per row whose cell holds one. */
  lemma {:induction false} ColumnCrates(rows: seq<string>, k: nat)
    requires forall i :: 0 <= i < |rows| ==> 4 * k <= |rows[i]|
    ensures forall j :: 0 <= j < |Column(rows, k)| ==>
      IsCrate(Column(rows, k)[j]) && exists i :: 0 <= i < |rows| && Column(rows, k)[j] == Cell(rows[i], k)
    ensures |Column(rows, k)| == CrateRows(rows, k)
    decreases |rows|
  {
    if |rows| > 0 {
      var below := Column(rows[1..], k);
      ColumnCrates(rows[1..], k);
      forall j | 0 <= j < |below|
        ensures exists i :: 0 <= i < |rows| && below[j] == Cell(rows[i], k)
      {
        var i :| 0 <= i < |rows[1..]| && below[j] == Cell(rows[1..][i], k);
        assert rows[1..][i] == rows[i + 1];
      }
    }
  }

  /** The number of rows whose cell in column `k` holds a crate. */
  function CrateRows(rows: seq<string>, k: nat): nat
    requires forall i :: 0 <= i < |rows| ==> 4 * k <= |rows[i]|
    decreases |rows|
  {
    if |rows| == 0 then 0
    else CrateRows(rows[1..], k) + (if IsCrate(Cell(rows[0], k)) then 1 else 0)
  }

  /** The rows of the drawing: every line but the last, which numbers the
      stacks. */
  function Rows(s: string): seq<string> {
    var lines := Split(s, "\n");
    lines[..|lines| - 1]
  }

  /** The drawing can be read without cutting a row short. */
  predicate CratesFit(s: string) {
    RowsFit(Rows(s), StackCount(Split(s, "\n")[0]))
  }

  /** The stacks of the drawing `s`, each listed from the bottom up. */
  function Crates(s: string): (r: seq<seq<string>>)
    requires CratesFit(s)
    ensures |r| == StackCount(Split(s, "\n")[0])
  {
    var rows := Rows(s);
    var count := StackCount(Split(s, "\n")[0]);
    seq(count, k requires 0 <= k < count => Column(rows, k))
  }

  /** What row `line` adds to stack `k`: its crate, if the cell holds one. */
  function RowCrate(line: string, k: nat): seq<string>
    requires 4 * k <= |line|
  {
    if IsCrate(Cell(line, k)) then [Cell(line, k)] else []
  }

  /** The inner loop of parseCrates: row `line` puts its crate, if any, on
      top of each of the first `count` stacks and leaves the rest alone. */
  method StackRow(stacks: seq<seq<string>>, line: string, count: nat) returns (r: seq<seq<string>>)
    requires |stacks| == count
    requires count == 0 || 4 * (count - 1) <= |line|
    ensures |r| == count
    ensures forall k :: 0 <= k < count ==> r[k] == stacks[k] + RowCrate(line, k)
  {
    r := stacks;
    var n := count - 1;
    var p := 0;
    for st := 0 to n + 1
      invariant p == 4 * st && |r| == count
      invariant forall k :: 0 <= k < st ==> r[k] == stacks[k] + RowCrate(line, k)
      invariant forall k :: st <= k < count ==> r[k] == stacks[k]
    {
      var q := p + 4;
      if q >= |line| {
        q := |line|;
      }
      var container := line[p..q];
      assert container == Cell(line, st);
      TrimSpaceEmpty(container);
      if TrimSpace(container) != "" {
        r := r[st := r[st] + [container]];
      }
      p := p + 4;
    }
  }

  /** parseCrates: one stack per column, filled from the bottom row up. */
  method ParseCrates(s: string) returns (stacks: seq<seq<string>>)
    requires CratesFit(s)
    ensures stacks == Crates(s)
  {
    var lines := Split(s, "\n");
    var n := (|lines[0]| + 1) / 4 - 1;
    stacks := [];
    var i := 0;
    while i <= n
      invariant 0 <= i <= n + 1 || (n < 0 && i == 0)
      invariant |stacks| == i && forall k :: 0 <= k < i ==> stacks[k] == []
    {
      stacks := stacks + [[]];
      i := i + 1;
    }
    var rows := lines[..|lines| - 1];
    assert rows == Rows(s);
    var count := n + 1;
    for r := 0 to |rows|
      invariant |stacks| == count
      invariant forall k :: 0 <= k < count ==> stacks[k] == Column(rows[|rows| - r..], k)
    {
      var line := rows[|rows| - 1 - r];
      ghost var above := rows[|rows| - r..];
      ghost var now := rows[|rows| - 1 - r..];
      assert now[1..] == above && now[0] == line;
      stacks := StackRow(stacks, line, count);
      assert forall k :: 0 <= k < count ==> Column(now, k) == Column(above, k) + RowCrate(line, k);
    }
    assert rows[|rows| - |rows|..] == rows;
  }

  // ---------------------------------------------------------------------
  // applyMoves

  /** The crates of `s` in the opposite order. */
  function Reversed(s: seq<string>): (r: seq<string>)
    ensures |r| == |s|
  {
    if |s| == 0 then [] else [s[|s| - 1]] + Reversed(s[..|s| - 1])
  }

  /** Reversing keeps the crates and mirrors their positions. */
  lemma {:induction false} ReversedSpec(s: seq<string>)
    ensures multiset(Reversed(s)) == multiset(s)
    ensures forall i :: 0 <= i < |s| ==> Reversed(s)[i] == s[|s| - 1 - i]
  {
    if |s| > 0 {
      var init := s[..|s| - 1];
      ReversedSpec(init);
      assert s == init + [s[|s| - 1]];
    }
  }

  /** One pass of the inner loop of applyMoves: the top crate of stack
      `from` goes on top of stack `to`. The stack `from` is cut back after
      the append, so when `from == to` the crate is lost as well. */
  function MoveOne(st: seq<seq<string>>, from: int, to: int): seq<seq<string>>
    requires 0 <= from < |st| && 0 <= to < |st| && |st[from]| > 0
  {
    var j := |st[from]| - 1;
    var st1 := st[to := st[to] + [st[from][j]]];
    st1[from := st1[from][..j]]
  }

  /** `k` passes of the inner loop, or None where one of them would index
      out of range: a stack number outside the drawing, or an empty stack
      `from`. */
  function Moved(st: seq<seq<string>>, from: int, to: int, k: int): Option<seq<seq<string>>>
    decreases k
  {
    if k <= 0 then Some(st)
    else if !(0 <= from < |st| && 0 <= to < |st|) || |st[from]| == 0 then None
    else Moved(MoveOne(st, from, to), from, to, k - 1)
  }

  /** The moves can be carried out exactly when the stacks exist and the
      stack `from` holds at least `k` crates; the number of stacks does not
      change. */
  lemma {:induction false} MovedSome(st: seq<seq<string>>, from: int, to: int, k: int)
    ensures Moved(st, from, to, k).Some? <==>
      k <= 0 || (0 <= from < |st| && 0 <= to < |st| && k <= |st[from]|)
    ensures Moved(st, from, to, k).Some? ==> |Moved(st, from, to, k).value| == |st|
    decreases k
  {
    if k > 0 && 0 <= from < |st| && 0 <= to < |st| && |st[from]| > 0 {
      MovedSome(MoveOne(st, from, to), from, to, k - 1);
    }
  }

  /** Setting the same two stacks in two lists that differ in no other
      stack gives the same list. */
  lemma SetTwo(st: seq<seq<string>>, st1: seq<seq<string>>, a: int, b: int, x: seq<string>, y: seq<string>)
    requires |st1| == |st| && 0 <= a < |st| && 0 <= b < |st|
    requires forall i :: 0 <= i < |st| && i != a && i != b ==> st1[i] == st[i]
    ensures st1[a := x][b := y] == st[a := x][b := y]
  {
  }

  /** Between two different stacks, `k` single moves lift the top `k`
      crates of `from` onto `to` in reverse order, the topmost first. */
  lemma {:induction false} BlockMove(st: seq<seq<string>>, from: int, to: int, k: int)
    requires 0 <= from < |st| && 0 <= to < |st| && from != to
    requires 0 <= k <= |st[from]|
    ensures Moved(st, from, to, k) ==
      Some(st[from := st[from][..|st[from]| - k]][to := st[to] + Reversed(st[from][|st[from]| - k..])])
    decreases k
  {
    var n := |st[from]|;
    if k == 0 {
      assert st[from][..n] == st[from];
      assert st[from][n..] == [];
      assert st[to] + [] == st[to];
      assert st[from := st[from]][to := st[to]] == st;
    } else {
      var j := n - 1;
      var top := st[from][j];
      var st1 := MoveOne(st, from, to);
      assert Moved(st, from, to, k) == Moved(st1, from, to, k - 1);
      assert st1[from] == st[from][..j] && st1[to] == st[to] + [top];
      BlockMove(st1, from, to, k - 1);
      var lifted := st[from][n - k..];
      var kept := st1[from][..j - (k - 1)];
      var rest := Reversed(st1[from][j - (k - 1)..]);
      assert kept == st[from][..n - k];
      assert st1[from][j - (k - 1)..] == lifted[..k - 1];
      assert Reversed(lifted) == [top] + rest;
      assert st1[to] + rest == st[to] + Reversed(lifted);
      SetTwo(st, st1, from, to, kept, st1[to] + rest);
      assert Moved(st1, from, to, k - 1) == Some(st1[from := kept][to := st1[to] + rest]);
      assert st1[from := kept][to := st1[to] + rest] == st[from := kept][to := st[to] + Reversed(lifted)];
    }
  }

  /** Moving within one stack only drops its top `k` crates. */
  lemma {:induction false} SameStackMove(st: seq<seq<string>>, s: int, k: int)
    requires 0 <= s < |st| && 0 <= k <= |st[s]|
    ensures Moved(st, s, s, k) == Some(st[s := st[s][..|st[s]| - k]])
    decreases k
  {
    if k == 0 {
      assert st[s][..|st[s]|] == st[s];
      assert st[s := st[s]] == st;
    } else {
      var st1 := MoveOne(st, s, s);
      SameStackMove(st1, s, k - 1);
      assert st1[s] == st[s][..|st[s]| - 1];
      assert st1[s][..|st1[s]| - (k - 1)] == st[s][..|st[s]| - k];
      assert st1[s := st[s][..|st[s]| - k]] == st[s := st[s][..|st[s]| - k]];
    }
  }

  /** All the crates of all the stacks. */
  function Total(st: seq<seq<string>>): multiset<string> {
    if |st| == 0 then multiset{} else Total(st[..|st| - 1]) + multiset(st[|st| - 1])
  }

  /** Replacing one stack changes the crates by exactly that stack. */
  lemma {:induction false} TotalUpdate(st: seq<seq<string>>, i: int, x: seq<string>)
    requires 0 <= i < |st|
    ensures Total(st[i := x]) + multiset(st[i]) == Total(st) + multiset(x)
    decreases |st|
  {
    var last := |st| - 1;
    var st1 := st[i := x];
    assert Total(st1) == Total(st1[..last]) + multiset(st1[last]);
    assert Total(st) == Total(st[..last]) + multiset(st[last]);
    if i < last {
      assert st1[..last] == st[..last][i := x];
      assert st[..last][i] == st[i] && st1[last] == st[last];
      TotalUpdate(st[..last], i, x);
      var a, b := Total(st[..last][i := x]), Total(st[..last]);
      assert a + multiset(st[i]) == b + multiset(x);
      assert Total(st1) + multiset(st[i]) == a + multiset(st[i]) + multiset(st[last]);
    } else {
      assert st1[..last] == st[..last];
    }
  }

  /** Crates counted on both sides of an equation can be taken away. */
  lemma Cancel(a: multiset<string>, b: multiset<string>, c: multiset<string>)
    requires a + c == b + c
    ensures a == b
  {
    forall e
      ensures a[e] == b[e]
    {
      assert (a + c)[e] == (b + c)[e];
    }
  }

  /** Cutting the top `lifted` crates off stack `i` takes exactly them
      out of the crates overall. */
  lemma TotalTake(st: seq<seq<string>>, i: int, kept: seq<string>, lifted: seq<string>)
    requires 0 <= i < |st| && st[i] == kept + lifted
    ensures Total(st[i := kept]) + multiset(lifted) == Total(st)
  {
    TotalUpdate(st, i, kept);
    assert multiset(st[i]) == multiset(kept) + multiset(lifted);
    Cancel(Total(st[i := kept]) + multiset(lifted), Total(st), multiset(kept));
  }

  /** Putting `extra` crates on top of stack `i` adds exactly them to the
      crates overall. */
  lemma TotalPut(st: seq<seq<string>>, i: int, extra: seq<string>)
    requires 0 <= i < |st|
    ensures Total(st[i := st[i] + extra]) == Total(st) + multiset(extra)
  {
    TotalUpdate(st, i, st[i] + extra);
    Cancel(Total(st[i := st[i] + extra]), Total(st) + multiset(extra), multiset(st[i]));
  }

  /** Lifting the top crates of one stack onto another, in reverse order,
      keeps the crates overall. */
  lemma BlockKeepsCrates(st: seq<seq<string>>, from: int, to: int, kept: seq<string>, lifted: seq<string>)
    requires 0 <= from < |st| && 0 <= to < |st| && from != to
    requires st[from] == kept + lifted
    ensures Total(st[from := kept][to := st[to] + Reversed(lifted)]) == Total(st)
  {
    var st1 := st[from := kept];
    TotalTake(st, from, kept, lifted);
    assert st1[to] == st[to];
    TotalPut(st1, to, Reversed(lifted));
    ReversedSpec(lifted);
  }

  /** A move between two different stacks neither loses nor creates crates. */
  lemma MovedKeepsCrates(st: seq<seq<string>>, from: int, to: int, k: int)
    requires from != to && Moved(st, from, to, k).Some?
    ensures Total(Moved(st, from, to, k).value) == Total(st)
  {
    MovedSome(st, from, to, k);
    if k > 0 {
      var n := |st[from]|;
      var kept := st[from][..n - k];
      var lifted := st[from][n - k..];
      BlockMove(st, from, to, k);
      assert st[from] == kept + lifted;
      BlockKeepsCrates(st, from, to, kept, lifted);
    }
  }

  /** The stacks after the moves `moves` one after another, or None where
      one of them would index out of range. */
  function Replay(st: seq<seq<string>>, moves: seq<Move>): Option<seq<seq<string>>>
    decreases |moves|
  {
    if |moves| == 0 then Some(st)
    else
      var m := moves[|moves| - 1];
      match Replay(st, moves[..|moves| - 1])
      case None => None
      case Some(st1) => Moved(st1, m.from, m.to, m.numCrates)
  }

  /** If all the moves can be carried out, so can every first part of them. */
  lemma {:induction false} ReplayPrefix(st: seq<seq<string>>, moves: seq<Move>, n: int)
    requires 0 <= n <= |moves| && Replay(st, moves).Some?
    ensures Replay(st, moves[..n]).Some?
    decreases |moves|
  {
    if n < |moves| {
      var init := moves[..|moves| - 1];
      assert init[..n] == moves[..n];
      ReplayPrefix(st, init, n);
    } else {
      assert moves[..n] == moves;
    }
  }

  /** The moves keep the number of stacks and, when none of them names the
      same stack twice, every crate. */
  lemma {:induction false} ReplayKeeps(st: seq<seq<string>>, moves: seq<Move>)
    requires Replay(st, moves).Some?
    ensures |Replay(st, moves).value| == |st|
    ensures (forall i :: 0 <= i < |moves| ==> moves[i].from != moves[i].to) ==>
      Total(Replay(st, moves).value) == Total(st)
    decreases |moves|
  {
    if |moves| > 0 {
      var m := moves[|moves| - 1];
      var init := moves[..|moves| - 1];
      ReplayKeeps(st, init);
      var st1 := Replay(st, init).value;
      MovedSome(st1, m.from, m.to, m.numCrates);
      if forall i :: 0 <= i < |moves| ==> moves[i].from != moves[i].to {
        assert forall i :: 0 <= i < |init| ==> init[i] == moves[i];
        MovedKeepsCrates(st1, m.from, m.to, m.numCrates);
      }
    }
  }

  /** applyMoves: carries out the moves on the stacks in place. */
  method ApplyMoves(moves: seq<Move>, crates: array<seq<string>>)
    requires Replay(crates[..], moves).Some?
    modifies crates
    ensures crates[..] == Replay(old(crates[..]), moves).value
  {
    ghost var start := crates[..];
    for mi := 0 to |moves|
      invariant Replay(start, moves[..mi]) == Some(crates[..])
    {
      var m := moves[mi];
      ReplayPrefix(start, moves, mi + 1);
      assert moves[..mi + 1][..mi] == moves[..mi];
      ghost var before := crates[..];
      var i := 0;
      while i < m.numCrates
        invariant i == 0 || i <= m.numCrates
        invariant Moved(crates[..], m.from, m.to, m.numCrates - i) == Moved(before, m.from, m.to, m.numCrates)
      {
        ghost var now := crates[..];
        var j := |crates[m.from]| - 1;
        crates[m.to] := crates[m.to] + [crates[m.from][j]];
        crates[m.from] := crates[m.from][..j];
        assert crates[..] == MoveOne(now, m.from, m.to);
        i := i + 1;
      }
    }
    assert moves[..|moves|] == moves;
  }

  // ---------------------------------------------------------------------
  // run

  /** The input runs to the end without a panic: whenever the moves parse,
      the drawing can be read and every move finds its crates. */
  predicate RunFits(input: string) {
    var (before, after, found) := Cut(input, "\n\n");
    found && MovesOf(Split(after, "\n")).Ok? ==>
      CratesFit(before) && Replay(Crates(before), MovesOf(Split(after, "\n")).value).Some?
  }

  /** The lines of moves: those after the first blank line. */
  function MoveLines(input: string): seq<string> {
    Split(Cut(input, "\n\n").1, "\n")
  }

  /** What run ends with: the stacks after all the moves, bottom crate
      first, or the error it reports. */
  function Outcome(input: string): Result<seq<seq<string>>, Error>
    requires RunFits(input)
  {
    var (before, after, found) := Cut(input, "\n\n");
    if !found then Err(NoSeparator)
    else
      match MovesOf(Split(after, "\n"))
      case Err(e) => Err(e)
      case Ok(moves) => Ok(Replay(Crates(before), moves).value)
  }

  /** run reports a missing blank line, then the first line of moves that
      does not parse, and succeeds exactly when every line of moves parses. */
  lemma OutcomeErrors(input: string)
    requires RunFits(input)
    ensures !Cut(input, "\n\n").2 ==> Outcome(input) == Err(NoSeparator)
    ensures Cut(input, "\n\n").2 ==>
      (Outcome(input).Ok? <==> forall i :: 0 <= i < |MoveLines(input)| ==> ParseMove(MoveLines(input)[i]).Ok?)
    ensures Cut(input, "\n\n").2 && Outcome(input).Err? ==>
      exists i :: && 0 <= i < |MoveLines(input)|
                  && ParseMove(MoveLines(input)[i]).Err?
                  && (forall j :: 0 <= j < i ==> ParseMove(MoveLines(input)[j]).Ok?)
                  && Outcome(input).error == ParseMove(MoveLines(input)[i]).error
  {
    if Cut(input, "\n\n").2 {
      var lines := MoveLines(input);
      MovesOfSpec(lines);
      assert Outcome(input).Ok? <==> MovesOf(lines).Ok?;
      if MovesOf(lines).Err? {
        assert Outcome(input).error == MovesOf(lines).error;
      }
    }
  }

  /** When run succeeds it ends with as many stacks as the drawing has, and
      with the very same crates on them. */
  lemma OutcomeKeepsCrates(input: string)
    requires RunFits(input) && Outcome(input).Ok?
    ensures var before := Cut(input, "\n\n").0;
      |Outcome(input).value| == |Crates(before)| && Total(Outcome(input).value) == Total(Crates(before))
  {
    var before := Cut(input, "\n\n").0;
    var lines := Split(Cut(input, "\n\n").1, "\n");
    ParsedMovesDistinct(lines);
    ReplayKeeps(Crates(before), MovesOf(lines).value);
  }

  /** run: read the moves after the first blank line, then the drawing
      before it, and carry the moves out on the stacks. */
  method Run(input: string) returns (r: Result<seq<seq<string>>, Error>)
    requires RunFits(input)
    ensures r == Outcome(input)
  {
    var (before, after, found) := Cut(input, "\n\n");
    if !found {
      return Err(NoSeparator);
    }
    var moves := ParseMoves(after);
    if moves.Err? {
      return Err(moves.error);
    }
    var stacks := ParseCrates(before);
    var crates := new seq<string>[|stacks|](i => if 0 <= i < |stacks| then stacks[i] else []);
    assert crates[..] == stacks;
    ApplyMoves(moves.value, crates);
    return Ok(crates[..]);
  }
}
