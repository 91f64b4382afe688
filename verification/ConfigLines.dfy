/** Lines of columns in fstab and crypttab: how they are put together and what reading them finds. */
module ConfigLines {

  import opened Tokens

  const BLANKS := " \t"
  const BREAKS := " \t\n"

  /** A column that stays in one piece. */
  predicate Word(s: string) {
    s != "" && Clean(s, BREAKS)
  }

  predicate Blank(s: string) {
    forall i :: 0 <= i < |s| ==> s[i] in BLANKS
  }

  // ----- reading

  function FirstLine(text: string): string {
    text[..FirstSeparator(text, "\n")]
  }

  function Strip(s: string): (r: string)
    ensures r <= s && Blank(s[|r|..])
    ensures r == "" || r[|r| - 1] !in BLANKS
  {
    if s == "" || s[|s| - 1] !in BLANKS then s else Strip(s[..|s| - 1])
  }

  /** The first line without trailing white space. */
  function Content(text: string): string {
    Strip(FirstLine(text))
  }

  /** The columns of the first line. */
  function Fields(text: string): seq<string> {
    Split(Content(text), BLANKS)
  }

  /** The pieces of the first line that are separated by white space. */
  function Pieces(text: string): seq<string> {
    var c := Content(text);
    if c == "" then [] else Split(SkipSeparators(c, BLANKS), BLANKS)
  }

  /** The reader skips the line: its first character that is not white space is the comment marker. */
  predicate IsComment(text: string) {
    var line := SkipSeparators(FirstLine(text), BLANKS);
    line != "" && line[0] == '#'
  }

  lemma {:induction false} StripIs(s: string, r: string)
    requires r <= s && Blank(s[|r|..]) && (r == "" || r[|r| - 1] !in BLANKS)
    ensures Strip(s) == r
  {
    if s != r {
      var n := |s| - 1;
      assert s[n] == s[|r|..][n - |r|];
      assert s[..n][|r|..] == s[|r|..][..n - |r|];
      StripIs(s[..n], r);
    }
  }

  lemma FirstLineAfter(x: string, y: string)
    requires Clean(x, "\n")
    ensures FirstLine(x + y) == x + FirstLine(y)
  {
    var i := FirstSeparator(y, "\n");
    assert x + y == (x + y[..i]) + y[i..];
    FirstSeparatorAfter(x + y[..i], y[i..], "\n");
  }

  lemma {:induction false} StripFront(c: char, line: string)
    requires c in BLANKS
    ensures Strip([c] + line) == if Strip(line) == "" then "" else [c] + Strip(line)
  {
    var n := |line|;
    var longer := [c] + line;
    if n == 0 {
      assert longer == [c] && [c][..0] == "";
    } else if line[n - 1] in BLANKS {
      assert longer[n] == line[n - 1] && longer[..n] == [c] + line[..n - 1];
      StripFront(c, line[..n - 1]);
      assert Strip(longer) == Strip(longer[..n]) && Strip(line) == Strip(line[..n - 1]);
    } else {
      assert longer[n] == line[n - 1] && Strip(longer) == longer;
    }
  }

  /** White space in front of a line makes no difference. */
  lemma BlankInFront(c: char, y: string)
    requires c in BLANKS
    ensures Pieces([c] + y) == Pieces(y)
  {
    FirstLineAfter([c], y);
    StripFront(c, FirstLine(y));
    var r := Content(y);
    if r != "" {
      assert ([c] + r)[1..] == r;
    }
  }

  lemma {:induction false} GapInFront(gap: string, y: string)
    requires Blank(gap)
    ensures Pieces(gap + y) == Pieces(y)
  {
    if gap == "" {
      assert gap + y == y;
    } else {
      assert gap + y == [gap[0]] + (gap[1..] + y);
      BlankInFront(gap[0], gap[1..] + y);
      GapInFront(gap[1..], y);
    }
  }

  lemma WordThenContent(x: string, y: string)
    requires Word(x)
    ensures Content(x + y) == x + Content(y)
  {
    FirstLineAfter(x, y);
    var line, r := FirstLine(y), Content(y);
    assert (x + line)[|x + r|..] == line[|r|..];
    StripIs(x + line, x + r);
  }

  /** A word up to a break is the first piece. */
  lemma WordInFront(x: string, y: string)
    requires Word(x) && (y == "" || y[0] in BREAKS)
    ensures Pieces(x + y) == [x] + Pieces(y) && Fields(x + y) == Pieces(x + y)
  {
    WordThenContent(x, y);
    var c := x + Content(y);
    assert c[0] == x[0] && SkipSeparators(c, BLANKS) == c;
    if Content(y) == "" {
      assert c == x;
      SplitAlone(x, BLANKS);
    } else {
      assert Content(y)[0] == FirstLine(y)[0] == y[0];
      SplitFront(x, Content(y), BLANKS);
    }
  }

  lemma NoPieces(y: string)
    requires y == "" || y[0] == '\n'
    ensures Pieces(y) == []
  {
  }

  // ----- writing

  /** A column with the padding and the separator that follow it. */
  datatype Cell = Cell(text: string, gap: string)
  {
    predicate Valid() {
      Word(text) && gap != "" && Blank(gap)
    }
  }

  function Row(cells: seq<Cell>, rest: string): string {
    if cells == [] then rest else cells[0].text + cells[0].gap + Row(cells[1..], rest)
  }

  function Words(cells: seq<Cell>): (r: seq<string>)
    ensures |r| == |cells|
  {
    if cells == [] then [] else [cells[0].text] + Words(cells[1..])
  }

  lemma CellInFront(cell: Cell, more: string)
    requires cell.Valid()
    ensures var line := cell.text + cell.gap + more;
      Pieces(line) == [cell.text] + Pieces(more) && Fields(line) == Pieces(line)
  {
    assert cell.text + cell.gap + more == cell.text + (cell.gap + more);
    WordInFront(cell.text, cell.gap + more);
    GapInFront(cell.gap, more);
  }

  /** Reading a row gives back the words and goes on with the rest. */
  lemma {:induction false} PiecesOfRow(cells: seq<Cell>, rest: string)
    requires forall i :: 0 <= i < |cells| ==> cells[i].Valid()
    ensures Pieces(Row(cells, rest)) == Words(cells) + Pieces(rest)
  {
    if cells != [] {
      var more := Row(cells[1..], rest);
      CellInFront(cells[0], more);
      PiecesOfRow(cells[1..], rest);
      ghost var found, words := Pieces(rest), Words(cells[1..]);
      Regroup(cells[0].text, words, found);
    }
  }

  lemma Regroup(x: string, words: seq<string>, found: seq<string>)
    ensures [x] + words + found == [x] + (words + found)
  {
  }

  lemma FieldsOfRow(cells: seq<Cell>, rest: string)
    requires cells != [] && forall i :: 0 <= i < |cells| ==> cells[i].Valid()
    ensures Fields(Row(cells, rest)) == Words(cells) + Pieces(rest)
  {
    PiecesOfRow(cells, rest);
    CellInFront(cells[0], Row(cells[1..], rest));
  }

  /** A row is skipped exactly if its first column starts with the marker. */
  lemma RowIsComment(cells: seq<Cell>, rest: string)
    requires cells != [] && cells[0].Valid()
    ensures IsComment(Row(cells, rest)) <==> cells[0].text[0] == '#'
  {
    var x, y := cells[0].text, cells[0].gap + Row(cells[1..], rest);
    assert Row(cells, rest) == x + y;
    FirstLineAfter(x, y);
    assert (x + FirstLine(y))[0] == x[0];
  }

  /** What is found in the place of a text: nothing, or less than it, or, if it is blank, what follows. */
  predicate Damaged(s: string, found: seq<string>, after: seq<string>) {
    found == [] || |found[0]| < |s| || (Blank(s) && found == after)
  }

  /** A text that is not one word does not come back. */
  lemma {:induction false} BrokenText(s: string, tail: string)
    requires !Word(s) && (tail == "" || tail[0] in BLANKS)
    ensures Damaged(s, Pieces(s + tail), Pieces(tail))
  {
    if s == "" {
      assert s + tail == tail;
    } else if s[0] in BLANKS {
      assert s + tail == [s[0]] + (s[1..] + tail);
      BlankInFront(s[0], s[1..] + tail);
      if Word(s[1..]) {
        WordInFront(s[1..], tail);
      } else {
        BrokenText(s[1..], tail);
        StillDamaged(s, Pieces(s[1..] + tail), Pieces(tail));
      }
    } else if s[0] == '\n' {
      NoPieces(s + tail);
    } else {
      WordCutOff(s, tail);
    }
  }

  lemma StillDamaged(s: string, found: seq<string>, after: seq<string>)
    requires s != "" && s[0] in BLANKS && Damaged(s[1..], found, after)
    ensures Damaged(s, found, after)
  {
    if Blank(s[1..]) {
      assert forall i :: 1 <= i < |s| ==> s[i] == s[1..][i - 1];
    }
  }

  lemma WordCutOff(s: string, tail: string)
    requires s != "" && s[0] !in BREAKS && !Word(s) && (tail == "" || tail[0] in BLANKS)
    ensures var p := Pieces(s + tail); p != [] && |p[0]| < |s|
  {
    var j := FirstSeparator(s, BREAKS);
    assert s + tail == s[..j] + (s[j..] + tail);
    WordInFront(s[..j], s[j..] + tail);
  }
}
