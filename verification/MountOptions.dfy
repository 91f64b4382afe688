/** Comma separated option lists: the mount options of fstab and the options of crypttab. */
module MountOptions {

  import opened Wrappers
  import opened Sequences
  import opened Tokens
  import opened ConfigLines
  import opened Escaping

  // ----- joining and splitting

  /** The options with commas in between; an option after nothing but empty ones gets no comma. */
  function Joined(opts: seq<string>): string {
    if opts == [] then ""
    else
      var r := Joined(opts[..|opts| - 1]);
      (if r != "" then r + "," else r) + opts[|opts| - 1]
  }

  /** All occurrences of one option removed. */
  function Without(opts: seq<string>, opt: string): seq<string> {
    if opts == [] then []
    else
      var last := opts[|opts| - 1];
      Without(opts[..|opts| - 1], opt) + (if last == opt then [] else [last])
  }

  // ----- lists that survive

  /** No option has a comma in it or is the one that gets dropped, and only the last may be empty. */
  ghost predicate Plain(opts: seq<string>, dropped: string) {
    && opts != []
    && (forall i :: 0 <= i < |opts| ==> Clean(opts[i], ",") && opts[i] != dropped)
    && (forall i :: 0 <= i < |opts| - 1 ==> opts[i] != "")
  }

  lemma {:induction false} JoinedStarts(opts: seq<string>)
    requires opts != []
    ensures opts[0] <= Joined(opts)
  {
    var n := |opts| - 1;
    if n > 0 {
      JoinedStarts(opts[..n]);
    } else {
      assert opts[..0] == [];
    }
  }

  lemma {:induction false} JoinedFront(x: string, rest: seq<string>)
    requires x != "" && rest != [] && (|rest| > 1 ==> rest[0] != "")
    ensures Joined([x] + rest) == x + "," + Joined(rest)
  {
    var n := |rest| - 1;
    assert ([x] + rest)[..n + 1] == [x] + rest[..n];
    if n == 0 {
      assert [x] + rest[..0] == [x] && [x][..0] == [] && rest[..0] == [];
    } else {
      JoinedFront(x, rest[..n]);
      JoinedStarts(rest[..n]);
    }
  }

  lemma {:induction false} WithoutAbsent(opts: seq<string>, opt: string)
    requires opt !in opts
    ensures Without(opts, opt) == opts
  {
    if opts != [] {
      WithoutAbsent(opts[..|opts| - 1], opt);
    }
  }

  lemma PlainRest(opts: seq<string>, dropped: string)
    requires Plain(opts, dropped) && |opts| > 1
    ensures Plain(opts[1..], dropped) && opts[0] != "" && Clean(opts[0], ",")
  {
    assert forall i :: 0 <= i < |opts| - 1 ==> opts[1..][i] == opts[i + 1];
  }

  /** Plain lists come back from joining and splitting. */
  lemma {:induction false} PlainSurvives(opts: seq<string>, dropped: string)
    requires Plain(opts, dropped)
    ensures Split(Joined(opts), ",") == opts
  {
    if |opts| == 1 {
      assert opts[..0] == [] && Joined(opts) == opts[0] && opts == [opts[0]];
      SplitAlone(opts[0], ",");
    } else {
      var x, rest := opts[0], opts[1..];
      assert opts == [x] + rest;
      PlainRest(opts, dropped);
      PlainSurvives(rest, dropped);
      JoinedFront(x, rest);
      StartsPlain(rest, dropped);
      assert x + "," + Joined(rest) == x + ("," + Joined(rest)) && ("," + Joined(rest))[1..] == Joined(rest);
      SplitFront(x, "," + Joined(rest), ",");
    }
  }

  lemma StartsPlain(opts: seq<string>, dropped: string)
    requires Plain(opts, dropped)
    ensures Joined(opts) == "" || Joined(opts)[0] != ','
  {
    JoinedStarts(opts);
    if opts[0] == "" {
      assert |opts| == 1 && opts[..0] == [];
    } else {
      assert Joined(opts)[0] == opts[0][0];
    }
  }

  // ----- and no others

  /** Tokens have no commas, and only the first and the last can be empty. */
  lemma {:induction false} TokenShape(s: string)
    ensures forall i :: 0 <= i < |Split(s, ",")| ==> ',' !in Split(s, ",")[i]
    ensures forall i :: 0 < i < |Split(s, ",")| - 1 ==> Split(s, ",")[i] != ""
    ensures |Split(s, ",")| > 1 && s[0] != ',' ==> Split(s, ",")[0] != ""
    ensures |Split(s, ",")| <= Count(s, ',') + 1
    decreases |s|
  {
    var i := FirstSeparator(s, ",");
    if i < |s| {
      var t := SkipSeparators(s[i..], ",");
      TokenShape(t);
      assert s == s[..i] + s[i..];
      CountConcat(s[..i], s[i..], ',');
      SkippingCounts(s[i..]);
    }
  }

  lemma {:induction false} SkippingCounts(s: string)
    ensures Count(SkipSeparators(s, ","), ',') <= Count(s, ',')
    ensures s != "" && s[0] == ',' ==> Count(SkipSeparators(s, ","), ',') < Count(s, ',')
  {
    if s != "" && s[0] == ',' {
      SkippingCounts(s[1..]);
    }
  }

  lemma WithoutSnoc(front: seq<string>, last: string, opt: string)
    ensures Without(front + [last], opt) == if last == opt then Without(front, opt) else Without(front, opt) + [last]
  {
    assert (front + [last])[..|front|] == front;
  }

  lemma {:induction false} WithoutIsSurvivors(opts: seq<string>, opt: string)
    ensures Without(opts, opt) == Survivors(opts, {opt})
  {
    if opts != [] {
      var front, last := opts[..|opts| - 1], opts[|opts| - 1];
      assert opts == front + [last];
      WithoutIsSurvivors(front, opt);
      WithoutSnoc(front, last, opt);
      SurvivorsSnoc(front, last, {opt});
    }
  }

  /** Exactly the other options are left, each as often as before and in the same order. */
  lemma WithoutIsRest(opts: seq<string>, opt: string)
    ensures IsRest(opts, {opt}, Without(opts, opt))
  {
    WithoutIsSurvivors(opts, opt);
    SurvivorsAreRest(opts, {opt});
  }

  lemma WithoutIsSublist(opts: seq<string>, opt: string) returns (at: seq<nat>)
    ensures |at| == |Without(opts, opt)| <= |opts| && opt !in Without(opts, opt)
    ensures forall i :: 0 <= i < |at| ==> at[i] < |opts| && Without(opts, opt)[i] == opts[at[i]]
    ensures forall i, j :: 0 <= i < j < |at| ==> at[i] < at[j]
  {
    WithoutIsRest(opts, opt);
    at :| LeavesOut(at, opts, {opt}, Without(opts, opt));
    IncreasingFits(at, |opts|);
    RestMembers(opts, {opt}, Without(opts, opt), opt);
  }

  lemma {:induction false} IncreasingFits(at: seq<nat>, n: nat)
    requires forall i :: 0 <= i < |at| ==> at[i] < n
    requires forall i, j :: 0 <= i < j < |at| ==> at[i] < at[j]
    ensures |at| <= n
  {
    if at != [] {
      IncreasingFits(at[..|at| - 1], at[|at| - 1]);
    }
  }

  lemma {:induction false} JoinedCommas(opts: seq<string>)
    requires opts != [] && forall i :: 0 <= i < |opts| ==> ',' !in opts[i]
    ensures Count(Joined(opts), ',') <= |opts| - 1
    ensures opts[0] == "" && |opts| > 1 ==> Count(Joined(opts), ',') <= |opts| - 2
  {
    var n := |opts| - 1;
    var r, x := Joined(opts[..n]), opts[n];
    CountNone(x, ',');
    if n == 0 {
      assert opts[..0] == [] && Joined(opts) == x;
    } else {
      JoinedCommas(opts[..n]);
      CountConcat(r, ",", ',');
      CountConcat(if r != "" then r + "," else r, x, ',');
      if n == 1 {
        assert opts[..1][..0] == [] && r == opts[0];
      }
    }
  }

  /** Joining, splitting and dropping one option gives a list back exactly if it is plain. */
  lemma SurvivesExactly(opts: seq<string>, dropped: string)
    requires dropped != ""
    ensures Without(Split(Joined(opts), ","), dropped) == opts <==> Plain(opts, dropped)
  {
    if Plain(opts, dropped) {
      PlainSurvives(opts, dropped);
      WithoutAbsent(opts, dropped);
    }
    if Without(Split(Joined(opts), ","), dropped) == opts {
      SurvivorIsPlain(opts, Joined(opts), dropped);
    }
  }

  lemma SurvivorIsPlain(opts: seq<string>, s: string, dropped: string)
    requires dropped != "" && Without(Split(s, ","), dropped) == opts && s == Joined(opts)
    ensures Plain(opts, dropped)
  {
    var tokens := Split(s, ",");
    var at := WithoutIsSublist(tokens, dropped);
    TokenShape(s);
    forall i | 0 <= i < |opts| ensures Clean(opts[i], ",") && opts[i] != dropped {
      assert opts[i] == tokens[at[i]] && opts[i] in opts;
    }
    EmptyTextHasOneToken(dropped);
    JoinedCommas(opts);
    forall i | 0 <= i < |opts| - 1 ensures opts[i] != "" {
      assert at[i] < at[|opts| - 1];
      if i > 0 {
        assert at[0] < at[i] && opts[i] == tokens[at[i]];
      }
    }
  }

  lemma EmptyTextHasOneToken(dropped: string)
    requires dropped != ""
    ensures Joined([]) == "" && Without(Split("", ","), dropped) == [""]
  {
    assert Split("", ",") == [""] && [""][..0] == [];
  }

  // ----- decoding in between

  lemma {:induction false} ReplacingShortens(s: string, pat: string, rep: string)
    requires |pat| > |rep|
    ensures Occurrences(s, pat) == 0 ==> ReplaceAll(s, pat, rep) == s
    ensures Occurrences(s, pat) > 0 ==> |ReplaceAll(s, pat, rep)| < |s|
    ensures |ReplaceAll(s, pat, rep)| <= |s|
  {
    if s != "" {
      if pat <= s {
        ReplacingShortens(s[|pat|..], pat, rep);
      } else {
        ReplacingShortens(s[1..], pat, rep);
        assert s == [s[0]] + s[1..];
      }
    }
  }

  /** decode finds nothing to replace in s. */
  predicate NothingEscaped(s: string, table: seq<Escape>) {
    Occurrences(s, "\\\\") == 0 && forall k :: 0 <= k < |table| ==> Occurrences(s, table[k].code) == 0
  }

  /** Decoding either finds nothing to replace or makes the text shorter. */
  lemma {:induction false} DecodingShortens(s: string, table: seq<Escape>)
    requires forall k :: 0 <= k < |table| ==> |table[k].code| > 1
    ensures |Decoded(s, table)| <= |s|
    ensures Decoded(s, table) == s <==> NothingEscaped(s, table)
    ensures Decoded(s, table) == s || |Decoded(s, table)| < |s|
    decreases |table|
  {
    if table == [] {
      ReplacingShortens(s, "\\\\", "\\");
    } else {
      var t := ReplaceAll(s, table[0].code, [table[0].plain]);
      ReplacingShortens(s, table[0].code, [table[0].plain]);
      DecodingShortens(t, table[1..]);
      assert t == s ==> (NothingEscaped(s, table) <==> NothingEscaped(s, table[1..])) by {
        assert table == [table[0]] + table[1..];
      }
    }
  }

  /** The room the options take, with one separator each. */
  function Weight(opts: seq<string>): nat {
    if opts == [] then 0 else Weight(opts[..|opts| - 1]) + |opts[|opts| - 1]| + 1
  }

  lemma {:induction false} WeightFront(x: string, rest: seq<string>)
    ensures Weight([x] + rest) == |x| + 1 + Weight(rest)
  {
    var n := |rest| - 1;
    if rest == [] {
      assert [x] + rest == [x] && [x][..0] == [];
    } else {
      assert ([x] + rest)[..n + 1] == [x] + rest[..n];
      WeightFront(x, rest[..n]);
    }
  }

  lemma {:induction false} JoinedFits(opts: seq<string>)
    ensures |Joined(opts)| <= Weight(opts)
    ensures opts != [] ==> |Joined(opts)| < Weight(opts)
  {
    if opts != [] {
      JoinedFits(opts[..|opts| - 1]);
    }
  }

  lemma {:induction false} WithoutFits(opts: seq<string>, opt: string)
    ensures Weight(Without(opts, opt)) <= Weight(opts)
  {
    if opts != [] {
      var front, last := opts[..|opts| - 1], opts[|opts| - 1];
      WithoutFits(front, opt);
      assert (Without(front, opt) + [last])[..|Without(front, opt)|] == Without(front, opt);
      assert Without(front, opt) + [] == Without(front, opt);
    }
  }

  lemma {:induction false} SplitFits(s: string)
    ensures Weight(Split(s, ",")) <= |s| + 1
    decreases |s|
  {
    var i := FirstSeparator(s, ",");
    if i == |s| {
      assert [s][..0] == [];
    } else {
      SplitFits(SkipSeparators(s[i..], ","));
      WeightFront(s[..i], Split(SkipSeparators(s[i..], ","), ","));
    }
  }

  /** The options read from s are together not longer than s. */
  lemma JoinedIsShort(s: string, dropped: string)
    ensures |Joined(Without(Split(s, ","), dropped))| <= |s|
  {
    JoinedFits(Without(Split(s, ","), dropped));
    WithoutFits(Split(s, ","), dropped);
    SplitFits(s);
  }

  // ----- the mount options in a line of fstab

  function FormatMount(opts: seq<string>): string {
    if opts == [] then "defaults" else Joined(opts)
  }

  /** Reading a column of fstab: it is decoded once with the columns and once more with the options. */
  function ReadMount(column: string): seq<string> {
    Without(Split(Decoded(Decoded(column, FSTAB_TABLE), FSTAB_TABLE), ","), "defaults")
  }

  /** The other columns: specification, mount point and type in front, dump and check number behind. */
  datatype FstabColumns = FstabColumns(front: seq<Cell>, gap: string, dump: Cell, pass: string)
  {
    ghost predicate Valid() {
      && |front| == 3 && (forall i :: 0 <= i < 3 ==> front[i].Valid())
      && gap != "" && Blank(gap)
      && dump.Valid() && IsNumber(dump.text) && Word(pass)
    }

    function Tail(): string {
      gap + Row([dump], pass)
    }
  }

  predicate IsNumber(s: string) {
    s != "" && forall i :: 0 <= i < |s| ==> IsDigit(s[i]) || s[i] == '-'
  }

  /** The line of an entry. */
  function FstabLine(columns: FstabColumns, options: string): string {
    Row(columns.front, options + columns.Tail())
  }

  /** The options read from a line; none if it is a comment or has too few or too many columns. */
  function ReadFstabLine(line: string): Option<seq<string>> {
    if IsComment(line) then None else MountColumn(Fields(line))
  }

  function MountColumn(fields: seq<string>): Option<seq<string>> {
    if 4 <= |fields| <= 6 then Some(ReadMount(fields[3])) else None
  }

  /** What encode makes of the specification and of the mount point are words. */
  lemma {:induction false} EncodedIsWord(s: string)
    ensures Clean(Encoded(s, FSTAB_TABLE[..3]), BREAKS)
    ensures s != "" ==> Word(Encoded(s, FSTAB_TABLE[..3]))
  {
    if s != "" {
      EncodedIsWord(s[1..]);
      EscapedIsWord(s[0]);
    }
  }

  lemma EscapedIsWord(c: char)
    ensures Word(Escaped(c, FSTAB_TABLE[..3]))
  {
    FstabTableIsProper();
    BreaksAreEscaped();
    EscapedIsWordIn(c, FSTAB_TABLE[..3]);
  }

  lemma BreaksAreEscaped()
    ensures |FSTAB_TABLE| == 5
    ensures FSTAB_TABLE[0].plain == '\t' && FSTAB_TABLE[1].plain == '\n' && FSTAB_TABLE[2].plain == ' '
  {
  }

  lemma EscapedIsWordIn(c: char, table: seq<Escape>)
    requires |table| == 3 && table[0].plain == '\t' && table[1].plain == '\n' && table[2].plain == ' '
    requires forall k :: 0 <= k < |table| ==> table[k].Valid()
    ensures Word(Escaped(c, table))
  {
    if c != '\\' && Find(table, c) >= 0 {
      CodeIsWord(table[Find(table, c)]);
    }
  }

  lemma CodeIsWord(e: Escape)
    requires e.Valid()
    ensures Word(e.code)
  {
  }

  /** The comment marker is not escaped. */
  lemma MarkerStays(s: string, table: seq<Escape>)
    requires s != "" && forall k :: 0 <= k < |table| ==> table[k].Valid() && table[k].plain != '#'
    ensures Encoded(s, table) != "" && (Encoded(s, table)[0] == '#' <==> s[0] == '#')
  {
    assert Escaped(s[0], table) != "" && (Escaped(s[0], table)[0] == '#' <==> s[0] == '#');
  }

  lemma FstabLineFound(columns: FstabColumns, options: string)
    returns (words: seq<string>, found: seq<string>)
    requires columns.Valid()
    ensures |words| == 3
    ensures ReadFstabLine(FstabLine(columns, options)) ==
      if columns.front[0].text[0] == '#' then None else MountColumn(words + found)
    ensures Word(options) ==> found == [options, columns.dump.text, columns.pass]
    ensures !Word(options) ==> Damaged(options, found, [columns.dump.text, columns.pass])
  {
    words, found := Words(columns.front), Pieces(options + columns.Tail());
    FieldsOfRow(columns.front, options + columns.Tail());
    RowIsComment(columns.front, options + columns.Tail());
    PiecesOfTail(columns);
    if Word(options) {
      WordInFront(options, columns.Tail());
    } else {
      BrokenText(options, columns.Tail());
    }
  }

  lemma PiecesOfTail(columns: FstabColumns)
    requires columns.Valid()
    ensures Pieces(columns.Tail()) == [columns.dump.text, columns.pass]
    ensures columns.Tail() != "" && columns.Tail()[0] in BLANKS
  {
    GapInFront(columns.gap, Row([columns.dump], columns.pass));
    PiecesOfRow([columns.dump], columns.pass);
    WordAlone(columns.pass);
  }

  /**
   * Mount options, which are written without escaping, come back from a line of fstab exactly if the line does
   * not start with the comment marker and there are none, or they are plain and their text is a word that has
   * nothing in it that decode replaces.
   */
  lemma MountOptionsRoundTrip(opts: seq<string>, columns: FstabColumns)
    requires columns.Valid()
    ensures ReadFstabLine(FstabLine(columns, FormatMount(opts))) == Some(opts) <==>
      && columns.front[0].text[0] != '#'
      && (opts == [] || (Plain(opts, "defaults") && Word(Joined(opts)) && NothingEscaped(Joined(opts), FSTAB_TABLE)))
  {
    var words, found := FstabLineFound(columns, FormatMount(opts));
    MountColumnFound(opts, words, found, columns.dump.text, columns.pass);
  }

  lemma MountColumnFound(opts: seq<string>, words: seq<string>, found: seq<string>, dump: string, pass: string)
    requires |words| == 3 && IsNumber(dump) && Word(dump)
    requires Word(FormatMount(opts)) ==> found == [FormatMount(opts), dump, pass]
    requires !Word(FormatMount(opts)) ==> Damaged(FormatMount(opts), found, [dump, pass])
    ensures MountColumn(words + found) == Some(opts) <==>
      opts == [] || (Plain(opts, "defaults") && Word(Joined(opts)) && NothingEscaped(Joined(opts), FSTAB_TABLE))
  {
    assert Word("defaults");
    if Word(FormatMount(opts)) {
      MountColumnRoundTrip(opts);
    } else if found != [] {
      ReadInPlace(opts, found[0], dump);
    }
  }

  /** The options column alone. */
  lemma MountColumnRoundTrip(opts: seq<string>)
    ensures ReadMount(FormatMount(opts)) == opts <==>
      opts == [] || (Plain(opts, "defaults") && NothingEscaped(Joined(opts), FSTAB_TABLE))
  {
    var s := FormatMount(opts);
    ReadMountIsShort(s);
    if opts == [] {
      DefaultsAreDropped();
    } else {
      SurvivesExactly(opts, "defaults");
    }
  }

  lemma ReadMountIsShort(s: string)
    ensures |Joined(ReadMount(s))| <= |s|
    ensures NothingEscaped(s, FSTAB_TABLE) ==> ReadMount(s) == Without(Split(s, ","), "defaults")
    ensures !NothingEscaped(s, FSTAB_TABLE) ==> |Joined(ReadMount(s))| < |s|
  {
    var t := Decoded(s, FSTAB_TABLE);
    FstabTableIsProper();
    DecodingShortens(s, FSTAB_TABLE);
    DecodingShortens(t, FSTAB_TABLE);
    JoinedIsShort(Decoded(t, FSTAB_TABLE), "defaults");
  }

  /** Options whose text is not a word are not what is read in their place. */
  lemma ReadInPlace(opts: seq<string>, x: string, n: string)
    requires !Word(FormatMount(opts)) && IsNumber(n) && Word(n)
    requires |x| < |FormatMount(opts)| || x == n
    ensures ReadMount(x) != opts
  {
    assert Word("defaults");
    if x == n {
      NumberIsOption(n);
      AloneIsItself(n);
    } else {
      ReadMountIsShort(x);
    }
  }

  lemma NumberIsOption(n: string)
    requires IsNumber(n) && Word(n)
    ensures ReadMount(n) == [n]
  {
    FstabTableIsProper();
    NoBackslashNoChange(n, FSTAB_TABLE);
    OneOptionRead(n, n, n);
  }

  /** Blanks in an option: the line gets a seventh column, and reading it fails. */
  lemma BlankExample(x: string, gap: string, y: string, columns: FstabColumns)
    requires columns.Valid() && Word(x) && gap != "" && Blank(gap) && Word(y)
    ensures ReadFstabLine(FstabLine(columns, FormatMount([x + gap + y]))) == None
  {
    var opt := x + gap + y;
    AloneIsItself(opt);
    TwoWords(x, gap, y, columns.Tail());
    PiecesOfTail(columns);
    FieldsOfRow(columns.front, opt + columns.Tail());
    SevenColumns(Words(columns.front), x, y, columns.dump.text, columns.pass);
  }

  lemma SevenColumns(words: seq<string>, x: string, y: string, dump: string, pass: string)
    requires |words| == 3
    ensures MountColumn(words + ([x] + ([y] + [dump, pass]))) == None
  {
  }

  lemma AloneIsItself(opt: string)
    ensures FormatMount([opt]) == Joined([opt]) == opt
  {
    assert [opt][..0] == [] && Joined([]) == "";
  }

  /** A specification that starts with the comment marker: the entry is written as a comment and not read back. */
  lemma MountCommentExample(columns: FstabColumns, opts: seq<string>)
    requires columns.Valid() && columns.front[0].text == "#srv:/x"
    ensures ReadFstabLine(FstabLine(columns, FormatMount(opts))) == None
  {
    RowIsComment(columns.front, FormatMount(opts) + columns.Tail());
  }

  /** Reading decodes twice: what an escaped backslash leaves behind is decoded, too. */
  lemma DecodedTwiceExample()
    ensures ReadMount("\\134040") == [" "]
  {
    FstabOrderExample();
    FstabCodes();
    OneOptionRead("\\134040", "\\040", " ");
  }

  lemma OneOptionRead(column: string, once: string, opt: string)
    requires Decoded(column, FSTAB_TABLE) == once && Decoded(once, FSTAB_TABLE) == opt
    requires Clean(opt, ",") && opt != "defaults"
    ensures ReadMount(column) == [opt]
  {
    SplitAlone(opt, ",");
    WithoutAbsent([opt], "defaults");
  }

  lemma TwoWords(x: string, gap: string, y: string, tail: string)
    requires Word(x) && gap != "" && Blank(gap) && Word(y) && tail != "" && tail[0] in BLANKS
    ensures Pieces(x + gap + y + tail) == [x] + ([y] + Pieces(tail))
  {
    var text := y + tail;
    assert x + gap + y + tail == x + gap + text;
    var found := SecondWord(y, tail);
    FirstWord(x, gap, text, found);
  }

  lemma SecondWord(y: string, tail: string) returns (found: seq<string>)
    requires Word(y) && tail != "" && tail[0] in BLANKS
    ensures found == Pieces(y + tail) == [y] + Pieces(tail)
  {
    WordInFront(y, tail);
    found := [y] + Pieces(tail);
  }

  lemma FirstWord(x: string, gap: string, text: string, found: seq<string>)
    requires Word(x) && gap != "" && Blank(gap) && found == Pieces(text)
    ensures Pieces(x + gap + text) == [x] + found
  {
    CellInFront(Cell(x, gap), text);
  }

  lemma DefaultsAreDropped()
    ensures ReadMount("defaults") == []
  {
    FstabTableIsProper();
    NoBackslashNoChange("defaults", FSTAB_TABLE);
    SplitAlone("defaults", ",");
    DroppedAlone("defaults");
  }

  lemma DroppedAlone(opt: string)
    ensures Without([opt], opt) == []
  {
    assert [opt][..0] == [];
  }

  lemma {:induction false} NothingToReplace(s: string, pat: string, rep: string)
    requires pat != "" && pat[0] !in s
    ensures ReplaceAll(s, pat, rep) == s
  {
    if s != "" {
      NothingToReplace(s[1..], pat, rep);
    }
  }

  lemma {:induction false} NoBackslashNoChange(s: string, table: seq<Escape>)
    requires '\\' !in s && forall k :: 0 <= k < |table| ==> table[k].Valid()
    ensures Decoded(s, table) == s
    decreases |table|
  {
    if table == [] {
      NothingToReplace(s, "\\\\", "\\");
    } else {
      NothingToReplace(s, table[0].code, [table[0].plain]);
      NoBackslashNoChange(s, table[1..]);
    }
  }

  // ----- the options in a line of crypttab

  /** The other columns; the password may be missing. */
  datatype CryptColumns = CryptColumns(device: Cell, block: Cell, password: string, gap: string)
  {
    ghost predicate Valid() {
      device.Valid() && block.Valid() && (password == "" || Word(password)) && gap != "" && Blank(gap)
    }

    function Password(): Cell {
      Cell(if password == "" then "none" else password, gap)
    }
  }

  /** The line of an entry: columns at the end that say nothing are left out. */
  function CryptLine(columns: CryptColumns, opts: seq<string>): string {
    if opts != [] then Row([columns.device, columns.block, columns.Password()], Joined(opts))
    else if columns.password != "" then Row([columns.device, columns.block], columns.password)
    else Row([columns.device], columns.block.text)
  }

  /** The options read from a line that is not a comment: without a fourth column none. */
  function ReadCryptLine(line: string): Option<seq<string>> {
    if IsComment(line) then None else CryptColumn(Fields(line))
  }

  function CryptColumn(fields: seq<string>): Option<seq<string>> {
    if !(2 <= |fields| <= 4) then None
    else Some(if |fields| == 4 then Without(Split(fields[3], ","), "none") else [])
  }

  lemma CryptLineFound(columns: CryptColumns, opts: seq<string>) returns (words: seq<string>, found: seq<string>)
    requires columns.Valid()
    ensures ReadCryptLine(CryptLine(columns, opts)) ==
      if columns.device.text[0] == '#' then None else CryptColumn(words + found)
    ensures opts == [] ==> 2 <= |words| <= 3 && found == []
    ensures opts != [] ==> |words| == 3
    ensures opts != [] && Word(Joined(opts)) ==> found == [Joined(opts)]
    ensures opts != [] && !Word(Joined(opts)) ==> Damaged(Joined(opts), found, [])
  {
    var cells, rest := CryptCells(columns, opts);
    FieldsOfRow(cells, rest);
    RowIsComment(cells, rest);
    if opts == [] {
      WordAlone(rest);
      words, found := Words(cells) + [rest], [];
      assert words + found == words;
    } else {
      words, found := Words(cells), Pieces(rest);
      TextAlone(rest);
    }
  }

  lemma CryptCells(columns: CryptColumns, opts: seq<string>) returns (cells: seq<Cell>, rest: string)
    requires columns.Valid()
    ensures CryptLine(columns, opts) == Row(cells, rest)
    ensures cells != [] && cells[0] == columns.device && forall i :: 0 <= i < |cells| ==> cells[i].Valid()
    ensures opts == [] ==> |cells| <= 2 && Word(rest)
    ensures opts != [] ==> |cells| == 3 && rest == Joined(opts)
  {
    assert Word("none");
    if opts != [] {
      cells, rest := [columns.device, columns.block, columns.Password()], Joined(opts);
    } else if columns.password != "" {
      cells, rest := [columns.device, columns.block], columns.password;
    } else {
      cells, rest := [columns.device], columns.block.text;
    }
  }

  lemma TextAlone(s: string)
    ensures if Word(s) then Pieces(s) == [s] else Damaged(s, Pieces(s), [])
  {
    if Word(s) {
      WordAlone(s);
    } else {
      BrokenText(s, "");
      NoPieces("");
      assert s + "" == s;
    }
  }

  lemma WordAlone(x: string)
    requires Word(x)
    ensures Pieces(x) == [x]
  {
    WordInFront(x, "");
    NoPieces("");
    assert x + "" == x;
  }

  /**
   * The options come back from a line of crypttab exactly if the line does not start with the comment marker and
   * there are none, in which case nothing is written, or they are plain and their text is a word.
   */
  lemma CryptOptionsRoundTrip(opts: seq<string>, columns: CryptColumns)
    requires columns.Valid()
    ensures ReadCryptLine(CryptLine(columns, opts)) == Some(opts) <==>
      columns.device.text[0] != '#' && (opts == [] || (Plain(opts, "none") && Word(Joined(opts))))
  {
    var words, found := CryptLineFound(columns, opts);
    CryptColumnFound(opts, words, found);
  }

  lemma CryptColumnFound(opts: seq<string>, words: seq<string>, found: seq<string>)
    requires if opts == [] then 2 <= |words| <= 3 && found == [] else |words| == 3
    requires opts != [] && Word(Joined(opts)) ==> found == [Joined(opts)]
    requires opts != [] && !Word(Joined(opts)) ==> Damaged(Joined(opts), found, [])
    ensures CryptColumn(words + found) == Some(opts) <==> opts == [] || (Plain(opts, "none") && Word(Joined(opts)))
  {
    if opts != [] && Word(Joined(opts)) {
      SurvivesExactly(opts, "none");
    } else if opts != [] && found != [] {
      ShorterIsOther(opts, found[0], "none");
    }
  }

  lemma ShorterIsOther(opts: seq<string>, x: string, dropped: string)
    requires |x| < |Joined(opts)|
    ensures Without(Split(x, ","), dropped) != opts
  {
    JoinedIsShort(x, dropped);
  }

  /** A name that starts with the comment marker: the entry is written as a comment and not read back. */
  lemma CommentExample(columns: CryptColumns, opts: seq<string>)
    requires columns.Valid() && columns.device.text == "#cr"
    ensures ReadCryptLine(CryptLine(columns, opts)) == None
  {
    var words, found := CryptLineFound(columns, opts);
  }

  /** An empty option is taken for no option at all. */
  lemma EmptyOptionExample(columns: CryptColumns)
    requires columns.Valid()
    ensures ReadCryptLine(CryptLine(columns, [""])) == if columns.device.text[0] == '#' then None else Some([])
  {
    assert [""][..0] == [] && Joined([""]) == "";
    var cells, rest := CryptCells(columns, [""]);
    FieldsOfRow(cells, rest);
    RowIsComment(cells, rest);
    NoPieces("");
  }

  // ----- the mutable list

  class MountOpts {

    var opts: seq<string>

    constructor (opts: seq<string>)
      ensures this.opts == Without(opts, "defaults")
    {
      this.opts := opts;
      new;
      Remove("defaults");
    }

    /** Removes every occurrence and nothing else. */
    method Remove(opt: string)
      modifies this
      ensures opts == Without(old(opts), opt)
      ensures IsRest(old(opts), {opt}, opts) && opt !in opts
    {
      WithoutIsRest(opts, opt);
      RestMembers(opts, {opt}, Without(opts, opt), opt);
      opts := Without(opts, opt);
    }

    method Append(opt: string)
      modifies this
      ensures opts == old(opts) + [opt]
    {
      opts := opts + [opt];
    }

    method Format() returns (result: string)
      ensures result == FormatMount(opts)
    {
      if opts == [] {
        return "defaults";
      }
      result := "";
      for i := 0 to |opts|
        invariant result == Joined(opts[..i])
      {
        assert opts[..i + 1][..i] == opts[..i];
        if result != "" {
          result := result + ",";
        }
        result := result + opts[i];
      }
      assert opts[..|opts|] == opts;
    }

    /** Replaces the options by those in the string, which is decoded first. */
    method Parse(optString: string)
      modifies this
      ensures opts == Without(Split(Decoded(optString, FSTAB_TABLE), ","), "defaults")
    {
      var decoded := FstabDecode(optString);
      opts := Split(decoded, ",");
      Remove("defaults");
    }
  }
}
