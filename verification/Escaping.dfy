/** Escaping in /etc/fstab and /etc/crypttab: successive global replacements. */
module Escaping {

  /** boost::replace_all: occurrences from left to right, without overlap. */
  function ReplaceAll(s: string, pat: string, rep: string): string
    requires pat != ""
  {
    if s == "" then ""
    else if pat <= s then rep + ReplaceAll(s[|pat|..], pat, rep)
    else [s[0]] + ReplaceAll(s[1..], pat, rep)
  }

  /** The number of positions of s at which pat occurs. */
  function Occurrences(s: string, pat: string): nat {
    if s == "" then 0 else (if pat <= s then 1 else 0) + Occurrences(s[1..], pat)
  }

  function Count(s: string, c: char): nat {
    if s == "" then 0 else (if s[0] == c then 1 else 0) + Count(s[1..], c)
  }

  lemma {:induction false} CountConcat(s: string, t: string, c: char)
    ensures Count(s + t, c) == Count(s, c) + Count(t, c)
  {
    if s == "" {
      assert s + t == t;
    } else {
      CountConcat(s[1..], t, c);
      assert (s + t)[1..] == s[1..] + t;
    }
  }

  lemma {:induction false} CountNone(s: string, c: char)
    ensures Count(s, c) == 0 <==> c !in s
  {
    if s != "" {
      CountNone(s[1..], c);
      assert s == [s[0]] + s[1..];
    }
  }

  predicate IsDigit(c: char) { '0' <= c <= '9' }

  /** An octal escape: a backslash and three digits standing for a character. */
  datatype Escape = Escape(code: string, plain: char)
  {
    predicate Valid() {
      |code| == 4 && code[0] == '\\' && IsDigit(code[1]) && IsDigit(code[2]) && IsDigit(code[3]) && !IsDigit(plain)
    }
  }

  ghost predicate Proper(table: seq<Escape>) {
    && (forall k :: 0 <= k < |table| ==> table[k].Valid())
    && (forall j, k :: 0 <= j < k < |table| ==> table[j].plain != table[k].plain && table[j].code != table[k].code)
  }

  /** A table that encode uses: the backslash itself is not in it. */
  ghost predicate Encodes(table: seq<Escape>) {
    Proper(table) && forall k :: 0 <= k < |table| ==> table[k].plain != '\\'
  }

  // ----- the two directions

  /** The position of the escape for c, or -1. */
  function Find(table: seq<Escape>, c: char): (k: int)
    ensures -1 <= k < |table|
    ensures k >= 0 ==> table[k].plain == c
    ensures k < 0 ==> forall j :: 0 <= j < |table| ==> table[j].plain != c
  {
    if table == [] then -1
    else if table[|table| - 1].plain == c then |table| - 1
    else Find(table[..|table| - 1], c)
  }

  /** One character: the backslash doubled, the characters of the table replaced by their codes. */
  function Escaped(c: char, table: seq<Escape>): string {
    if c == '\\' then "\\\\" else if Find(table, c) < 0 then [c] else table[Find(table, c)].code
  }

  /** Character by character: what encode is meant to produce. */
  function Encoded(s: string, table: seq<Escape>): string {
    if s == "" then "" else Escaped(s[0], table) + Encoded(s[1..], table)
  }

  /** What decode does: one replacement per escape of the table, then doubled backslashes. */
  function Decoded(s: string, table: seq<Escape>): string
    decreases |table|
  {
    if table == [] then ReplaceAll(s, "\\\\", "\\")
    else Decoded(if table[0].code != "" then ReplaceAll(s, table[0].code, [table[0].plain]) else s, table[1..])
  }

  // ----- replacing

  /** A stretch in which no occurrence can start is left alone. */
  lemma {:induction false} ReplaceSkips(u: string, v: string, pat: string, rep: string)
    requires pat != "" && forall i :: 0 <= i < |u| ==> u[i] != pat[0]
    ensures ReplaceAll(u + v, pat, rep) == u + ReplaceAll(v, pat, rep)
  {
    if u == "" {
      assert u + v == v;
    } else {
      ReplaceSkips(u[1..], v, pat, rep);
      assert (u + v)[1..] == u[1..] + v;
      assert (u + v)[0] == u[0];
    }
  }

  lemma {:induction false} OccurrencesSkip(u: string, v: string, pat: string)
    requires pat != "" && forall i :: 0 <= i < |u| ==> u[i] != pat[0]
    ensures Occurrences(u + v, pat) == Occurrences(v, pat)
  {
    if u == "" {
      assert u + v == v;
    } else {
      OccurrencesSkip(u[1..], v, pat);
      assert (u + v)[1..] == u[1..] + v;
      assert (u + v)[0] == u[0];
    }
  }

  /** Right after an occurrence of a code no other one starts before its end. */
  lemma CodeDoesNotOverlap(s: string, e: Escape)
    requires e.Valid() && e.code <= s
    ensures Occurrences(s, e.code) == 1 + Occurrences(s[4..], e.code)
  {
    assert s[1..] == e.code[1..] + s[4..];
    OccurrencesSkip(e.code[1..], s[4..], e.code);
  }

  /** One replacement step, as far as the number of x is concerned. */
  lemma ReplaceStep(s: string, pat: string, rep: string, x: char)
    requires pat != "" && s != ""
    ensures pat <= s ==> Count(ReplaceAll(s, pat, rep), x) == Count(rep, x) + Count(ReplaceAll(s[|pat|..], pat, rep), x)
    ensures pat <= s ==> Count(s, x) == Count(pat, x) + Count(s[|pat|..], x)
    ensures !(pat <= s) ==>
      Count(ReplaceAll(s, pat, rep), x) == Count([s[0]], x) + Count(ReplaceAll(s[1..], pat, rep), x)
    ensures Count(s, x) == Count([s[0]], x) + Count(s[1..], x)
  {
    if pat <= s {
      CountConcat(rep, ReplaceAll(s[|pat|..], pat, rep), x);
      CountConcat(pat, s[|pat|..], x);
      assert s == pat + s[|pat|..];
    } else {
      CountConcat([s[0]], ReplaceAll(s[1..], pat, rep), x);
    }
  }

  lemma {:induction false} ReplaceCounts(s: string, e: Escape, x: char)
    requires e.Valid() && x !in e.code
    ensures Count(ReplaceAll(s, e.code, [e.plain]), x) ==
            Count(s, x) + (if e.plain == x then Occurrences(s, e.code) else 0)
  {
    if s != "" {
      ReplaceStep(s, e.code, [e.plain], x);
      CountNone(e.code, x);
      if e.code <= s {
        CodeDoesNotOverlap(s, e);
        ReplaceCounts(s[4..], e, x);
      } else {
        ReplaceCounts(s[1..], e, x);
      }
    }
  }

  /** Digits only ever disappear, and do so wherever a code containing them occurs. */
  lemma {:induction false} ReplaceEatsDigits(s: string, e: Escape, x: char)
    requires e.Valid() && IsDigit(x)
    ensures Count(ReplaceAll(s, e.code, [e.plain]), x) <= Count(s, x)
    ensures x in e.code && Occurrences(s, e.code) > 0 ==> Count(ReplaceAll(s, e.code, [e.plain]), x) < Count(s, x)
  {
    if s != "" {
      ReplaceStep(s, e.code, [e.plain], x);
      CountNone(e.code, x);
      if e.code <= s {
        CodeDoesNotOverlap(s, e);
        ReplaceEatsDigits(s[4..], e, x);
      } else {
        ReplaceEatsDigits(s[1..], e, x);
      }
    }
  }

  lemma {:induction false} ReplaceNothing(s: string, pat: string, rep: string)
    requires pat != "" && Occurrences(s, pat) == 0
    ensures ReplaceAll(s, pat, rep) == s
  {
    if s != "" {
      ReplaceNothing(s[1..], pat, rep);
    }
  }

  /** Halving the backslashes changes the number of no other character. */
  lemma {:induction false} HalvingCounts(s: string, x: char)
    requires x != '\\'
    ensures Count(ReplaceAll(s, "\\\\", "\\"), x) == Count(s, x)
  {
    if s != "" {
      ReplaceStep(s, "\\\\", "\\", x);
      CountNone("\\\\", x);
      CountNone("\\", x);
      if "\\\\" <= s {
        HalvingCounts(s[2..], x);
      } else {
        HalvingCounts(s[1..], x);
      }
    }
  }

  // ----- encoded strings

  lemma FindFirst(table: seq<Escape>, c: char)
    requires Proper(table) && table != []
    ensures table[0].plain == c ==> Find(table, c) == 0 && Find(table[1..], c) < 0
    ensures table[0].plain != c ==> Find(table, c) == (if Find(table[1..], c) < 0 then -1 else Find(table[1..], c) + 1)
  {
    if Find(table, c) >= 1 {
      assert table[1..][Find(table, c) - 1].plain == c;
    }
    if Find(table[1..], c) >= 0 {
      assert table[Find(table[1..], c) + 1].plain == c;
    }
  }

  /** A digit in an encoded string right after the start, or after a doubled backslash, is a digit of the original. */
  lemma {:induction false} DigitsThrough(s: string, table: seq<Escape>, digits: string)
    requires Encodes(table) && forall i :: 0 <= i < |digits| ==> IsDigit(digits[i])
    ensures digits <= Encoded(s, table) <==> digits <= s
  {
    if digits != "" && s != "" {
      var h, rest := Escaped(s[0], table), Encoded(s[1..], table);
      if h == [s[0]] {
        DigitsThrough(s[1..], table, digits[1..]);
        assert digits == [digits[0]] + digits[1..];
        assert (h + rest)[1..] == rest;
        if digits <= h + rest {
          assert digits[1..] <= rest;
        }
        if digits <= s {
          assert digits[1..] <= s[1..];
        }
      } else {
        assert h[0] == '\\';
        assert (h + rest)[0] == '\\';
      }
    }
  }

  /** No code starts inside the doubled backslash, and one starts at its second half only if the original has one. */
  lemma DoubledBackslash(s: string, table: seq<Escape>, e: Escape)
    requires Encodes(table) && e.Valid() && s != "" && s[0] == '\\'
    ensures !(e.code <= "\\\\" + Encoded(s[1..], table))
    ensures e.code <= "\\" + Encoded(s[1..], table) <==> e.code <= s
  {
    var x := Encoded(s[1..], table);
    assert ("\\\\" + x)[1] == '\\';
    DigitsThrough(s[1..], table, e.code[1..]);
    assert e.code == "\\" + e.code[1..];
    assert ("\\" + x)[1..] == x;
    assert s == "\\" + s[1..];
    if e.code[1..] <= x {
      assert e.code <= "\\" + x;
    }
    if e.code <= "\\" + x {
      assert e.code[1..] <= ("\\" + x)[1..];
    }
    if e.code <= s {
      assert e.code[1..] <= s[1..];
    }
  }

  /** What stands for one character, as far as a given code is concerned. */
  lemma EscapedCases(c: char, table: seq<Escape>) returns (d: Escape)
    requires Encodes(table) && c != '\\' && Find(table, c) >= 0
    ensures d in table && d.Valid() && d.plain == c && Escaped(c, table) == d.code
    ensures d == table[Find(table, c)]
  {
    d := table[Find(table, c)];
  }

  /** A code followed by anything contains another code at its start only if the two are the same. */
  lemma CodeThen(d: Escape, x: string, e: Escape)
    requires d.Valid() && e.Valid()
    ensures e.code <= d.code + x <==> e.code == d.code
    ensures (d.code + x)[4..] == x
    ensures Occurrences(d.code + x, e.code) == (if d.code == e.code then 1 else 0) + Occurrences(x, e.code)
    ensures d.code != e.code ==>
      ReplaceAll(d.code + x, e.code, [e.plain]) == d.code + ReplaceAll(x, e.code, [e.plain])
  {
    var tail := d.code[1..];
    assert (d.code + x)[1..] == tail + x;
    OccurrencesSkip(tail, x, e.code);
    ReplaceSkips(tail, x, e.code, [e.plain]);
    assert (d.code + x)[..4] == d.code;
    assert d.code == [d.code[0]] + tail;
    assert [d.code[0]] + (tail + ReplaceAll(x, e.code, [e.plain])) == d.code + ReplaceAll(x, e.code, [e.plain]);
  }

  /** A doubled backslash in front contributes an occurrence exactly if the original has one there. */
  lemma DoubledThen(s: string, table: seq<Escape>, e: Escape)
    requires Encodes(table) && e.Valid() && s != "" && s[0] == '\\'
    ensures var x := Encoded(s[1..], table);
      Occurrences("\\\\" + x, e.code) == (if e.code <= s then 1 else 0) + Occurrences(x, e.code)
    ensures var x := Encoded(s[1..], table);
      !(e.code <= s) ==> ReplaceAll("\\\\" + x, e.code, [e.plain]) == "\\\\" + ReplaceAll(x, e.code, [e.plain])
  {
    var x := Encoded(s[1..], table);
    DoubledBackslash(s, table, e);
    assert ("\\\\" + x)[1..] == "\\" + x;
    assert ("\\" + x)[1..] == x;
  }

  /** The occurrences of a code in an encoded string: those of the original and one for every encoded character. */
  lemma {:induction false} OccurrencesEncoded(s: string, table: seq<Escape>, e: Escape)
    requires Encodes(table) && e.Valid()
    requires forall k :: 0 <= k < |table| ==> (table[k].code == e.code <==> table[k].plain == e.plain)
    ensures Occurrences(Encoded(s, table), e.code) ==
            Occurrences(s, e.code) + (if Find(table, e.plain) >= 0 then Count(s, e.plain) else 0)
  {
    if s != "" {
      var c, x := s[0], Encoded(s[1..], table);
      OccurrencesEncoded(s[1..], table, e);
      if c == '\\' {
        DoubledThen(s, table, e);
      } else if Find(table, c) < 0 {
        OccurrencesSkip([c], x, e.code);
      } else {
        var d := EscapedCases(c, table);
        CodeThen(d, x, e);
      }
    }
  }

  /** Encoded characters do not occur any more; the others, backslashes and digits aside, are as many as before. */
  lemma {:induction false} EncodedCounts(s: string, table: seq<Escape>, x: char)
    requires Encodes(table) && x != '\\' && !IsDigit(x)
    ensures Count(Encoded(s, table), x) == if Find(table, x) < 0 then Count(s, x) else 0
  {
    if s != "" {
      var c := s[0];
      EncodedCounts(s[1..], table, x);
      CountConcat(Escaped(c, table), Encoded(s[1..], table), x);
      if c == '\\' {
        CountNone("\\\\", x);
      } else if Find(table, c) >= 0 {
        var d := EscapedCases(c, table);
        CountNone(d.code, x);
      }
    }
  }

  /** Undoing the first escape, when the original does not contain its code. */
  lemma {:induction false} UndoFirst(s: string, table: seq<Escape>)
    requires Encodes(table) && table != [] && Occurrences(s, table[0].code) == 0
    ensures ReplaceAll(Encoded(s, table), table[0].code, [table[0].plain]) == Encoded(s, table[1..])
  {
    var e := table[0];
    if s != "" {
      var c, x := s[0], Encoded(s[1..], table);
      UndoFirst(s[1..], table);
      FindFirst(table, c);
      if c == '\\' {
        DoubledThen(s, table, e);
      } else if Find(table, c) < 0 {
        ReplaceSkips([c], x, e.code, [e.plain]);
      } else {
        var d := EscapedCases(c, table);
        CodeThen(d, x, e);
      }
    }
  }

  /** Without a table, encoding just doubles the backslashes, and halving them undoes it. */
  lemma {:induction false} UndoDoubling(s: string)
    ensures ReplaceAll(Encoded(s, []), "\\\\", "\\") == s
  {
    if s != "" {
      var x := Encoded(s[1..], []);
      UndoDoubling(s[1..]);
      if s[0] == '\\' {
        assert ("\\\\" + x)[2..] == x;
      } else {
        ReplaceSkips([s[0]], x, "\\\\", "\\");
      }
    }
  }

  // ----- the rest of decode cannot repair a wrong replacement

  lemma {:induction false} DecodedKeepsCount(s: string, table: seq<Escape>, x: char)
    requires Proper(table) && x != '\\' && !IsDigit(x) && forall k :: 0 <= k < |table| ==> table[k].plain != x
    ensures Count(Decoded(s, table), x) == Count(s, x)
    decreases |table|
  {
    if table == [] {
      HalvingCounts(s, x);
    } else {
      ReplaceCounts(s, table[0], x);
      DecodedKeepsCount(ReplaceAll(s, table[0].code, [table[0].plain]), table[1..], x);
    }
  }

  lemma {:induction false} DecodedEatsDigits(s: string, table: seq<Escape>, x: char)
    requires Proper(table) && IsDigit(x)
    ensures Count(Decoded(s, table), x) <= Count(s, x)
    decreases |table|
  {
    if table == [] {
      HalvingCounts(s, x);
    } else {
      ReplaceEatsDigits(s, table[0], x);
      DecodedEatsDigits(ReplaceAll(s, table[0].code, [table[0].plain]), table[1..], x);
    }
  }

  lemma {:induction false} DoubledDigits(s: string, x: char)
    requires x != '\\'
    ensures Count(Encoded(s, []), x) == Count(s, x)
  {
    if s != "" {
      DoubledDigits(s[1..], x);
      CountConcat(Escaped(s[0], []), Encoded(s[1..], []), x);
      CountNone("\\\\", x);
    }
  }

  lemma FirstAddsPlain(s: string, table: seq<Escape>, used: seq<Escape>)
    requires Proper(table) && table != [] && Encodes(used) && Occurrences(s, table[0].code) > 0
    requires used == [] || used[0] == table[0]
    requires table[0].plain != '\\'
    ensures var e := table[0];
      Count(ReplaceAll(Encoded(s, used), e.code, [e.plain]), e.plain) > Count(s, e.plain)
  {
    var e, t := table[0], Encoded(s, used);
    assert forall k :: 0 < k < |used| ==> used[0].code != used[k].code && used[0].plain != used[k].plain;
    OccurrencesEncoded(s, used, e);
    EncodedCounts(s, used, e.plain);
    if used != [] {
      FindFirst(used, e.plain);
    }
    ReplaceCounts(t, e, e.plain);
  }

  /** An occurrence of the first code that was there from the start becomes a character too many. */
  lemma BadCodeAddsPlain(s: string, table: seq<Escape>, used: seq<Escape>)
    requires Proper(table) && table != [] && Encodes(used) && Occurrences(s, table[0].code) > 0
    requires used == [] || used[0] == table[0]
    requires table[0].plain != '\\'
    ensures Decoded(Encoded(s, used), table) != s
  {
    var e := table[0];
    var first := ReplaceAll(Encoded(s, used), e.code, [e.plain]);
    FirstAddsPlain(s, table, used);
    DecodedKeepsCount(first, table[1..], e.plain);
    assert Decoded(Encoded(s, used), table) == Decoded(first, table[1..]);
  }

  /** An occurrence of the code for a backslash loses its digits. */
  lemma BadCodeLosesDigits(s: string, table: seq<Escape>)
    requires Proper(table) && table != [] && Occurrences(s, table[0].code) > 0
    ensures table[0].plain == '\\' ==> Decoded(Encoded(s, []), table) != s
  {
    var e, t := table[0], Encoded(s, []);
    var x := e.code[1];
    OccurrencesEncoded(s, [], e);
    ReplaceEatsDigits(t, e, x);
    DecodedEatsDigits(ReplaceAll(t, e.code, [e.plain]), table[1..], x);
    DoubledDigits(s, x);
  }

  /** If the code of the first escape occurs in the original, decoding does not give the original back. */
  lemma BadCodeIsLost(s: string, table: seq<Escape>, n: nat)
    requires Proper(table) && table != [] && n <= |table| && Encodes(table[..n]) && Occurrences(s, table[0].code) > 0
    ensures Decoded(Encoded(s, table[..n]), table) != s
  {
    if n > 0 {
      assert table[..n][0] == table[0];
      BadCodeAddsPlain(s, table, table[..n]);
    } else {
      assert table[..n] == [];
      if table[0].plain == '\\' {
        BadCodeLosesDigits(s, table);
      } else {
        BadCodeAddsPlain(s, table, []);
      }
    }
  }

  /** Which strings survive: exactly those that contain none of the codes decode looks for. */
  lemma {:induction false} RoundTripExactly(s: string, table: seq<Escape>, n: nat)
    requires Proper(table) && n <= |table| && Encodes(table[..n])
    ensures Decoded(Encoded(s, table[..n]), table) == s <==>
            forall k :: 0 <= k < |table| ==> Occurrences(s, table[k].code) == 0
    decreases |table|
  {
    if table == [] {
      UndoDoubling(s);
    } else if Occurrences(s, table[0].code) > 0 {
      BadCodeIsLost(s, table, n);
    } else {
      var m := if n == 0 then 0 else n - 1;
      if n == 0 {
        OccurrencesEncoded(s, [], table[0]);
        ReplaceNothing(Encoded(s, []), table[0].code, [table[0].plain]);
      } else {
        UndoFirst(s, table[..n]);
      }
      assert table[..n][if n == 0 then 0 else 1..] == table[1..][..m];
      RoundTripExactly(s, table[1..], m);
      assert forall k :: 1 <= k < |table| ==> table[k] == table[1..][k - 1];
    }
  }

  // ----- single codes

  /** A text that starts with the only place where pat could be. */
  lemma ReplaceFirst(s: string, t: string, pat: string, rep: string)
    requires |s| == |pat| > 0 && forall i :: 1 <= i < |s| ==> s[i] != pat[0]
    requires forall i :: 0 <= i < |t| ==> t[i] != pat[0]
    ensures ReplaceAll(s + t, pat, rep) == (if s == pat then rep else s) + t
  {
    ReplaceSkips(t, "", pat, rep);
    assert t + "" == t && (s + t)[|s|..] == t;
    if s == pat {
      assert pat <= s + t;
    } else {
      assert (s + t)[..|pat|] == s;
      assert (s + t)[1..] == s[1..] + t;
      ReplaceSkips(s[1..], t, pat, rep);
      assert [s[0]] + (s[1..] + t) == s + t;
    }
  }

  /** A backslash and three digits. */
  predicate IsCode(s: string) {
    |s| == 4 && s[0] == '\\' && IsDigit(s[1]) && IsDigit(s[2]) && IsDigit(s[3])
  }

  predicate OnlyDigits(t: string) {
    forall i :: 0 <= i < |t| ==> IsDigit(t[i])
  }

  /** A code that is not in the table is left alone. */
  lemma {:induction false} DecodesOther(s: string, t: string, table: seq<Escape>)
    requires IsCode(s) && OnlyDigits(t) && forall k :: 0 <= k < |table| ==> table[k].Valid() && table[k].code != s
    ensures Decoded(s + t, table) == s + t
    decreases |table|
  {
    if table == [] {
      assert s + t == s[..2] + (s[2..] + t);
      ReplaceFirst(s[..2], s[2..] + t, "\\\\", "\\");
    } else {
      ReplaceFirst(s, t, table[0].code, [table[0].plain]);
      DecodesOther(s, t, table[1..]);
    }
  }

  lemma {:induction false} ReplaceShort(s: string, pat: string, rep: string)
    requires |s| < |pat|
    ensures ReplaceAll(s, pat, rep) == s
  {
    if s != "" {
      ReplaceShort(s[1..], pat, rep);
    }
  }

  lemma {:induction false} DecodesOne(c: char, table: seq<Escape>)
    requires forall k :: 0 <= k < |table| ==> table[k].Valid()
    ensures Decoded([c], table) == [c]
    decreases |table|
  {
    if table == [] {
      ReplaceShort([c], "\\\\", "\\");
    } else {
      ReplaceShort([c], table[0].code, [table[0].plain]);
      DecodesOne(c, table[1..]);
    }
  }

  /** A code stands for its character. */
  lemma {:induction false} DecodesCode(table: seq<Escape>, k: nat)
    requires Proper(table) && k < |table|
    ensures Decoded(table[k].code, table) == [table[k].plain]
    decreases |table|
  {
    var s, e := table[k].code, table[0];
    ReplaceFirst(s, "", e.code, [e.plain]);
    assert s + "" == s && [e.plain] + "" == [e.plain];
    if k == 0 {
      DecodesOne(e.plain, table[1..]);
    } else {
      DecodesCode(table[1..], k - 1);
    }
  }

  /** The escapes before the one for the code at the start change nothing. */
  lemma {:induction false} DecodesSkip(table: seq<Escape>, j: nat, s: string, t: string)
    requires j <= |table| && IsCode(s) && OnlyDigits(t)
    requires forall k :: 0 <= k < j ==> table[k].Valid() && table[k].code != s
    ensures Decoded(s + t, table) == Decoded(s + t, table[j..])
    decreases j
  {
    if j > 0 {
      ReplaceFirst(s, t, table[0].code, [table[0].plain]);
      DecodesSkip(table[1..], j - 1, s, t);
      assert table[1..][j - 1..] == table[j..];
    }
  }

  /** The escape for the code at the start puts its character there. */
  lemma DecodesHere(table: seq<Escape>, t: string, text: string)
    requires table != [] && table[0].Valid() && OnlyDigits(t) && text == [table[0].plain] + t
    ensures Decoded(table[0].code + t, table) == Decoded(text, table[1..])
  {
    ReplaceFirst(table[0].code, t, table[0].code, [table[0].plain]);
  }

  /**
   * Codes are looked for in the order of the table: one that only comes up when another is replaced by a backslash is
   * found if and only if it is later in the table.
   */
  lemma DecodesInOrder(table: seq<Escape>, j: nat, k: nat)
    requires Proper(table) && j < |table| && k < |table| && j != k && table[j].plain == '\\'
    ensures Decoded(table[j].code + table[k].code[1..], table) == if k > j then [table[k].plain] else table[k].code
  {
    DecodesBackslash(table, j, table[k].code, table[j + 1..]);
    DecodesRest(table, j, k, table[j + 1..]);
  }

  lemma DecodesBackslash(table: seq<Escape>, j: nat, code: string, rest: seq<Escape>)
    requires Proper(table) && j < |table| && table[j].plain == '\\' && IsCode(code) && rest == table[j + 1..]
    ensures Decoded(table[j].code + code[1..], table) == Decoded(code, rest)
  {
    var t, here := code[1..], table[j..];
    DecodesSkip(table, j, table[j].code, t);
    assert here[1..] == rest && here[0] == table[j] && ['\\'] + t == code;
    DecodesHere(here, t, code);
  }

  lemma DecodesRest(table: seq<Escape>, j: nat, k: nat, rest: seq<Escape>)
    requires Proper(table) && j < |table| && k < |table| && j != k && rest == table[j + 1..]
    ensures Decoded(table[k].code, rest) == if k > j then [table[k].plain] else table[k].code
  {
    if k > j {
      assert rest[k - j - 1] == table[k];
      DecodesCode(rest, k - j - 1);
    } else {
      assert table[k].code + "" == table[k].code;
      DecodesOther(table[k].code, "", rest);
    }
  }

  // ----- encode and decode

  const FSTAB_TABLE := [
    Escape("\\011", '\t'), Escape("\\012", '\n'), Escape("\\040", ' '), Escape("\\134", '\\'), Escape("\\043", '#')]

  const CRYPTTAB_TABLE := [Escape("\\040", ' '), Escape("\\043", '#')]

  lemma {:induction false} EncodeBackslashes(s: string)
    ensures ReplaceAll(s, "\\", "\\\\") == Encoded(s, [])
  {
    if s != "" {
      EncodeBackslashes(s[1..]);
      assert s[0] == '\\' ==> "\\" <= s;
    }
  }

  /** One more escape in the table changes what stands for its character and nothing else. */
  lemma EscapedSnoc(c: char, table: seq<Escape>, e: Escape)
    requires Encodes(table + [e])
    ensures Escaped(c, table + [e]) == if c == e.plain then e.code else Escaped(c, table)
    ensures c == e.plain ==> Escaped(c, table) == [c]
    ensures c != e.plain ==> e.plain !in Escaped(c, table)
  {
    assert forall k :: 0 <= k < |table| ==> table[k] == (table + [e])[k];
    assert (table + [e])[|table|] == e;
    assert (table + [e])[..|table|] == table;
    var k := Find(table, c);
    if k >= 0 {
      assert table[k].Valid();
    }
  }

  /** Replacing one more plain character turns the encoding with a table into that with the extended table. */
  lemma {:induction false} EncodeNext(s: string, table: seq<Escape>, e: Escape)
    requires Encodes(table + [e])
    ensures ReplaceAll(Encoded(s, table), [e.plain], e.code) == Encoded(s, table + [e])
  {
    if s != "" {
      var c, x := s[0], Encoded(s[1..], table);
      EncodeNext(s[1..], table, e);
      EscapedSnoc(c, table, e);
      if c == e.plain {
        assert ([c] + x)[1..] == x;
      } else {
        ReplaceSkips(Escaped(c, table), x, [e.plain], e.code);
      }
    }
  }

  /** One step of encode, working through the table. */
  lemma EncodeStep(s: string, table: seq<Escape>, k: nat)
    requires k < |table| && Encodes(table)
    ensures ReplaceAll(Encoded(s, table[..k]), [table[k].plain], table[k].code) == Encoded(s, table[..k + 1])
  {
    assert table[..k + 1] == table[..k] + [table[k]];
    EncodeNext(s, table[..k], table[k]);
  }

  /** The steps of encode: backslashes first, then one replacement per escape. */
  function EncodeSteps(s: string, table: seq<Escape>): string {
    if table == [] then ReplaceAll(s, "\\", "\\\\")
    else
      var front, e := table[..|table| - 1], table[|table| - 1];
      ReplaceAll(EncodeSteps(s, front), [e.plain], e.code)
  }

  /** Step by step is the same as character by character. */
  lemma {:induction false} EncodeStepsCorrect(s: string, table: seq<Escape>)
    requires Encodes(table)
    ensures EncodeSteps(s, table) == Encoded(s, table)
  {
    if table == [] {
      EncodeBackslashes(s);
    } else {
      var front, last := table[..|table| - 1], table[|table| - 1];
      assert table == front + [last];
      EncodeStepsCorrect(s, front);
      EncodeNext(s, front, last);
    }
  }

  lemma ThreeSteps(s: string, a: Escape, b: Escape, c: Escape)
    ensures EncodeSteps(s, [a, b, c]) ==
      ReplaceAll(ReplaceAll(ReplaceAll(
        ReplaceAll(s, "\\", "\\\\"), [a.plain], a.code), [b.plain], b.code), [c.plain], c.code)
  {
    assert [a, b, c][..2] == [a, b] && [a, b][..1] == [a] && [a][..0] == [];
    assert EncodeSteps(s, [a, b]) == ReplaceAll(EncodeSteps(s, [a]), [b.plain], b.code);
  }

  method FstabEncode(unencoded: string) returns (tmp: string)
    ensures tmp == Encoded(unencoded, FSTAB_TABLE[..3])
  {
    ThreeSteps(unencoded, FSTAB_TABLE[0], FSTAB_TABLE[1], FSTAB_TABLE[2]);
    assert FSTAB_TABLE[..3] == [FSTAB_TABLE[0], FSTAB_TABLE[1], FSTAB_TABLE[2]];
    EncodeStepsCorrect(unencoded, FSTAB_TABLE[..3]);
    tmp := ReplaceAll(unencoded, "\\", "\\\\");
    tmp := ReplaceAll(tmp, "\t", "\\011");
    tmp := ReplaceAll(tmp, "\n", "\\012");
    tmp := ReplaceAll(tmp, " ", "\\040");
  }

  method FstabDecode(encoded: string) returns (tmp: string)
    ensures tmp == Decoded(encoded, FSTAB_TABLE)
  {
    tmp := ReplaceAll(encoded, "\\011", "\t");
    tmp := ReplaceAll(tmp, "\\012", "\n");
    tmp := ReplaceAll(tmp, "\\040", " ");
    tmp := ReplaceAll(tmp, "\\134", "\\");
    tmp := ReplaceAll(tmp, "\\043", "#");
    tmp := ReplaceAll(tmp, "\\\\", "\\");
  }

  method CrypttabEncode(unencoded: string) returns (tmp: string)
    ensures tmp == Encoded(unencoded, CRYPTTAB_TABLE[..1])
  {
    tmp := ReplaceAll(unencoded, "\\", "\\\\");
    EncodeBackslashes(unencoded);
    ghost var table := CRYPTTAB_TABLE[..1];
    assert table[..0] == [] && table[..1] == table;
    tmp := ReplaceAll(tmp, " ", "\\040");
    EncodeStep(unencoded, table, 0);
  }

  method CrypttabDecode(encoded: string) returns (tmp: string)
    ensures tmp == Decoded(encoded, CRYPTTAB_TABLE)
  {
    tmp := ReplaceAll(encoded, "\\040", " ");
    tmp := ReplaceAll(tmp, "\\043", "#");
    tmp := ReplaceAll(tmp, "\\\\", "\\");
  }

  /** s contains pat. */
  ghost predicate Contains(s: string, pat: string) {
    exists i :: 0 <= i <= |s| && pat <= s[i..]
  }

  lemma {:induction false} ContainsMeansOccurs(s: string, pat: string)
    requires pat != ""
    ensures Contains(s, pat) <==> Occurrences(s, pat) > 0
  {
    if s != "" {
      ContainsMeansOccurs(s[1..], pat);
      assert s[0..] == s;
      forall i | 0 <= i < |s| ensures s[1..][i..] == s[i + 1..] {
      }
      if Contains(s, pat) {
        var i :| 0 <= i <= |s| && pat <= s[i..];
        if i > 0 {
          assert pat <= s[1..][i - 1..];
        }
      }
      if Contains(s[1..], pat) {
        var i :| 0 <= i <= |s| - 1 && pat <= s[1..][i..];
        assert pat <= s[i + 1..];
      }
    }
  }

  /** A string comes back exactly if it contains none of the codes decode looks for. */
  lemma RoundTripContains(s: string, table: seq<Escape>, n: nat)
    requires Proper(table) && n <= |table| && Encodes(table[..n])
    ensures Decoded(Encoded(s, table[..n]), table) == s <==>
      forall k :: 0 <= k < |table| ==> !Contains(s, table[k].code)
  {
    RoundTripExactly(s, table, n);
    forall k | 0 <= k < |table| ensures Contains(s, table[k].code) <==> Occurrences(s, table[k].code) > 0 {
      ContainsMeansOccurs(s, table[k].code);
    }
  }

  lemma FstabTableIsProper()
    ensures Proper(FSTAB_TABLE) && Encodes(FSTAB_TABLE[..3]) && |FSTAB_TABLE| == 5
    ensures FSTAB_TABLE[0].code == "\\011" && FSTAB_TABLE[1].code == "\\012" && FSTAB_TABLE[2].code == "\\040"
    ensures FSTAB_TABLE[3].code == "\\134" && FSTAB_TABLE[4].code == "\\043"
  {
    var t := FSTAB_TABLE;
    assert t[0].code[3] == '1' && t[1].code[3] == '2' && t[2].code[3] == '0';
    assert t[3].code[3] == '4' && t[4].code[3] == '3';
  }

  /** What the codes of fstab stand for. */
  lemma FstabCodes()
    ensures Decoded("\\011", FSTAB_TABLE) == "\t" && Decoded("\\012", FSTAB_TABLE) == "\n"
    ensures Decoded("\\040", FSTAB_TABLE) == " " && Decoded("\\134", FSTAB_TABLE) == "\\"
    ensures Decoded("\\043", FSTAB_TABLE) == "#"
  {
    FstabTableIsProper();
    AllCodes(FSTAB_TABLE);
  }

  lemma AllCodes(table: seq<Escape>)
    requires Proper(table)
    ensures forall k :: 0 <= k < |table| ==> Decoded(table[k].code, table) == [table[k].plain]
  {
    forall k | 0 <= k < |table| ensures Decoded(table[k].code, table) == [table[k].plain] {
      DecodesCode(table, k);
    }
  }

  /** A code behind an escaped backslash: the number sign is looked for afterwards, the blank is not. */
  lemma FstabOrderExample()
    ensures Decoded("\\134043", FSTAB_TABLE) == "#" && Decoded("\\134040", FSTAB_TABLE) == "\\040"
  {
    FstabTableIsProper();
    BehindBackslash(FSTAB_TABLE);
  }

  lemma BehindBackslash(table: seq<Escape>)
    requires Proper(table) && |table| == 5 && table[2].code == "\\040"
    requires table[3].code == "\\134" && table[4].code == "\\043" && table[3].plain == '\\'
    ensures Decoded("\\134043", table) == [table[4].plain] && Decoded("\\134040", table) == "\\040"
  {
    DecodesInOrder(table, 3, 4);
    DecodesInOrder(table, 3, 2);
    assert "\\134" + "\\043"[1..] == "\\134043" && "\\134" + "\\040"[1..] == "\\134040";
  }

  /** What the codes of crypttab stand for. */
  lemma CrypttabCodes()
    ensures Decoded("\\040", CRYPTTAB_TABLE) == " " && Decoded("\\043", CRYPTTAB_TABLE) == "#"
  {
    var t := CRYPTTAB_TABLE;
    assert t[0].code == "\\040" && t[1].code == "\\043" && t[0].code[3] == '0' && t[1].code[3] == '3';
    AllCodes(t);
  }

  lemma FiveCodes(s: string, table: seq<Escape>)
    requires |table| == 5
    ensures (forall k :: 0 <= k < |table| ==> !Contains(s, table[k].code)) <==>
      !(Contains(s, table[0].code) || Contains(s, table[1].code) || Contains(s, table[2].code)
        || Contains(s, table[3].code) || Contains(s, table[4].code))
  {
  }

  /** fstab: five octal codes are looked for. */
  lemma FstabRoundTrip(s: string)
    ensures Decoded(Encoded(s, FSTAB_TABLE[..3]), FSTAB_TABLE) == s <==>
      !(Contains(s, "\\011") || Contains(s, "\\012") || Contains(s, "\\040")
        || Contains(s, "\\134") || Contains(s, "\\043"))
  {
    FstabTableIsProper();
    RoundTripContains(s, FSTAB_TABLE, 3);
    FiveCodes(s, FSTAB_TABLE);
  }

  /** crypttab: two octal codes are looked for. */
  lemma CrypttabRoundTrip(s: string)
    ensures Decoded(Encoded(s, CRYPTTAB_TABLE[..1]), CRYPTTAB_TABLE) == s <==>
      !(Contains(s, "\\040") || Contains(s, "\\043"))
  {
    RoundTripContains(s, CRYPTTAB_TABLE, 1);
    assert |CRYPTTAB_TABLE| == 2 && CRYPTTAB_TABLE[0].code == "\\040" && CRYPTTAB_TABLE[1].code == "\\043";
  }
}
