/** The converter of get_ris_bas.py: it reads a table of per-element
    exponents (one row per line, `#` marks a comment) and writes a basis-set
    file made of a `$DATA` header, one S block (and, in p-function mode, a P
    block) per row, and an `$END` trailer. The input lines and the flag are
    parameters; the output file is the text a run writes into it. */
module RisBas {
  import opened Text

  // ---------------------------------------------------------------------
  // The -p/--pfunc flag and the output file name
  // ---------------------------------------------------------------------

  datatype Result<T> = Ok(value: T) | Err(msg: string)

  /** Spellings of true and of false, compared after lower-casing. */
  const TruthyWords: seq<string> := ["yes", "true", "t", "y", "1"]
  const FalsyWords: seq<string> := ["no", "false", "f", "n", "0"]

  /** Message of the ArgumentTypeError raised for any other value. */
  const UnsupportedValue := "Unsupported value encountered."

  /** The two possible output names. */
  const PlainOutput := "ris.bas"
  const PfuncOutput := "ris+p.bas"

  /** `str2bool`: the flag's value, or the argument error. */
  function Str2Bool(s: string): (r: Result<bool>)
    ensures r == Ok(true) <==> Lower(s) in TruthyWords
    ensures r == Ok(false) <==> Lower(s) in FalsyWords
    ensures r.Err? <==> Lower(s) !in TruthyWords && Lower(s) !in FalsyWords
    ensures r.Err? ==> r.msg == UnsupportedValue
  {
    if Lower(s) in TruthyWords then Ok(true)
    else if Lower(s) in FalsyWords then Ok(false)
    else Err(UnsupportedValue)
  }

  /** No spelling is both true and false, so the order of the two tests in
      `str2bool` does not matter. */
  lemma SpellingsDisjoint(w: string)
    ensures !(w in TruthyWords && w in FalsyWords)
  {
  }

  lemma AllSpellingsLowercase(w: string)
    requires w in TruthyWords || w in FalsyWords
    ensures Lower(w) == w
  {
    assert w in {"yes", "true", "t", "y", "1", "no", "false", "f", "n", "0"};
    assert forall i :: 0 <= i < |w| ==> 'a' <= w[i] <= 'z' || w[i] == '0' || w[i] == '1';
    LowerOfLowercase(w);
  }

  /** The accepted spellings, stated without `Lower`: the flag is true exactly
      for a case variant of yes/true/t/y/1, false exactly for a case variant of
      no/false/f/n/0, and an error for everything else. */
  lemma Str2BoolSpellings(s: string)
    ensures Str2Bool(s) == Ok(true) <==> exists w :: w in TruthyWords && SameIgnoringCase(s, w)
    ensures Str2Bool(s) == Ok(false) <==> exists w :: w in FalsyWords && SameIgnoringCase(s, w)
    ensures Str2Bool(s).Err? <==>
      forall w :: w in TruthyWords + FalsyWords ==> !SameIgnoringCase(s, w)
  {
    forall w | w in TruthyWords || w in FalsyWords
      ensures Lower(s) == w <==> SameIgnoringCase(s, w)
    {
      AllSpellingsLowercase(w);
      LowerEqualIff(s, w);
    }
  }

  /** `str2bool` ignores the case of ASCII letters. */
  lemma Str2BoolIgnoresCase(s: string, t: string)
    requires SameIgnoringCase(s, t)
    ensures Str2Bool(s) == Str2Bool(t)
  {
    LowerEqualIff(s, t);
  }

  /** The output file name is chosen by the flag alone. */
  function OutputFilename(pfunc: bool): (name: string)
    ensures name == PlainOutput <==> !pfunc
    ensures name == PfuncOutput <==> pfunc
  {
    if !pfunc then PlainOutput else PfuncOutput
  }

  /** Only the two fixed names can occur, and each names one mode. */
  lemma OutputFilenameInjective(a: bool, b: bool)
    ensures OutputFilename(a) in {PlainOutput, PfuncOutput}
    ensures OutputFilename(a) == OutputFilename(b) ==> a == b
  {
  }

  // ---------------------------------------------------------------------
  // Reading one input line
  // ---------------------------------------------------------------------

  /** The two fields of a row that the converter uses. */
  datatype Record = Record(symbol: string, theta: string)

  /** What the loop makes of a line: skipped, a row, or an index error on
      `parts[1]`. */
  datatype Line = Comment | Data(record: Record) | Malformed

  predicate IsComment(line: string) {
    |line| > 0 && line[0] == '#'
  }

  /** A record the converter can produce: a lower-case symbol and a theta,
      both single whitespace-free tokens. */
  predicate ValidRecord(rec: Record) {
    IsWord(rec.symbol) && IsWord(rec.theta) &&
    forall i :: 0 <= i < |rec.symbol| ==> !IsUpper(rec.symbol[i])
  }

  /** Lines 31-36: skip a comment; otherwise split on whitespace and take the
      second token, lower-cased, as the symbol and the last token as theta. */
  function Parse(line: string): (r: Line)
    ensures r.Comment? <==> IsComment(line)
    ensures r.Malformed? <==> !IsComment(line) && |Split(line)| < 2
    ensures r.Data? ==> ValidRecord(r.record)
  {
    if IsComment(line) then Comment
    else
      var parts := Split(line);
      if |parts| < 2 then Malformed
      else
        LowerKeepsWord(parts[1]);
        Data(Record(Lower(parts[1]), parts[|parts| - 1]))
  }

  /** A row written as tokens separated by runs of whitespace, with
      whitespace around them, yields its second token lower-cased and its last
      token verbatim. */
  lemma ParseRow(ws: seq<string>, gaps: seq<string>, lead: string, trail: string)
    requires AllWords(ws) && |ws| >= 2 && |gaps| == |ws| - 1 && Separators(gaps)
    requires AllSpace(lead) && AllSpace(trail)
    requires !IsComment(lead + JoinWith(ws, gaps) + trail)
    ensures Parse(lead + JoinWith(ws, gaps) + trail) == Data(Record(Lower(ws[1]), ws[|ws| - 1]))
  {
    var row := JoinWith(ws, gaps);
    var line, body := lead + row + trail, row + trail;
    AppendAssoc(lead, row, trail);
    SplitSkipsSpace(lead, body);
    SplitJoinWith(ws, gaps, trail);
    DataLineOf(line, ws);
  }

  /** A non-comment line with at least two tokens is a row. */
  lemma DataLineOf(line: string, ws: seq<string>)
    requires !IsComment(line) && Split(line) == ws && |ws| >= 2
    ensures Parse(line) == Data(Record(Lower(ws[1]), ws[|ws| - 1]))
  {
  }

  /** A line of whitespace only (an empty line, "\n", "   \n") fails. */
  lemma BlankLineMalformed(line: string)
    requires AllSpace(line)
    ensures Parse(line) == Malformed
  {
    BlankHasNoTokens(line);
    if |line| > 0 {
      assert IsSpace(line[0]);
    }
  }

  /** A line holding one token fails too. */
  lemma OneTokenMalformed(w: string, lead: string, trail: string)
    requires IsWord(w) && !IsComment(lead + w + trail)
    requires AllSpace(lead) && AllSpace(trail)
    ensures Parse(lead + w + trail) == Malformed
  {
    var line := lead + w + trail;
    AppendAssoc(lead, w, trail);
    SplitSkipsSpace(lead, w + trail);
    SplitWord(w, trail);
    BlankHasNoTokens(trail);
    assert Split(line) == [w];
  }

  /** The symbol comes from the second column, the theta from the last: on a
      row of only two columns, such as `H  12.34`, both come from the second
      one, so the row's first column is never read. */
  lemma TwoColumnRow(a: string, gap: string, b: string, trail: string)
    requires IsWord(a) && IsWord(b) && a[0] != '#'
    requires AllSpace(gap) && |gap| > 0 && AllSpace(trail)
    ensures Parse(a + gap + b + trail) == Data(Record(Lower(b), b))
  {
    var rest := b + trail;
    SplitWord(b, trail);
    BlankHasNoTokens(trail);
    SplitSkipsSpace(gap, rest);
    assert IsSpace((gap + rest)[0]);
    SplitWord(a, gap + rest);
    AppendNestRight(a, gap, b, trail);
    var line := a + gap + b + trail;
    assert line[0] == a[0];
    DataLineOf(line, [a, b]);
  }

  // ---------------------------------------------------------------------
  // One output block
  // ---------------------------------------------------------------------

  /** The shell headers of an S and of a P entry, as lines of the output. */
  const SEntry := "S   1"
  const PEntry := "P   1"

  /** The contraction line of an orbital entry (lines 40 and 43), without its newline. */
  function ThetaLine(theta: string): string {
    "1         " + theta + "             1.0000000"
  }

  /** The argument of the `write` calls on lines 40 and 43. */
  function ThetaWrite(theta: string): string {
    ThetaLine(theta) + "\n"
  }

  /** Line 41: a P entry is written in p-function mode for every element but hydrogen. */
  predicate HasP(rec: Record, pfunc: bool) {
    pfunc && rec.symbol != "h"
  }

  /** Lines 38-45: the text written for one row, one `write` argument at a time. */
  function Block(rec: Record, pfunc: bool): string {
    if HasP(rec, pfunc) then
      (rec.symbol + "\n") + "S   1\n" + ThetaWrite(rec.theta) + "P   1\n" + ThetaWrite(rec.theta) + "\n"
    else
      (rec.symbol + "\n") + "S   1\n" + ThetaWrite(rec.theta) + "\n"
  }

  /** The same block read as lines of the output file. */
  function BlockLines(rec: Record, pfunc: bool): seq<string> {
    [rec.symbol, SEntry, ThetaLine(rec.theta)] +
    (if HasP(rec, pfunc) then [PEntry, ThetaLine(rec.theta)] else []) +
    [""]
  }

  lemma JoinFourLines(a: string, b: string, c: string)
    ensures JoinLines([a, b, c, ""]) == (a + "\n") + (b + "\n") + (c + "\n") + "\n"
  {
    JoinLinesCons(a, [b, c, ""]);
    JoinLinesCons(b, [c, ""]);
    JoinLinesCons(c, [""]);
    JoinLinesCons("", []);
    assert [a, b, c, ""] == [a] + [b, c, ""];
    assert [b, c, ""] == [b] + [c, ""];
    assert [c, ""] == [c] + [""];
    assert [""] == [""] + [];
  }

  lemma JoinSixLines(a: string, b: string, c: string, d: string, e: string)
    ensures JoinLines([a, b, c, d, e, ""]) ==
      (a + "\n") + (b + "\n") + (c + "\n") + (d + "\n") + (e + "\n") + "\n"
  {
    JoinLinesCons(a, [b, c, d, e, ""]);
    JoinLinesCons(b, [c, d, e, ""]);
    assert [a, b, c, d, e, ""] == [a] + [b, c, d, e, ""];
    assert [b, c, d, e, ""] == [b] + [c, d, e, ""];
    JoinFourLines(c, d, e);
  }

  /** The writes of lines 38-45 are the block's lines, each ended by a newline. */
  lemma BlockIsLines(rec: Record, pfunc: bool)
    ensures Block(rec, pfunc) == JoinLines(BlockLines(rec, pfunc))
  {
    var t := ThetaLine(rec.theta);
    assert SEntry + "\n" == "S   1\n" && PEntry + "\n" == "P   1\n";
    if HasP(rec, pfunc) {
      assert BlockLines(rec, pfunc) == [rec.symbol, SEntry, t, PEntry, t, ""];
      JoinSixLines(rec.symbol, SEntry, t, PEntry, t);
    } else {
      assert BlockLines(rec, pfunc) == [rec.symbol, SEntry, t, ""];
      JoinFourLines(rec.symbol, SEntry, t);
    }
  }

  /** Appending a block is appending the arguments of its `write` calls one by one. */
  lemma AppendBlock(w: string, rec: Record, pfunc: bool)
    ensures HasP(rec, pfunc) ==> (w + Block(rec, pfunc) ==
      w + (rec.symbol + "\n") + "S   1\n" + ThetaWrite(rec.theta) + "P   1\n" + ThetaWrite(rec.theta) + "\n")
    ensures !HasP(rec, pfunc) ==> (w + Block(rec, pfunc) ==
      w + (rec.symbol + "\n") + "S   1\n" + ThetaWrite(rec.theta) + "\n")
  {
    var s, t := rec.symbol + "\n", ThetaWrite(rec.theta);
    AppendFourPieces(w, s, "S   1\n", t, "\n");
    AppendSixPieces(w, s, "S   1\n", t, "P   1\n", t, "\n");
  }

  lemma BlockLinesNoNewline(rec: Record, pfunc: bool)
    requires ValidRecord(rec)
    ensures forall i :: 0 <= i < |BlockLines(rec, pfunc)| ==> NoNewline(BlockLines(rec, pfunc)[i])
  {
    WordHasNoNewline(rec.symbol);
    WordHasNoNewline(rec.theta);
  }

  /** The block's lines in each of the two modes. */
  lemma BlockLinesCases(rec: Record, pfunc: bool)
    ensures HasP(rec, pfunc) ==>
      BlockLines(rec, pfunc) == [rec.symbol, SEntry, ThetaLine(rec.theta), PEntry, ThetaLine(rec.theta), ""]
    ensures !HasP(rec, pfunc) ==>
      BlockLines(rec, pfunc) == [rec.symbol, SEntry, ThetaLine(rec.theta), ""]
  {
  }

  /** Neither the symbol line nor the theta line can be mistaken for an
      entry header or for the blank separator. */
  lemma BlockLinesDistinct(rec: Record)
    requires ValidRecord(rec)
    ensures rec.symbol != "" && rec.symbol != SEntry && rec.symbol != PEntry
    ensures ThetaLine(rec.theta) != "" && ThetaLine(rec.theta) != SEntry && ThetaLine(rec.theta) != PEntry
  {
    var t := ThetaLine(rec.theta);
    assert t[0] == '1' && t[0] != PEntry[0] && t[0] != SEntry[0];
    assert IsSpace(PEntry[1]) && IsSpace(SEntry[1]);
    if |rec.symbol| > 1 {
      assert !IsSpace(rec.symbol[1]);
    }
  }

  /** What a reader of the output finds in a block: the symbol on its own
      line, then `S   1` and the theta line; then `P   1` and an identical
      theta line exactly when the flag is set and the symbol is not `h`. */
  lemma BlockShape(rec: Record, pfunc: bool)
    requires ValidRecord(rec)
    ensures var ls := BlockLines(rec, pfunc);
      && ls[0] == rec.symbol && ls[1] == SEntry && ls[2] == ThetaLine(rec.theta)
      && (PEntry in ls <==> pfunc && rec.symbol != "h")
      && (PEntry in ls ==> |ls| == 6 && ls[3] == PEntry && ls[4] == ls[2])
      && (PEntry !in ls ==> |ls| == 4)
  {
    BlockLinesCases(rec, pfunc);
    BlockLinesDistinct(rec);
  }

  /** The layout of `BlockLines` over arbitrary lines: one blank line, at the end. */
  lemma SeparatedLines(sym: string, s: string, t: string, p: string, hasP: bool)
    requires |sym| > 0 && |s| > 0 && |t| > 0 && |p| > 0
    requires s != sym && s != t && s != p && p != sym && p != t
    ensures var ls := [sym, s, t] + (if hasP then [p, t] else []) + [""];
      && multiset(ls)[s] == 1
      && multiset(ls)[p] == (if hasP then 1 else 0)
      && ls[|ls| - 1] == ""
      && (forall i :: 0 <= i < |ls| - 1 ==> |ls[i]| > 0)
  {
    var mid := if hasP then [p, t] else [];
    var ls := [sym, s, t] + mid + [""];
    assert s !in mid + [""];
    assert multiset(ls) == multiset([sym, s, t]) + multiset(mid + [""]);
    assert multiset(mid + [""]) == multiset(mid) + multiset([""]);
    forall i | 0 <= i < |ls| - 1 ensures |ls[i]| > 0 {
      if i >= 3 {
        assert ls[i] == mid[i - 3];
      }
    }
  }

  /** A block has exactly one `S   1` entry, exactly one `P   1` entry when
      it has one at all, and its one blank line is its last. */
  lemma BlockSeparator(rec: Record, pfunc: bool)
    requires ValidRecord(rec)
    ensures var ls := BlockLines(rec, pfunc);
      && multiset(ls)[SEntry] == 1
      && multiset(ls)[PEntry] == (if HasP(rec, pfunc) then 1 else 0)
      && ls[|ls| - 1] == ""
      && (forall i :: 0 <= i < |ls| - 1 ==> |ls[i]| > 0)
  {
    BlockLinesDistinct(rec);
    SeparatedLines(rec.symbol, SEntry, ThetaLine(rec.theta), PEntry, HasP(rec, pfunc));
  }

  /** The block split into output lines: the block's lines and nothing else
      (the final piece is what follows the blank line's newline). */
  lemma BlockReadBack(rec: Record, pfunc: bool)
    requires ValidRecord(rec)
    ensures SplitLines(Block(rec, pfunc)) == BlockLines(rec, pfunc) + [""]
  {
    BlockIsLines(rec, pfunc);
    BlockLinesNoNewline(rec, pfunc);
    assert Block(rec, pfunc) == JoinLines(BlockLines(rec, pfunc)) + "";
    SplitJoinLines(BlockLines(rec, pfunc), "");
  }

  // ---------------------------------------------------------------------
  // The whole output
  // ---------------------------------------------------------------------

  const Header := "$DATA\n\n"
  const Trailer := "$END"

  /** A line the loop gets past: a comment or a row with at least two tokens. */
  predicate WellFormed(line: string) {
    !Parse(line).Malformed?
  }

  predicate AllWellFormed(lines: seq<string>) {
    forall i :: 0 <= i < |lines| ==> WellFormed(lines[i])
  }

  /** What one input line contributes to the output: its block, or nothing
      for a comment. The run stops at a malformed line (see `Convert`), so
      that line contributes nothing either. */
  function Emit(line: string, pfunc: bool): string {
    match Parse(line)
    case Data(rec) => Block(rec, pfunc)
    case _ => ""
  }

  /** The text written between header and trailer: each line's contribution, in input order. */
  function Body(lines: seq<string>, pfunc: bool): string {
    if lines == [] then "" else Emit(lines[0], pfunc) + Body(lines[1..], pfunc)
  }

  /** The body of concatenated inputs is the concatenation of their bodies. */
  lemma {:induction false} BodyAppend(a: seq<string>, b: seq<string>, pfunc: bool)
    ensures Body(a + b, pfunc) == Body(a, pfunc) + Body(b, pfunc)
    decreases |a|
  {
    if a == [] {
      assert a + b == b;
    } else {
      var e := Emit(a[0], pfunc);
      assert (a + b)[0] == a[0];
      assert (a + b)[1..] == a[1..] + b;
      assert Body(a + b, pfunc) == e + Body(a[1..] + b, pfunc);
      BodyAppend(a[1..], b, pfunc);
      AppendAssoc(e, Body(a[1..], pfunc), Body(b, pfunc));
    }
  }

  lemma BodySnoc(lines: seq<string>, line: string, pfunc: bool)
    ensures Body(lines + [line], pfunc) == Body(lines, pfunc) + Emit(line, pfunc)
  {
    assert Body([line], pfunc) == Emit(line, pfunc) + Body([], pfunc);
    BodyAppend(lines, [line], pfunc);
  }

  /** The data lines, in input order: the lines the loop does not skip. */
  function DataLines(lines: seq<string>): (r: seq<string>)
    ensures forall i :: 0 <= i < |r| ==> !IsComment(r[i])
    ensures forall l :: l in r <==> l in lines && !IsComment(l)
    ensures |r| <= |lines|
  {
    if lines == [] then []
    else if IsComment(lines[0]) then DataLines(lines[1..])
    else [lines[0]] + DataLines(lines[1..])
  }

  /** `DataLines` keeps every non-comment line as often as it occurs and drops every comment. */
  lemma {:induction false} DataLinesCount(lines: seq<string>)
    ensures forall l :: multiset(DataLines(lines))[l] == if IsComment(l) then 0 else multiset(lines)[l]
    decreases |lines|
  {
    if lines != [] {
      DataLinesCount(lines[1..]);
      assert lines == [lines[0]] + lines[1..];
      assert multiset(lines) == multiset([lines[0]]) + multiset(lines[1..]);
      if !IsComment(lines[0]) {
        assert multiset(DataLines(lines)) == multiset([lines[0]]) + multiset(DataLines(lines[1..]));
      }
    }
  }

  /** `DataLines` keeps the input order: it works line by line. */
  lemma {:induction false} DataLinesAppend(a: seq<string>, b: seq<string>)
    ensures DataLines(a + b) == DataLines(a) + DataLines(b)
    decreases |a|
  {
    if a == [] {
      assert a + b == b;
    } else {
      assert (a + b)[0] == a[0];
      assert (a + b)[1..] == a[1..] + b;
      DataLinesAppend(a[1..], b);
      if !IsComment(a[0]) {
        assert [a[0]] + (DataLines(a[1..]) + DataLines(b)) == [a[0]] + DataLines(a[1..]) + DataLines(b);
      }
    }
  }

  /** Comment lines contribute nothing: the body is that of the data lines alone. */
  lemma {:induction false} BodySkipsComments(lines: seq<string>, pfunc: bool)
    ensures Body(lines, pfunc) == Body(DataLines(lines), pfunc)
    decreases |lines|
  {
    if lines != [] {
      BodySkipsComments(lines[1..], pfunc);
      if !IsComment(lines[0]) {
        var d := DataLines(lines);
        assert d == [lines[0]] + DataLines(lines[1..]);
        assert d[0] == lines[0] && d[1..] == DataLines(lines[1..]);
      }
    }
  }

  /** The body read as output lines: each data line's block lines, in order. */
  function BodyLines(lines: seq<string>, pfunc: bool): seq<string> {
    if lines == [] then []
    else
      var rest := BodyLines(lines[1..], pfunc);
      match Parse(lines[0])
      case Data(rec) => BlockLines(rec, pfunc) + rest
      case _ => rest
  }

  lemma {:induction false} BodyIsLines(lines: seq<string>, pfunc: bool)
    ensures Body(lines, pfunc) == JoinLines(BodyLines(lines, pfunc))
    ensures forall i :: 0 <= i < |BodyLines(lines, pfunc)| ==> NoNewline(BodyLines(lines, pfunc)[i])
    decreases |lines|
  {
    if lines != [] {
      BodyIsLines(lines[1..], pfunc);
      match Parse(lines[0])
      case Data(rec) =>
        BlockIsLines(rec, pfunc);
        BlockLinesNoNewline(rec, pfunc);
        var bl, rest := BlockLines(rec, pfunc), BodyLines(lines[1..], pfunc);
        JoinLinesAppend(bl, rest);
        forall i | 0 <= i < |bl + rest| ensures NoNewline((bl + rest)[i]) {
          if i < |bl| { assert (bl + rest)[i] == bl[i]; } else { assert (bl + rest)[i] == rest[i - |bl|]; }
        }
      case _ =>
    }
  }

  /** There is exactly one `S   1` entry per data line. */
  lemma {:induction false} SEntryPerDataLine(lines: seq<string>, pfunc: bool)
    requires AllWellFormed(lines)
    ensures multiset(BodyLines(lines, pfunc))[SEntry] == |DataLines(lines)|
    decreases |lines|
  {
    if lines != [] {
      assert WellFormed(lines[0]);
      assert AllWellFormed(lines[1..]) by {
        forall i | 0 <= i < |lines| - 1 ensures WellFormed(lines[1..][i]) {
          assert lines[1..][i] == lines[i + 1];
        }
      }
      SEntryPerDataLine(lines[1..], pfunc);
      match Parse(lines[0])
      case Data(rec) =>
        BlockSeparator(rec, pfunc);
      case _ =>
    }
  }

  /** Without the flag no block has a `P   1` entry. */
  lemma {:induction false} NoPEntryWithoutFlag(lines: seq<string>)
    ensures PEntry !in BodyLines(lines, false)
    decreases |lines|
  {
    if lines != [] {
      NoPEntryWithoutFlag(lines[1..]);
      match Parse(lines[0])
      case Data(rec) =>
        BlockShape(rec, false);
      case _ =>
    }
  }

  /** What the run leaves in the output file: the finished text, or, when
      line `line` (0-based) has fewer than two tokens, the text written before
      the index error ended the run (no trailer). */
  datatype Outcome = Completed(text: string) | Failed(line: nat, partial: string)

  /** Index of the first line the loop fails on, or |lines| if there is none. */
  function FirstMalformed(lines: seq<string>): (k: nat)
    ensures k <= |lines|
    ensures forall i :: 0 <= i < k ==> WellFormed(lines[i])
    ensures k < |lines| ==> !WellFormed(lines[k])
  {
    if lines == [] || !WellFormed(lines[0]) then 0 else 1 + FirstMalformed(lines[1..])
  }

  /** The three facts of `FirstMalformed`'s contract determine it. */
  lemma FirstMalformedIs(lines: seq<string>, k: nat)
    requires k <= |lines|
    requires forall i :: 0 <= i < k ==> WellFormed(lines[i])
    requires k < |lines| ==> !WellFormed(lines[k])
    ensures FirstMalformed(lines) == k
  {
  }

  lemma FirstMalformedAppend(a: seq<string>, b: seq<string>)
    requires AllWellFormed(a)
    ensures FirstMalformed(a + b) == |a| + FirstMalformed(b)
  {
    var ab, k := a + b, FirstMalformed(b);
    assert forall i :: 0 <= i < |a| ==> ab[i] == a[i];
    assert forall i :: 0 <= i < |b| ==> ab[|a| + i] == b[i];
    FirstMalformedIs(ab, |a| + k);
  }

  /** Lines 28-47 as a value: header, the body, trailer; or the failure at the
      first malformed line, with the header and the blocks of the lines before it. */
  function Convert(lines: seq<string>, pfunc: bool): (r: Outcome)
    ensures r.Completed? <==> AllWellFormed(lines)
    ensures r.Completed? ==>
      |r.text| >= |Header| + |Trailer| &&
      r.text[..|Header|] == Header && r.text[|r.text| - |Trailer|..] == Trailer
    ensures r.Failed? ==>
      r.line < |lines| && !WellFormed(lines[r.line]) &&
      (forall i :: 0 <= i < r.line ==> WellFormed(lines[i])) &&
      |r.partial| >= |Header| && r.partial[..|Header|] == Header
  {
    var k := FirstMalformed(lines);
    if k < |lines| then Failed(k, Header + Body(lines[..k], pfunc))
    else Completed(Header + Body(lines, pfunc) + Trailer)
  }

  lemma HeaderIsLines()
    ensures JoinLines(["$DATA", ""]) == Header
  {
    JoinLinesCons("$DATA", [""]);
    JoinLinesCons("", []);
    assert ["$DATA", ""] == ["$DATA"] + [""] && [""] == [""] + [];
  }

  lemma EnvelopeNoNewline(body: seq<string>)
    requires forall i :: 0 <= i < |body| ==> NoNewline(body[i])
    ensures forall i :: 0 <= i < |["$DATA", ""] + body| ==> NoNewline((["$DATA", ""] + body)[i])
    ensures NoNewline(Trailer)
  {
    var ls := ["$DATA", ""] + body;
    forall i | 0 <= i < |ls| ensures NoNewline(ls[i]) {
      if i >= 2 { assert ls[i] == body[i - 2]; }
    }
  }

  /** The complete output read as lines: `$DATA`, a blank line, the blocks'
      lines in input order, and `$END` as the last line with nothing after it. */
  lemma ConvertReadBack(lines: seq<string>, pfunc: bool)
    requires AllWellFormed(lines)
    ensures SplitLines(Convert(lines, pfunc).text) == ["$DATA", ""] + BodyLines(lines, pfunc) + [Trailer]
  {
    var body := BodyLines(lines, pfunc);
    BodyIsLines(lines, pfunc);
    HeaderIsLines();
    JoinLinesAppend(["$DATA", ""], body);
    var ls := ["$DATA", ""] + body;
    FirstMalformedIs(lines, |lines|);
    assert Convert(lines, pfunc) == Completed(Header + Body(lines, pfunc) + Trailer);
    assert JoinLines(ls) == Header + Body(lines, pfunc);
    EnvelopeNoNewline(body);
    SplitJoinLines(ls, Trailer);
  }

  /** Converting `a + b` when both parts are well formed: the blocks of `a`
      followed by those of `b`, inside one envelope. */
  lemma ConvertAppend(a: seq<string>, b: seq<string>, pfunc: bool)
    requires AllWellFormed(a) && AllWellFormed(b)
    ensures Convert(a + b, pfunc) == Completed(Header + (Body(a, pfunc) + Body(b, pfunc)) + Trailer)
  {
    FirstMalformedIs(b, |b|);
    FirstMalformedAppend(a, b);
    BodyAppend(a, b, pfunc);
  }

  /** A malformed line in `b` stops the run after all of `a`'s blocks and
      those of `b` before it, and is reported at its position in `a + b`. */
  lemma ConvertAppendFails(a: seq<string>, b: seq<string>, pfunc: bool)
    requires AllWellFormed(a) && !AllWellFormed(b)
    ensures var k := FirstMalformed(b);
      Convert(a + b, pfunc) == Failed(|a| + k, Header + (Body(a, pfunc) + Body(b[..k], pfunc)))
  {
    var ab, k := a + b, FirstMalformed(b);
    var j := |a| + k;
    FirstMalformedAppend(a, b);
    assert ab[..j] == a + b[..k];
    BodyAppend(a, b[..k], pfunc);
    assert Convert(ab, pfunc) == Failed(j, Header + Body(ab[..j], pfunc));
  }

  // ---------------------------------------------------------------------
  // The writing loop
  // ---------------------------------------------------------------------

  /** One loop iteration on a comment line: nothing is written. */
  lemma CommentStep(lines: seq<string>, i: nat, pfunc: bool)
    requires i < |lines| && i <= FirstMalformed(lines) && IsComment(lines[i])
    ensures i + 1 <= FirstMalformed(lines)
    ensures Body(lines[..i + 1], pfunc) == Body(lines[..i], pfunc)
  {
    TakeOneMore(lines, i);
    BodySnoc(lines[..i], lines[i], pfunc);
    assert Body(lines[..i], pfunc) + "" == Body(lines[..i], pfunc);
  }

  /** One loop iteration on a data line: its block is appended. */
  lemma DataStep(lines: seq<string>, i: nat, pfunc: bool, w: string, parts: seq<string>, symbol: string, theta: string)
    requires i < |lines| && i <= FirstMalformed(lines)
    requires !IsComment(lines[i]) && parts == Split(lines[i]) && |parts| >= 2
    requires symbol == Lower(parts[1]) && theta == parts[|parts| - 1]
    requires w == Header + Body(lines[..i], pfunc)
    ensures i + 1 <= FirstMalformed(lines)
    ensures Header + Body(lines[..i + 1], pfunc) == w + Block(Record(symbol, theta), pfunc)
  {
    var line, done := lines[i], lines[..i];
    var rec := Record(symbol, theta);
    DataLineOf(line, parts);
    TakeOneMore(lines, i);
    BodySnoc(done, line, pfunc);
    var b := Body(done, pfunc);
    assert Emit(line, pfunc) == Block(rec, pfunc);
    assert Body(lines[..i + 1], pfunc) == b + Block(rec, pfunc);
    AppendAssoc(Header, b, Block(rec, pfunc));
  }

  /** The loop stops at the first line with fewer than two tokens. */
  lemma MalformedStep(lines: seq<string>, i: nat, pfunc: bool)
    requires i < |lines| && i <= FirstMalformed(lines)
    requires !IsComment(lines[i]) && |Split(lines[i])| < 2
    ensures FirstMalformed(lines) == i
    ensures Convert(lines, pfunc) == Failed(i, Header + Body(lines[..i], pfunc))
  {
  }

  /** Past the last line without a failure, the run completes. */
  lemma FinishStep(lines: seq<string>, pfunc: bool)
    requires |lines| <= FirstMalformed(lines)
    ensures Convert(lines, pfunc) == Completed(Header + Body(lines[..|lines|], pfunc) + Trailer)
  {
    assert lines[..|lines|] == lines;
  }

  /** Lines 38-45: the `write` calls for one row, appended to `written`. */
  method WriteBlock(written: string, symbol: string, theta: string, pfunc: bool) returns (out: string)
    ensures out == written + Block(Record(symbol, theta), pfunc)
  {
    out := written + (symbol + "\n");
    out := out + "S   1\n";
    out := out + ThetaWrite(theta);
    if pfunc && symbol != "h" {
      out := out + "P   1\n";
      out := out + ThetaWrite(theta);
    }
    out := out + "\n";
    AppendBlock(written, Record(symbol, theta), pfunc);
  }

  /** Lines 28-47: write the header, then for each line either skip it or
      write its block piece by piece, then the trailer. A line with fewer than
      two tokens stops the run with what has been written so far. */
  method WriteBasis(lines: seq<string>, pfunc: bool) returns (out: Outcome)
    ensures out == Convert(lines, pfunc)
  {
    var written := "$DATA\n\n";
    var i := 0;
    while i < |lines|
      invariant i <= FirstMalformed(lines)
      invariant written == Header + Body(lines[..i], pfunc)
    {
      var line := lines[i];
      if |line| > 0 && line[0] == '#' {
        CommentStep(lines, i, pfunc);
        i := i + 1;
        continue;
      }
      var parts := Split(line);
      if |parts| < 2 {
        MalformedStep(lines, i, pfunc);
        return Failed(i, written);
      }
      var symbol := Lower(parts[1]);
      var theta := parts[|parts| - 1];
      DataStep(lines, i, pfunc, written, parts, symbol, theta);
      written := WriteBlock(written, symbol, theta, pfunc);
      i := i + 1;
    }
    FinishStep(lines, pfunc);
    written := written + "$END";
    return Completed(written);
  }
}
