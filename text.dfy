/** Text primitives the converter relies on: Python's argument-less
    `str.split()` (split on runs of whitespace), `str.lower()` restricted to
    ASCII letters, and the view of a text as '\n'-separated lines. */
module Text {

  /** The characters Python's `str.isspace` accepts, which are exactly the
      separators of an argument-less `str.split()`. */
  predicate IsSpace(c: char) {
    ('\t' <= c <= '\r') || ('\U{001C}' <= c <= '\U{001F}') || c == ' ' ||
    c == '\U{0085}' || c == '\U{00A0}' || c == '\U{1680}' ||
    ('\U{2000}' <= c <= '\U{200A}') || c == '\U{2028}' || c == '\U{2029}' ||
    c == '\U{202F}' || c == '\U{205F}' || c == '\U{3000}'
  }

  /** Every character of `s` is whitespace (the empty string included). */
  predicate AllSpace(s: string) {
    forall i :: 0 <= i < |s| ==> IsSpace(s[i])
  }

  /** A token `str.split()` can produce: nonempty, without whitespace. */
  predicate IsWord(w: string) {
    |w| > 0 && forall i :: 0 <= i < |w| ==> !IsSpace(w[i])
  }

  predicate AllWords(ws: seq<string>) {
    forall i :: 0 <= i < |ws| ==> IsWord(ws[i])
  }

  /** Length of the longest whitespace-free prefix of `s`. */
  function WordEnd(s: string): (n: nat)
    ensures n <= |s|
    ensures forall i :: 0 <= i < n ==> !IsSpace(s[i])
    ensures n < |s| ==> IsSpace(s[n])
  {
    if s == [] || IsSpace(s[0]) then 0 else 1 + WordEnd(s[1..])
  }

  /** Python's `s.split()`: the maximal whitespace-free runs of `s`, in order;
      leading, trailing and repeated whitespace yields no empty token. */
  function Split(s: string): (r: seq<string>)
    ensures AllWords(r)
    decreases |s|
  {
    if s == [] then []
    else if IsSpace(s[0]) then Split(s[1..])
    else
      var n := WordEnd(s);
      [s[..n]] + Split(s[n..])
  }

  /** Whitespace before the text changes nothing in its tokens. */
  lemma {:induction false} SplitSkipsSpace(ws: string, s: string)
    requires AllSpace(ws)
    ensures Split(ws + s) == Split(s)
    decreases |ws|
  {
    if ws == [] {
      assert ws + s == s;
    } else {
      var text := ws + s;
      assert IsSpace(ws[0]) && text[0] == ws[0] && text[1..] == ws[1..] + s;
      SplitSkipsSpace(ws[1..], s);
    }
  }

  /** A text made only of whitespace (a blank line, "\n", "  \n") has no tokens. */
  lemma BlankHasNoTokens(s: string)
    requires AllSpace(s)
    ensures Split(s) == []
  {
    SplitSkipsSpace(s, []);
    assert s + [] == s;
  }

  lemma {:induction false} WordEndOfWord(w: string, s: string)
    requires forall i :: 0 <= i < |w| ==> !IsSpace(w[i])
    requires s == [] || IsSpace(s[0])
    ensures WordEnd(w + s) == |w|
    decreases |w|
  {
    if w != [] {
      assert (w + s)[1..] == w[1..] + s;
      WordEndOfWord(w[1..], s);
    }
  }

  /** A word followed by whitespace or by nothing is the first token. */
  lemma SplitWord(w: string, s: string)
    requires IsWord(w)
    requires s == [] || IsSpace(s[0])
    ensures Split(w + s) == [w] + Split(s)
  {
    WordEndOfWord(w, s);
    assert (w + s)[..|w|] == w;
    assert (w + s)[|w|..] == s;
  }

  /** What may stand between two columns of a row: nonempty runs of whitespace. */
  predicate Separators(gaps: seq<string>) {
    forall i :: 0 <= i < |gaps| ==> |gaps[i]| > 0 && AllSpace(gaps[i])
  }

  /** Words with `gaps[i]` between `ws[i]` and `ws[i + 1]`, as in an aligned
      table whose columns are separated by spaces or tabs. */
  function JoinWith(ws: seq<string>, gaps: seq<string>): string
    requires |ws| >= 1 && |gaps| == |ws| - 1
    decreases |ws|
  {
    if |ws| == 1 then ws[0] else ws[0] + gaps[0] + JoinWith(ws[1..], gaps[1..])
  }

  /** Splitting undoes joining: words separated by any whitespace runs, with
      any whitespace after them (such as the '\n' that `readlines` keeps),
      split back to the same words. */
  lemma {:induction false} SplitJoinWith(ws: seq<string>, gaps: seq<string>, trail: string)
    requires AllWords(ws) && |ws| >= 1 && |gaps| == |ws| - 1
    requires Separators(gaps) && AllSpace(trail)
    ensures Split(JoinWith(ws, gaps) + trail) == ws
    decreases |ws|
  {
    if |ws| == 1 {
      assert JoinWith(ws, gaps) + trail == ws[0] + trail;
      SplitWord(ws[0], trail);
      BlankHasNoTokens(trail);
      assert [ws[0]] + [] == ws;
    } else {
      var g, rest := gaps[0], JoinWith(ws[1..], gaps[1..]);
      var more := rest + trail;
      assert JoinWith(ws, gaps) == ws[0] + g + rest;
      AppendNestRight(ws[0], g, rest, trail);
      assert (g + more)[0] == g[0];
      SplitWord(ws[0], g + more);
      SplitSkipsSpace(g, more);
      SplitJoinWith(ws[1..], gaps[1..], trail);
      assert [ws[0]] + ws[1..] == ws;
    }
  }

  /** Python's `str.lower()` on ASCII letters; every other character is kept. */
  function LowerChar(c: char): char {
    if IsUpper(c) then (c as int + 32) as char else c
  }

  predicate IsUpper(c: char) {
    'A' <= c <= 'Z'
  }

  /** `s.lower()`, character by character. */
  function Lower(s: string): (r: string)
    ensures |r| == |s|
    ensures forall i :: 0 <= i < |s| ==> r[i] == LowerChar(s[i])
    ensures forall i :: 0 <= i < |r| ==> !IsUpper(r[i])
  {
    if s == [] then [] else [LowerChar(s[0])] + Lower(s[1..])
  }

  /** Lower-casing is idempotent. */
  lemma LowerIdempotent(s: string)
    ensures Lower(Lower(s)) == Lower(s)
  {
  }

  /** A text without upper-case letters is its own lower-case form. */
  lemma LowerOfLowercase(s: string)
    requires forall i :: 0 <= i < |s| ==> !IsUpper(s[i])
    ensures Lower(s) == s
  {
  }

  /** Lower-casing a token gives a token: no whitespace is created or removed. */
  lemma LowerKeepsWord(w: string)
    requires IsWord(w)
    ensures IsWord(Lower(w))
  {
  }

  /** `a` and `b` are the same character up to the case of an ASCII letter. */
  predicate SameCharIgnoringCase(a: char, b: char) {
    a == b ||
    (IsUpper(a) && b as int == a as int + 32) ||
    (IsUpper(b) && a as int == b as int + 32)
  }

  /** `s` and `t` are the same text up to the case of ASCII letters, stated
      without reference to `Lower`. */
  predicate SameIgnoringCase(s: string, t: string) {
    |s| == |t| && forall i :: 0 <= i < |s| ==> SameCharIgnoringCase(s[i], t[i])
  }

  lemma LowerCharEqualIff(a: char, b: char)
    ensures LowerChar(a) == LowerChar(b) <==> SameCharIgnoringCase(a, b)
  {
  }

  /** Two texts lower-case to the same text exactly when they differ only in
      the case of ASCII letters. */
  lemma LowerEqualIff(s: string, t: string)
    ensures Lower(s) == Lower(t) <==> SameIgnoringCase(s, t)
  {
    if Lower(s) == Lower(t) {
      forall i | 0 <= i < |s| ensures SameCharIgnoringCase(s[i], t[i]) {
        assert Lower(s)[i] == Lower(t)[i];
        LowerCharEqualIff(s[i], t[i]);
      }
    }
    if SameIgnoringCase(s, t) {
      forall i | 0 <= i < |s| ensures Lower(s)[i] == Lower(t)[i] {
        LowerCharEqualIff(s[i], t[i]);
      }
    }
  }

  /** Proof helpers: regroupings of string appends and of a growing prefix,
      each stated over variables only. */

  /** Appending `y` then `z` is appending `y + z`. */
  lemma AppendAssoc(x: string, y: string, z: string)
    ensures x + y + z == x + (y + z)
  {
  }

  /** Appending a text made of the four pieces `a`..`d` is appending them one by one. */
  lemma AppendFourPieces(w: string, a: string, b: string, c: string, d: string)
    ensures w + (a + b + c + d) == w + a + b + c + d
  {
  }

  /** Four pieces appended left to right, regrouped from the right. */
  lemma AppendNestRight(a: string, b: string, c: string, d: string)
    ensures a + b + c + d == a + (b + (c + d))
  {
  }

  /** Appending a text made of the six pieces `a`..`f` is appending them one by one. */
  lemma AppendSixPieces(w: string, a: string, b: string, c: string, d: string, e: string, f: string)
    ensures w + (a + b + c + d + e + f) == w + a + b + c + d + e + f
  {
  }

  /** A prefix one element longer is the prefix followed by that element. */
  lemma TakeOneMore<T>(s: seq<T>, i: nat)
    requires i < |s|
    ensures s[..i + 1] == s[..i] + [s[i]]
  {
  }

  /** Lines joined with a '\n' after each, as a sequence of `write("...\n")` calls produces. */
  function JoinLines(ls: seq<string>): string {
    if ls == [] then [] else ls[0] + "\n" + JoinLines(ls[1..])
  }

  lemma JoinLinesCons(l: string, ls: seq<string>)
    ensures JoinLines([l] + ls) == l + "\n" + JoinLines(ls)
  {
    assert ([l] + ls)[1..] == ls;
  }

  lemma {:induction false} JoinLinesAppend(a: seq<string>, b: seq<string>)
    ensures JoinLines(a + b) == JoinLines(a) + JoinLines(b)
    decreases |a|
  {
    if a == [] {
      assert a + b == b;
    } else {
      assert (a + b)[1..] == a[1..] + b;
      JoinLinesAppend(a[1..], b);
    }
  }

  /** Python's `s.split('\n')`: the pieces of `s` between newlines; always at
      least one piece, and a '\n' at the very end gives a final empty piece. */
  function SplitLines(s: string): (r: seq<string>)
    ensures |r| >= 1
  {
    if s == [] then [[]]
    else
      var rest := SplitLines(s[1..]);
      if s[0] == '\n' then [[]] + rest else [[s[0]] + rest[0]] + rest[1..]
  }

  predicate NoNewline(l: string) {
    forall i :: 0 <= i < |l| ==> l[i] != '\n'
  }

  lemma {:induction false} SplitLinesLast(t: string)
    requires NoNewline(t)
    ensures SplitLines(t) == [t]
    decreases |t|
  {
    if t != [] {
      SplitLinesLast(t[1..]);
      assert [t[0]] + t[1..] == t;
    }
  }

  lemma {:induction false} SplitLinesCons(l: string, s: string)
    requires NoNewline(l)
    ensures SplitLines(l + "\n" + s) == [l] + SplitLines(s)
    decreases |l|
  {
    if l == [] {
      assert l + "\n" + s == "\n" + s;
    } else {
      var text := l + "\n" + s;
      assert text[0] == l[0] && text[1..] == l[1..] + "\n" + s;
      SplitLinesCons(l[1..], s);
      assert [l[0]] + l[1..] == l;
    }
  }

  /** Reading the lines back: newline-free lines, each written with a '\n',
      followed by a newline-free tail, split into exactly those lines and that tail. */
  lemma {:induction false} SplitJoinLines(ls: seq<string>, tail: string)
    requires forall i :: 0 <= i < |ls| ==> NoNewline(ls[i])
    requires NoNewline(tail)
    ensures SplitLines(JoinLines(ls) + tail) == ls + [tail]
    decreases |ls|
  {
    if ls == [] {
      assert JoinLines(ls) + tail == tail;
      SplitLinesLast(tail);
    } else {
      assert JoinLines(ls) + tail == ls[0] + "\n" + (JoinLines(ls[1..]) + tail);
      SplitLinesCons(ls[0], JoinLines(ls[1..]) + tail);
      SplitJoinLines(ls[1..], tail);
    }
  }

  /** A token has no newline, since '\n' is whitespace. */
  lemma WordHasNoNewline(w: string)
    requires IsWord(w)
    ensures NoNewline(w)
  {
  }
}
