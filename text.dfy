/**
 * Python's string primitives as the normalization engine uses them:
 * str.strip(), str.split() and str.split("\n"), " ".join, str.replace on
 * single characters, str.lower(), and the accent stripping of remove_accents.
 */
module Text {

  /** Python's str.isspace(): the characters strip() and split() treat as whitespace. */
  predicate IsSpace(c: char) {
    c == ' ' || '\t' <= c <= '\r' || '\U{1C}' <= c <= '\U{1F}' || c == '\U{85}' || c == '\U{A0}'
    || c == '\U{1680}' || '\U{2000}' <= c <= '\U{200A}' || c == '\U{2028}' || c == '\U{2029}'
    || c == '\U{202F}' || c == '\U{205F}' || c == '\U{3000}'
  }

  predicate AllSpace(s: string) {
    forall i :: 0 <= i < |s| ==> IsSpace(s[i])
  }

  predicate NoSpace(s: string) {
    forall i :: 0 <= i < |s| ==> !IsSpace(s[i])
  }

  // ---------------------------------------------------------------- strip

  /** Number of whitespace characters at the front of s. */
  function LeadingSpaces(s: string): (k: nat)
    ensures k <= |s| && forall i :: 0 <= i < k ==> IsSpace(s[i])
    ensures k == |s| || !IsSpace(s[k])
  {
    if |s| > 0 && IsSpace(s[0]) then 1 + LeadingSpaces(s[1..])
    else 0
  }

  /** Index at which the whitespace at the end of s begins. */
  function TrailingStart(s: string): (k: nat)
    ensures k <= |s| && forall i :: k <= i < |s| ==> IsSpace(s[i])
    ensures k == 0 || !IsSpace(s[k - 1])
  {
    if |s| > 0 && IsSpace(s[|s| - 1]) then TrailingStart(s[..|s| - 1]) else |s|
  }

  /** Python's str.strip(): s without its leading and trailing whitespace. */
  function Strip(s: string): (r: string)
    ensures |r| <= |s|
    ensures r == [] || (!IsSpace(r[0]) && !IsSpace(r[|r| - 1]))
  {
    var t := s[LeadingSpaces(s)..];
    t[..TrailingStart(t)]
  }

  /** The leading-whitespace count is the only index with its defining property. */
  lemma LeadingSpacesIs(s: string, k: nat)
    requires k <= |s| && (forall i :: 0 <= i < k ==> IsSpace(s[i])) && (k == |s| || !IsSpace(s[k]))
    ensures LeadingSpaces(s) == k
  {
  }

  lemma TrailingStartIs(s: string, k: nat)
    requires k <= |s| && (forall i :: k <= i < |s| ==> IsSpace(s[i])) && (k == 0 || !IsSpace(s[k - 1]))
    ensures TrailingStart(s) == k
  {
  }

  /**
   * Strip keeps exactly the slice between a whitespace prefix and a
   * whitespace suffix whose ends are not whitespace.
   */
  lemma StripIs(s: string, a: nat, b: nat)
    requires a <= b <= |s|
    requires forall i :: 0 <= i < a ==> IsSpace(s[i])
    requires forall i :: b <= i < |s| ==> IsSpace(s[i])
    requires a == b || (!IsSpace(s[a]) && !IsSpace(s[b - 1]))
    ensures Strip(s) == s[a..b]
  {
    if a == b {
      LeadingSpacesIs(s, |s|);
    } else {
      LeadingSpacesIs(s, a);
      TrailingStartIs(s[a..], b - a);
    }
  }

  /** Whitespace around text whose ends are not whitespace is all strip() removes. */
  lemma StripPadded(pre: string, s: string, post: string)
    requires AllSpace(pre) && AllSpace(post)
    requires s != [] && !IsSpace(s[0]) && !IsSpace(s[|s| - 1])
    ensures Strip(pre + s + post) == s
  {
    var x := pre + s + post;
    var a, b := |pre|, |pre| + |s|;
    forall i | 0 <= i < a ensures IsSpace(x[i]) {
      assert x[i] == pre[i];
    }
    forall i | b <= i < |x| ensures IsSpace(x[i]) {
      assert x[i] == post[i - b];
    }
    assert x[a] == s[0] && x[b - 1] == s[|s| - 1];
    StripIs(x, a, b);
    assert x[a..b] == s;
  }

  /** strip() is idempotent. */
  lemma StripIdempotent(s: string)
    ensures Strip(Strip(s)) == Strip(s)
  {
    var r := Strip(s);
    StripIs(r, 0, |r|);
  }

  /** A string that neither starts nor ends with whitespace is its own strip(). */
  lemma StripNoOp(s: string)
    requires s == [] || (!IsSpace(s[0]) && !IsSpace(s[|s| - 1]))
    ensures Strip(s) == s
  {
    StripIs(s, 0, |s|);
  }

  // ---------------------------------------------------------------- split()

  /** Length of the run of non-whitespace characters that starts s. */
  function TokenLength(s: string): (k: nat)
    ensures k <= |s| && forall i :: 0 <= i < k ==> !IsSpace(s[i])
    ensures k == |s| || IsSpace(s[k])
  {
    if |s| > 0 && !IsSpace(s[0]) then 1 + TokenLength(s[1..]) else 0
  }

  lemma TokenLengthIs(s: string, k: nat)
    requires k <= |s| && (forall i :: 0 <= i < k ==> !IsSpace(s[i])) && (k == |s| || IsSpace(s[k]))
    ensures TokenLength(s) == k
  {
  }

  /** Python's str.split() with no argument: the maximal runs of non-whitespace, in order. */
  function Split(s: string): (r: seq<string>)
    ensures Words(r)
    decreases |s|
  {
    var t := s[LeadingSpaces(s)..];
    if t == [] then []
    else
      var k := TokenLength(t);
      FirstToken(s);
      WordsCons(t[..k], Split(t[k..]));
      [t[..k]] + Split(t[k..])
  }

  /** Every piece is nonempty and holds no whitespace. */
  predicate Words(ws: seq<string>) {
    forall i :: 0 <= i < |ws| ==> ws[i] != [] && NoSpace(ws[i])
  }

  lemma WordsCons(w: string, ws: seq<string>)
    requires w != [] && NoSpace(w) && Words(ws)
    ensures Words([w] + ws)
  {
    forall i | 1 <= i < |ws| + 1 ensures ([w] + ws)[i] == ws[i - 1] { }
  }

  /** The first token after the leading whitespace is a nonempty run of non-whitespace. */
  lemma FirstToken(s: string)
    requires s[LeadingSpaces(s)..] != []
    ensures var t := s[LeadingSpaces(s)..];
      t[..TokenLength(t)] != [] && NoSpace(t[..TokenLength(t)])
  {
    var t := s[LeadingSpaces(s)..];
    assert t[0] == s[LeadingSpaces(s)];
    var w := t[..TokenLength(t)];
    forall i | 0 <= i < |w| ensures !IsSpace(w[i]) {
      assert w[i] == t[i];
    }
  }

  /** Python's sep.join(ws) for a one-character separator. */
  function Join(ws: seq<string>, sep: char): string {
    if ws == [] then ""
    else if |ws| == 1 then ws[0]
    else ws[0] + [sep] + Join(ws[1..], sep)
  }

  lemma SplitSkipsSpaces(pre: string, s: string)
    requires AllSpace(pre)
    ensures Split(pre + s) == Split(s)
  {
    var a := LeadingSpaces(s);
    forall i | 0 <= i < |pre| + a ensures IsSpace((pre + s)[i]) {
      if i < |pre| { assert (pre + s)[i] == pre[i]; } else { assert (pre + s)[i] == s[i - |pre|]; }
    }
    assert |pre| + a < |pre + s| ==> (pre + s)[|pre| + a] == s[a];
    LeadingSpacesIs(pre + s, |pre| + a);
    assert (pre + s)[|pre| + a..] == s[a..];
    SplitSameRest(pre + s, s);
  }

  /** Two texts that are the same once their leading whitespace is skipped split alike. */
  lemma SplitSameRest(x: string, y: string)
    requires x[LeadingSpaces(x)..] == y[LeadingSpaces(y)..]
    ensures Split(x) == Split(y)
  {
  }

  /** Splitting words joined by single spaces gives the words back. */
  lemma {:induction false} SplitJoin(ws: seq<string>)
    requires forall i :: 0 <= i < |ws| ==> ws[i] != [] && NoSpace(ws[i])
    ensures Split(Join(ws, ' ')) == ws
  {
    if |ws| == 1 {
      assert ws[0] + "" == ws[0];
      SplitWord(ws[0], "");
      assert Split("") == [];
    } else if |ws| > 1 {
      SplitJoin(ws[1..]);
      SplitJoinStep(ws);
    }
  }

  /** The first word splits off a joined line, and the rest splits as before. */
  lemma SplitJoinStep(ws: seq<string>)
    requires |ws| > 1 && ws[0] != [] && NoSpace(ws[0])
    requires Split(Join(ws[1..], ' ')) == ws[1..]
    ensures Split(Join(ws, ' ')) == ws
  {
    var w := ws[0];
    var rest := Join(ws[1..], ' ');
    assert Join(ws, ' ') == w + (" " + rest);
    SplitWord(w, " " + rest);
    SplitSkipsSpaces(" ", rest);
    HeadTail(ws);
  }

  /** A non-empty sequence is its head then its tail; kept apart so SplitJoinStep sees only this instance. */
  lemma HeadTail<T>(xs: seq<T>)
    requires xs != []
    ensures xs == [xs[0]] + xs[1..]
  {
  }

  /** A word followed by nothing or by whitespace is split off as the first token. */
  lemma SplitWord(w: string, tail: string)
    requires w != [] && NoSpace(w)
    requires tail == [] || IsSpace(tail[0])
    ensures Split(w + tail) == [w] + Split(tail)
  {
    var s := w + tail;
    forall i | 0 <= i < |w| ensures !IsSpace(s[i]) {
      assert s[i] == w[i];
    }
    LeadingSpacesIs(s, 0);
    assert |w| < |s| ==> s[|w|] == tail[0];
    TokenLengthIs(s, |w|);
    assert s[0..] == s;
    assert s[..|w|] == w && s[|w|..] == tail;
  }

  /** The characters of s for which keep holds, in order. */
  function Filter(s: string, keep: char -> bool): (r: string)
    ensures |r| <= |s|
    ensures forall i :: 0 <= i < |r| ==> keep(r[i])
  {
    if s == [] then []
    else (if keep(s[0]) then [s[0]] else []) + Filter(s[1..], keep)
  }

  lemma {:induction false} FilterAppend(x: string, y: string, keep: char -> bool)
    ensures Filter(x + y, keep) == Filter(x, keep) + Filter(y, keep)
  {
    if x != [] {
      var head := if keep(x[0]) then [x[0]] else [];
      assert (x + y)[0] == x[0];
      assert (x + y)[1..] == x[1..] + y;
      FilterAppend(x[1..], y, keep);
      calc {
        Filter(x + y, keep);
        head + Filter(x[1..] + y, keep);
        head + (Filter(x[1..], keep) + Filter(y, keep));
        (head + Filter(x[1..], keep)) + Filter(y, keep);
        Filter(x, keep) + Filter(y, keep);
      }
    } else {
      assert x + y == y;
    }
  }

  lemma {:induction false} FilterAllKept(x: string, keep: char -> bool)
    requires forall i :: 0 <= i < |x| ==> keep(x[i])
    ensures Filter(x, keep) == x
  {
    if x != [] {
      FilterAllKept(x[1..], keep);
      assert x == [x[0]] + x[1..];
    }
  }

  lemma {:induction false} FilterNoneKept(x: string, keep: char -> bool)
    requires forall i :: 0 <= i < |x| ==> !keep(x[i])
    ensures Filter(x, keep) == []
  {
    if x != [] {
      assert !keep(x[0]);
      FilterNoneKept(x[1..], keep);
    }
  }

  /** Filtering adds no character. */
  lemma {:induction false} FilterAvoids(s: string, keep: char -> bool, c: char)
    requires c !in s
    ensures c !in Filter(s, keep)
  {
    if s != [] {
      FilterAvoids(s[1..], keep, c);
    }
  }

  /** A character absent from s is absent from every token split() gives. */
  lemma {:induction false} SplitAvoids(s: string, c: char)
    requires c !in s
    ensures forall i :: 0 <= i < |Split(s)| ==> c !in Split(s)[i]
    decreases |s|
  {
    var t := s[LeadingSpaces(s)..];
    if t != [] {
      var k := TokenLength(t);
      SplitAvoids(t[k..], c);
      assert c !in t[..k];
    }
  }

  function Concat(ws: seq<string>): string {
    if ws == [] then "" else ws[0] + Concat(ws[1..])
  }

  predicate IsVisible(c: char) {
    !IsSpace(c)
  }

  /** split() loses nothing but whitespace: its tokens, concatenated, are the non-whitespace of s. */
  lemma {:induction false} SplitKeepsText(s: string)
    ensures Concat(Split(s)) == Filter(s, IsVisible)
    decreases |s|
  {
    var t := s[LeadingSpaces(s)..];
    FilterSkipsSpaces(s);
    if t != [] {
      var k := TokenLength(t);
      FilterToken(t);
      SplitKeepsText(t[k..]);
      SplitFirst(s);
      ConcatCons(t[..k], Split(t[k..]));
    } else {
      assert Split(s) == [];
    }
  }

  /** Leading whitespace adds nothing visible. */
  lemma FilterSkipsSpaces(s: string)
    ensures Filter(s, IsVisible) == Filter(s[LeadingSpaces(s)..], IsVisible)
  {
    var a := LeadingSpaces(s);
    assert s == s[..a] + s[a..];
    FilterAppend(s[..a], s[a..], IsVisible);
    FilterNoneKept(s[..a], IsVisible);
  }

  /** The first token of text that starts visible is kept whole. */
  lemma FilterToken(t: string)
    requires t != []
    ensures Filter(t, IsVisible) == t[..TokenLength(t)] + Filter(t[TokenLength(t)..], IsVisible)
  {
    var k := TokenLength(t);
    assert t == t[..k] + t[k..];
    FilterAppend(t[..k], t[k..], IsVisible);
    FilterAllKept(t[..k], IsVisible);
  }

  /** split() takes the first token after the leading whitespace, then splits the rest. */
  lemma SplitFirst(s: string)
    requires s[LeadingSpaces(s)..] != []
    ensures var t := s[LeadingSpaces(s)..];
      Split(s) == [t[..TokenLength(t)]] + Split(t[TokenLength(t)..])
  {
  }

  lemma ConcatCons(w: string, ws: seq<string>)
    ensures Concat([w] + ws) == w + Concat(ws)
  {
    assert ([w] + ws)[1..] == ws;
  }

  // ---------------------------------------------------------------- split("\n")

  /** Index of the first c in s, or |s| when s holds none. */
  function IndexOfChar(s: string, c: char): (k: nat)
    ensures k <= |s| && c !in s[..k]
    ensures k < |s| ==> s[k] == c
  {
    if s == [] || s[0] == c then 0
    else
      var k' := IndexOfChar(s[1..], c);
      assert s[..1 + k'] == [s[0]] + s[1..][..k'];
      1 + k'
  }

  /** The first c in s is at k when s[k] is c and no c comes before it. */
  lemma IndexOfCharIs(s: string, c: char, k: nat)
    requires k < |s| && s[k] == c && c !in s[..k]
    ensures IndexOfChar(s, c) == k
  {
    var j := IndexOfChar(s, c);
    forall i | 0 <= i < k ensures s[i] != c {
      assert s[..k][i] == s[i];
    }
    forall i | 0 <= i < j ensures s[i] != c {
      assert s[..j][i] == s[i];
    }
  }

  /** Python's s.split("\n"): the pieces between line breaks, empty pieces included. */
  function Lines(s: string): (r: seq<string>)
    ensures |r| >= 1
    ensures forall i :: 0 <= i < |r| ==> '\n' !in r[i]
    decreases |s|
  {
    var k := IndexOfChar(s, '\n');
    if k == |s| then [s] else [s[..k]] + Lines(s[k + 1..])
  }

  /** Joining the lines with line breaks restores the text. */
  lemma {:induction false} LinesJoin(s: string)
    ensures Join(Lines(s), '\n') == s
    decreases |s|
  {
    var k := IndexOfChar(s, '\n');
    if k < |s| {
      var rest := Lines(s[k + 1..]);
      JoinCons(s[..k], rest);
      LinesJoin(s[k + 1..]);
      BreakAt(s, k);
    }
  }

  lemma JoinCons(w: string, ws: seq<string>)
    requires |ws| >= 1
    ensures Join([w] + ws, '\n') == w + "\n" + Join(ws, '\n')
  {
    var ls := [w] + ws;
    assert ls[0] == w && ls[1..] == ws && |ls| > 1;
  }

  lemma BreakAt(s: string, k: nat)
    requires k < |s| && s[k] == '\n'
    ensures s == s[..k] + "\n" + s[k + 1..]
  {
  }

  /** Splitting break-free lines joined by line breaks gives the lines back. */
  lemma {:induction false} JoinLines(ls: seq<string>)
    requires |ls| >= 1
    requires forall i :: 0 <= i < |ls| ==> '\n' !in ls[i]
    ensures Lines(Join(ls, '\n')) == ls
  {
    var s := Join(ls, '\n');
    if |ls| == 1 {
      assert s[..|s|] == s;
    } else {
      var rest := Join(ls[1..], '\n');
      assert s == ls[0] + "\n" + rest;
      assert s[..|ls[0]|] == ls[0];
      var n := |ls[0]|;
      assert s[n] == '\n';
      assert '\n' !in s[..n] by {
        forall i | 0 <= i < n ensures s[..n][i] != '\n' { assert s[..n][i] == ls[0][i]; }
      }
      var k := IndexOfChar(s, '\n');
      assert forall i :: 0 <= i < n ==> s[i] != '\n' by {
        forall i | 0 <= i < n ensures s[i] != '\n' { assert s[i] == s[..n][i]; }
      }
      assert forall i :: 0 <= i < k ==> s[i] != '\n' by {
        forall i | 0 <= i < k ensures s[i] != '\n' { assert s[i] == s[..k][i]; }
      }
      assert k == n;
      assert s[k + 1..] == rest;
      JoinLines(ls[1..]);
    }
  }

  // ---------------------------------------------------------------- replace, lower

  /** Python's s.replace(a, b) for single characters. */
  function ReplaceChar(s: string, a: char, b: char): string {
    seq(|s|, i requires 0 <= i < |s| => if s[i] == a then b else s[i])
  }

  /** Replacing a character that does not occur changes nothing. */
  lemma ReplaceAbsent(s: string, a: char, b: char)
    requires a !in s
    ensures ReplaceChar(s, a, b) == s
  {
  }

  /** Replacing one visible character by another commutes with strip(). */
  lemma StripReplace(s: string, a: char, b: char)
    requires !IsSpace(a) && !IsSpace(b)
    ensures Strip(ReplaceChar(s, a, b)) == ReplaceChar(Strip(s), a, b)
  {
    var lo, hi := StripBounds(s);
    ReplaceKeepsSpaces(s, a, b);
    StripIs(ReplaceChar(s, a, b), lo, hi);
    ReplaceSlice(s, a, b, lo, hi);
  }

  /** Where strip() cuts: whitespace before lo and from hi on, none at either end of s[lo..hi]. */
  lemma StripBounds(s: string) returns (lo: nat, hi: nat)
    ensures lo <= hi <= |s| && Strip(s) == s[lo..hi]
    ensures forall i :: 0 <= i < lo ==> IsSpace(s[i])
    ensures forall i :: hi <= i < |s| ==> IsSpace(s[i])
    ensures lo == hi || (!IsSpace(s[lo]) && !IsSpace(s[hi - 1]))
  {
    lo := LeadingSpaces(s);
    var t := s[lo..];
    var k := TrailingStart(t);
    hi := lo + k;
    forall i | hi <= i < |s| ensures IsSpace(s[i]) {
      assert s[i] == t[i - lo];
    }
    assert k > 0 ==> s[hi - 1] == t[k - 1];
  }

  lemma ReplaceSlice(s: string, a: char, b: char, lo: nat, hi: nat)
    requires lo <= hi <= |s|
    ensures ReplaceChar(s, a, b)[lo..hi] == ReplaceChar(s[lo..hi], a, b)
  {
  }

  /** Replacing a visible character by another keeps every whitespace position. */
  lemma ReplaceKeepsSpaces(s: string, a: char, b: char)
    requires !IsSpace(a) && !IsSpace(b)
    ensures |ReplaceChar(s, a, b)| == |s|
    ensures forall i :: 0 <= i < |s| ==> (IsSpace(ReplaceChar(s, a, b)[i]) <==> IsSpace(s[i]))
  {
  }

  /** Python's s.replace(c, ""): s without any c. */
  function RemoveChar(s: string, c: char): (r: string)
    ensures c !in r
  {
    Filter(s, x => x != c)
  }

  predicate IsCapital(c: char) {
    'A' <= c <= 'Z' || ('\U{C0}' <= c <= '\U{DE}' && c != '\U{D7}')
  }

  /**
   * str.lower() on one character: the ASCII and Latin-1 capitals map to
   * their small letters, everything else is left as it is.
   */
  function LowerChar(c: char): (d: char)
    ensures !IsCapital(d)
    ensures !IsCapital(c) ==> d == c
    ensures IsSpace(d) <==> IsSpace(c)
  {
    if IsCapital(c) then (c as int + 32) as char else c
  }

  /** Python's str.lower(). */
  function Lower(s: string): (r: string)
    ensures |r| == |s|
    ensures forall i :: 0 <= i < |r| ==> !IsCapital(r[i])
  {
    seq(|s|, i requires 0 <= i < |s| => LowerChar(s[i]))
  }

  /** lower() is idempotent. */
  lemma LowerIdempotent(s: string)
    ensures Lower(Lower(s)) == Lower(s)
  {
  }

  // ---------------------------------------------------------------- remove_accents

  /** The combining diacritical marks U+0300..U+036F (Unicode category Mn). */
  predicate IsCombiningMark(c: char) {
    '\U{300}' <= c <= '\U{36F}'
  }

  /** The precomposed Latin-1 letters that NFD splits into a base letter and marks. */
  predicate IsAccented(c: char) {
    ('\U{C0}' <= c <= '\U{FF}') && c !in {'\U{C6}', '\U{D0}', '\U{D7}', '\U{D8}', '\U{DE}', '\U{DF}',
                                          '\U{E6}', '\U{F0}', '\U{F7}', '\U{F8}', '\U{FE}'}
  }

  /** The base letter NFD leaves of c once its combining marks are dropped. */
  function BaseLetter(c: char): (b: char)
    ensures !IsAccented(b)
    ensures !IsCombiningMark(c) ==> !IsCombiningMark(b)
    ensures !IsAccented(c) ==> b == c
  {
    if '\U{C0}' <= c <= '\U{C5}' then 'A'
    else if c == '\U{C7}' then 'C'
    else if '\U{C8}' <= c <= '\U{CB}' then 'E'
    else if '\U{CC}' <= c <= '\U{CF}' then 'I'
    else if c == '\U{D1}' then 'N'
    else if '\U{D2}' <= c <= '\U{D6}' then 'O'
    else if '\U{D9}' <= c <= '\U{DC}' then 'U'
    else if c == '\U{DD}' then 'Y'
    else if '\U{E0}' <= c <= '\U{E5}' then 'a'
    else if c == '\U{E7}' then 'c'
    else if '\U{E8}' <= c <= '\U{EB}' then 'e'
    else if '\U{EC}' <= c <= '\U{EF}' then 'i'
    else if c == '\U{F1}' then 'n'
    else if '\U{F2}' <= c <= '\U{F6}' then 'o'
    else if '\U{F9}' <= c <= '\U{FC}' then 'u'
    else if c == '\U{FD}' || c == '\U{FF}' then 'y'
    else c
  }

  /** remove_accents: NFD decomposition, then every combining mark dropped. */
  function RemoveAccents(s: string): (r: string)
    ensures |r| <= |s|
    ensures forall i :: 0 <= i < |r| ==> !IsAccented(r[i]) && !IsCombiningMark(r[i])
  {
    if s == [] then []
    else (if IsCombiningMark(s[0]) then [] else [BaseLetter(s[0])]) + RemoveAccents(s[1..])
  }

  /** Text without accented letters or marks (plain ASCII, say) comes through unchanged. */
  lemma {:induction false} RemoveAccentsPlain(s: string)
    requires forall i :: 0 <= i < |s| ==> !IsAccented(s[i]) && !IsCombiningMark(s[i])
    ensures RemoveAccents(s) == s
  {
    if s != [] {
      RemoveAccentsPlain(s[1..]);
    }
  }

  /** Stripping accents twice is stripping them once. */
  lemma RemoveAccentsIdempotent(s: string)
    ensures RemoveAccents(RemoveAccents(s)) == RemoveAccents(s)
  {
    RemoveAccentsPlain(RemoveAccents(s));
  }
}
