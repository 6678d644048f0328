/**
 * The string operations of Python that the repository relies on: `str.split(sep)` with a
 * one-character separator, `sep.join(...)`, `str.split()` on whitespace, case-insensitive
 * substring search, `str(n)` for integers and the ordering of strings.
 */
module Text {

  /** Python's `s.split(c)` for a one-character separator `c`. */
  function Split(s: string, c: char): (parts: seq<string>)
    ensures |parts| >= 1
    ensures forall i :: 0 <= i < |parts| ==> c !in parts[i]
    ensures c in s <==> |parts| >= 2
    decreases |s|
  {
    if s == [] then [""]
    else
      var rest := Split(s[1..], c);
      if s[0] == c then [""] + rest
      else [[s[0]] + rest[0]] + rest[1..]
  }

  /** Python's `sep.join(parts)`. */
  function Join(parts: seq<string>, sep: string): string
  {
    if |parts| == 0 then ""
    else if |parts| == 1 then parts[0]
    else parts[0] + sep + Join(parts[1..], sep)
  }

  /** `s.split(c)[-1]`: what follows the last occurrence of `c` (all of `s` when there is none). */
  function LastPiece(s: string, c: char): string
  {
    var parts := Split(s, c);
    parts[|parts| - 1]
  }

  /** `s.split(c)[0]`: what precedes the first occurrence of `c` (all of `s` when there is none). */
  function FirstPiece(s: string, c: char): string
  {
    Split(s, c)[0]
  }

  lemma JoinPrepend(x: string, parts: seq<string>, sep: string)
    requires |parts| >= 1
    ensures Join([x + parts[0]] + parts[1..], sep) == x + Join(parts, sep)
  {
    var p := [x + parts[0]] + parts[1..];
    assert p[1..] == parts[1..];
  }

  /** Joining the pieces of a split with the separator gives back the original string. */
  lemma {:induction false} SplitJoin(s: string, c: char)
    ensures Join(Split(s, c), [c]) == s
    decreases |s|
  {
    if s != [] {
      var rest := Split(s[1..], c);
      SplitJoin(s[1..], c);
      if s[0] == c {
        assert ([""] + rest)[1..] == rest;
        assert s == [c] + s[1..];
      } else {
        JoinPrepend([s[0]], rest, [c]);
        assert s == [s[0]] + s[1..];
      }
    }
  }

  /** A separator-free prefix is glued to the first piece of what follows it. */
  lemma {:induction false} SplitPrefix(x: string, y: string, c: char)
    requires c !in x
    ensures Split(x + y, c) == [x + Split(y, c)[0]] + Split(y, c)[1..]
    decreases |x|
  {
    if x == [] {
      assert x + y == y;
      assert x + Split(y, c)[0] == Split(y, c)[0];
      assert Split(y, c) == [Split(y, c)[0]] + Split(y, c)[1..];
    } else {
      assert (x + y)[1..] == x[1..] + y;
      SplitPrefix(x[1..], y, c);
      var ys := Split(y, c);
      var rest := Split(x[1..] + y, c);
      assert rest[0] == x[1..] + ys[0] && rest[1..] == ys[1..];
      assert x[0] != c;
      assert Split(x + y, c) == [[x[0]] + rest[0]] + rest[1..];
      assert [x[0]] + (x[1..] + ys[0]) == x + ys[0];
    }
  }

  /** Splitting a separator-free string yields that string alone. */
  lemma SplitNoSeparator(x: string, c: char)
    requires c !in x
    ensures Split(x, c) == [x]
  {
    SplitPrefix(x, "", c);
    assert x + "" == x;
  }

  /** Splitting a join of separator-free pieces gives back the pieces. */
  lemma {:induction false} JoinSplit(parts: seq<string>, c: char)
    requires |parts| >= 1
    requires forall i :: 0 <= i < |parts| ==> c !in parts[i]
    ensures Split(Join(parts, [c]), c) == parts
    decreases |parts|
  {
    if |parts| == 1 {
      SplitNoSeparator(parts[0], c);
    } else {
      var tail := Join(parts[1..], [c]);
      JoinSplit(parts[1..], c);
      assert Join(parts, [c]) == parts[0] + ([c] + tail);
      SplitPrefix(parts[0], [c] + tail, c);
      assert ([c] + tail)[1..] == tail;
      assert Split([c] + tail, c) == [""] + parts[1..];
      assert parts[0] + "" == parts[0];
      assert parts == [parts[0]] + parts[1..];
    }
  }

  /** The pieces after the first, each with `pad` in front: what a split at `c` yields of a join with `[c] + pad`. */
  function Padded(parts: seq<string>, pad: string): (r: seq<string>)
    requires |parts| >= 1
    ensures |r| == |parts| && r[0] == parts[0]
    ensures forall i :: 1 <= i < |parts| ==> r[i] == pad + parts[i]
  {
    [parts[0]] + seq(|parts| - 1, i requires 0 <= i < |parts| - 1 => pad + parts[i + 1])
  }

  /** Joining with a separator followed by padding is joining the padded pieces with the separator. */
  lemma {:induction false} JoinPadded(parts: seq<string>, c: char, pad: string)
    requires |parts| >= 1
    ensures Join(parts, [c] + pad) == Join(Padded(parts, pad), [c])
    decreases |parts|
  {
    if |parts| > 1 {
      var rest := Padded(parts[1..], pad);
      JoinPadded(parts[1..], c, pad);
      JoinPrepend(pad, rest, [c]);
      var whole := Padded(parts, pad);
      assert whole[1..] == [pad + rest[0]] + rest[1..];
    }
  }

  /** A join with `[c] + pad` of pieces free of `c` splits back at `c` into the padded pieces. */
  lemma JoinPaddedSplit(parts: seq<string>, c: char, pad: string)
    requires |parts| >= 1
    requires forall i :: 0 <= i < |parts| ==> c !in parts[i]
    requires c !in pad
    ensures Split(Join(parts, [c] + pad), c) == Padded(parts, pad)
  {
    JoinPadded(parts, c, pad);
    var ps := Padded(parts, pad);
    forall i | 0 <= i < |ps| ensures c !in ps[i] {
      if i > 0 {
        assert ps[i] == pad + parts[i];
      }
    }
    JoinSplit(ps, c);
  }

  /** What follows a separator decides the last piece. */
  lemma {:induction false} LastPieceAfterSeparator(x: string, y: string, c: char)
    ensures LastPiece(x + [c] + y, c) == LastPiece(y, c)
    decreases |x|
  {
    if x == [] {
      assert x + [c] + y == [c] + y;
      assert ([c] + y)[1..] == y;
    } else {
      assert (x + [c] + y)[1..] == x[1..] + [c] + y;
      LastPieceAfterSeparator(x[1..], y, c);
      assert c in x[1..] + [c] + y;
    }
  }

  /** An identifier that follows the last separator is what `split(c)[-1]` extracts. */
  lemma LastPieceOf(prefix: string, id: string, c: char)
    requires c !in id
    ensures LastPiece(prefix + [c] + id, c) == id
  {
    LastPieceAfterSeparator(prefix, id, c);
    SplitNoSeparator(id, c);
  }

  /** The first piece is the longest prefix free of the separator. */
  lemma {:induction false} FirstPieceIsPrefix(s: string, c: char)
    ensures |FirstPiece(s, c)| <= |s|
    ensures s[..|FirstPiece(s, c)|] == FirstPiece(s, c)
    ensures c !in FirstPiece(s, c)
    ensures |FirstPiece(s, c)| < |s| ==> s[|FirstPiece(s, c)|] == c
    decreases |s|
  {
    if s != [] && s[0] != c {
      FirstPieceIsPrefix(s[1..], c);
    }
  }

  // ---- whitespace splitting ----

  /** The characters Python's `str.isspace` accepts, which `str.split()` splits on. */
  predicate IsSpace(ch: char)
  {
    ch in {' ', '\t', '\n', '\r', '\U{000B}', '\U{000C}', '\U{001C}', '\U{001D}',
           '\U{001E}', '\U{001F}', '\U{0085}', '\U{00A0}', '\U{1680}', '\U{2000}', '\U{2001}', '\U{2002}',
           '\U{2003}', '\U{2004}', '\U{2005}', '\U{2006}', '\U{2007}', '\U{2008}', '\U{2009}', '\U{200A}',
           '\U{2028}', '\U{2029}', '\U{202F}', '\U{205F}', '\U{3000}'}
  }

  /** A token of `str.split()`: non-empty and free of whitespace. */
  predicate IsWord(w: string)
  {
    w != [] && forall j :: 0 <= j < |w| ==> !IsSpace(w[j])
  }

  /** The length of the longest whitespace-free prefix. */
  function SpanNonSpace(s: string): (k: nat)
    ensures k <= |s|
    ensures forall i :: 0 <= i < k ==> !IsSpace(s[i])
    ensures k < |s| ==> IsSpace(s[k])
  {
    if s == [] || IsSpace(s[0]) then 0 else 1 + SpanNonSpace(s[1..])
  }

  /** Python's `s.split()`: the maximal runs of non-whitespace, in order. */
  function Words(s: string): (ws: seq<string>)
    ensures forall i :: 0 <= i < |ws| ==> IsWord(ws[i])
    decreases |s|
  {
    if s == [] then []
    else if IsSpace(s[0]) then Words(s[1..])
    else
      var k := SpanNonSpace(s);
      [s[..k]] + Words(s[k..])
  }

  /** `s.split()` is empty exactly when `s` is empty or blank. */
  lemma {:induction false} WordsEmptyIffBlank(s: string)
    ensures Words(s) == [] <==> forall i :: 0 <= i < |s| ==> IsSpace(s[i])
    decreases |s|
  {
    if s != [] && IsSpace(s[0]) {
      WordsEmptyIffBlank(s[1..]);
      assert forall i :: 1 <= i < |s| ==> s[i] == s[1..][i - 1];
    }
  }

  lemma {:induction false} SpanOfWord(w: string, t: string)
    requires forall j :: 0 <= j < |w| ==> !IsSpace(w[j])
    requires t == [] || IsSpace(t[0])
    ensures SpanNonSpace(w + t) == |w|
    decreases |w|
  {
    if w != [] {
      assert (w + t)[1..] == w[1..] + t;
      SpanOfWord(w[1..], t);
    } else {
      assert w + t == t;
    }
  }

  /** Words joined by single spaces are split back into the same words. */
  lemma {:induction false} WordsOfJoin(ws: seq<string>)
    requires forall i :: 0 <= i < |ws| ==> IsWord(ws[i])
    ensures Words(Join(ws, " ")) == ws
    decreases |ws|
  {
    if |ws| == 1 {
      SpanOfWord(ws[0], "");
      assert ws[0] + "" == ws[0];
      assert ws[0][|ws[0]|..] == [];
    } else if |ws| > 1 {
      var w := ws[0];
      var tail := Join(ws[1..], " ");
      var s := w + (" " + tail);
      assert Join(ws, " ") == s;
      SpanOfWord(w, " " + tail);
      assert s[..|w|] == w;
      assert s[|w|..] == " " + tail;
      assert (" " + tail)[1..] == tail;
      WordsOfJoin(ws[1..]);
      assert ws == [w] + ws[1..];
    }
  }

  // ---- case-insensitive substring search ----

  /** ASCII lower-casing of one character. */
  function Lower(ch: char): char
  {
    if 'A' <= ch <= 'Z' then (ch as int + 32) as char else ch
  }

  function LowerAll(s: string): (r: string)
    ensures |r| == |s|
    ensures forall i :: 0 <= i < |s| ==> r[i] == Lower(s[i])
  {
    seq(|s|, i requires 0 <= i < |s| => Lower(s[i]))
  }

  predicate IsPrefix(p: string, s: string)
  {
    |p| <= |s| && s[..|p|] == p
  }

  /** `needle` occurs in `hay` as a contiguous substring. */
  predicate Contains(hay: string, needle: string)
    decreases |hay|
  {
    IsPrefix(needle, hay) || (hay != [] && Contains(hay[1..], needle))
  }

  /** Case-insensitive substring search (ASCII letters only are folded). */
  predicate ContainsIgnoreCase(hay: string, needle: string)
  {
    Contains(LowerAll(hay), LowerAll(needle))
  }

  // ---- integers as text ----

  function DigitChar(d: nat): char
    requires d < 10
  {
    "0123456789"[d]
  }

  /** Python's `str(n)` for a non-negative integer. */
  function NatToString(n: nat): (s: string)
    ensures s != []
    ensures forall i :: 0 <= i < |s| ==> '0' <= s[i] <= '9'
  {
    if n < 10 then [DigitChar(n)] else NatToString(n / 10) + [DigitChar(n % 10)]
  }

  /** Python's `str(i)` for any integer. */
  function IntToString(i: int): string
  {
    if i < 0 then "-" + NatToString(-i) else NatToString(i)
  }

  // ---- the ordering of strings ----

  /** Python's `a < b` on strings: lexicographic by code point, a proper prefix first. */
  predicate StrLess(a: string, b: string)
    decreases |a|
  {
    if a == [] then b != []
    else if b == [] then false
    else if a[0] != b[0] then a[0] < b[0]
    else StrLess(a[1..], b[1..])
  }

  lemma {:induction false} StrLessIrreflexive(a: string)
    ensures !StrLess(a, a)
    decreases |a|
  {
    if a != [] {
      StrLessIrreflexive(a[1..]);
    }
  }

  lemma {:induction false} StrLessTransitive(a: string, b: string, c: string)
    requires StrLess(a, b) && StrLess(b, c)
    ensures StrLess(a, c)
    decreases |a|
  {
    if a != [] && b != [] && c != [] && a[0] == b[0] && b[0] == c[0] {
      StrLessTransitive(a[1..], b[1..], c[1..]);
    }
  }

  lemma {:induction false} StrLessTotal(a: string, b: string)
    requires a != b
    ensures StrLess(a, b) || StrLess(b, a)
    decreases |a|
  {
    if a != [] && b != [] && a[0] == b[0] {
      assert a == [a[0]] + a[1..];
      assert b == [b[0]] + b[1..];
      StrLessTotal(a[1..], b[1..]);
    }
  }
}
