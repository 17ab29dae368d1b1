/**
 * The normalisation that the input form applies to the free-text usernames field:
 * the text is stripped, newlines become commas, the text is split on commas and
 * every piece is stripped and lower-cased (app.py, lines 53-54).
 */
module Usernames {

  /**
   * Python's str.isspace() for one character: tab to carriage return, the four
   * information separators and the space, next line, no-break space, ogham space
   * mark, the spaces U+2000 to U+200A, line and paragraph separators, narrow
   * no-break space, medium mathematical space and ideographic space.
   */
  predicate IsSpace(c: char) {
    || '\t' <= c <= '\r' || '\U{1C}' <= c <= ' ' || c == '\U{85}' || c == '\U{A0}'
    || c == '\U{1680}' || '\U{2000}' <= c <= '\U{200A}' || c == '\U{2028}' || c == '\U{2029}'
    || c == '\U{202F}' || c == '\U{205F}' || c == '\U{3000}'
  }

  predicate IsUpper(c: char) {
    'A' <= c <= 'Z'
  }

  /** No surrounding whitespace: what str.strip() leaves behind. */
  predicate Trimmed(s: string) {
    s == [] || (!IsSpace(s[0]) && !IsSpace(s[|s| - 1]))
  }

  predicate NoUpper(s: string) {
    forall k :: 0 <= k < |s| ==> !IsUpper(s[k])
  }

  /** Number of occurrences of c in s. */
  function Count(s: string, c: char): nat {
    if s == [] then 0 else (if s[0] == c then 1 else 0) + Count(s[1..], c)
  }

  /** The leading-whitespace half of str.strip(): the longest suffix that does not start with whitespace. */
  function StripLeft(s: string): (r: string)
    ensures |r| <= |s|
    ensures forall k :: 0 <= k < |s| - |r| ==> IsSpace(s[k])
    ensures r == [] || !IsSpace(r[0])
    decreases |s|
  {
    if |s| > 0 && IsSpace(s[0]) then StripLeft(s[1..]) else s
  }

  /** What StripLeft keeps is a suffix of the text. */
  lemma {:induction false} StripLeftSuffix(s: string)
    ensures StripLeft(s) == s[|s| - |StripLeft(s)|..]
    decreases |s|
  {
    if |s| > 0 && IsSpace(s[0]) {
      StripLeftSuffix(s[1..]);
    }
  }

  /** The trailing-whitespace half of str.strip(): the longest prefix that does not end with whitespace. */
  function StripRight(s: string): (r: string)
    ensures |r| <= |s| && r == s[..|r|]
    ensures forall k :: |r| <= k < |s| ==> IsSpace(s[k])
    ensures r == [] || !IsSpace(r[|r| - 1])
    decreases |s|
  {
    if |s| > 0 && IsSpace(s[|s| - 1]) then StripRight(s[..|s| - 1]) else s
  }

  /**
   * s[i..j] is what str.strip() keeps of s: only whitespace lies outside it, and
   * it neither starts nor ends with whitespace.
   */
  predicate StripBounds(s: string, i: int, j: int) {
    && 0 <= i <= j <= |s|
    && (forall k :: 0 <= k < i ==> IsSpace(s[k]))
    && (forall k :: j <= k < |s| ==> IsSpace(s[k]))
    && Trimmed(s[i..j])
  }

  /** str.strip() with no argument. */
  function Strip(s: string): (r: string)
    ensures Trimmed(r)
    ensures r == [] <==> forall k :: 0 <= k < |s| ==> IsSpace(s[k])
  {
    StripLeftSuffix(s);
    var left := StripLeft(s);
    var r := StripRight(left);
    assert r != [] ==> r[0] == left[0];
    assert r == [] ==> left == [];
    r
  }

  /** What str.strip() keeps is a slice of the text with only whitespace outside it. */
  lemma StripSlice(s: string)
    ensures exists i, j :: StripBounds(s, i, j) && Strip(s) == s[i..j]
  {
    StripLeftSuffix(s);
    var left := StripLeft(s);
    var r := Strip(s);
    assert r == StripRight(left);
    var i := |s| - |left|;
    assert r == s[i..i + |r|];
    forall k | i + |r| <= k < |s| ensures IsSpace(s[k]) {
      assert s[k] == left[k - i];
    }
    assert StripBounds(s, i, i + |r|);
  }

  /** The kept slice is unique, so the contract of Strip fixes its result. */
  lemma StripBoundsUnique(s: string, i: int, j: int, i': int, j': int)
    requires StripBounds(s, i, j) && StripBounds(s, i', j')
    ensures s[i..j] == s[i'..j']
  {
    if i < j {
      assert s[i..j][0] == s[i] && s[i..j][j - i - 1] == s[j - 1];
    }
    if i' < j' {
      assert s[i'..j'][0] == s[i'] && s[i'..j'][j' - i' - 1] == s[j' - 1];
    }
  }

  /** Lower-casing of one character (ASCII letters only). */
  function LowerChar(c: char): (r: char)
    ensures !IsUpper(r)
    ensures IsSpace(r) <==> IsSpace(c)
    ensures IsUpper(c) || r == c
    ensures IsUpper(c) ==> r as int == c as int + ('a' as int - 'A' as int)
  {
    if IsUpper(c) then (c as int + ('a' as int - 'A' as int)) as char else c
  }

  /** str.lower(), restricted to ASCII letters. */
  function Lower(s: string): (r: string)
    ensures |r| == |s| && NoUpper(r)
    ensures forall k :: 0 <= k < |s| && !IsUpper(s[k]) ==> r[k] == s[k]
    ensures forall k :: 0 <= k < |s| && IsUpper(s[k]) ==> r[k] as int == s[k] as int + ('a' as int - 'A' as int)
    ensures Trimmed(s) ==> Trimmed(r)
  {
    seq(|s|, k requires 0 <= k < |s| => LowerChar(s[k]))
  }

  /** str.replace(src, dst) for single characters. */
  function ReplaceChar(s: string, src: char, dst: char): (r: string)
    ensures |r| == |s|
    ensures src != dst ==> src !in r
    ensures src != dst ==> Count(r, dst) == Count(s, dst) + Count(s, src)
    ensures forall c :: c != dst && c !in s ==> c !in r
    ensures forall k :: 0 <= k < |s| ==> r[k] == (if s[k] == src then dst else s[k])
    decreases |s|
  {
    if s == [] then []
    else
      var rest := ReplaceChar(s[1..], src, dst);
      assert Count(s, dst) == (if s[0] == dst then 1 else 0) + Count(s[1..], dst);
      [if s[0] == src then dst else s[0]] + rest
  }

  /** The inverse of Split: the pieces glued back with sep between them. */
  function Join(parts: seq<string>, sep: char): string
    requires |parts| >= 1
    decreases |parts|
  {
    if |parts| == 1 then parts[0] else parts[0] + [sep] + Join(parts[1..], sep)
  }

  /** str.split(sep) with an explicit separator: empty pieces are kept, so "" splits into [""]. */
  function Split(s: string, sep: char): (r: seq<string>)
    ensures |r| == Count(s, sep) + 1
    ensures forall k :: 0 <= k < |r| ==> sep !in r[k]
    ensures Join(r, sep) == s
    decreases |s|
  {
    if s == [] then [""]
    else
      var rest := Split(s[1..], sep);
      if s[0] == sep then
        assert s == [sep] + s[1..];
        [""] + rest
      else
        var r := [[s[0]] + rest[0]] + rest[1..];
        assert Join(r, sep) == s by {
          if |rest| > 1 {
            assert Join(rest, sep) == rest[0] + [sep] + Join(rest[1..], sep);
            assert r[1..] == rest[1..];
          }
          assert s == [s[0]] + s[1..];
        }
        r
  }

  /**
   * The usernames field as the form hands it on: strip the text, turn newlines into
   * commas, split on commas, strip and lower-case every piece.
   */
  function NormalizeUsernames(raw: string): (r: seq<string>)
    ensures |r| == Count(Strip(raw), ',') + Count(Strip(raw), '\n') + 1
    ensures forall k :: 0 <= k < |r| ==> Trimmed(r[k]) && NoUpper(r[k])
    ensures forall k :: 0 <= k < |r| ==> ',' !in r[k] && '\n' !in r[k]
  {
    var text := ReplaceChar(Strip(raw), '\n', ',');
    var fields := Split(text, ',');
    SplitKeepsAbsent(text, ',', '\n');
    seq(|fields|, k requires 0 <= k < |fields| => NormalizeName(fields[k]))
  }

  /** One piece of the field, stripped and lower-cased. */
  function NormalizeName(piece: string): (name: string)
    ensures Trimmed(name) && NoUpper(name)
    ensures forall c :: c !in piece && !('a' <= c <= 'z') ==> c !in name
    ensures exists i, j :: StripBounds(piece, i, j) && name == Lower(piece[i..j])
  {
    assert forall c :: c !in piece && !('a' <= c <= 'z') ==> c !in Lower(Strip(piece)) by {
      forall c | c !in piece && !('a' <= c <= 'z') {
        LowerStripKeepsAbsent(piece, c);
      }
    }
    StripSlice(piece);
    Lower(Strip(piece))
  }

  /** Splitting introduces no character that the text does not hold. */
  lemma {:induction false} SplitKeepsAbsent(s: string, sep: char, c: char)
    requires c !in s
    ensures forall k :: 0 <= k < |Split(s, sep)| ==> c !in Split(s, sep)[k]
    decreases |s|
  {
    if s != [] {
      SplitKeepsAbsent(s[1..], sep, c);
    }
  }

  /** Stripping and lower-casing introduce no character other than a lower-case letter. */
  lemma LowerStripKeepsAbsent(s: string, c: char)
    requires c !in s && !('a' <= c <= 'z')
    ensures c !in Lower(Strip(s))
  {
    StripLeftSuffix(s);
    var left := StripLeft(s);
    forall k | 0 <= k < |left| ensures left[k] != c {
      assert left[k] == s[k + |s| - |left|];
    }
    var t := StripRight(left);
    forall k | 0 <= k < |t| ensures t[k] != c {
      assert t[k] == left[k];
    }
    var r := Lower(t);
    forall k | 0 <= k < |r| ensures r[k] != c {
      assert r[k] == LowerChar(t[k]);
    }
  }

  /** Stripping text that has no surrounding whitespace changes nothing. */
  lemma StripTrimmed(s: string)
    requires Trimmed(s)
    ensures Strip(s) == s
  {
  }

  /** Lower-casing twice is lower-casing once. */
  lemma LowerIdempotent(s: string)
    ensures Lower(Lower(s)) == Lower(s)
  {
  }

  /** Splitting the joined pieces gives the pieces back, when no piece holds the separator. */
  lemma {:induction false} SplitJoin(parts: seq<string>, sep: char)
    requires |parts| >= 1
    requires forall k :: 0 <= k < |parts| ==> sep !in parts[k]
    ensures Split(Join(parts, sep), sep) == parts
    decreases |parts|, |parts[0]|
  {
    var p := parts[0];
    if |parts| == 1 {
      if p != [] {
        SplitJoin([p[1..]], sep);
        assert p == [p[0]] + p[1..];
      }
    } else if p == [] {
      SplitJoin(parts[1..], sep);
      assert Join(parts, sep) == [sep] + Join(parts[1..], sep);
    } else {
      var shorter := [p[1..]] + parts[1..];
      SplitJoin(shorter, sep);
      assert Join(shorter, sep) == p[1..] + [sep] + Join(parts[1..], sep);
      assert Join(parts, sep) == [p[0]] + Join(shorter, sep);
      assert [p[0]] + p[1..] == p;
    }
  }

  /** A blank field (empty or only whitespace) gives one empty username, not an empty list. */
  lemma NormalizeBlank(raw: string)
    requires forall k :: 0 <= k < |raw| ==> IsSpace(raw[k])
    ensures NormalizeUsernames(raw) == [""]
  {
    assert Strip(raw) == "";
    assert Split("", ',') == [""];
  }

  /** A username that normalisation leaves as it is. */
  predicate CleanName(name: string) {
    Trimmed(name) && NoUpper(name) && ',' !in name && '\n' !in name
  }

  /** Replacing a character the text does not hold changes nothing. */
  lemma {:induction false} ReplaceAbsent(s: string, src: char, dst: char)
    requires src !in s
    ensures ReplaceChar(s, src, dst) == s
    decreases |s|
  {
    if s != [] {
      ReplaceAbsent(s[1..], src, dst);
      assert s == [s[0]] + s[1..];
    }
  }

  /** Joining clean names with commas gives text with no newline and no surrounding whitespace. */
  lemma {:induction false} JoinClean(names: seq<string>)
    requires |names| >= 1 && forall k :: 0 <= k < |names| ==> CleanName(names[k])
    ensures '\n' !in Join(names, ',') && Trimmed(Join(names, ','))
    decreases |names|
  {
    if |names| > 1 {
      JoinClean(names[1..]);
      var rest := Join(names[1..], ',');
      var s := Join(names, ',');
      assert s == names[0] + [','] + rest;
      assert s[|s| - 1] == if rest == [] then ',' else rest[|rest| - 1];
      assert s[0] == if names[0] == [] then ',' else names[0][0];
    }
  }

  /** Appending a piece appends the separator and the piece. */
  lemma {:induction false} JoinSnoc(parts: seq<string>, x: string, sep: char)
    requires |parts| >= 1
    ensures Join(parts + [x], sep) == Join(parts, sep) + [sep] + x
    decreases |parts|
  {
    if |parts| > 1 {
      JoinSnoc(parts[1..], x, sep);
      assert (parts + [x])[1..] == parts[1..] + [x];
    }
  }

  /** Joining brings in no character other than the separator. */
  lemma {:induction false} JoinAbsent(parts: seq<string>, sep: char, c: char)
    requires |parts| >= 1 && c != sep
    requires forall k :: 0 <= k < |parts| ==> c !in parts[k]
    ensures c !in Join(parts, sep)
    decreases |parts|
  {
    if |parts| > 1 {
      JoinAbsent(parts[1..], sep, c);
    }
  }

  /** Leading whitespace in front of t does not change what StripLeft keeps. */
  lemma {:induction false} StripLeftSkip(x: string, t: string)
    requires forall k :: 0 <= k < |x| ==> IsSpace(x[k])
    ensures StripLeft(x + t) == StripLeft(t)
    decreases |x|
  {
    if x != [] {
      assert (x + t)[0] == x[0] && (x + t)[1..] == x[1..] + t;
      StripLeftSkip(x[1..], t);
    } else {
      assert x + t == t;
    }
  }

  /** Trailing whitespace after t does not change what StripRight keeps. */
  lemma {:induction false} StripRightSkip(t: string, y: string)
    requires forall k :: 0 <= k < |y| ==> IsSpace(y[k])
    ensures StripRight(t + y) == StripRight(t)
    decreases |y|
  {
    if y != [] {
      assert (t + y)[|t + y| - 1] == y[|y| - 1] && (t + y)[..|t + y| - 1] == t + y[..|y| - 1];
      StripRightSkip(t, y[..|y| - 1]);
    } else {
      assert t + y == t;
    }
  }

  /** When t is not all whitespace, StripLeft stops inside t and keeps whatever follows. */
  lemma {:induction false} StripLeftAppend(t: string, y: string)
    requires StripLeft(t) != []
    ensures StripLeft(t + y) == StripLeft(t) + y
    decreases |t|
  {
    if IsSpace(t[0]) {
      assert (t + y)[1..] == t[1..] + y;
      StripLeftAppend(t[1..], y);
    }
  }

  /** Whitespace around t does not change what str.strip() keeps. */
  lemma StripOuter(x: string, t: string, y: string)
    requires forall k :: 0 <= k < |x| ==> IsSpace(x[k])
    requires forall k :: 0 <= k < |y| ==> IsSpace(y[k])
    ensures Strip(x + t + y) == Strip(t)
  {
    assert x + t + y == x + (t + y);
    StripLeftSkip(x, t + y);
    if StripLeft(t) == [] {
      assert forall k :: 0 <= k < |t| ==> IsSpace(t[k]);
      assert forall k :: 0 <= k < |x + t + y| ==> IsSpace((x + t + y)[k]);
    } else {
      StripLeftAppend(t, y);
      StripRightSkip(StripLeft(t), y);
    }
  }

  /** The text of joined pieces, with the first piece's head and the last piece's tail cut off. */
  lemma JoinFrame(parts: seq<string>, x: string, first: string, last: string, y: string, sep: char)
    requires |parts| >= 2 && parts[0] == x + first && parts[|parts| - 1] == last + y
    ensures Join(parts, sep) == x + Join([first] + parts[1..|parts| - 1] + [last], sep) + y
  {
    var mid := parts[1..|parts| - 1];
    var inner := [first] + mid + [last];
    assert parts[1..] == mid + [parts[|parts| - 1]];
    assert inner[1..] == mid + [last];
    if mid != [] {
      JoinSnoc(mid, parts[|parts| - 1], sep);
      JoinSnoc(mid, last, sep);
    }
  }

  /** The separator does not occur in what str.strip() keeps of a piece without it. */
  lemma StripKeepsAbsent(s: string, c: char)
    requires c !in s
    ensures c !in Strip(s)
  {
    var r := Strip(s);
    StripSlice(s);
    var i, j :| StripBounds(s, i, j) && r == s[i..j];
    forall k | 0 <= k < |r| ensures r[k] != c {
      assert r[k] == s[i + k];
    }
  }

  /** Normalising a piece that was already stripped on one side or both gives the same name. */
  lemma NormalizeNameOuter(x: string, t: string, y: string)
    requires forall k :: 0 <= k < |x| ==> IsSpace(x[k])
    requires forall k :: 0 <= k < |y| ==> IsSpace(y[k])
    ensures NormalizeName(x + t + y) == NormalizeName(t)
  {
    StripOuter(x, t, y);
  }

  /** Pieces whose first does not start, and whose last does not end, with whitespace join to trimmed text. */
  lemma JoinTrimmed(parts: seq<string>, sep: char)
    requires |parts| >= 2 && !IsSpace(sep)
    requires parts[0] == [] || !IsSpace(parts[0][0])
    requires parts[|parts| - 1] == [] || !IsSpace(parts[|parts| - 1][|parts[|parts| - 1]| - 1])
    ensures Trimmed(Join(parts, sep))
  {
    var n := |parts|;
    var m := Join(parts, sep);
    assert m == parts[0] + [sep] + Join(parts[1..], sep);
    assert parts == parts[..n - 1] + [parts[n - 1]];
    JoinSnoc(parts[..n - 1], parts[n - 1], sep);
    assert m[0] == if parts[0] == [] then sep else parts[0][0];
    assert m[|m| - 1] == if parts[n - 1] == [] then sep else parts[n - 1][|parts[n - 1]| - 1];
  }

  /** A slice holds no character that the whole does not. */
  lemma SliceAbsent(s: string, a: int, b: int, c: char)
    requires 0 <= a <= b <= |s| && c !in s
    ensures c !in s[a..b]
  {
    forall k | 0 <= k < b - a ensures s[a..b][k] != c {
      assert s[a..b][k] == s[a + k];
    }
  }

  /** Stripping what StripLeft kept gives what stripping the whole gives. */
  lemma StripOfStripLeft(p: string)
    ensures Strip(StripLeft(p)) == Strip(p)
  {
    var first := StripLeft(p);
    var x := LeftSpace(p);
    assert p == x + first + [];
    StripOuter(x, first, []);
  }

  /** Stripping what StripRight kept gives what stripping the whole gives. */
  lemma StripOfStripRight(q: string)
    ensures Strip(StripRight(q)) == Strip(q)
  {
    var last := StripRight(q);
    var y := RightSpace(q);
    assert q == [] + last + y;
    StripOuter([], last, y);
  }

  /** Two or more pieces with the first stripped on the left and the last on the right. */
  function Ends(pieces: seq<string>): (r: seq<string>)
    requires |pieces| >= 2
    ensures |r| == |pieces|
    ensures r[0] == StripLeft(pieces[0]) && r[|r| - 1] == StripRight(pieces[|pieces| - 1])
    ensures forall k :: 0 < k < |r| - 1 ==> r[k] == pieces[k]
  {
    [StripLeft(pieces[0])] + pieces[1..|pieces| - 1] + [StripRight(pieces[|pieces| - 1])]
  }

  /**
   * str.strip() of two or more pieces joined with commas is the join of the same
   * pieces with the first stripped on the left and the last on the right.
   */
  lemma StripJoinMany(pieces: seq<string>)
    requires |pieces| >= 2
    ensures Strip(Join(pieces, ',')) == Join(Ends(pieces), ',')
  {
    var x := LeftSpace(pieces[0]);
    var y := RightSpace(pieces[|pieces| - 1]);
    StripJoinEnds(pieces, x, StripLeft(pieces[0]), StripRight(pieces[|pieces| - 1]), y);
  }

  /** The whitespace StripLeft removes from the front of p. */
  lemma LeftSpace(p: string) returns (x: string)
    ensures p == x + StripLeft(p) && forall k :: 0 <= k < |x| ==> IsSpace(x[k])
  {
    StripLeftSuffix(p);
    x := p[..|p| - |StripLeft(p)|];
  }

  /** The whitespace StripRight removes from the back of q. */
  lemma RightSpace(q: string) returns (y: string)
    ensures q == StripRight(q) + y && forall k :: 0 <= k < |y| ==> IsSpace(y[k])
  {
    y := q[|StripRight(q)|..];
  }

  /** Stripping the ends of pieces keeps a character out of them. */
  lemma EndsAbsent(p: string, q: string, c: char)
    requires c !in p && c !in q
    ensures c !in StripLeft(p) && c !in StripRight(q)
  {
    StripLeftSuffix(p);
    var first, last := StripLeft(p), StripRight(q);
    SliceAbsent(p, |p| - |first|, |p|, c);
    SliceAbsent(q, 0, |last|, c);
    assert p[|p| - |first|..|p|] == first && q[0..|last|] == last;
  }

  /**
   * Two or more joined pieces, the first with whitespace x in front and the last
   * with whitespace y behind: str.strip() removes exactly x and y.
   */
  lemma StripJoinEnds(pieces: seq<string>, x: string, first: string, last: string, y: string)
    requires |pieces| >= 2 && pieces[0] == x + first && pieces[|pieces| - 1] == last + y
    requires forall k :: 0 <= k < |x| ==> IsSpace(x[k])
    requires forall k :: 0 <= k < |y| ==> IsSpace(y[k])
    requires first == [] || !IsSpace(first[0])
    requires last == [] || !IsSpace(last[|last| - 1])
    ensures Strip(Join(pieces, ',')) == Join([first] + pieces[1..|pieces| - 1] + [last], ',')
  {
    var inner := [first] + pieces[1..|pieces| - 1] + [last];
    JoinFrame(pieces, x, first, last, y, ',');
    var m := Join(inner, ',');
    JoinTrimmed(inner, ',');
    StripOuter(x, m, y);
    StripTrimmed(m);
  }


  /** Normalisation is the stripped text split on commas, each piece normalised (for text without newlines). */
  lemma NormalizeFields(raw: string)
    requires '\n' !in Strip(raw)
    ensures |NormalizeUsernames(raw)| == |Split(Strip(raw), ',')|
    ensures forall k :: 0 <= k < |NormalizeUsernames(raw)| ==>
      NormalizeUsernames(raw)[k] == Lower(Strip(Split(Strip(raw), ',')[k]))
  {
    ReplaceAbsent(Strip(raw), '\n', ',');
  }

  /**
   * Normalisation of pieces joined with commas, the pieces holding no comma and no
   * newline: one username per piece, in order, each the piece stripped and lower-cased.
   */
  lemma NormalizePieces(pieces: seq<string>)
    requires |pieces| >= 1
    requires forall k :: 0 <= k < |pieces| ==> ',' !in pieces[k] && '\n' !in pieces[k]
    ensures |NormalizeUsernames(Join(pieces, ','))| == |pieces|
    ensures forall k :: 0 <= k < |pieces| ==> NormalizeUsernames(Join(pieces, ','))[k] == NormalizeName(pieces[k])
  {
    var text := Join(pieces, ',');
    JoinAbsent(pieces, ',', '\n');
    StripKeepsAbsent(text, '\n');
    NormalizeFields(text);
    PieceNames(pieces);
  }

  /** Each field found in the joined pieces normalises to its piece's name. */
  lemma PieceNames(pieces: seq<string>)
    requires |pieces| >= 1 && forall k :: 0 <= k < |pieces| ==> ',' !in pieces[k]
    ensures var fields := Split(Strip(Join(pieces, ',')), ',');
      |fields| == |pieces| && forall k :: 0 <= k < |pieces| ==> Lower(Strip(fields[k])) == NormalizeName(pieces[k])
  {
    if |pieces| == 1 {
      assert Join(pieces, ',') == pieces[0];
      SplitStripOne(pieces[0]);
      StripStrip(pieces[0]);
    } else {
      SplitStripMany(pieces);
      forall k | 0 <= k < |pieces| ensures Lower(Strip(Ends(pieces)[k])) == NormalizeName(pieces[k]) {
        EndName(pieces, k);
      }
    }
  }

  /** Stripping twice is stripping once. */
  lemma StripStrip(s: string)
    ensures Lower(Strip(Strip(s))) == NormalizeName(s)
  {
    StripTrimmed(Strip(s));
  }

  /** A single piece without commas is one field, the piece stripped. */
  lemma SplitStripOne(p: string)
    requires ',' !in p
    ensures Split(Strip(p), ',') == [Strip(p)]
  {
    StripKeepsAbsent(p, ',');
    SplitJoin([Strip(p)], ',');
  }

  /** Two or more pieces without commas: the fields are the pieces with the outer ends stripped. */
  lemma SplitStripMany(pieces: seq<string>)
    requires |pieces| >= 2 && forall k :: 0 <= k < |pieces| ==> ',' !in pieces[k]
    ensures Split(Strip(Join(pieces, ',')), ',') == Ends(pieces)
  {
    var inner := Ends(pieces);
    StripJoinMany(pieces);
    EndsAbsent(pieces[0], pieces[|pieces| - 1], ',');
    forall k | 0 <= k < |inner| ensures ',' !in inner[k] {
      if 0 < k < |inner| - 1 {
        assert inner[k] == pieces[k];
      }
    }
    SplitJoin(inner, ',');
  }

  /** Each of the pieces Ends gives normalises to the name of the piece it came from. */
  lemma EndName(pieces: seq<string>, k: int)
    requires |pieces| >= 2 && 0 <= k < |pieces|
    ensures Lower(Strip(Ends(pieces)[k])) == NormalizeName(pieces[k])
  {
    var e := Ends(pieces)[k];
    if k == 0 {
      StripOfStripLeft(pieces[0]);
    } else if k == |pieces| - 1 {
      StripOfStripRight(pieces[k]);
    } else {
      assert e == pieces[k];
    }
    assert Strip(e) == Strip(pieces[k]);
  }

  /**
   * Normalisation undoes joining with commas: a list of names that are already stripped,
   * lower-case and free of separators comes back unchanged.
   */
  lemma NormalizeJoined(names: seq<string>)
    requires |names| >= 1 && forall k :: 0 <= k < |names| ==> CleanName(names[k])
    ensures NormalizeUsernames(Join(names, ',')) == names
  {
    var text := Join(names, ',');
    JoinClean(names);
    StripTrimmed(text);
    ReplaceAbsent(text, '\n', ',');
    SplitJoin(names, ',');
    forall k | 0 <= k < |names| ensures NormalizeName(names[k]) == names[k] {
      StripTrimmed(names[k]);
    }
  }
}
