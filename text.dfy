/** The string primitives the two CSV importers are built from:
    `split` with a one-character separator, `trim`, `toLowerCase` and
    `toUpperCase` as JavaScript defines them, the blank-line filter and the
    comma-separated field list of one line. */
module Text {

  /** The characters `String.prototype.trim` removes: WhiteSpace (TAB, VT,
      FF, ZWNBSP and every space separator of category Zs, U+2000 to U+200A
      among them) and LineTerminator (LF, CR, LS, PS). */
  const Whitespace: set<char> := {
    '\t', '\n', '\U{B}', '\U{C}', '\r', ' ', '\U{A0}', '\U{1680}',
    '\U{2000}', '\U{2001}', '\U{2002}', '\U{2003}', '\U{2004}', '\U{2005}',
    '\U{2006}', '\U{2007}', '\U{2008}', '\U{2009}', '\U{200A}',
    '\U{2028}', '\U{2029}', '\U{202F}', '\U{205F}', '\U{3000}', '\U{FEFF}'
  }

  predicate IsWhitespace(c: char) {
    c in Whitespace
  }

  /** `a` can be obtained from `b` by deleting elements: `a` keeps the
      relative order of `b`. */
  predicate IsSubsequence<T(==)>(a: seq<T>, b: seq<T>)
    decreases |b|
  {
    if a == [] then true
    else if b == [] then false
    else if a[0] == b[0] then IsSubsequence(a[1..], b[1..])
    else IsSubsequence(a, b[1..])
  }

  // ---------------------------------------------------------------------
  // split and join

  /** `split` on a one-character separator: the pieces between the separators. There is always at
      least one piece (the empty string splits into `[""]`), and no piece
      holds the separator. */
  function Split(s: string, sep: char): (parts: seq<string>)
    ensures |parts| >= 1
    ensures forall i | 0 <= i < |parts| :: sep !in parts[i]
  {
    if s == [] then [""]
    else
      var rest := Split(s[1..], sep);
      if s[0] == sep then [""] + rest
      else [[s[0]] + rest[0]] + rest[1..]
  }

  /** `join` with a one-character separator, the inverse of `Split`. */
  function Join(parts: seq<string>, sep: char): string {
    if |parts| == 0 then ""
    else if |parts| == 1 then parts[0]
    else parts[0] + [sep] + Join(parts[1..], sep)
  }

  /** Joining the pieces of a split gives back the original text. */
  lemma {:induction false} JoinSplit(s: string, sep: char)
    ensures Join(Split(s, sep), sep) == s
  {
    if s != [] {
      var rest := Split(s[1..], sep);
      JoinSplit(s[1..], sep);
      if s[0] == sep {
        assert Split(s, sep) == [""] + rest;
        assert Split(s, sep)[1..] == rest;
      } else {
        var parts := Split(s, sep);
        assert parts == [[s[0]] + rest[0]] + rest[1..];
        assert parts[1..] == rest[1..];
        if |rest| == 1 {
          assert Join(parts, sep) == [s[0]] + rest[0];
        } else {
          assert Join(rest, sep) == rest[0] + [sep] + Join(rest[1..], sep);
          assert Join(parts, sep) == [s[0]] + Join(rest, sep);
        }
        assert s == [s[0]] + s[1..];
      }
    }
  }

  /** Splitting text that begins with a separator-free word `w`: `w` becomes
      the front of the first piece. */
  lemma {:induction false} SplitAfterWord(w: string, t: string, sep: char)
    requires sep !in w
    ensures Split(w + t, sep) == [w + Split(t, sep)[0]] + Split(t, sep)[1..]
  {
    if w != [] {
      assert (w + t)[1..] == w[1..] + t;
      assert (w + t)[0] == w[0];
      SplitAfterWord(w[1..], t, sep);
      assert [w[0]] + (w[1..] + Split(t, sep)[0]) == w + Split(t, sep)[0];
    } else {
      assert w + t == t;
      assert w + Split(t, sep)[0] == Split(t, sep)[0];
      assert Split(t, sep) == [Split(t, sep)[0]] + Split(t, sep)[1..];
    }
  }

  /** Splitting pieces that hold no separator, once joined, gives back the
      pieces. */
  lemma {:induction false} SplitJoin(parts: seq<string>, sep: char)
    requires |parts| >= 1
    requires forall i | 0 <= i < |parts| :: sep !in parts[i]
    ensures Split(Join(parts, sep), sep) == parts
  {
    if |parts| == 1 {
      SplitAfterWord(parts[0], "", sep);
      assert parts[0] + "" == parts[0];
    } else {
      var tail := Join(parts[1..], sep);
      SplitJoin(parts[1..], sep);
      assert Join(parts, sep) == parts[0] + ([sep] + tail);
      SplitAfterWord(parts[0], [sep] + tail, sep);
      assert ([sep] + tail)[1..] == tail;
      assert Split([sep] + tail, sep) == [""] + Split(tail, sep);
      assert parts[0] + "" == parts[0];
      assert parts == [parts[0]] + parts[1..];
    }
  }

  // ---------------------------------------------------------------------
  // trim

  /** The first index at or after `i` that does not hold whitespace, or
      `|s|` when there is none (see SkipForwardStops). */
  function SkipForward(s: string, i: nat): (j: nat)
    requires i <= |s|
    ensures i <= j <= |s|
    decreases |s| - i
  {
    if i < |s| && IsWhitespace(s[i]) then SkipForward(s, i + 1) else i
  }

  /** SkipForward passes over whitespace only and stops at the end or at a
      character that is not whitespace. */
  lemma {:induction false} SkipForwardStops(s: string, i: nat)
    requires i <= |s|
    ensures var j := SkipForward(s, i);
      (forall k | i <= k < j :: IsWhitespace(s[k])) && (j == |s| || !IsWhitespace(s[j]))
    decreases |s| - i
  {
    if i < |s| && IsWhitespace(s[i]) {
      SkipForwardStops(s, i + 1);
    }
  }

  /** The least `k` in `lo .. j` such that `s[k..j]` is all whitespace (see
      SkipBackwardStops). */
  function SkipBackward(s: string, lo: nat, j: nat): (k: nat)
    requires lo <= j <= |s|
    ensures lo <= k <= j
    decreases j
  {
    if lo < j && IsWhitespace(s[j - 1]) then SkipBackward(s, lo, j - 1) else j
  }

  /** SkipBackward passes over whitespace only and stops at `lo` or after a
      character that is not whitespace. */
  lemma {:induction false} SkipBackwardStops(s: string, lo: nat, j: nat)
    requires lo <= j <= |s|
    ensures var k := SkipBackward(s, lo, j);
      (forall m | k <= m < j :: IsWhitespace(s[m])) && (k == lo || !IsWhitespace(s[k - 1]))
    decreases j
  {
    if lo < j && IsWhitespace(s[j - 1]) {
      SkipBackwardStops(s, lo, j - 1);
    }
  }

  /** Where the trimmed text starts in `s`. */
  function TrimStartIndex(s: string): nat {
    SkipForward(s, 0)
  }

  /** `trim`: what lies between the leading and the trailing run of
      whitespace. */
  function Trim(s: string): string {
    s[SkipForward(s, 0)..SkipBackward(s, SkipForward(s, 0), |s|)]
  }

  /** The trimmed text is the longest infix of `s` that neither starts nor
      ends with whitespace, with only whitespace outside it, and it is empty
      exactly when `s` is all whitespace. */
  lemma TrimIsInfix(s: string)
    ensures var r := Trim(s);
      r == [] || (!IsWhitespace(r[0]) && !IsWhitespace(r[|r| - 1]))
    ensures var r, a := Trim(s), TrimStartIndex(s);
      a + |r| <= |s| && r == s[a..a + |r|]
      && forall i | 0 <= i < |s| && !(a <= i < a + |r|) :: IsWhitespace(s[i])
    ensures Trim(s) == [] <==> forall i | 0 <= i < |s| :: IsWhitespace(s[i])
  {
    var a := SkipForward(s, 0);
    var b := SkipBackward(s, a, |s|);
    SkipForwardStops(s, 0);
    SkipBackwardStops(s, a, |s|);
    assert a < b ==> s[a..b][0] == s[a] && s[a..b][b - a - 1] == s[b - 1];
  }

  /** The trimmed line used as a filter condition in JavaScript: the
      trimmed line is the empty string, which is falsy. */
  predicate IsBlank(line: string) {
    Trim(line) == ""
  }

  // ---------------------------------------------------------------------
  // case mapping (ASCII)

  function LowerChar(c: char): char {
    if 'A' <= c <= 'Z' then (c as int + 32) as char else c
  }

  function UpperChar(c: char): char {
    if 'a' <= c <= 'z' then (c as int - 32) as char else c
  }

  /** `toLowerCase`, for the ASCII letters. */
  function ToLower(s: string): string {
    seq(|s|, i requires 0 <= i < |s| => LowerChar(s[i]))
  }

  /** `toUpperCase`, for the ASCII letters. */
  function ToUpper(s: string): string {
    seq(|s|, i requires 0 <= i < |s| => UpperChar(s[i]))
  }

  /** Case mapping neither creates nor removes whitespace. */
  lemma LowerKeepsWhitespace(c: char)
    ensures IsWhitespace(LowerChar(c)) <==> IsWhitespace(c)
  {
  }

  lemma {:induction false} SkipForwardLower(s: string, i: nat)
    requires i <= |s|
    ensures SkipForward(ToLower(s), i) == SkipForward(s, i)
    decreases |s| - i
  {
    if i < |s| {
      LowerKeepsWhitespace(s[i]);
      if IsWhitespace(s[i]) {
        SkipForwardLower(s, i + 1);
      }
    }
  }

  lemma {:induction false} SkipBackwardLower(s: string, lo: nat, j: nat)
    requires lo <= j <= |s|
    ensures SkipBackward(ToLower(s), lo, j) == SkipBackward(s, lo, j)
    decreases j
  {
    if lo < j {
      LowerKeepsWhitespace(s[j - 1]);
      if IsWhitespace(s[j - 1]) {
        SkipBackwardLower(s, lo, j - 1);
      }
    }
  }

  /** Lower-casing and trimming commute. */
  lemma TrimLower(s: string)
    ensures Trim(ToLower(s)) == ToLower(Trim(s))
  {
    SkipForwardLower(s, 0);
    var a := SkipForward(s, 0);
    SkipBackwardLower(s, a, |s|);
    var b := SkipBackward(s, a, |s|);
    LowerSlice(s, a, b);
  }

  /** Lower-casing and slicing commute. */
  lemma LowerSlice(s: string, a: nat, b: nat)
    requires a <= b <= |s|
    ensures ToLower(s)[a..b] == ToLower(s[a..b])
  {
  }

  /** Every piece lower-cased. */
  function LowerAll(parts: seq<string>): (r: seq<string>)
    ensures |r| == |parts| && forall i | 0 <= i < |r| :: r[i] == ToLower(parts[i])
  {
    if parts == [] then [] else [ToLower(parts[0])] + LowerAll(parts[1..])
  }

  /** Splitting on a comma commutes with lower-casing: no letter lower-cases
      to a comma. */
  lemma {:induction false} SplitLower(s: string)
    ensures Split(ToLower(s), ',') == LowerAll(Split(s, ','))
  {
    if s != [] {
      var rest := Split(s[1..], ',');
      SplitLower(s[1..]);
      var lowerRest := Split(ToLower(s[1..]), ',');
      assert lowerRest == LowerAll(rest);
      var t := ToLower(s);
      assert t[0] == LowerChar(s[0]);
      assert t[1..] == ToLower(s[1..]);
      if s[0] == ',' {
        assert Split(s, ',') == [""] + rest;
        assert Split(t, ',') == [""] + lowerRest;
        assert ([""] + rest)[1..] == rest;
      } else {
        assert LowerChar(s[0]) != ',';
        var parts := [[s[0]] + rest[0]] + rest[1..];
        assert Split(s, ',') == parts;
        assert Split(t, ',') == [[t[0]] + lowerRest[0]] + lowerRest[1..];
        assert LowerAll(rest) == [ToLower(rest[0])] + LowerAll(rest[1..]);
        assert ToLower([s[0]] + rest[0]) == [LowerChar(s[0])] + ToLower(rest[0]);
        assert parts[1..] == rest[1..];
      }
    }
  }

  // ---------------------------------------------------------------------
  // lines and fields

  /** The lines whose trimmed text is not empty, in their
      order, every one of them kept. */
  function DropBlank(lines: seq<string>): (r: seq<string>)
    ensures forall line | line in r :: !IsBlank(line)
    ensures forall line | line in lines && !IsBlank(line) :: line in r
    ensures IsSubsequence(r, lines)
    ensures forall line | !IsBlank(line) :: multiset(r)[line] == multiset(lines)[line]
  {
    if lines == [] then []
    else
      var rest := DropBlank(lines[1..]);
      assert lines == [lines[0]] + lines[1..];
      assert multiset(lines) == multiset{lines[0]} + multiset(lines[1..]);
      assert forall x | x in lines :: x == lines[0] || x in lines[1..];
      if IsBlank(lines[0]) then
        assert rest == [] || rest[0] != lines[0];
        rest
      else
        var r := [lines[0]] + rest;
        assert multiset(r) == multiset{lines[0]} + multiset(rest);
        assert forall x | x in rest :: x in r;
        r
  }

  /** The non-blank lines of a text split on line feeds. */
  function NonBlankLines(text: string): seq<string> {
    DropBlank(Split(text, '\n'))
  }

  /** The trimmed comma-separated fields of a line. */
  function Fields(line: string): seq<string> {
    TrimAll(Split(line, ','))
  }

  /** Every piece trimmed (see TrimAllPointwise). */
  function TrimAll(parts: seq<string>): (r: seq<string>)
    ensures |r| == |parts|
  {
    if parts == [] then [] else [Trim(parts[0])] + TrimAll(parts[1..])
  }

  /** Each piece is trimmed on its own, in place. */
  lemma {:induction false} TrimAllPointwise(parts: seq<string>)
    ensures forall i | 0 <= i < |parts| :: TrimAll(parts)[i] == Trim(parts[i])
  {
    if parts != [] {
      TrimAllPointwise(parts[1..]);
      assert forall i | 1 <= i < |parts| :: parts[1..][i - 1] == parts[i];
    }
  }

  /** A row written by joining comma-free fields that carry no surrounding
      whitespace is read back field for field. */
  lemma FieldsOfJoin(fields: seq<string>)
    requires |fields| >= 1
    requires forall i | 0 <= i < |fields| :: ',' !in fields[i] && Trim(fields[i]) == fields[i]
    ensures Fields(Join(fields, ',')) == fields
  {
    SplitJoin(fields, ',');
    TrimAllPointwise(fields);
  }
}
