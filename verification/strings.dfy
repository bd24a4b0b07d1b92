/** The JavaScript string primitives the mailer relies on, stated over
    `seq<char>`: `trim`, the `\s` character class, ASCII `toLowerCase`,
    `endsWith`, `split` on a literal separator, `join`, and the decimal
    rendering of a count inside a template literal. */
module Strings {

  /** ECMAScript WhiteSpace and LineTerminator code points (sections 12.2 and
      12.3 of ECMA-262): exactly the characters `String.prototype.trim` strips
      and the regular-expression class `\s` matches. */
  predicate IsWhitespace(c: char) {
    || c == '\t' || c == '\n' || c == '\U{000B}' || c == '\U{000C}' || c == '\r'
    || c == ' ' || c == '\U{00A0}' || c == '\U{1680}'
    || ('\U{2000}' <= c <= '\U{200A}')
    || c == '\U{2028}' || c == '\U{2029}' || c == '\U{202F}' || c == '\U{205F}'
    || c == '\U{3000}' || c == '\U{FEFF}'
  }

  /** Every character is white space (so `s.trim() === ''`). */
  predicate IsBlank(s: string) {
    forall i :: 0 <= i < |s| ==> IsWhitespace(s[i])
  }

  /** Neither end of `s` is white space. */
  predicate IsTrimmed(s: string) {
    s == [] || (!IsWhitespace(s[0]) && !IsWhitespace(s[|s| - 1]))
  }

  /** How many white-space characters `s` starts with. */
  function LeadingBlanks(s: string): (n: nat)
    ensures n <= |s| && IsBlank(s[..n])
    ensures n < |s| ==> !IsWhitespace(s[n])
    decreases |s|
  {
    if s != [] && IsWhitespace(s[0]) then
      var n := 1 + LeadingBlanks(s[1..]);
      assert s[..n] == [s[0]] + s[1..][..n - 1];
      n
    else 0
  }

  /** Where the white space at the end of `s` begins. */
  function TrailingStart(s: string): (n: nat)
    ensures n <= |s| && IsBlank(s[n..])
    ensures n > 0 ==> !IsWhitespace(s[n - 1])
    decreases |s|
  {
    if s != [] && IsWhitespace(s[|s| - 1]) then
      var p := s[..|s| - 1];
      var n := TrailingStart(p);
      assert s[n..] == p[n..] + [s[|s| - 1]];
      n
    else |s|
  }

  /** `s` with its leading white space removed. */
  function TrimStart(s: string): (r: string)
    ensures |r| <= |s| && r == s[|s| - |r|..]
    ensures r == [] || !IsWhitespace(r[0])
  {
    s[LeadingBlanks(s)..]
  }

  /** `s` with its trailing white space removed. */
  function TrimEnd(s: string): (r: string)
    ensures |r| <= |s| && r == s[..|r|]
    ensures r == [] || !IsWhitespace(r[|r| - 1])
  {
    s[..TrailingStart(s)]
  }

  /** JavaScript's `String.prototype.trim`: the result is the infix of `s`
      left after removing white space at both ends. */
  function Trim(s: string): (r: string)
    ensures IsTrimmed(r)
    ensures |r| <= |s|
    ensures exists i, j :: 0 <= i <= j <= |s| && r == s[i..j] && IsBlank(s[..i]) && IsBlank(s[j..])
    ensures IsBlank(s) <==> r == []
    ensures IsTrimmed(s) ==> r == s
  {
    TrimEndsTrimmed(s);
    TrimInfix(s);
    TrimEmptyIffBlank(s);
    TrimOfTrimmed(s);
    TrimEnd(TrimStart(s))
  }

  /** Both ends of the trimmed string are non-white-space. */
  lemma TrimEndsTrimmed(s: string)
    ensures IsTrimmed(TrimEnd(TrimStart(s)))
  {
    var t := TrimStart(s);
    assert TrimEnd(t) != [] ==> TrimEnd(t)[0] == t[0];
  }

  /** The trimmed string is an infix of `s` between two blank margins. */
  lemma TrimInfix(s: string)
    ensures exists i, j ::
      0 <= i <= j <= |s| && TrimEnd(TrimStart(s)) == s[i..j] && IsBlank(s[..i]) && IsBlank(s[j..])
  {
    var i := LeadingBlanks(s);
    var t := s[i..];
    var j := i + TrailingStart(t);
    assert t[..TrailingStart(t)] == s[i..j];
    assert t[TrailingStart(t)..] == s[j..];
  }

  /** Trimming leaves nothing exactly when the string is blank. */
  lemma TrimEmptyIffBlank(s: string)
    ensures IsBlank(s) <==> TrimEnd(TrimStart(s)) == []
  {
    var i := LeadingBlanks(s);
    var t := s[i..];
    if TrimEnd(t) == [] {
      assert s == s[..i] + t;
    }
  }

  /** A trimmed string trims to itself. */
  lemma TrimOfTrimmed(s: string)
    ensures IsTrimmed(s) ==> TrimEnd(TrimStart(s)) == s
  {
  }

  /** White space in front of a string not starting with white space is
      exactly what `TrimStart` removes. */
  lemma {:induction false} LeadingBlanksOfBlankPrefix(a: string, t: string)
    requires IsBlank(a) && (t == [] || !IsWhitespace(t[0]))
    ensures LeadingBlanks(a + t) == |a|
    decreases |a|
  {
    if a == [] {
      assert a + t == t;
    } else {
      assert (a + t)[0] == a[0] && (a + t)[1..] == a[1..] + t;
      LeadingBlanksOfBlankPrefix(a[1..], t);
    }
  }

  /** White space after a string not ending in white space is exactly what
      `TrimEnd` removes. */
  lemma {:induction false} TrailingStartOfBlankSuffix(t: string, b: string)
    requires IsBlank(b) && (t == [] || !IsWhitespace(t[|t| - 1]))
    ensures TrailingStart(t + b) == |t|
    decreases |b|
  {
    if b == [] {
      assert t + b == t;
    } else {
      var u := t + b;
      assert u[|u| - 1] == b[|b| - 1] && u[..|u| - 1] == t + b[..|b| - 1];
      TrailingStartOfBlankSuffix(t, b[..|b| - 1]);
    }
  }

  /** `trim` is characterised by its result: whenever `s` is a trimmed
      string between two blank margins, `Trim` returns that string. */
  lemma TrimCharacterised(a: string, m: string, b: string)
    requires IsBlank(a) && IsTrimmed(m) && IsBlank(b)
    ensures Trim(a + m + b) == m
  {
    if m == [] {
      assert a + m + b == a + b;
      assert IsBlank(a + b);
    } else {
      assert a + m + b == a + (m + b);
      LeadingBlanksOfBlankPrefix(a, m + b);
      assert TrimStart(a + m + b) == m + b;
      TrailingStartOfBlankSuffix(m, b);
    }
  }

  /** ASCII case folding of one character. */
  function LowerChar(c: char): char {
    if 'A' <= c <= 'Z' then (c as int + 32) as char else c
  }

  /** `toLowerCase` restricted to ASCII letters; every other character is kept. */
  function Lower(s: string): (r: string)
    ensures |r| == |s|
    ensures forall i :: 0 <= i < |s| ==> r[i] == LowerChar(s[i])
  {
    seq(|s|, i requires 0 <= i < |s| => LowerChar(s[i]))
  }

  /** `s.endsWith(suffix)`. */
  predicate EndsWith(s: string, suffix: string) {
    |suffix| <= |s| && s[|s| - |suffix|..] == suffix
  }

  /** `sub` occurs somewhere in `s`. */
  predicate HasInfix(s: string, sub: string)
    decreases |s|
  {
    |sub| <= |s| && (s[..|sub|] == sub || HasInfix(s[1..], sub))
  }

  /** `s.split(sep)` for a non-empty literal separator: the pieces between
      the occurrences of `sep` found left to right without overlap. */
  function SplitOn(s: string, sep: string): (parts: seq<string>)
    requires sep != []
    ensures |parts| >= 1
    ensures parts[0] <= s
    decreases |s|
  {
    if |s| < |sep| then [s]
    else if s[..|sep|] == sep then [""] + SplitOn(s[|sep|..], sep)
    else
      var rest := SplitOn(s[1..], sep);
      [[s[0]] + rest[0]] + rest[1..]
  }

  /** A string starting with the separator splits into an empty piece and
      the pieces of the remainder. */
  lemma SplitOnAtSep(rest: string, sep: string)
    requires sep != []
    ensures SplitOn(sep + rest, sep) == [""] + SplitOn(rest, sep)
  {
    assert (sep + rest)[..|sep|] == sep;
    assert (sep + rest)[|sep|..] == rest;
  }

  /** Characters that cannot start the separator join the first piece. */
  lemma {:induction false} SplitOnSkip(a: string, rest: string, sep: string)
    requires sep != []
    requires forall i :: 0 <= i < |a| ==> a[i] != sep[0]
    ensures SplitOn(a + rest, sep) == [a + SplitOn(rest, sep)[0]] + SplitOn(rest, sep)[1..]
    decreases |a|
  {
    var r := SplitOn(rest, sep);
    if a == [] {
      assert a + rest == rest;
      assert a + r[0] == r[0];
      assert r == [r[0]] + r[1..];
    } else {
      var s := a + rest;
      assert s[1..] == a[1..] + rest && s[0] == a[0];
      SplitOnSkip(a[1..], rest, sep);
      if |s| >= |sep| {
        assert s[..|sep|][0] != sep[0];
        assert SplitOn(s, sep) == [[s[0]] + SplitOn(s[1..], sep)[0]] + SplitOn(s[1..], sep)[1..];
      }
      assert [a[0]] + (a[1..] + r[0]) == a + r[0];
    }
  }

  /** `parts.join(sep)`. */
  function Join(parts: seq<string>, sep: string): string
  {
    if |parts| == 0 then ""
    else if |parts| == 1 then parts[0]
    else parts[0] + sep + Join(parts[1..], sep)
  }

  /** Prepending to the first piece prepends to the joined string. */
  lemma JoinPrependHead(x: string, parts: seq<string>, sep: string)
    requires |parts| >= 1
    ensures Join([x + parts[0]] + parts[1..], sep) == x + Join(parts, sep)
  {
    var q := [x + parts[0]] + parts[1..];
    assert q[1..] == parts[1..];
  }

  /** A leading empty piece puts a separator first. */
  lemma JoinEmptyHead(parts: seq<string>, sep: string)
    requires |parts| >= 1
    ensures Join([""] + parts, sep) == sep + Join(parts, sep)
  {
    assert ([""] + parts)[1..] == parts;
  }

  /** Splitting and joining back with the same separator restores the string. */
  lemma {:induction false} SplitJoinRoundTrip(s: string, sep: string)
    requires sep != []
    ensures Join(SplitOn(s, sep), sep) == s
    decreases |s|
  {
    if |s| < |sep| {
    } else if s[..|sep|] == sep {
      var rest := SplitOn(s[|sep|..], sep);
      SplitJoinRoundTrip(s[|sep|..], sep);
      assert SplitOn(s, sep) == [""] + rest;
      JoinEmptyHead(rest, sep);
      assert s == sep + s[|sep|..];
    } else {
      var rest := SplitOn(s[1..], sep);
      SplitJoinRoundTrip(s[1..], sep);
      JoinPrependHead([s[0]], rest, sep);
      assert s == [s[0]] + s[1..];
    }
  }

  /** Splitting on one character gives one piece more than there are
      occurrences of that character. */
  lemma {:induction false} SplitOnCharCount(s: string, c: char)
    ensures |SplitOn(s, [c])| == multiset(s)[c] + 1
    decreases |s|
  {
    if s != [] {
      SplitOnCharCount(s[1..], c);
      assert s == [s[0]] + s[1..];
      assert multiset(s)[c] == multiset(s[1..])[c] + (if s[0] == c then 1 else 0);
      assert s[..1] == [s[0]];
    }
  }

  /** Pieces free of a one-character separator come back unchanged when
      joined with it and split again. */
  lemma {:induction false} SplitOnJoin(parts: seq<string>, c: char)
    requires |parts| >= 1
    requires forall i :: 0 <= i < |parts| ==> c !in parts[i]
    ensures SplitOn(Join(parts, [c]), [c]) == parts
    decreases |parts|
  {
    var sep := [c];
    var p := parts[0];
    if |parts| == 1 {
      SplitOnWithoutSep(p, c);
    } else {
      var tail := Join(parts[1..], sep);
      SplitOnJoin(parts[1..], c);
      SplitOnAtSep(tail, sep);
      NoSepChar(p, c);
      SplitOnSkip(p, sep + tail, sep);
      assert Join(parts, sep) == p + (sep + tail);
      assert SplitOn(sep + tail, sep)[0] == "" && SplitOn(sep + tail, sep)[1..] == parts[1..];
      assert p + "" == p;
    }
  }

  /** A string without `c` has no position where the separator `[c]` starts. */
  lemma NoSepChar(p: string, c: char)
    requires c !in p
    ensures forall i :: 0 <= i < |p| ==> p[i] != [c][0]
  {
  }

  /** A string without the separator character is a single piece. */
  lemma SplitOnWithoutSep(p: string, c: char)
    requires c !in p
    ensures SplitOn(p, [c]) == [p]
  {
    NoSepChar(p, c);
    SplitOnSkip(p, "", [c]);
    assert p + "" == p;
  }

  /** No piece produced by `SplitOn` contains the separator. */
  lemma {:induction false} SplitPartsAvoidSep(s: string, sep: string)
    requires sep != []
    ensures forall i :: 0 <= i < |SplitOn(s, sep)| ==> !HasInfix(SplitOn(s, sep)[i], sep)
    decreases |s|
  {
    var parts := SplitOn(s, sep);
    if |s| < |sep| {
    } else if s[..|sep|] == sep {
      SplitPartsAvoidSep(s[|sep|..], sep);
      assert !HasInfix("", sep);
      assert parts == [""] + SplitOn(s[|sep|..], sep);
    } else {
      var rest := SplitOn(s[1..], sep);
      SplitPartsAvoidSep(s[1..], sep);
      var head := [s[0]] + rest[0];
      assert head <= s;
      assert head[1..] == rest[0];
      if |sep| <= |head| {
        assert head[..|sep|] == s[..|sep|];
      }
      assert !HasInfix(head, sep);
      forall i | 1 <= i < |parts|
        ensures !HasInfix(parts[i], sep)
      {
        assert parts[i] == rest[i];
      }
    }
  }

  /** Total length of all pieces. */
  function TotalLength(parts: seq<string>): nat
  {
    if parts == [] then 0 else |parts[0]| + TotalLength(parts[1..])
  }

  /** Joining `n` pieces adds `n - 1` copies of the separator. */
  lemma {:induction false} JoinLength(parts: seq<string>, sep: string)
    requires |parts| >= 1
    ensures |Join(parts, sep)| == TotalLength(parts) + (|parts| - 1) * |sep|
  {
    if |parts| > 1 {
      JoinLength(parts[1..], sep);
    }
  }

  /** One decimal digit. */
  function DigitChar(d: nat): (c: char)
    requires d < 10
    ensures '0' <= c <= '9'
  {
    ('0' as int + d) as char
  }

  /** Decimal rendering of a natural number, as a template literal prints it. */
  function NatToString(n: nat): (s: string)
    ensures |s| >= 1
    ensures forall i :: 0 <= i < |s| ==> '0' <= s[i] <= '9'
    ensures s[0] == '0' ==> n == 0 && s == "0"
    decreases n
  {
    if n < 10 then [DigitChar(n)] else NatToString(n / 10) + [DigitChar(n % 10)]
  }

  /** The value of a string of decimal digits. */
  function DigitsValue(s: string): nat
    requires forall i :: 0 <= i < |s| ==> '0' <= s[i] <= '9'
  {
    if s == [] then 0 else DigitsValue(s[..|s| - 1]) * 10 + (s[|s| - 1] as int - '0' as int)
  }

  /** Reading back the rendered digits gives the number. */
  lemma {:induction false} NatToStringRoundTrip(n: nat)
    ensures DigitsValue(NatToString(n)) == n
    decreases n
  {
    var s := NatToString(n);
    if n >= 10 {
      NatToStringRoundTrip(n / 10);
      assert s[..|s| - 1] == NatToString(n / 10);
    }
  }
}
