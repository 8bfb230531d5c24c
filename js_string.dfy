/**
 * The JavaScript string operations the handlers and the results table use:
 * `trim`, `includes`, `split`/`join` on one separator character, `replaceAll`
 * of one character, and ASCII `toUpperCase`/`toLowerCase`.
 */
module JsString {

  /** ECMAScript WhiteSpace and LineTerminator code points, the characters `String.prototype.trim` strips. */
  predicate IsWhitespace(c: char) {
    || c == '\t' || c == '\n' || c == '\U{B}' || c == '\U{C}' || c == '\r' || c == ' '
    || c == '\U{A0}' || c == '\U{1680}' || ('\U{2000}' <= c <= '\U{200A}')
    || c == '\U{2028}' || c == '\U{2029}' || c == '\U{202F}' || c == '\U{205F}'
    || c == '\U{3000}' || c == '\U{FEFF}'
  }

  predicate AllWhitespace(s: string) {
    forall i :: 0 <= i < |s| ==> IsWhitespace(s[i])
  }

  /** `r` is what is left of `s` once a whitespace prefix and a whitespace suffix are cut off,
      and `r` neither starts nor ends with whitespace. */
  ghost predicate IsTrimOf(r: string, s: string) {
    && (r == [] || (!IsWhitespace(r[0]) && !IsWhitespace(r[|r| - 1])))
    && exists i :: 0 <= i <= |s| - |r| && s[i..i + |r|] == r && AllWhitespace(s[..i]) && AllWhitespace(s[i + |r|..])
  }

  function TrimStart(s: string): (r: string)
    ensures |r| <= |s| && r == s[|s| - |r|..]
    ensures AllWhitespace(s[..|s| - |r|])
    ensures r == [] || !IsWhitespace(r[0])
  {
    if s != [] && IsWhitespace(s[0]) then
      var r := TrimStart(s[1..]);
      assert s[..|s| - |r|] == [s[0]] + s[1..][..|s| - 1 - |r|];
      r
    else
      s
  }

  function TrimEnd(s: string): (r: string)
    ensures |r| <= |s| && r == s[..|r|]
    ensures AllWhitespace(s[|r|..])
    ensures r == [] || !IsWhitespace(r[|r| - 1])
  {
    if s != [] && IsWhitespace(s[|s| - 1]) then
      var r := TrimEnd(s[..|s| - 1]);
      assert s[|r|..] == s[..|s| - 1][|r|..] + [s[|s| - 1]];
      r
    else
      s
  }

  /** `s.trim()` */
  function Trim(s: string): (r: string)
    ensures IsTrimOf(r, s)
  {
    var t := TrimStart(s);
    var r := TrimEnd(t);
    var i := |s| - |t|;
    assert s[i..i + |r|] == r by { assert s[i..i + |r|] == t[..|r|]; }
    assert s[i + |r|..] == t[|r|..];
    assert r != [] ==> r[0] == t[0];
    TrimAt(r, s, i);
    r
  }

  lemma TrimAt(r: string, s: string, i: int)
    requires 0 <= i <= |s| - |r| && s[i..i + |r|] == r
    requires AllWhitespace(s[..i]) && AllWhitespace(s[i + |r|..])
    requires r == [] || (!IsWhitespace(r[0]) && !IsWhitespace(r[|r| - 1]))
    ensures IsTrimOf(r, s)
  {
  }

  /** The pointwise reading of a trim witness `i`. */
  lemma TrimOffsets(r: string, s: string, i: int)
    requires 0 <= i <= |s| - |r| && s[i..i + |r|] == r
    requires AllWhitespace(s[..i]) && AllWhitespace(s[i + |r|..])
    ensures forall k :: 0 <= k < i ==> IsWhitespace(s[k])
    ensures forall k :: i + |r| <= k < |s| ==> IsWhitespace(s[k])
    ensures forall k :: 0 <= k < |r| ==> s[i + k] == r[k]
  {
    forall k | 0 <= k < i ensures IsWhitespace(s[k]) { assert s[..i][k] == s[k]; }
    forall k | i + |r| <= k < |s| ensures IsWhitespace(s[k]) { assert s[i + |r|..][k - i - |r|] == s[k]; }
    forall k | 0 <= k < |r| ensures s[i + k] == r[k] { assert s[i..i + |r|][k] == s[i + k]; }
  }

  /** The contract of `Trim` pins its result down: at most one string is a trim of `s`. */
  lemma TrimOfIsUnique(r1: string, r2: string, s: string)
    requires IsTrimOf(r1, s) && IsTrimOf(r2, s)
    ensures r1 == r2
  {
    var i1 :| 0 <= i1 <= |s| - |r1| && s[i1..i1 + |r1|] == r1 && AllWhitespace(s[..i1]) && AllWhitespace(s[i1 + |r1|..]);
    var i2 :| 0 <= i2 <= |s| - |r2| && s[i2..i2 + |r2|] == r2 && AllWhitespace(s[..i2]) && AllWhitespace(s[i2 + |r2|..]);
    TrimOffsets(r1, s, i1);
    TrimOffsets(r2, s, i2);
    if r1 != [] && r2 != [] {
      // both start at the first non-whitespace character of s and end at the last one
      assert i1 == i2;
      assert i1 + |r1| == i2 + |r2|;
    } else {
      // one of them is empty, so s is blank and cannot hold a non-blank string
      assert r1 == [] && r2 == [];
    }
  }

  /** Trimming twice is trimming once. */
  lemma TrimIdempotent(s: string)
    ensures Trim(Trim(s)) == Trim(s)
  {
    var r := Trim(s);
    assert r[0..0 + |r|] == r && r[..0] == [] && r[0 + |r|..] == [];
    TrimOfIsUnique(Trim(r), r, r);
  }

  /** A string trims to the empty string exactly when it is all whitespace. */
  lemma TrimEmptyIffBlank(s: string)
    ensures Trim(s) == [] <==> AllWhitespace(s)
  {
    var r := Trim(s);
    var i :| 0 <= i <= |s| - |r| && s[i..i + |r|] == r && AllWhitespace(s[..i]) && AllWhitespace(s[i + |r|..]);
    TrimOffsets(r, s, i);
    if r != [] {
      assert s[i] == r[0];
    }
  }

  function UpperChar(c: char): char {
    if 'a' <= c <= 'z' then (c as int - 32) as char else c
  }

  function LowerChar(c: char): char {
    if 'A' <= c <= 'Z' then (c as int + 32) as char else c
  }

  /** `s.toLowerCase()`, ASCII letters only */
  function ToLower(s: string): string {
    seq(|s|, i requires 0 <= i < |s| => LowerChar(s[i]))
  }

  ghost predicate OccursAt(hay: string, needle: string, i: int) {
    0 <= i && i + |needle| <= |hay| && hay[i..i + |needle|] == needle
  }

  /** `hay.includes(needle)` */
  function Includes(hay: string, needle: string): (b: bool)
    ensures b <==> exists i :: OccursAt(hay, needle, i)
  {
    if |needle| > |hay| then
      false
    else if hay[..|needle|] == needle then
      assert OccursAt(hay, needle, 0);
      true
    else
      var b := Includes(hay[1..], needle);
      assert b ==> exists i :: OccursAt(hay, needle, i) by {
        if b {
          var j :| OccursAt(hay[1..], needle, j);
          assert hay[1..][j..j + |needle|] == hay[j + 1..j + 1 + |needle|];
          assert OccursAt(hay, needle, j + 1);
        }
      }
      assert (exists i :: OccursAt(hay, needle, i)) ==> b by {
        if exists i :: OccursAt(hay, needle, i) {
          var i :| OccursAt(hay, needle, i);
          assert i != 0;
          assert hay[1..][i - 1..i - 1 + |needle|] == hay[i..i + |needle|];
          assert OccursAt(hay[1..], needle, i - 1);
        }
      }
      b
  }

  /** `s.replaceAll(from, to)` for one-character strings `from` and `to` */
  function ReplaceAll(s: string, from: char, to: char): (r: string)
    ensures |r| == |s|
    ensures from != to ==> from !in r
    ensures forall i :: 0 <= i < |s| && s[i] != from ==> r[i] == s[i]
    ensures forall i :: 0 <= i < |s| && s[i] == from ==> r[i] == to
  {
    seq(|s|, i requires 0 <= i < |s| => if s[i] == from then to else s[i])
  }

  /** `s.indexOf(c)` */
  function IndexOfChar(s: string, c: char): (r: int)
    ensures -1 <= r < |s|
    ensures r == -1 <==> c !in s
    ensures r >= 0 ==> s[r] == c && c !in s[..r]
  {
    if s == [] then -1
    else if s[0] == c then 0
    else
      var r := IndexOfChar(s[1..], c);
      if r == -1 then -1
      else
        assert s[..r + 1] == [s[0]] + s[1..][..r];
        r + 1
  }

  /** The first occurrence is where `c` occurs with none before it. */
  lemma IndexOfCharAt(s: string, c: char, k: int)
    requires 0 <= k < |s| && s[k] == c && c !in s[..k]
    ensures IndexOfChar(s, c) == k
  {
    var r := IndexOfChar(s, c);
    forall j | 0 <= j < k ensures s[j] != c { assert s[..k][j] == s[j]; }
    forall j | 0 <= j < r ensures s[j] != c { assert s[..r][j] == s[j]; }
  }

  /** `parts.join(sep)` */
  function Join(parts: seq<string>, sep: char): string {
    if |parts| == 0 then ""
    else if |parts| == 1 then parts[0]
    else parts[0] + [sep] + Join(parts[1..], sep)
  }

  /** `s.split(sep)`: the pieces between occurrences of `sep`, always at least one. */
  function Split(s: string, sep: char): (parts: seq<string>)
    ensures |parts| >= 1
    ensures forall p :: p in parts ==> sep !in p
    ensures Join(parts, sep) == s
    decreases |s|
  {
    var i := IndexOfChar(s, sep);
    if i < 0 then
      [s]
    else
      var rest := Split(s[i + 1..], sep);
      assert ([s[..i]] + rest)[1..] == rest;
      assert s == s[..i] + [sep] + s[i + 1..];
      [s[..i]] + rest
  }

  /** The other round trip: pieces free of `sep` are split back out of their join. */
  lemma {:induction false} SplitJoin(parts: seq<string>, sep: char)
    requires |parts| >= 1
    requires forall p :: p in parts ==> sep !in p
    ensures Split(Join(parts, sep), sep) == parts
  {
    if |parts| > 1 {
      var s := Join(parts, sep);
      assert s == parts[0] + [sep] + Join(parts[1..], sep);
      assert s[|parts[0]|] == sep;
      assert s[..|parts[0]|] == parts[0];
      IndexOfCharAt(s, sep, |parts[0]|);
      assert s[|parts[0]| + 1..] == Join(parts[1..], sep);
      SplitJoin(parts[1..], sep);
      assert parts == [parts[0]] + parts[1..];
    }
  }
}
