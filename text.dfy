/** The few `str` operations the canisters use, over Dafny strings (sequences
    of Unicode scalar values): `len()` as a UTF-8 byte count,
    `trim().is_empty()`, and `split(char)`. */
module Text {

  predicate IsAscii(c: char)
  {
    c as int < 0x80
  }

  /** Rust's `char::is_whitespace`: the Unicode White_Space property. */
  predicate IsWhitespace(c: char)
  {
    var n := c as int;
    || 0x09 <= n <= 0x0D
    || n == 0x20
    || n == 0x85
    || n == 0xA0
    || n == 0x1680
    || 0x2000 <= n <= 0x200A
    || n == 0x2028
    || n == 0x2029
    || n == 0x202F
    || n == 0x205F
    || n == 0x3000
  }

  /** Number of bytes UTF-8 uses for one scalar value. */
  function Utf8Width(c: char): (w: nat)
    ensures 1 <= w <= 4
    ensures w == 1 <==> IsAscii(c)
  {
    var n := c as int;
    if n < 0x80 then 1
    else if n < 0x800 then 2
    else if n < 0x1_0000 then 3
    else 4
  }

  /** Rust's `str::len()`: the length of the UTF-8 encoding in bytes. */
  function Utf8Len(s: string): (n: nat)
    ensures |s| <= n <= 4 * |s|
    ensures n == |s| <==> forall i :: 0 <= i < |s| ==> IsAscii(s[i])
  {
    if s == [] then 0
    else
      var n := Utf8Width(s[0]) + Utf8Len(s[1..]);
      assert forall i :: 1 <= i < |s| ==> s[i] == s[1..][i - 1];
      n
  }

  /** `s.chars().all(|c| alphabet.contains(c))`. */
  predicate AllIn(s: string, alphabet: string)
    decreases |s|
  {
    s == [] || (s[0] in alphabet && AllIn(s[1..], alphabet))
  }

  /** `AllIn` holds exactly when every character is in the alphabet. */
  lemma {:induction false} AllInMeans(s: string, alphabet: string)
    ensures AllIn(s, alphabet) <==> forall i :: 0 <= i < |s| ==> s[i] in alphabet
    decreases |s|
  {
    if s != [] {
      AllInMeans(s[1..], alphabet);
      assert forall i :: 1 <= i < |s| ==> s[i] == s[1..][i - 1];
    }
  }

  /** `AllIn` for an alphabet described by a predicate on characters. */
  lemma AllInExactly(s: string, alphabet: string, p: char -> bool)
    requires forall c :: c in alphabet <==> p(c)
    ensures AllIn(s, alphabet) <==> forall i :: 0 <= i < |s| ==> p(s[i])
  {
    AllInMeans(s, alphabet);
  }

  predicate IsBlank(s: string)
  {
    forall i :: 0 <= i < |s| ==> IsWhitespace(s[i])
  }

  /** `str::trim_start`: drops leading whitespace. */
  function TrimStart(s: string): (t: string)
    ensures |t| <= |s| && t == s[|s| - |t|..]
    ensures t == [] <==> IsBlank(s)
    ensures t != [] ==> !IsWhitespace(t[0])
  {
    if s != [] && IsWhitespace(s[0]) then
      var t := TrimStart(s[1..]);
      assert IsBlank(s[1..]) ==> IsBlank(s) by {
        if IsBlank(s[1..]) {
          forall i | 1 <= i < |s|
            ensures IsWhitespace(s[i])
          {
            assert s[i] == s[1..][i - 1];
          }
        }
      }
      t
    else s
  }

  /** `str::trim_end`: drops trailing whitespace. */
  function TrimEnd(s: string): (t: string)
    ensures |t| <= |s| && t == s[..|t|]
    ensures s != [] && !IsWhitespace(s[0]) ==> t != []
    ensures t != [] ==> !IsWhitespace(t[|t| - 1])
  {
    if s != [] && IsWhitespace(s[|s| - 1]) then
      var t := TrimEnd(s[..|s| - 1]);
      assert s[..|s| - 1][..|t|] == s[..|t|];
      t
    else s
  }

  /** `str::trim`. */
  function Trim(s: string): (t: string)
    ensures t == [] <==> IsBlank(s)
    ensures t != [] ==> !IsWhitespace(t[0]) && !IsWhitespace(t[|t| - 1])
  {
    TrimEnd(TrimStart(s))
  }

  /** Index of the first `c` in `s`, or `|s|` when there is none. */
  function IndexOrEnd(s: string, c: char): (i: nat)
    ensures i <= |s|
    ensures c !in s[..i]
    ensures i < |s| ==> s[i] == c
  {
    if s == [] || s[0] == c then 0
    else
      var i := 1 + IndexOrEnd(s[1..], c);
      assert s[..i] == [s[0]] + s[1..][..i - 1];
      i
  }

  /** The inverse of `Split`: the parts with `c` between consecutive ones. */
  function Join(parts: seq<string>, c: char): string
    requires |parts| >= 1
  {
    if |parts| == 1 then parts[0] else parts[0] + [c] + Join(parts[1..], c)
  }

  /** Rust's `str::split(c)` collected into a vector: the maximal pieces
      between occurrences of `c`; an empty string gives one empty piece. */
  function Split(s: string, c: char): (parts: seq<string>)
    ensures |parts| >= 1
    ensures parts[0] == s[..IndexOrEnd(s, c)]
    ensures forall i :: 0 <= i < |parts| ==> c !in parts[i]
    decreases |s|
  {
    var i := IndexOrEnd(s, c);
    if i == |s| then [s]
    else
      var rest := Split(s[i + 1..], c);
      var parts := [s[..i]] + rest;
      assert forall j :: 1 <= j < |parts| ==> parts[j] == rest[j - 1];
      parts
  }

  /** `Join` undoes `Split`, and there are at least two parts exactly when
      the separator occurs. */
  lemma {:induction false} SplitJoin(s: string, c: char)
    ensures Join(Split(s, c), c) == s
    ensures |Split(s, c)| >= 2 <==> c in s
    decreases |s|
  {
    var i := IndexOrEnd(s, c);
    if i < |s| {
      SplitJoin(s[i + 1..], c);
      var rest := Split(s[i + 1..], c);
      assert Split(s, c) == [s[..i]] + rest;
      assert ([s[..i]] + rest)[1..] == rest;
      assert s == s[..i] + [c] + s[i + 1..];
    } else {
      assert s[..i] == s;
    }
  }

  /** Splitting a string that starts with a `c`-free piece and a `c`: the
      first part is that piece and the rest is the split of what follows. */
  lemma SplitAfterSeparator(p: string, c: char, rest: string)
    requires c !in p
    ensures Split(p + [c] + rest, c) == [p] + Split(rest, c)
  {
    var s := p + [c] + rest;
    IndexAfterFree(p, c, rest);
    assert s[..|p|] == p;
    assert s[|p| + 1..] == rest;
  }

  lemma {:induction false} IndexAfterFree(p: string, c: char, rest: string)
    requires c !in p
    ensures IndexOrEnd(p + [c] + rest, c) == |p|
  {
    if p != [] {
      IndexAfterFree(p[1..], c, rest);
      assert (p + [c] + rest)[1..] == p[1..] + [c] + rest;
    }
  }

  /** Trimming a string without whitespace changes nothing. */
  lemma TrimLeavesCompact(s: string)
    requires forall i :: 0 <= i < |s| ==> !IsWhitespace(s[i])
    ensures Trim(s) == s
  {
    assert TrimStart(s) == s;
  }
}
