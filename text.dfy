/** String operations the chat controller borrows from JavaScript:
    `String.prototype.trim`, `split(/\s+/)`, `includes`, and case mapping,
    which this model restricts to ASCII letters. */
module JsText {

  /** The code points ECMAScript counts as WhiteSpace or LineTerminator:
      exactly what `trim()` strips and what the regular expression `\s` matches. */
  predicate IsSpace(c: char) {
    || c == '\t' || c == '\n' || c == '\U{B}' || c == '\U{C}' || c == '\r' || c == ' '
    || c == '\U{A0}' || c == '\U{1680}' || ('\U{2000}' <= c <= '\U{200A}')
    || c == '\U{2028}' || c == '\U{2029}' || c == '\U{202F}' || c == '\U{205F}'
    || c == '\U{3000}' || c == '\U{FEFF}'
  }

  predicate IsBlank(s: string) {
    forall i :: 0 <= i < |s| ==> IsSpace(s[i])
  }

  /** `s` holds no white space. */
  predicate NoSpace(s: string) {
    forall i :: 0 <= i < |s| ==> !IsSpace(s[i])
  }

  /** `s.trimStart()`: the suffix left after dropping leading white space. */
  function TrimStart(s: string): (r: string)
    ensures |r| <= |s| && r == s[|s| - |r|..]
    ensures r == [] || !IsSpace(r[0])
    ensures IsBlank(s[..|s| - |r|])
  {
    if s != [] && IsSpace(s[0]) then TrimStart(s[1..]) else s
  }

  /** `s.trimEnd()`: the prefix left after dropping trailing white space. */
  function TrimEnd(s: string): (r: string)
    ensures |r| <= |s| && r == s[..|r|]
    ensures r == [] || !IsSpace(r[|r| - 1])
    ensures IsBlank(s[|r|..])
  {
    if s != [] && IsSpace(s[|s| - 1]) then TrimEnd(s[..|s| - 1]) else s
  }

  /** `s.trim()`. */
  function Trim(s: string): (r: string)
    ensures |r| <= |s|
  {
    TrimEnd(TrimStart(s))
  }

  /** A string with no white space at either end. */
  predicate IsTrimmed(s: string) {
    s == [] || (!IsSpace(s[0]) && !IsSpace(s[|s| - 1]))
  }

  lemma TrimEndKeepsHead(s: string)
    requires s == [] || !IsSpace(s[0])
    ensures TrimEnd(s) == [] <==> s == []
    ensures TrimEnd(s) != [] ==> TrimEnd(s)[0] == s[0]
  {
  }

  /** Trim's result is the unique trimmed middle of `s` between two blank
      margins: any split of `s` into blank, trimmed and blank parts has it
      as its middle. */
  lemma {:induction false} TrimIsMiddle(a: string, m: string, b: string)
    requires IsBlank(a) && IsBlank(b) && IsTrimmed(m)
    ensures Trim(a + m + b) == m
  {
    if m == [] {
      assert IsBlank(a + m + b);
      TrimStartOfBlank(a + m + b);
    } else {
      assert a + m + b == a + (m + b);
      TrimStartOfBlankPrefix(a, m + b);
      TrimEndOfBlankSuffix(m, b);
    }
  }

  lemma {:induction false} TrimStartOfBlank(s: string)
    requires IsBlank(s)
    ensures TrimStart(s) == []
  {
    if s != [] {
      TrimStartOfBlank(s[1..]);
    }
  }

  lemma {:induction false} TrimStartOfBlankPrefix(a: string, s: string)
    requires IsBlank(a)
    requires s == [] || !IsSpace(s[0])
    ensures TrimStart(a + s) == s
  {
    if a != [] {
      assert (a + s)[1..] == a[1..] + s;
      TrimStartOfBlankPrefix(a[1..], s);
    } else {
      assert a + s == s;
    }
  }

  lemma {:induction false} TrimEndOfBlankSuffix(m: string, b: string)
    requires m != [] && !IsSpace(m[|m| - 1])
    requires IsBlank(b)
    ensures TrimEnd(m + b) == m
  {
    if b == [] {
      assert m + b == m;
    } else {
      assert (m + b)[..|m + b| - 1] == m + b[..|b| - 1];
      TrimEndOfBlankSuffix(m, b[..|b| - 1]);
    }
  }

  /** Trim returns a trimmed string, and the empty string exactly for blank input. */
  lemma TrimProperties(s: string)
    ensures IsTrimmed(Trim(s))
    ensures Trim(s) == [] <==> IsBlank(s)
  {
    var t := TrimStart(s);
    TrimEndKeepsHead(t);
    if IsBlank(s) {
      TrimStartOfBlank(s);
    }
    if Trim(s) == [] {
      assert t == [];
      assert s == s[..|s| - |t|];
    }
  }

  /** Trimming twice is trimming once. */
  lemma TrimIdempotent(s: string)
    ensures Trim(Trim(s)) == Trim(s)
  {
    TrimProperties(s);
    TrimOfTrimmed(Trim(s));
  }

  /** A trimmed string is its own trim. */
  lemma TrimOfTrimmed(t: string)
    requires IsTrimmed(t)
    ensures Trim(t) == t
  {
    assert TrimStart(t) == t;
  }

  /** The end of the run of non-space characters that starts at `i`. */
  function WordEnd(s: string, i: nat): (e: nat)
    requires i <= |s|
    ensures i <= e <= |s|
    ensures forall j :: i <= j < e ==> !IsSpace(s[j])
    ensures e < |s| ==> IsSpace(s[e])
    decreases |s| - i
  {
    if i == |s| || IsSpace(s[i]) then i else WordEnd(s, i + 1)
  }

  /** The end of the run of white space that starts at `i`. */
  function SpaceEnd(s: string, i: nat): (e: nat)
    requires i <= |s|
    ensures i <= e <= |s|
    ensures forall j :: i <= j < e ==> IsSpace(s[j])
    ensures e < |s| ==> !IsSpace(s[e])
    decreases |s| - i
  {
    if i == |s| || !IsSpace(s[i]) then i else SpaceEnd(s, i + 1)
  }

  /** The pieces of `s[i..]` between maximal runs of white space. */
  function SplitFrom(s: string, i: nat): (parts: seq<string>)
    requires i <= |s|
    ensures |parts| >= 1
    ensures forall k :: 0 <= k < |parts| ==> NoSpace(parts[k])
    decreases |s| - i
  {
    var e := WordEnd(s, i);
    if e == |s| then [s[i..]] else [s[i..e]] + SplitFrom(s, SpaceEnd(s, e))
  }

  /** `s.split(/\s+/)`: the pieces between maximal runs of white space.
      As in JavaScript, the empty string splits into one empty piece, and
      leading or trailing white space yields an empty first or last piece. */
  function Split(s: string): (parts: seq<string>)
    ensures |parts| >= 1
    ensures forall k :: 0 <= k < |parts| ==> NoSpace(parts[k])
  {
    SplitFrom(s, 0)
  }

  /** The first piece of a split is the leading run of non-space characters. */
  lemma SplitHead(s: string)
    ensures Split(s)[0] == s[..WordEnd(s, 0)]
  {
  }

  /** When `s` ends in a non-space character, the last piece of the split
      of `s[i..]` is a non-empty run of non-space characters. */
  lemma {:induction false} SplitFromLast(s: string, i: nat)
    requires i < |s| && !IsSpace(s[|s| - 1])
    ensures var parts := SplitFrom(s, i);
      parts[|parts| - 1] != [] && NoSpace(parts[|parts| - 1])
    decreases |s| - i
  {
    var e := WordEnd(s, i);
    if e < |s| {
      var j := SpaceEnd(s, e);
      SplitFromLast(s, j);
      var tail := SplitFrom(s, j);
      assert SplitFrom(s, i) == [s[i..e]] + tail;
      assert SplitFrom(s, i)[|SplitFrom(s, i)| - 1] == tail[|tail| - 1];
    } else {
      assert NoSpace(s[i..]);
    }
  }

  /** For a string that ends in a non-space character, the last piece of the
      split is a non-empty run of non-space characters. */
  lemma SplitLast(s: string)
    requires s != [] && !IsSpace(s[|s| - 1])
    ensures var last := Split(s)[|Split(s)| - 1];
      last != [] && NoSpace(last)
  {
    SplitFromLast(s, 0);
  }

  /** The split has a single piece exactly when `s` holds no white space. */
  lemma SplitSingle(s: string)
    ensures |Split(s)| == 1 <==> NoSpace(s)
  {
    var e := WordEnd(s, 0);
    if e < |s| {
      assert Split(s) == [s[..e]] + SplitFrom(s, SpaceEnd(s, e));
      assert !NoSpace(s);
    } else {
      assert NoSpace(s);
    }
  }

  /** ASCII form of `toLowerCase` on one character. */
  function LowerChar(c: char): char {
    if 'A' <= c <= 'Z' then (c as int + 32) as char else c
  }

  /** ASCII form of `toUpperCase` on one character. */
  function UpperChar(c: char): char {
    if 'a' <= c <= 'z' then (c as int - 32) as char else c
  }

  function ToLower(s: string): (r: string)
    ensures |r| == |s|
    ensures forall i :: 0 <= i < |s| ==> r[i] == LowerChar(s[i])
  {
    seq(|s|, i requires 0 <= i < |s| => LowerChar(s[i]))
  }

  function ToUpper(s: string): (r: string)
    ensures |r| == |s|
    ensures forall i :: 0 <= i < |s| ==> r[i] == UpperChar(s[i])
  {
    seq(|s|, i requires 0 <= i < |s| => UpperChar(s[i]))
  }

  /** Lower-casing leaves no upper-case ASCII letter and is idempotent. */
  lemma ToLowerIdempotent(s: string)
    ensures forall i :: 0 <= i < |s| ==> !('A' <= ToLower(s)[i] <= 'Z')
    ensures ToLower(ToLower(s)) == ToLower(s)
  {
  }

  /** `sub` occurs in `s` starting at index `i`. */
  predicate OccursAt(s: string, sub: string, i: nat) {
    i + |sub| <= |s| && s[i..i + |sub|] == sub
  }

  /** `s.includes(sub)`. */
  function Includes(s: string, sub: string): (b: bool)
    ensures b <==> exists i: nat :: OccursAt(s, sub, i)
  {
    if |sub| <= |s| && s[..|sub|] == sub then
      assert OccursAt(s, sub, 0);
      true
    else if s == [] then
      assert forall i: nat :: !OccursAt(s, sub, i);
      false
    else
      var b := Includes(s[1..], sub);
      assert forall i: nat :: OccursAt(s[1..], sub, i) <==> OccursAt(s, sub, i + 1) by {
        forall i: nat ensures OccursAt(s[1..], sub, i) <==> OccursAt(s, sub, i + 1) {
          if i + |sub| <= |s[1..]| {
            assert s[1..][i..i + |sub|] == s[i + 1..i + 1 + |sub|];
          }
        }
      }
      assert !OccursAt(s, sub, 0);
      assert (exists i: nat :: OccursAt(s, sub, i)) ==> exists i: nat :: OccursAt(s[1..], sub, i) by {
        if exists i: nat :: OccursAt(s, sub, i) {
          var i: nat :| OccursAt(s, sub, i);
          assert i > 0;
          assert OccursAt(s[1..], sub, i - 1);
        }
      }
      b
  }

  /** Lexicographic order on code points, the stand-in for `localeCompare(...) <= 0`. */
  predicate LexLe(a: string, b: string) {
    a == [] || (b != [] && (a[0] < b[0] || (a[0] == b[0] && LexLe(a[1..], b[1..]))))
  }

  lemma {:induction false} LexLeTotal(a: string, b: string)
    ensures LexLe(a, b) || LexLe(b, a)
  {
    if a != [] && b != [] && a[0] == b[0] {
      LexLeTotal(a[1..], b[1..]);
    }
  }

  lemma {:induction false} LexLeTransitive(a: string, b: string, c: string)
    requires LexLe(a, b) && LexLe(b, c)
    ensures LexLe(a, c)
  {
    if a != [] && b != [] && c != [] && a[0] == b[0] == c[0] {
      LexLeTransitive(a[1..], b[1..], c[1..]);
    }
  }
}
