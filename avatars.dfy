/** Avatar helpers: the palette colour picked from a hash of the user id
    (`pickColor`) and the one or two initials shown in the avatar
    (`getInitials`). */
module Avatars {
  import opened JsText

  const AvatarColors: seq<string> := [
    "#6d84b4", "#7FB685", "#D4726A", "#E8A033",
    "#8b6bb0", "#5b9bd5", "#c9736e", "#6aaa5c"
  ]

  const TwoTo32: int := 0x1_0000_0000
  const TwoTo31: int := 0x8000_0000

  /** ECMAScript ToInt32: wrap an integer into the signed 32-bit range. */
  function ToInt32(x: int): (r: int)
    ensures -TwoTo31 <= r < TwoTo31
  {
    (x + TwoTo31) % TwoTo32 - TwoTo31
  }

  /** ToInt32 loses exactly the multiples of 2^32. */
  lemma ToInt32Shift(x: int, k: int)
    ensures ToInt32(x - TwoTo32 * k) == ToInt32(x)
  {
    var y := x + TwoTo31;
    var r := y % TwoTo32;
    var s := y / TwoTo32;
    assert y - TwoTo32 * k == TwoTo32 * (s - k) + r;
  }

  /** The UTF-16 code units of a string, which is what `charCodeAt` and
      `length` see: a code point above U+FFFF becomes a surrogate pair. */
  function CodeUnits(s: string): (u: seq<int>)
    ensures forall i :: 0 <= i < |u| ==> 0 <= u[i] < 0x1_0000
    ensures |u| >= |s|
  {
    if s == [] then []
    else
      var c := s[0] as int;
      var head := if c < 0x1_0000 then [c]
                  else [0xD800 + (c - 0x1_0000) / 0x400, 0xDC00 + (c - 0x1_0000) % 0x400];
      head + CodeUnits(s[1..])
  }

  /** One step of the loop: `hash = ((hash << 5) - hash + code) | 0`, where
      `hash << 5` itself wraps to 32 bits. */
  function HashStep(hash: int, code: int): (r: int)
    ensures -TwoTo31 <= r < TwoTo31
  {
    ToInt32(ToInt32(hash * 32) - hash + code)
  }

  /** The value of `hash` after the loop has consumed `units`. */
  function HashOf(units: seq<int>): (r: int)
    ensures -TwoTo31 <= r < TwoTo31
  {
    if units == [] then 0 else HashStep(HashOf(units[..|units| - 1]), units[|units| - 1])
  }

  /** The polynomial `Σ units[i] * 31^(n-1-i)` in unbounded integers. */
  function Poly31(units: seq<int>): int {
    if units == [] then 0 else 31 * Poly31(units[..|units| - 1]) + units[|units| - 1]
  }

  /** One wrapped step on a wrapped polynomial value is the wrapped next
      polynomial value. */
  lemma HashStepWraps(p: int, c: int)
    ensures HashStep(ToInt32(p), c) == ToInt32(31 * p + c)
  {
    var h := ToInt32(p);
    var q := (p + TwoTo31) / TwoTo32;
    assert h == p - TwoTo32 * q;
    var q2 := (h * 32 + TwoTo31) / TwoTo32;
    assert ToInt32(h * 32) == h * 32 - TwoTo32 * q2;
    assert ToInt32(h * 32) - h + c == (31 * p + c) - TwoTo32 * (31 * q + q2);
    ToInt32Shift(31 * p + c, 31 * q + q2);
  }

  /** The hash is the polynomial string hash with base 31, wrapped to a
      signed 32-bit integer once at the end: the wrap-arounds inside the
      loop never change the result. */
  lemma {:induction false} HashIsPoly31(units: seq<int>)
    ensures HashOf(units) == ToInt32(Poly31(units))
  {
    if units != [] {
      var init := units[..|units| - 1];
      HashIsPoly31(init);
      HashStepWraps(Poly31(init), units[|units| - 1]);
    }
  }

  function Abs(x: int): nat {
    if x < 0 then -x else x
  }

  /** The palette index for an id; the empty id (falsy in JavaScript) takes
      the first colour. */
  function ColorIndex(id: string): (k: nat)
    ensures k < |AvatarColors|
  {
    if id == "" then 0 else Abs(HashOf(CodeUnits(id))) % |AvatarColors|
  }

  /** `pickColor`. */
  method PickColor(id: string) returns (color: string)
    ensures color == AvatarColors[ColorIndex(id)]
    ensures color in AvatarColors
  {
    if id == "" {
      return AvatarColors[0];
    }
    var hash := 0;
    var str := CodeUnits(id);
    for i := 0 to |str|
      invariant hash == HashOf(str[..i])
    {
      assert str[..i + 1][..i] == str[..i];
      hash := ToInt32(ToInt32(hash * 32) - hash + str[i]);
    }
    assert str[..|str|] == str;
    color := AvatarColors[Abs(hash) % |AvatarColors|];
  }

  /** `s.charAt(0)`. */
  function CharAt0(s: string): string {
    if s == [] then "" else [s[0]]
  }

  /** `getInitials` after the split: the first piece's first character,
      and the last piece's when there are several, upper-cased. */
  function PartInitials(parts: seq<string>): string
    requires |parts| >= 1
  {
    if |parts| == 1 then ToUpper(CharAt0(parts[0]))
    else ToUpper(CharAt0(parts[0]) + CharAt0(parts[|parts| - 1]))
  }

  /** `getInitials`. */
  function Initials(name: string): (r: string)
    ensures name == "" ==> r == "?"
    ensures |r| <= 2
  {
    if name == "" then "?" else PartInitials(Split(Trim(name)))
  }

  lemma PartInitialsShape(parts: seq<string>)
    requires |parts| >= 1 && |parts[0]| > 0 && |parts[|parts| - 1]| > 0
    ensures var r := PartInitials(parts);
      && 1 <= |r| <= 2
      && r[0] == UpperChar(parts[0][0])
      && (|r| == 1 <==> |parts| == 1)
      && (|r| == 2 ==> r[1] == UpperChar(parts[|parts| - 1][0]))
  {
  }

  /** The empty name gives "?"; a blank one gives "", since its split is
      one empty piece. */
  lemma InitialsOfBlank(name: string)
    requires IsBlank(name)
    ensures Initials(name) == (if name == "" then "?" else "")
  {
    TrimProperties(name);
    assert Split([]) == [[]];
  }

  /** The initials of a non-empty trimmed string: its upper-cased first
      character, then, exactly when it holds white space, the upper-cased
      first character of the last piece of its split. */
  lemma InitialsOfTrimmed(t: string)
    requires t != [] && IsTrimmed(t)
    ensures var r := PartInitials(Split(t));
      var parts := Split(t);
      && 1 <= |r| <= 2
      && r[0] == UpperChar(t[0])
      && (|r| == 1 <==> NoSpace(t))
      && (|r| == 2 ==> |parts[|parts| - 1]| > 0 && r[1] == UpperChar(parts[|parts| - 1][0]))
  {
    var parts := Split(t);
    SplitHead(t);
    assert WordEnd(t, 0) > 0;
    assert |parts[0]| > 0 && parts[0][0] == t[0];
    SplitLast(t);
    SplitSingle(t);
    PartInitialsShape(parts);
  }

  /** A name with a non-space character gets the upper-cased first
      non-space character, followed, exactly when the trimmed name holds
      white space, by the upper-cased first character of its last word. */
  lemma InitialsOfWords(name: string)
    requires !IsBlank(name)
    ensures var r := Initials(name);
      var t := Trim(name);
      var parts := Split(t);
      && 1 <= |r| <= 2
      && r[0] == UpperChar(TrimStart(name)[0])
      && (|r| == 1 <==> NoSpace(t))
      && (|r| == 2 ==> |parts[|parts| - 1]| > 0 && r[1] == UpperChar(parts[|parts| - 1][0]))
  {
    TrimProperties(name);
    TrimEndKeepsHead(TrimStart(name));
    InitialsOfTrimmed(Trim(name));
  }
}
