/** The Python text built-ins the driver's conversions rely on, over `string` = `seq<char>`:
    `str.split()`, `str.strip`, slicing, `bytes.fromhex` and `int(text, 16)`. */
module PyText {
  import opened Results

  type Byte = b: int | 0 <= b < 256

  function Min(a: int, b: int): int { if a < b then a else b }

  function Pow16(n: nat): (p: nat)
    ensures p > 0
  {
    if n == 0 then 1 else 16 * Pow16(n - 1)
  }

  lemma {:induction false} Pow16Monotone(m: nat, n: nat)
    requires m <= n
    ensures Pow16(m) <= Pow16(n)
  {
    if m < n {
      Pow16Monotone(m, n - 1);
    }
  }

  /** `str.isspace()`: the characters `str.split()` splits on. */
  predicate IsSpace(c: char) {
    || c == ' ' || '\t' <= c <= '\r' || '\U{1C}' <= c <= '\U{1F}'
    || c == '\U{85}' || c == '\U{A0}' || c == '\U{1680}' || '\U{2000}' <= c <= '\U{200A}'
    || c == '\U{2028}' || c == '\U{2029}' || c == '\U{202F}' || c == '\U{205F}' || c == '\U{3000}'
  }

  /** The ASCII whitespace `bytes.fromhex` skips in front of a pair of digits. */
  predicate IsAsciiSpace(c: char) {
    c == ' ' || '\t' <= c <= '\r'
  }

  /** The value of one hexadecimal digit of either case, as `int(c, 16)` reads it. */
  function HexValue(c: char): (r: Option<nat>)
    ensures r.Some? ==> r.value < 16 && !IsSpace(c) && !IsAsciiSpace(c) && c != '_'
  {
    if '0' <= c <= '9' then Some(c as int - '0' as int)
    else if 'a' <= c <= 'f' then Some(c as int - 'a' as int + 10)
    else if 'A' <= c <= 'F' then Some(c as int - 'A' as int + 10)
    else None
  }

  function UpperDigit(d: nat): char
    requires d < 16
  {
    if d < 10 then ('0' as int + d) as char else ('A' as int + d - 10) as char
  }

  function LowerDigit(d: nat): char
    requires d < 16
  {
    if d < 10 then ('0' as int + d) as char else ('a' as int + d - 10) as char
  }

  /** `f"{b:02X}"`: two upper-case digits, which read back as `b`. */
  function UpperHex2(b: Byte): (s: string)
    ensures |s| == 2 && HexValue(s[0]) == Some(b / 16) && HexValue(s[1]) == Some(b % 16)
  {
    [UpperDigit(b / 16), UpperDigit(b % 16)]
  }

  /** `bytes([b]).hex()`: two lower-case digits, which read back as `b`. */
  function LowerHex2(b: Byte): (s: string)
    ensures |s| == 2 && HexValue(s[0]) == Some(b / 16) && HexValue(s[1]) == Some(b % 16)
  {
    [LowerDigit(b / 16), LowerDigit(b % 16)]
  }

  /** Two bytes render to the same lower-case text only if they are equal. */
  lemma LowerHex2Injective(a: Byte, b: Byte)
    requires LowerHex2(a) == LowerHex2(b)
    ensures a == b
  {
    assert HexValue(LowerHex2(a)[0]) == HexValue(LowerHex2(b)[0]);
    assert HexValue(LowerHex2(a)[1]) == HexValue(LowerHex2(b)[1]);
  }

  /** `s[i:j]` for non-negative bounds: both bounds are clamped to the length,
      and the slice is empty when the lower one is not below the upper one. */
  function Slice<T>(s: seq<T>, i: nat, j: nat): (r: seq<T>)
    ensures i <= j <= |s| ==> r == s[i..j]
    ensures i <= |s| < j ==> r == s[i..]
    ensures |s| <= i || j <= i ==> r == []
  {
    var lo := Min(i, |s|);
    var hi := Min(j, |s|);
    if lo <= hi then s[lo..hi] else []
  }

  /** Length of the leading run of non-whitespace characters. */
  function TokenLength(s: string): (n: nat)
    ensures n <= |s|
    ensures forall i :: 0 <= i < n ==> !IsSpace(s[i])
    ensures n < |s| ==> IsSpace(s[n])
  {
    if s == [] || IsSpace(s[0]) then 0 else 1 + TokenLength(s[1..])
  }

  /** `s.split()`: the maximal runs of non-whitespace characters, in order. */
  function Split(s: string): (r: seq<string>)
    ensures forall i :: 0 <= i < |r| ==> |r[i]| > 0
    ensures forall i, j :: 0 <= i < |r| && 0 <= j < |r[i]| ==> !IsSpace(r[i][j])
    decreases |s|
  {
    if s == [] then []
    else if IsSpace(s[0]) then Split(s[1..])
    else
      var n := TokenLength(s);
      [s[..n]] + Split(s[n..])
  }

  /** `"".join(ts)`. */
  function Concat(ts: seq<string>): string
  {
    if ts == [] then [] else ts[0] + Concat(ts[1..])
  }

  /** A token followed by whitespace (or by nothing) is split off whole. */
  lemma {:induction false} SplitToken(t: string, rest: string)
    requires |t| > 0 && forall i :: 0 <= i < |t| ==> !IsSpace(t[i])
    requires rest == [] || IsSpace(rest[0])
    ensures Split(t + rest) == [t] + Split(rest)
  {
    TokenLengthOf(t, rest);
    assert (t + rest)[..|t|] == t;
    assert (t + rest)[|t|..] == rest;
  }

  lemma {:induction false} TokenLengthOf(t: string, rest: string)
    requires forall i :: 0 <= i < |t| ==> !IsSpace(t[i])
    requires rest == [] || IsSpace(rest[0])
    ensures TokenLength(t + rest) == |t|
  {
    if t != [] {
      assert (t + rest)[1..] == t[1..] + rest;
      TokenLengthOf(t[1..], rest);
    }
  }

  /** Leading whitespace does not change the split. */
  lemma SplitLeadingSpace(c: char, s: string)
    requires IsSpace(c)
    ensures Split([c] + s) == Split(s)
  {
    assert ([c] + s)[1..] == s;
  }

  /** `s.lstrip('\x00')`. */
  function StripLeadingNul(s: string): (r: string)
    ensures r == [] || r[0] != '\0'
    ensures |r| <= |s| && r == s[|s| - |r|..]
  {
    if s != [] && s[0] == '\0' then StripLeadingNul(s[1..]) else s
  }

  /** `s.rstrip('\x00')`. */
  function StripTrailingNul(s: string): (r: string)
    ensures r == [] || r[|r| - 1] != '\0'
    ensures |r| <= |s| && r == s[..|r|]
  {
    if s != [] && s[|s| - 1] == '\0' then StripTrailingNul(s[..|s| - 1]) else s
  }

  /** `s.strip('\x00')`. */
  function StripNul(s: string): (r: string)
    ensures r == [] || (r[0] != '\0' && r[|r| - 1] != '\0')
    ensures |r| <= |s|
  {
    StripTrailingNul(StripLeadingNul(s))
  }

  /** `bytes.fromhex(s)`: pairs of hexadecimal digits of either case, each pair
      optionally preceded by ASCII whitespace; anything else is a ValueError. */
  function FromHex(s: string): (r: Result<seq<Byte>, PyError>)
    ensures r.Ok? ==> 2 * |r.value| <= |s|
    ensures r.Err? ==> r.error == ValueError
    decreases |s|
  {
    if s == [] then Ok([])
    else if IsAsciiSpace(s[0]) then FromHex(s[1..])
    else if |s| == 1 then Err(ValueError)
    else if HexValue(s[0]).None? || HexValue(s[1]).None? then Err(ValueError)
    else
      match FromHex(s[2..])
      case Ok(rest) => Ok([HexValue(s[0]).value * 16 + HexValue(s[1]).value] + rest)
      case Err(e) => Err(e)
  }

  /** Every character is a hexadecimal digit or an underscore. */
  predicate DigitsOrUnderscores(t: string) {
    forall i :: 0 <= i < |t| ==> t[i] == '_' || HexValue(t[i]).Some?
  }

  /** The digit part `int(text, 16)` accepts: digits, single underscores between them. */
  predicate IsDigitRun(t: string) {
    && |t| > 0 && t[0] != '_' && t[|t| - 1] != '_'
    && DigitsOrUnderscores(t)
    && forall i :: 0 <= i < |t| - 1 ==> !(t[i] == '_' && t[i + 1] == '_')
  }

  /** The value of the digits of `t`, most significant first, underscores ignored. */
  function RunValue(t: string): (v: nat)
    requires DigitsOrUnderscores(t)
    ensures v < Pow16(|t|)
  {
    if t == [] then 0
    else
      var c := t[|t| - 1];
      var high := RunValue(t[..|t| - 1]);
      if c == '_' then high else high * 16 + HexValue(c).value
  }

  /** `int(t, 16)` on text without surrounding whitespace: an optional sign, an optional
      `0x` prefix (which may be followed by one underscore), then a digit run.
      `None` stands for the ValueError Python raises. */
  function ParseInt16(t: string): (r: Option<int>)
    ensures r.Some? ==> -(Pow16(|t|) as int) < r.value < Pow16(|t|)
  {
    var signed := |t| > 0 && (t[0] == '+' || t[0] == '-');
    var body := if signed then t[1..] else t;
    var prefixed := |body| >= 2 && body[0] == '0' && (body[1] == 'x' || body[1] == 'X');
    var afterPrefix := if prefixed then body[2..] else body;
    var digits := if prefixed && |afterPrefix| > 0 && afterPrefix[0] == '_' then afterPrefix[1..] else afterPrefix;
    if IsDigitRun(digits) then
      var v: int := RunValue(digits);
      Pow16Monotone(|digits|, |t|);
      var value: int := if signed && t[0] == '-' then -v else v;
      Some(value)
    else None
  }

  /** `int(f"{b:02X}", 16) == b`. */
  lemma ParseUpperHex2(b: Byte)
    ensures ParseInt16(UpperHex2(b)) == Some(b)
  {
    var t := UpperHex2(b);
    assert IsDigitRun(t);
    assert t[..1][..0] == [];
    assert RunValue(t) == RunValue(t[..1]) * 16 + b % 16;
  }
}
