/** The driver's conversions between integers and hex text: `convert_angle`,
    `int_to_hexstr`, `hexstr_to_int`, `convert_enccnt` and `hexstr_to_ascii`, with the
    Python `int.to_bytes` / `int.from_bytes` they are built on. Integers travel
    little-endian, two's complement when signed. */
module Codec {
  import opened Results
  import opened PyText

  function Pow256(n: nat): (p: nat)
    ensures p > 0
  {
    if n == 0 then 1 else 256 * Pow256(n - 1)
  }

  /** 2^(8n-1): the bound of an n-byte signed value. */
  function Half(n: nat): (h: int)
    requires n > 0
    ensures h > 0
  {
    128 * Pow256(n - 1)
  }

  // ---------------------------------------------------------------------------
  // Arithmetic facts

  /** Scaling by a non-negative factor keeps the order. */
  lemma MulMonotone(p: int, a: int, b: int)
    requires p >= 0 && a <= b
    ensures p * a <= p * b
  {
    assert p * (b - a) >= 0;
    assert p * b == p * a + p * (b - a);
  }

  /** Euclidean division is unique. */
  lemma ModUnique(u: int, m: int, a: int, x: int)
    requires m > 0 && 0 <= x < m && u == m * a + x
    ensures u % m == x && u / m == a
  {
    var q, r := u / m, u % m;
    assert u == m * q + r;
    assert m * (q - a) == x - r;
    assert m * (a - q) == r - x;
    if q > a {
      MulMonotone(m, 1, q - a);
    } else if q < a {
      MulMonotone(m, 1, a - q);
    }
  }

  lemma {:induction false} Pow256Add(m: nat, n: nat)
    ensures Pow256(m + n) == Pow256(m) * Pow256(n)
  {
    if m > 0 {
      Pow256Add(m - 1, n);
      assert Pow256(m + n) == 256 * (Pow256(m - 1) * Pow256(n));
    }
  }

  lemma ModSplit(u: nat, p: nat)
    requires p > 0
    ensures u % (256 * p) == u % 256 + 256 * ((u / 256) % p)
  {
    var q := u / 256;
    var a, b := q / p, q % p;
    assert q == p * a + b;
    assert u == 256 * q + u % 256;
    assert u == (256 * p) * a + (256 * b + u % 256);
    ModUnique(u, 256 * p, a, 256 * b + u % 256);
  }

  /** Reducing modulo a multiple of p first does not change the residue modulo p. */
  lemma ModOfMod(v: int, p: nat, c: nat)
    requires p > 0 && c > 0
    ensures (v % (p * c)) % p == v % p
  {
    var r := v % (p * c);
    assert v == (p * c) * (v / (p * c)) + r;
    assert v == p * (c * (v / (p * c)) + r / p) + r % p;
    ModUnique(v, p, c * (v / (p * c)) + r / p, r % p);
  }

  // ---------------------------------------------------------------------------
  // int.from_bytes and int.to_bytes

  /** `int.from_bytes(bs, byteorder='little', signed=False)`. */
  function Unsigned(bs: seq<Byte>): (u: nat)
    ensures u < Pow256(|bs|)
  {
    if bs == [] then 0 else bs[0] + 256 * Unsigned(bs[1..])
  }

  /** The last byte carries the weight 256^(n-1). */
  lemma {:induction false} UnsignedLast(bs: seq<Byte>)
    requires |bs| > 0
    ensures Unsigned(bs) == Unsigned(bs[..|bs| - 1]) + Pow256(|bs| - 1) * bs[|bs| - 1]
  {
    var n := |bs|;
    if n > 1 {
      UnsignedLast(bs[1..]);
      assert bs[1..][..n - 2] == bs[..n - 1][1..];
      assert Unsigned(bs[..n - 1]) == bs[0] + 256 * Unsigned(bs[..n - 1][1..]);
      assert 256 * (Pow256(n - 2) * bs[n - 1]) == Pow256(n - 1) * bs[n - 1];
    }
  }

  /** The top bit of the last byte decides whether the unsigned value reaches 2^(8n-1). */
  lemma SignBit(bs: seq<Byte>)
    requires |bs| > 0
    ensures Unsigned(bs) >= Half(|bs|) <==> bs[|bs| - 1] >= 128
    ensures Pow256(|bs|) == 2 * Half(|bs|)
  {
    var n := |bs|;
    var q, last := Pow256(n - 1), bs[n - 1];
    UnsignedLast(bs);
    assert Unsigned(bs[..n - 1]) < q;
    if last >= 128 {
      MulMonotone(q, 128, last);
    } else {
      MulMonotone(q, last, 127);
    }
  }

  /** `int.from_bytes(bs, byteorder='little', signed=signed)`: with `signed`, a last
      byte of 0x80 or more makes the value negative (two's complement). */
  function FromBytes(bs: seq<Byte>, signed: bool): (v: int)
    ensures !signed ==> 0 <= v < Pow256(|bs|)
    ensures signed && |bs| > 0 ==> -Half(|bs|) <= v < Half(|bs|)
    ensures v < 0 <==> signed && |bs| > 0 && bs[|bs| - 1] >= 128
  {
    var u := Unsigned(bs);
    if !signed || |bs| == 0 then u
    else
      SignBit(bs);
      if bs[|bs| - 1] >= 128 then u - Pow256(|bs|) else u
  }

  /** The n low-order bytes of u, least significant first. */
  function LittleEndian(u: nat, n: nat): (bs: seq<Byte>)
    ensures |bs| == n
  {
    if n == 0 then [] else [u % 256] + LittleEndian(u / 256, n - 1)
  }

  lemma {:induction false} UnsignedOfLittleEndian(u: nat, n: nat)
    ensures Unsigned(LittleEndian(u, n)) == u % Pow256(n)
  {
    if n > 0 {
      UnsignedOfLittleEndian(u / 256, n - 1);
      assert LittleEndian(u, n)[1..] == LittleEndian(u / 256, n - 1);
      ModSplit(u, Pow256(n - 1));
    }
  }

  lemma {:induction false} LittleEndianOfUnsigned(bs: seq<Byte>)
    ensures LittleEndian(Unsigned(bs), |bs|) == bs
  {
    if bs != [] {
      var u := Unsigned(bs);
      ModUnique(u, 256, Unsigned(bs[1..]), bs[0]);
      LittleEndianOfUnsigned(bs[1..]);
    }
  }

  /** The first k of n bytes are the k-byte rendering of the residue modulo 256^k. */
  lemma LittleEndianPrefix(u: nat, n: nat, k: nat)
    requires k <= n
    ensures LittleEndian(u, n)[..k] == LittleEndian(u % Pow256(k), k)
  {
    LittleEndianTake(u, n, k);
    UnsignedOfLittleEndian(u, k);
    LittleEndianOfUnsigned(LittleEndian(u, k));
  }

  lemma {:induction false} LittleEndianTake(u: nat, n: nat, k: nat)
    requires k <= n
    ensures LittleEndian(u, n)[..k] == LittleEndian(u, k)
  {
    if k > 0 {
      LittleEndianTake(u / 256, n - 1, k - 1);
      assert LittleEndian(u, n)[..k] == [u % 256] + LittleEndian(u / 256, n - 1)[..k - 1];
    }
  }

  /** Decoding the two's-complement bytes of an n-byte signed value gives it back. */
  lemma SignedRoundTrip(v: int, n: nat)
    requires n > 0 && -Half(n) <= v < Half(n)
    ensures FromBytes(LittleEndian(v % Pow256(n), n), true) == v
  {
    var p := Pow256(n);
    var bs := LittleEndian(v % p, n);
    SignBit(bs);
    UnsignedOfLittleEndian(v % p, n);
    ModUnique(v % p, p, 0, v % p);
    if v >= 0 {
      ModUnique(v, p, 0, v);
    } else {
      ModUnique(v, p, -1, v + p);
    }
  }

  /** The unsigned counterpart: n bytes hold every value in [0, 256^n). */
  lemma UnsignedRoundTrip(v: nat, n: nat)
    requires v < Pow256(n)
    ensures FromBytes(LittleEndian(v % Pow256(n), n), false) == v
  {
    ModUnique(v, Pow256(n), 0, v);
    UnsignedOfLittleEndian(v, n);
  }

  /** Whether `v.to_bytes(4, ..., signed=signed)` succeeds rather than raising OverflowError. */
  predicate Fits4(v: int, signed: bool) {
    if signed then -0x8000_0000 <= v < 0x8000_0000 else 0 <= v < 0x1_0000_0000
  }

  /** `v.to_bytes(4, byteorder='little', signed=signed)`: the two's-complement bytes,
      or OverflowError outside the range of four bytes. */
  function ToBytes4(v: int, signed: bool): (r: Result<seq<Byte>, PyError>)
    ensures r.Ok? <==> Fits4(v, signed)
    ensures r.Err? ==> r.error == OverflowError
    ensures r.Ok? ==> |r.value| == 4
  {
    if Fits4(v, signed) then Ok(LittleEndian(v % 0x1_0000_0000, 4)) else Err(OverflowError)
  }

  /** `int.from_bytes(v.to_bytes(4, ...), ...) == v` for every value that fits. */
  lemma ToBytes4RoundTrip(v: int, signed: bool)
    requires Fits4(v, signed)
    ensures FromBytes(ToBytes4(v, signed).value, signed) == v
  {
    assert Pow256(4) == 0x1_0000_0000;
    if signed {
      assert Half(4) == 0x8000_0000;
      SignedRoundTrip(v, 4);
    } else {
      UnsignedRoundTrip(v, 4);
    }
  }

  /** The other direction: any four bytes are what `to_bytes` makes of their value. */
  lemma FromBytes4RoundTrip(bs: seq<Byte>, signed: bool)
    requires |bs| == 4
    ensures ToBytes4(FromBytes(bs, signed), signed) == Ok(bs)
  {
    var v := FromBytes(bs, signed);
    var u := Unsigned(bs);
    assert Pow256(4) == 0x1_0000_0000;
    assert Half(4) == 0x8000_0000;
    if v < 0 {
      ModUnique(v, 0x1_0000_0000, -1, u);
    } else {
      ModUnique(v, 0x1_0000_0000, 0, u);
    }
    LittleEndianOfUnsigned(bs);
  }

  // ---------------------------------------------------------------------------
  // Hex text

  /** The text `convert_angle` and `int_to_hexstr` build: every byte as a space
      followed by two upper-case hex digits. */
  function HexGroups(bs: seq<Byte>): (s: string)
    ensures |s| == 3 * |bs|
  {
    if bs == [] then [] else " " + UpperHex2(bs[0]) + HexGroups(bs[1..])
  }

  lemma {:induction false} HexGroupsAppend(a: seq<Byte>, b: seq<Byte>)
    ensures HexGroups(a + b) == HexGroups(a) + HexGroups(b)
  {
    if a != [] {
      assert (a + b)[0] == a[0] && (a + b)[1..] == a[1..] + b;
      HexGroupsAppend(a[1..], b);
      assert HexGroups(a + b) == " " + UpperHex2(a[0]) + (HexGroups(a[1..]) + HexGroups(b));
    } else {
      assert a + b == b;
    }
  }

  /** Group i of the text is a space and the two digits of byte i. */
  lemma HexGroupsAt(bs: seq<Byte>, i: nat)
    requires i < |bs|
    ensures HexGroups(bs)[3 * i] == ' ' && HexGroups(bs)[3 * i + 1..3 * i + 3] == UpperHex2(bs[i])
  {
    assert bs[..i] + bs[i..] == bs;
    HexGroupsAppend(bs[..i], bs[i..]);
    var u := HexGroups(bs[i..]);
    assert u == " " + UpperHex2(bs[i]) + HexGroups(bs[i..][1..]);
    GroupAfterPrefix(HexGroups(bs[..i]), u, 3 * i);
  }

  lemma GroupAfterPrefix(p: string, u: string, k: nat)
    requires |p| == k && |u| >= 3
    ensures (p + u)[k] == u[0] && (p + u)[k + 1..k + 3] == u[1..3]
  {
  }

  /** `bytes.fromhex` reads the groups back. */
  lemma {:induction false} FromHexGroups(bs: seq<Byte>)
    ensures FromHex(HexGroups(bs)) == Ok(bs)
  {
    if bs != [] {
      var s := HexGroups(bs);
      var t := UpperHex2(bs[0]) + HexGroups(bs[1..]);
      assert s[1..] == t;
      assert t[2..] == HexGroups(bs[1..]);
      FromHexGroups(bs[1..]);
      assert [bs[0] / 16 * 16 + bs[0] % 16] + bs[1..] == bs;
    }
  }

  /** What `int_to_hexstr(v, signed, bytenum)` returns or raises: the first `bytenum`
      bytes of `v.to_bytes(4, ...)` as hex groups; more than four bytes is an IndexError. */
  function IntToHex(v: int, signed: bool, bytenum: int): (r: Result<string, PyError>)
    ensures r.Ok? <==> Fits4(v, signed) && bytenum <= 4
    ensures r.Ok? ==> |r.value| == 3 * (if bytenum < 0 then 0 else bytenum)
  {
    match ToBytes4(v, signed)
    case Err(e) => Err(e)
    case Ok(bs) =>
      if bytenum > 4 then Err(IndexError)
      else Ok(HexGroups(bs[..if bytenum < 0 then 0 else bytenum]))
  }

  /** `int_to_hexstr`: converts through `to_bytes(4, ...)` and appends one group per byte. */
  method IntToHexStr(v: int, signed: bool, bytenum: int) returns (r: Result<string, PyError>)
    ensures r == IntToHex(v, signed, bytenum)
  {
    var bytes := ToBytes4(v, signed);
    if bytes.Err? {
      return Err(bytes.error);
    }
    var hex := "";
    var n := 0;
    while n < bytenum
      invariant 0 <= n <= 4 && (n <= bytenum || n == 0)
      invariant hex == HexGroups(bytes.value[..n])
    {
      if n >= 4 {
        return Err(IndexError);
      }
      HexGroupsAppend(bytes.value[..n], [bytes.value[n]]);
      assert bytes.value[..n + 1] == bytes.value[..n] + [bytes.value[n]];
      hex := hex + " " + UpperHex2(bytes.value[n]);
      n := n + 1;
    }
    return Ok(hex);
  }

  /** `convert_angle` on the encoder count `int(angle_degree * PRM1_EncCnt)`. */
  method ConvertAngle(count: int) returns (r: Result<string, PyError>)
    ensures r == IntToHex(count, true, 4)
  {
    var bytes := ToBytes4(count, true);
    if bytes.Err? {
      return Err(bytes.error);
    }
    var hex := "";
    for n := 0 to 4
      invariant hex == HexGroups(bytes.value[..n])
    {
      HexGroupsAppend(bytes.value[..n], [bytes.value[n]]);
      assert bytes.value[..n + 1] == bytes.value[..n] + [bytes.value[n]];
      hex := hex + " " + UpperHex2(bytes.value[n]);
    }
    assert bytes.value[..4] == bytes.value;
    return Ok(hex);
  }

  /** `hexstr_to_int(value_hex, signed)`: `bytes.fromhex`, then `int.from_bytes` little-endian. */
  function HexStrToInt(s: string, signed: bool): (r: Result<int, PyError>)
    ensures r.Ok? <==> FromHex(s).Ok?
    ensures r.Err? ==> r.error == ValueError
  {
    match FromHex(s)
    case Ok(bs) => Ok(FromBytes(bs, signed))
    case Err(e) => Err(e)
  }

  /** A four-byte signed encoding reads back as the value, as 172767 does
      through " DF A2 02 00". */
  lemma AngleTextRoundTrip(v: int)
    requires Fits4(v, true)
    ensures IntToHex(v, true, 4).Ok?
    ensures HexStrToInt(IntToHex(v, true, 4).value, true) == Ok(v)
  {
    var bs := ToBytes4(v, true).value;
    assert bs[..4] == bs;
    FromHexGroups(bs);
    ToBytes4RoundTrip(v, true);
  }

  /** The first k bytes of `to_bytes(4, ...)` are the k-byte two's complement of v. */
  lemma ToBytes4Prefix(v: int, signed: bool, k: nat)
    requires Fits4(v, signed) && k <= 4
    ensures ToBytes4(v, signed).value[..k] == LittleEndian(v % Pow256(k), k)
  {
    var p := Pow256(k);
    LittleEndianPrefix(v % 0x1_0000_0000, 4, k);
    Pow256Add(k, 4 - k);
    assert Pow256(4) == 0x1_0000_0000;
    ModOfMod(v, p, Pow256(4 - k));
  }

  /** With fewer groups the text holds the low-order bytes: read back unsigned it is
      `v mod 256^bytenum`, and read back signed it is `v` whenever `v` fits that width. */
  lemma IntToHexLowBytes(v: int, signed: bool, bytenum: nat)
    requires Fits4(v, signed) && bytenum <= 4
    ensures IntToHex(v, signed, bytenum).Ok?
    ensures HexStrToInt(IntToHex(v, signed, bytenum).value, false) == Ok(v % Pow256(bytenum))
    ensures bytenum > 0 && -Half(bytenum) <= v < Half(bytenum) ==>
              HexStrToInt(IntToHex(v, signed, bytenum).value, true) == Ok(v)
  {
    var p := Pow256(bytenum);
    var low := LittleEndian(v % p, bytenum);
    ToBytes4Prefix(v, signed, bytenum);
    FromHexGroups(low);
    UnsignedOfLittleEndian(v % p, bytenum);
    ModUnique(v % p, p, 0, v % p);
    if bytenum > 0 && -Half(bytenum) <= v < Half(bytenum) {
      SignedRoundTrip(v, bytenum);
    }
  }

  // ---------------------------------------------------------------------------
  // Angles

  /** `PRM1_EncCnt`: encoder counts per degree of the PRM1-Z8 stage. */
  const EncCntPerDegree: real := 1919.6418578623391

  /** `int(x)` on a real: truncation toward zero. */
  function Truncate(x: real): (n: int)
    ensures 0.0 <= x ==> 0 <= n && n as real <= x < n as real + 1.0
    ensures x < 0.0 ==> n <= 0 && n as real - 1.0 < x <= n as real
  {
    if x >= 0.0 then x.Floor else -((-x).Floor)
  }

  /** `int(angle_degree * PRM1_EncCnt)`, the count `convert_angle` encodes. */
  function AngleCounts(degrees: real): (n: int)
    ensures 0.0 <= degrees ==> 0 <= n && n as real <= degrees * EncCntPerDegree < n as real + 1.0
    ensures degrees < 0.0 ==> n <= 0 && n as real - 1.0 < degrees * EncCntPerDegree <= n as real
  {
    Truncate(degrees * EncCntPerDegree)
  }

  /** `convert_enccnt` up to its final `round(..., 1)`: the signed little-endian count
      divided by the counts per degree. */
  function ConvertEncCnt(enccnt: string): (r: Result<real, PyError>)
    ensures r.Ok? <==> FromHex(enccnt).Ok?
    ensures r.Err? ==> r.error == ValueError
    ensures r.Ok? ==> r.value * EncCntPerDegree == FromBytes(FromHex(enccnt).value, true) as real
  {
    match HexStrToInt(enccnt, true)
    case Ok(count) => Ok(count as real / EncCntPerDegree)
    case Err(e) => Err(e)
  }

  /** An angle sent with `convert_angle` and read back with `convert_enccnt` comes back
      within one encoder count (before rounding to a tenth of a degree). */
  lemma AngleRoundTrip(degrees: real)
    requires Fits4(AngleCounts(degrees), true)
    ensures IntToHex(AngleCounts(degrees), true, 4).Ok?
    ensures ConvertEncCnt(IntToHex(AngleCounts(degrees), true, 4).value).Ok?
    ensures var back := ConvertEncCnt(IntToHex(AngleCounts(degrees), true, 4).value).value;
            -1.0 < (back - degrees) * EncCntPerDegree < 1.0
  {
    var count := AngleCounts(degrees);
    AngleTextRoundTrip(count);
    var back := ConvertEncCnt(IntToHex(count, true, 4).value).value;
    assert back * EncCntPerDegree == count as real;
    assert (back - degrees) * EncCntPerDegree == count as real - degrees * EncCntPerDegree;
  }

  /** 90 degrees is the encoder count 172767, sent as " DF A2 02 00". */
  lemma NinetyDegrees()
    ensures AngleCounts(90.0) == 172767
    ensures IntToHex(172767, true, 4) == Ok(" DF A2 02 00")
  {
    assert 172767.0 <= 90.0 * EncCntPerDegree < 172768.0;
    NinetyBytes();
    NinetyGroups();
    var bs: seq<Byte> := [0xDF, 0xA2, 0x02, 0x00];
    assert bs[..4] == bs;
  }

  lemma NinetyBytes()
    ensures ToBytes4(172767, true) == Ok([0xDF, 0xA2, 0x02, 0x00])
  {
    assert 172767 % 0x1_0000_0000 == 172767;
    assert LittleEndian(0x02, 2) == [0x02, 0x00];
    assert LittleEndian(0x02A2, 3) == [0xA2, 0x02, 0x00];
    assert LittleEndian(172767, 4) == [0xDF, 0xA2, 0x02, 0x00];
  }

  lemma NinetyGroups()
    ensures HexGroups([0xDF, 0xA2, 0x02, 0x00]) == " DF A2 02 00"
  {
    HexGroupsFour([0xDF, 0xA2, 0x02, 0x00]);
    assert 0xDF / 16 == 13 && 0xDF % 16 == 15 && 0xA2 / 16 == 10 && 0xA2 % 16 == 2;
    assert UpperDigit(13) == 'D' && UpperDigit(15) == 'F' && UpperDigit(10) == 'A';
    assert UpperDigit(2) == '2' && UpperDigit(0) == '0';
  }

  /** The text of four bytes, character by character. */
  lemma HexGroupsFour(bs: seq<Byte>)
    requires |bs| == 4
    ensures HexGroups(bs) == [' ', UpperDigit(bs[0] / 16), UpperDigit(bs[0] % 16),
                              ' ', UpperDigit(bs[1] / 16), UpperDigit(bs[1] % 16),
                              ' ', UpperDigit(bs[2] / 16), UpperDigit(bs[2] % 16),
                              ' ', UpperDigit(bs[3] / 16), UpperDigit(bs[3] % 16)]
  {
    var t := bs[1..];
    assert HexGroups(bs) == " " + UpperHex2(bs[0]) + HexGroups(t);
    assert HexGroups(t) == " " + UpperHex2(bs[1]) + HexGroups(t[1..]);
    assert HexGroups(t[1..]) == " " + UpperHex2(bs[2]) + HexGroups(t[1..][1..]);
    assert HexGroups(t[1..][1..]) == " " + UpperHex2(bs[3]) + HexGroups([]);
  }

  /** Six bytes written as text: two digits per byte, a space between bytes. */
  lemma SpelledSix(b0: Byte, b1: Byte, b2: Byte, b3: Byte, b4: Byte, b5: Byte, s: string)
    requires s == [UpperDigit(b0 / 16), UpperDigit(b0 % 16), ' ', UpperDigit(b1 / 16), UpperDigit(b1 % 16), ' ',
                   UpperDigit(b2 / 16), UpperDigit(b2 % 16), ' ', UpperDigit(b3 / 16), UpperDigit(b3 % 16), ' ',
                   UpperDigit(b4 / 16), UpperDigit(b4 % 16), ' ', UpperDigit(b5 / 16), UpperDigit(b5 % 16)]
    ensures " " + s == HexGroups([b0, b1, b2, b3, b4, b5])
  {
    var bs := [b0, b1, b2, b3, b4, b5];
    var t := bs[4..];
    assert bs == bs[..4] + t;
    HexGroupsAppend(bs[..4], t);
    HexGroupsFour(bs[..4]);
    assert HexGroups(t) == " " + UpperHex2(t[0]) + (" " + UpperHex2(t[1]) + HexGroups(t[1..][1..]));
  }

  /** Eight bytes written as text, as above. */
  lemma SpelledEight(b0: Byte, b1: Byte, b2: Byte, b3: Byte, b4: Byte, b5: Byte, b6: Byte, b7: Byte, s: string)
    requires s == [UpperDigit(b0 / 16), UpperDigit(b0 % 16), ' ', UpperDigit(b1 / 16), UpperDigit(b1 % 16), ' ',
                   UpperDigit(b2 / 16), UpperDigit(b2 % 16), ' ', UpperDigit(b3 / 16), UpperDigit(b3 % 16), ' ',
                   UpperDigit(b4 / 16), UpperDigit(b4 % 16), ' ', UpperDigit(b5 / 16), UpperDigit(b5 % 16), ' ',
                   UpperDigit(b6 / 16), UpperDigit(b6 % 16), ' ', UpperDigit(b7 / 16), UpperDigit(b7 % 16)]
    ensures " " + s == HexGroups([b0, b1, b2, b3, b4, b5, b6, b7])
  {
    var lo, hi := [b0, b1, b2, b3], [b4, b5, b6, b7];
    var t := [' ', UpperDigit(b0 / 16), UpperDigit(b0 % 16), ' ', UpperDigit(b1 / 16), UpperDigit(b1 % 16),
              ' ', UpperDigit(b2 / 16), UpperDigit(b2 % 16), ' ', UpperDigit(b3 / 16), UpperDigit(b3 % 16)];
    var u := [' ', UpperDigit(b4 / 16), UpperDigit(b4 % 16), ' ', UpperDigit(b5 / 16), UpperDigit(b5 % 16),
              ' ', UpperDigit(b6 / 16), UpperDigit(b6 % 16), ' ', UpperDigit(b7 / 16), UpperDigit(b7 % 16)];
    assert " " + s == t + u;
    HexGroupsFour(lo);
    HexGroupsFour(hi);
    assert [b0, b1, b2, b3, b4, b5, b6, b7] == lo + hi;
    HexGroupsAppend(lo, hi);
  }

  // ---------------------------------------------------------------------------
  // hexstr_to_ascii

  /** `chr(int(part, 16))` for a part of at most two characters: a negative value is
      a ValueError from `chr`, and two digits never exceed 255. */
  function PartChar(part: string): (r: Result<char, PyError>)
    requires |part| <= 2
    ensures r.Ok? ==> r.value as int < 256
    ensures r.Err? ==> r.error == ValueError
  {
    match ParseInt16(part)
    case None => Err(ValueError)
    case Some(v) =>
      if v < 0 then Err(ValueError)
      else
        Pow16Monotone(|part|, 2);
        Ok(v as char)
  }

  /** Whitespace-free hex text read two characters at a time through `PartChar`. */
  function AsciiChars(t: string): (r: Result<string, PyError>)
    ensures r.Ok? ==> 2 * |r.value| >= |t| && |r.value| <= |t|
    ensures r.Err? ==> r.error == ValueError
    decreases |t|
  {
    if t == [] then Ok([])
    else
      var k := Min(|t|, 2);
      match PartChar(t[..k])
      case Err(e) => Err(e)
      case Ok(c) => Prepend([c], AsciiChars(t[k..]))
  }

  /** One round of the loop in `hexstr_to_ascii`: the part at i, then the rest. */
  lemma AsciiStep(t: string, i: nat)
    requires i < |t|
    ensures AsciiChars(t[i..]) == match PartChar(Slice(t, i, i + 2))
                                  case Err(e) => Err(e)
                                  case Ok(c) => Prepend([c], AsciiChars(t[Min(i + 2, |t|)..]))
  {
    var rest := t[i..];
    var k := Min(|rest|, 2);
    assert rest[..k] == Slice(t, i, i + 2);
    assert rest[k..] == t[Min(i + 2, |t|)..];
  }

  /** What `hexstr_to_ascii` returns or raises. */
  function HexToAscii(hexstr: string): (r: Result<string, PyError>)
    ensures r.Err? ==> r.error == ValueError
    ensures r.Ok? ==> r.value == [] || (r.value[0] != '\0' && r.value[|r.value| - 1] != '\0')
    ensures r.Ok? ==> |r.value| <= |Concat(Split(hexstr))|
  {
    match AsciiChars(Concat(Split(hexstr)))
    case Ok(chars) => Ok(StripNul(chars))
    case Err(e) => Err(e)
  }

  /** The text in front of a successful result; an error passes through. */
  function Prepend(prefix: string, r: Result<string, PyError>): Result<string, PyError>
  {
    match r
    case Ok(s) => Ok(prefix + s)
    case Err(e) => Err(e)
  }

  lemma PrependTwice(a: string, b: string, r: Result<string, PyError>)
    ensures Prepend(a, Prepend(b, r)) == Prepend(a + b, r)
  {
    if r.Ok? {
      assert a + (b + r.value) == (a + b) + r.value;
    }
  }

  /** `hexstr_to_ascii`: removes whitespace, then converts two digits at a time. */
  method HexStrToAscii(hexstr: string) returns (r: Result<string, PyError>)
    ensures r == HexToAscii(hexstr)
  {
    var t := Concat(Split(hexstr));
    var ascii := "";
    var i := 0;
    AsciiStart(t);
    while i < |t|
      invariant 0 <= i <= |t| + 1
      invariant AsciiChars(t) == Prepend(ascii, AsciiChars(t[Min(i, |t|)..]))
      decreases |t| - i
    {
      var part := Slice(t, i, i + 2);
      var ch := PartChar(part);
      AsciiStep(t, i);
      if ch.Err? {
        AsciiFails(hexstr, ascii, AsciiChars(t[i..]));
        return Err(ch.error);
      }
      PrependTwice(ascii, [ch.value], AsciiChars(t[Min(i + 2, |t|)..]));
      ascii := ascii + [ch.value];
      i := i + 2;
    }
    AsciiDone(hexstr, ascii, t[Min(i, |t|)..]);
    return Ok(StripNul(ascii));
  }

  lemma AsciiStart(t: string)
    ensures AsciiChars(t) == Prepend("", AsciiChars(t[Min(0, |t|)..]))
  {
    assert t[Min(0, |t|)..] == t;
    if AsciiChars(t).Ok? {
      assert "" + AsciiChars(t).value == AsciiChars(t).value;
    }
  }

  lemma AsciiFails(hexstr: string, ascii: string, rest: Result<string, PyError>)
    requires AsciiChars(Concat(Split(hexstr))) == Prepend(ascii, rest) && rest.Err?
    ensures HexToAscii(hexstr) == Err(rest.error)
  {
  }

  lemma AsciiDone(hexstr: string, ascii: string, rest: string)
    requires AsciiChars(Concat(Split(hexstr))) == Prepend(ascii, AsciiChars(rest)) && rest == []
    ensures HexToAscii(hexstr) == Ok(StripNul(ascii))
  {
    assert ascii + [] == ascii;
  }

  /** The characters of a byte sequence, each byte a code point. */
  function Latin1(bs: seq<Byte>): (s: string)
    ensures |s| == |bs|
  {
    if bs == [] then [] else [bs[0] as char] + Latin1(bs[1..])
  }

  /** The model number field round-trips: hex groups of bytes read back as their
      characters with the NUL padding stripped. */
  lemma {:induction false} AsciiOfGroups(bs: seq<Byte>)
    ensures HexToAscii(HexGroups(bs)) == Ok(StripNul(Latin1(bs)))
  {
    SplitGroups(bs);
    AsciiOfDigits(bs);
  }

  /** The upper-case digits of the bytes, without the spaces. */
  function Digits(bs: seq<Byte>): (s: string)
    ensures |s| == 2 * |bs|
  {
    if bs == [] then [] else UpperHex2(bs[0]) + Digits(bs[1..])
  }

  /** The upper-case digit pairs of the bytes, one token per byte. */
  function Tokens(bs: seq<Byte>): (ts: seq<string>)
    ensures |ts| == |bs|
  {
    if bs == [] then [] else [UpperHex2(bs[0])] + Tokens(bs[1..])
  }

  /** `str.split()` cuts the groups into one two-digit token per byte. */
  lemma {:induction false} SplitOfGroups(bs: seq<Byte>)
    ensures Split(HexGroups(bs)) == Tokens(bs)
  {
    if bs != [] {
      var head := UpperHex2(bs[0]);
      var rest := HexGroups(bs[1..]);
      assert HexGroups(bs) == [' '] + (head + rest);
      SplitLeadingSpace(' ', head + rest);
      if bs[1..] != [] {
        HexGroupsAt(bs[1..], 0);
      }
      SplitToken(head, rest);
      SplitOfGroups(bs[1..]);
    }
  }

  lemma {:induction false} ConcatTokens(bs: seq<Byte>)
    ensures Concat(Tokens(bs)) == Digits(bs)
  {
    if bs != [] {
      ConcatTokens(bs[1..]);
    }
  }

  lemma SplitGroups(bs: seq<Byte>)
    ensures Concat(Split(HexGroups(bs))) == Digits(bs)
  {
    SplitOfGroups(bs);
    ConcatTokens(bs);
  }

  lemma {:induction false} AsciiOfDigits(bs: seq<Byte>)
    ensures AsciiChars(Digits(bs)) == Ok(Latin1(bs))
  {
    if bs != [] {
      var t := Digits(bs);
      assert t[..2] == UpperHex2(bs[0]);
      assert t[2..] == Digits(bs[1..]);
      ParseUpperHex2(bs[0]);
      AsciiOfDigits(bs[1..]);
    }
  }
}
