/** Text forms of keys: decimal as printed by %d and read by strconv.ParseInt(s, 10, 32), and hex. */
module Codec {
  import opened ByteStrings
  import opened Wrappers

  // ---- Decimal ----

  function Digit(d: nat): char
    requires d < 10
  {
    (d + 48) as char
  }

  predicate IsDigit(c: char) {
    '0' <= c <= '9'
  }

  function Decimal(n: nat): string {
    if n < 10 then [Digit(n)] else Decimal(n / 10) + [Digit(n % 10)]
  }

  /** The number spelt by a non-empty run of digits; None stands for a syntax error. */
  function ParseDigits(s: string): Option<nat> {
    if s == [] || !IsDigit(s[|s| - 1]) then None
    else
      var last := s[|s| - 1] as int - 48;
      if |s| == 1 then Some(last)
      else match ParseDigits(s[..|s| - 1])
        case None => None
        case Some(high) => Some(10 * high + last)
  }

  /** strconv.ParseInt(s, 10, 32): an optional sign, digits, and the signed 32-bit range check. */
  function ParseInt32(s: string): Option<int> {
    var negative := s != [] && s[0] == '-';
    var digits := if s != [] && (s[0] == '-' || s[0] == '+') then s[1..] else s;
    match ParseDigits(digits)
    case None => None
    case Some(n) =>
      if negative then (if n <= 0x8000_0000 then Some(0 - n as int) else None)
      else if n < 0x8000_0000 then Some(n as int) else None
  }

  lemma {:induction false} ParseDecimal(n: nat)
    ensures Decimal(n) != [] && IsDigit(Decimal(n)[0])
    ensures forall i :: 0 <= i < |Decimal(n)| ==> IsDigit(Decimal(n)[i])
    ensures ParseDigits(Decimal(n)) == Some(n)
  {
    if n >= 10 {
      ParseDecimal(n / 10);
      var high := Decimal(n / 10);
      assert Decimal(n)[..|Decimal(n)| - 1] == high;
    }
  }

  // ---- Hex ----

  function HexDigit(d: nat): char
    requires d < 16
  {
    if d < 10 then Digit(d) else (d + 87) as char
  }

  /** Both letter cases are read; only lower case is written. */
  function HexValue(c: char): Option<nat> {
    if IsDigit(c) then Some(c as int - 48)
    else if 'a' <= c <= 'f' then Some(c as int - 87)
    else if 'A' <= c <= 'F' then Some(c as int - 55)
    else None
  }

  function HexEncode(bs: bytes): string {
    if bs == [] then "" else [HexDigit(bs[0] / 16), HexDigit(bs[0] % 16)] + HexEncode(bs[1..])
  }

  /** hex.DecodeString: an odd length or a foreign character is an error. */
  function HexDecode(s: string): (r: Option<bytes>)
    ensures r.Some? ==> |s| == 2 * |r.value|
  {
    if s == "" then Some([])
    else if |s| == 1 then None
    else match (HexValue(s[0]), HexValue(s[1]), HexDecode(s[2..]))
      case (Some(hi), Some(lo), Some(rest)) =>
        assert hi < 16 && lo < 16;
        Some([16 * hi + lo] + rest)
      case _ => None
  }

  lemma {:induction false} HexRoundTrip(bs: bytes)
    ensures HexDecode(HexEncode(bs)) == Some(bs)
    ensures forall i :: 0 <= i < |HexEncode(bs)| ==> HexEncode(bs)[i] != '.'
  {
    if bs != [] {
      HexRoundTrip(bs[1..]);
      assert HexEncode(bs)[2..] == HexEncode(bs[1..]);
      assert bs == [16 * (bs[0] / 16) + bs[0] % 16] + bs[1..];
    }
  }

  // ---- Text forms ----

  /** Decimal text has no leading zero but in "0" itself, and ends in the last decimal digit. */
  lemma {:induction false} DecimalForm(n: nat)
    ensures Decimal(n) != "" && (Decimal(n)[0] == '0' ==> n == 0 && Decimal(n) == "0")
    ensures Decimal(n)[|Decimal(n)| - 1] == "0123456789"[n % 10]
    ensures |Decimal(n)| == 1 <==> n < 10
  {
    if n >= 10 {
      DecimalForm(n / 10);
    }
  }

  /** Hex text spells every byte in two lower-case digits, the high one first. */
  lemma {:induction false} HexForm(bs: bytes, k: nat)
    requires k < |bs|
    ensures |HexEncode(bs)| == 2 * |bs|
    ensures HexEncode(bs)[2 * k] == "0123456789abcdef"[bs[k] / 16] && HexEncode(bs)[2 * k + 1] == "0123456789abcdef"[bs[k] % 16]
  {
    HexLength(bs);
    if k > 0 {
      HexForm(bs[1..], k - 1);
      assert HexEncode(bs)[2..] == HexEncode(bs[1..]);
    }
  }

  lemma {:induction false} HexLength(bs: bytes)
    ensures |HexEncode(bs)| == 2 * |bs|
  {
    if bs != [] {
      HexLength(bs[1..]);
    }
  }

  // ---- What can be read ----

  predicate AllDigits(s: string) {
    forall i :: 0 <= i < |s| ==> '0' <= s[i] <= '9'
  }

  predicate AllHex(s: string) {
    forall i :: 0 <= i < |s| ==> '0' <= s[i] <= '9' || 'a' <= s[i] <= 'f' || 'A' <= s[i] <= 'F'
  }

  /** A run of digits is what can be read as a number without a sign. */
  lemma {:induction false} DigitsReadIff(s: string)
    ensures ParseDigits(s).Some? <==> s != "" && AllDigits(s)
  {
    if |s| > 1 {
      var init := s[..|s| - 1];
      DigitsReadIff(init);
      assert forall i :: 0 <= i < |init| ==> s[i] == init[i];
    }
  }

  lemma HexDigitIff(c: char)
    ensures HexValue(c).Some? <==> '0' <= c <= '9' || 'a' <= c <= 'f' || 'A' <= c <= 'F'
  {
  }

  lemma HexReadHead(s: string)
    requires |s| > 1
    ensures HexDecode(s).Some? <==> HexValue(s[0]).Some? && HexValue(s[1]).Some? && HexDecode(s[2..]).Some?
  {
  }

  lemma AllHexHead(s: string)
    requires |s| > 1
    ensures AllHex(s) <==> HexValue(s[0]).Some? && HexValue(s[1]).Some? && AllHex(s[2..])
  {
    HexDigitIff(s[0]);
    HexDigitIff(s[1]);
    var rest := s[2..];
    assert forall i :: 2 <= i < |s| ==> s[i] == rest[i - 2];
  }

  /** Hex text can be read iff it is of even length and has hex digits only, in either case. */
  lemma {:induction false} HexReadIff(s: string)
    ensures HexDecode(s).Some? <==> |s| % 2 == 0 && AllHex(s)
  {
    if |s| > 1 {
      HexReadHead(s);
      AllHexHead(s);
      HexReadIff(s[2..]);
    }
  }
}
