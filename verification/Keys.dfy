/** The three key types, their two representations, and their successor. */
module Keys {
  import opened ByteStrings
  import opened Codec
  import opened Wrappers

  type uint32 = n: int | 0 <= n < 0x1_0000_0000
  type hash = bs: bytes | |bs| == 32 witness seq(32, _ => 0)

  const MAX_SIGNED: int := 0x8000_0000

  /** binary.BigEndian.Uint32. */
  function Join32(a: byte, b: byte, c: byte, d: byte): (u: uint32) {
    (a as int) * 0x100_0000 + (b as int) * 0x1_0000 + (c as int) * 0x100 + d as int
  }

  /** The first `len` bytes of the minimal form of the value plus one; None where there are fewer. */
  function CutSuccessor(bs: bytes, len: nat): (r: Option<bytes>)
    ensures r.Some? ==> |r.value| == len
  {
    var sum := MinBytes(Value(bs) + 1);
    if |sum| < len then None else Some(sum[..len])
  }

  datatype Key = Uint32Key(u: uint32) | HashKey(h: hash) | BytesKey(b: bytes) {

    function Bytes(): bytes {
      match this
      case Uint32Key(u) => [u / 0x100_0000, u / 0x1_0000 % 0x100, u / 0x100 % 0x100, u % 0x100]
      case HashKey(h) => h
      case BytesKey(b) => b
    }

    /** Reads a key of this key's type; this key's own value plays no part. */
    function FromBytes(i: bytes): Option<Key> {
      match this
      case Uint32Key(_) =>
        if |i| != 4 then None
        else Some(Uint32Key(Join32(i[0], i[1], i[2], i[3])))
      case HashKey(_) => if |i| != 32 then None else Some(HashKey(i))
      case BytesKey(_) => Some(BytesKey(i))
    }

    function String(): string {
      match this
      case Uint32Key(u) => Decimal(u)
      case HashKey(h) => HexEncode(h)
      case BytesKey(b) => HexEncode(b)
    }

    /** Reads a key of this key's type. Numbers go through the signed 32-bit parser. */
    function FromString(i: string): Option<Key> {
      match this
      case Uint32Key(_) =>
        (match ParseInt32(i)
         case None => None
         case Some(n) => if n < 0 then None else Some(Uint32Key(n)))
      case HashKey(_) =>
        (match HexDecode(i)
         case None => None
         case Some(bs) => FromBytes(bs))
      case BytesKey(_) =>
        (match HexDecode(i)
         case None => None
         case Some(bs) => FromBytes(bs))
    }

    /** The next logical key. None is HashKey's slice panic: fewer than 32 bytes to cut 32 from. */
    function Next(): Option<Key> {
      match this
      case Uint32Key(u) => Some(Uint32Key((u + 1) % 0x1_0000_0000))
      case HashKey(h) =>
        (match CutSuccessor(h, 32)
         case None => None
         case Some(next) => Some(HashKey(next)))
      case BytesKey(b) => Some(BytesKey(MinBytes(Value(b) + 1)))
    }
  }

  predicate SameType(k: Key, l: Key) {
    k.Uint32Key? == l.Uint32Key? && k.HashKey? == l.HashKey?
  }

  // ---- Representations ----

  lemma Uint32BytesValue(u: uint32)
    ensures Value(Uint32Key(u).Bytes()) == u
  {
    var bs := Uint32Key(u).Bytes();
    var b3, b2, b1 := bs[..3], bs[..2], bs[..1];
    assert b3[..2] == b2 && b2[..1] == b1 && b1[..0] == [];
    assert Value(b1) == bs[0];
    assert Value(b2) == 256 * Value(b1) + bs[1];
    assert Value(b3) == 256 * Value(b2) + bs[2];
    assert Value(bs) == 256 * Value(b3) + bs[3];
    Split32(u);
  }

  lemma Split32(u: uint32)
    ensures Join32(u / 0x100_0000, u / 0x1_0000 % 0x100, u / 0x100 % 0x100, u % 0x100) == u
  {
    assert u / 0x1_0000 == u / 0x100 / 0x100 && u / 0x100_0000 == u / 0x1_0000 / 0x100;
  }

  lemma Join32Parts(a: byte, b: byte, c: byte, d: byte)
    ensures var u := Join32(a, b, c, d);
      u / 0x100_0000 == a && u / 0x1_0000 % 0x100 == b && u / 0x100 % 0x100 == c && u % 0x100 == d
  {
    var u := Join32(a, b, c, d);
    assert u / 0x100 == 0x1_0000 * (a as int) + 0x100 * (b as int) + c as int;
    assert u / 0x1_0000 == 0x100 * (a as int) + b as int;
  }

  lemma FourBytes(k: bytes)
    requires |k| == 4
    ensures Uint32Key(Join32(k[0], k[1], k[2], k[3])).Bytes() == k
  {
    Join32Parts(k[0], k[1], k[2], k[3]);
  }

  /** FromBytes undoes Bytes, and Bytes undoes every successful FromBytes. */
  lemma BytesRoundTrip(like: Key, k: Key, i: bytes)
    ensures SameType(like, k) ==> like.FromBytes(k.Bytes()) == Some(k)
    ensures like.FromBytes(i).Some? ==> like.FromBytes(i).value.Bytes() == i && SameType(like, like.FromBytes(i).value)
    ensures like.FromBytes(i).None? <==>
      (like.Uint32Key? && |i| != 4) || (like.HashKey? && |i| != 32)
  {
    if like.Uint32Key? && |i| == 4 {
      Join32Parts(i[0], i[1], i[2], i[3]);
      assert i == [i[0], i[1], i[2], i[3]];
    }
    if like.Uint32Key? && k.Uint32Key? {
      Split32(k.u);
    }
  }

  /** Text survives the round trip for every hash and byte key, and for a number iff it is below 2^31. */
  lemma TextRoundTrip(like: Key, k: Key)
    requires SameType(like, k)
    ensures like.FromString(k.String()) == Some(k) <==> (k.Uint32Key? ==> k.u < MAX_SIGNED)
    ensures like.FromString(k.String()) == None <==> (k.Uint32Key? && k.u >= MAX_SIGNED)
  {
    match k
    case Uint32Key(u) => ParseDecimal(u);
    case HashKey(h) => HexRoundTrip(h);
    case BytesKey(b) => HexRoundTrip(b);
  }

  lemma TextHasNoDot(k: Key)
    ensures '.' !in k.String()
  {
    match k
    case Uint32Key(u) => ParseDecimal(u);
    case HashKey(h) => HexRoundTrip(h);
    case BytesKey(b) => HexRoundTrip(b);
  }

  /** Two keys of one type with the same text are the same key, also where the text cannot be read back. */
  lemma TextInjective(k: Key, l: Key)
    requires SameType(k, l) && k.String() == l.String()
    ensures k == l
  {
    match k
    case Uint32Key(u) => ParseDecimal(u); ParseDecimal(l.u);
    case HashKey(h) => HexRoundTrip(h); HexRoundTrip(l.h);
    case BytesKey(b) => HexRoundTrip(b); HexRoundTrip(l.b);
  }

  /** The digits of a number's text, after a sign if it has one. */
  function Unsigned(s: string): string {
    if s != "" && (s[0] == '-' || s[0] == '+') then s[1..] else s
  }

  /** Byte keys are read from even-length hex, hash keys from 64 hex digits, in either letter case. */
  lemma HexKeyFailsIff(like: Key, s: string)
    requires like.BytesKey? || like.HashKey?
    ensures like.FromString(s) == None <==> !AllHex(s) || (if like.HashKey? then |s| != 64 else |s| % 2 != 0)
  {
    HexReadIff(s);
  }

  /** Numbers are read from digits after at most one sign, of a value below 2^31 that a minus sign does not make
      negative. */
  lemma NumberFailsIff(like: Key, s: string)
    requires like.Uint32Key?
    ensures like.FromString(s) == None <==>
      || Unsigned(s) == "" || !AllDigits(Unsigned(s))
      || (ParseDigits(Unsigned(s)).Some? &&
          (ParseDigits(Unsigned(s)).value >= 0x8000_0000 || (s != "" && s[0] == '-' && ParseDigits(Unsigned(s)).value > 0)))
  {
    DigitsReadIff(Unsigned(s));
  }

  // ---- Successor ----

  lemma BytesSuccessor(b: bytes) returns (next: bytes)
    ensures BytesKey(b).Next() == Some(BytesKey(next)) && Minimal(next) && Value(next) == Value(b) + 1
  {
    next := MinBytes(Value(b) + 1);
    ValueOfMinBytes(Value(b) + 1);
  }

  /** BytesKey.Next is the one byte string without a leading zero whose value is one more. */
  lemma BytesNextIsMinimalSuccessor(b: bytes, c: bytes)
    ensures BytesKey(b).Next() == Some(BytesKey(c)) <==> Minimal(c) && Value(c) == Value(b) + 1
  {
    var next := BytesSuccessor(b);
    if Minimal(c) && Value(c) == Value(b) + 1 {
      SameMinimal(c, next);
    }
  }

  lemma CutSuccessorCases(bs: bytes, len: nat)
    requires |bs| == len > 0
    ensures CutSuccessor(bs, len).None? <==> Value(bs) + 1 < Pow256(len - 1)
    ensures CutSuccessor(bs, len).Some? ==>
      Value(CutSuccessor(bs, len).value) == if Value(bs) + 1 < Pow256(len) then Value(bs) + 1 else Pow256(len - 1)
  {
    var n := Value(bs) + 1;
    var sum := MinBytes(n);
    ValueBound(bs);
    ValueOfMinBytes(n);
    LengthOfMinBytes(n, len);
    if |sum| == len {
      assert sum[..len] == sum;
    } else if |sum| > len {
      LengthOfMinBytes(n, len + 1);
      assert n == Pow256(len) && n / 256 == Pow256(len - 1);
      ValueOfMinBytes(n / 256);
      assert sum[..len] == MinBytes(n / 256);
    }
  }

  lemma HashNextByLength(h: hash, len: nat)
    requires len == |h|
    ensures HashKey(h).Next().None? <==> Value(h) + 1 < Pow256(len - 1)
    ensures HashKey(h).Next().Some? ==>
      Value(HashKey(h).Next().value.h) == if Value(h) + 1 < Pow256(len) then Value(h) + 1 else Pow256(len - 1)
  {
    CutSuccessorCases(h, len);
  }

  /** HashKey.Next panics below 2^248 - 1, adds one below 2^256 - 1, and falls back to 2^248 from all-0xff. */
  lemma HashNextCases(h: hash)
    ensures HashKey(h).Next().None? <==> Value(h) + 1 < Pow256(31)
    ensures HashKey(h).Next().Some? ==>
      Value(HashKey(h).Next().value.h) == if Value(h) + 1 < Pow256(32) then Value(h) + 1 else Pow256(31)
  {
    HashNextByLength(h, |h|);
  }

  lemma NumberNext(u: uint32)
    ensures Value(Uint32Key(u).Bytes()) == u
    ensures Value(Uint32Key(u).Next().value.Bytes()) == (u + 1) % 0x1_0000_0000
  {
    Uint32BytesValue(u);
    Uint32BytesValue((u + 1) % 0x1_0000_0000);
  }

  lemma HashNext(h: hash, len: nat)
    requires len == |h| && HashKey(h).Next().Some?
    ensures var n := Value(HashKey(h).Next().value.h); n == Value(h) + 1 || n <= Value(h)
  {
    HashNextByLength(h, len);
    ValueBound(h);
  }

  /** Every successor is one more, or it has wrapped around. */
  lemma OneMoreOrWrapped(k: Key)
    requires k.Next().Some?
    ensures var n := Value(k.Next().value.Bytes()); n == Value(k.Bytes()) + 1 || n <= Value(k.Bytes())
  {
    if k.Uint32Key? {
      NumberNext(k.u);
    } else if k.HashKey? {
      HashNext(k.h, |k.h|);
    } else {
      ValueOfMinBytes(Value(k.b) + 1);
    }
  }

  /** A larger successor of the same length is one more. */
  lemma NextIsOneMore(k: Key)
    requires k.Next().Some? && |k.Next().value.Bytes()| == |k.Bytes()| && Less(k.Bytes(), k.Next().value.Bytes())
    ensures Value(k.Next().value.Bytes()) == Value(k.Bytes()) + 1
  {
    OneMoreOrWrapped(k);
    LessIsNumeric(k.Bytes(), k.Next().value.Bytes());
  }

  /** Among keys of one byte length, nothing lies strictly between a key and its larger successor. */
  lemma NoKeyBetween(k: Key, x: bytes)
    requires k.Next().Some? && |k.Next().value.Bytes()| == |k.Bytes()| == |x|
    requires Less(k.Bytes(), k.Next().value.Bytes())
    ensures !(Less(k.Bytes(), x) && Less(x, k.Next().value.Bytes()))
  {
    NextIsOneMore(k);
    LessIsNumeric(k.Bytes(), x);
    LessIsNumeric(x, k.Next().value.Bytes());
  }
}
