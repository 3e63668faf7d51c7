/** Byte strings: big-endian value, minimal form, and the order of Go's bytes.Compare. */
module ByteStrings {
  type byte = b: int | 0 <= b < 256
  type bytes = seq<byte>

  function Pow256(n: nat): (p: nat)
    ensures p >= 1
  {
    if n == 0 then 1 else 256 * Pow256(n - 1)
  }

  /** big.Int.SetBytes: the number that `bs` spells, most significant byte first. */
  function Value(bs: bytes): nat {
    if bs == [] then 0 else 256 * Value(bs[..|bs| - 1]) + bs[|bs| - 1]
  }

  /** big.Int.Bytes: the big-endian form of `n` without leading zero bytes; zero is the empty string. */
  function MinBytes(n: nat): bytes {
    if n == 0 then [] else MinBytes(n / 256) + [n % 256]
  }

  predicate Minimal(bs: bytes) {
    bs == [] || bs[0] != 0
  }

  /** bytes.Compare(a, b) < 0. */
  predicate Less(a: bytes, b: bytes) {
    b != [] && (a == [] || a[0] < b[0] || (a[0] == b[0] && Less(a[1..], b[1..])))
  }

  // ---- Value and minimal form ----

  lemma {:induction false} ValueOfMinBytes(n: nat)
    ensures Value(MinBytes(n)) == n
    ensures Minimal(MinBytes(n))
  {
    if n != 0 {
      ValueOfMinBytes(n / 256);
      var init := MinBytes(n / 256);
      assert MinBytes(n)[..|init|] == init;
    }
  }

  lemma {:induction false} MinimalIsPositive(bs: bytes)
    requires Minimal(bs) && bs != []
    ensures Value(bs) > 0
  {
    if |bs| > 1 {
      MinimalIsPositive(bs[..|bs| - 1]);
    }
  }

  /** A byte string without a leading zero is determined by its value. */
  lemma {:induction false} MinBytesOfValue(bs: bytes)
    requires Minimal(bs)
    ensures MinBytes(Value(bs)) == bs
  {
    if bs != [] {
      MinimalIsPositive(bs);
      var init := bs[..|bs| - 1];
      MinBytesOfValue(init);
      assert Value(bs) / 256 == Value(init) && Value(bs) % 256 == bs[|bs| - 1];
      assert bs == init + [bs[|bs| - 1]];
    }
  }

  lemma SameMinimal(a: bytes, b: bytes)
    requires Minimal(a) && Minimal(b) && Value(a) == Value(b)
    ensures a == b
  {
    MinBytesOfValue(a);
    MinBytesOfValue(b);
  }

  lemma {:induction false} ValueConcat(a: bytes, b: bytes)
    ensures Value(a + b) == Value(a) * Pow256(|b|) + Value(b)
  {
    if b == [] {
      assert a + b == a;
    } else {
      var init := b[..|b| - 1];
      ValueConcat(a, init);
      assert (a + b)[..|a + b| - 1] == a + init;
      calc {
        Value(a + b);
        256 * Value(a + init) + b[|b| - 1];
        256 * (Value(a) * Pow256(|init|) + Value(init)) + b[|b| - 1];
        { MulAssoc(Value(a), Pow256(|init|)); }
        Value(a) * Pow256(|b|) + Value(b);
      }
    }
  }

  lemma MulAssoc(x: nat, y: nat)
    ensures 256 * (x * y) == x * (256 * y)
  {
  }

  lemma {:induction false} ValueBound(bs: bytes)
    ensures Value(bs) < Pow256(|bs|)
  {
    if bs != [] {
      ValueBound(bs[..|bs| - 1]);
    }
  }

  /** The length of the minimal form locates the number between two powers of 256. */
  lemma {:induction false} MinBytesLength(n: nat)
    requires n > 0
    ensures |MinBytes(n)| > 0
    ensures Pow256(|MinBytes(n)| - 1) <= n < Pow256(|MinBytes(n)|)
  {
    if n / 256 > 0 {
      MinBytesLength(n / 256);
    } else {
      assert MinBytes(n) == [n % 256];
      assert Pow256(1) == 256 * Pow256(0);
    }
  }

  lemma {:induction false} Pow256Monotone(m: nat, n: nat)
    requires m <= n
    ensures Pow256(m) <= Pow256(n)
  {
    if m < n {
      Pow256Monotone(m, n - 1);
    }
  }

  /** `n` has exactly `len` bytes iff it lies in [256^(len-1), 256^len). */
  lemma LengthOfMinBytes(n: nat, len: nat)
    requires len > 0
    ensures |MinBytes(n)| == len <==> Pow256(len - 1) <= n < Pow256(len)
    ensures |MinBytes(n)| < len <==> n < Pow256(len - 1)
  {
    if n > 0 {
      MinBytesLength(n);
      var l := |MinBytes(n)|;
      if l < len {
        Pow256Monotone(l, len - 1);
      } else if l > len {
        Pow256Monotone(len, l - 1);
        Pow256Monotone(len - 1, len);
      }
    }
  }

  // ---- Byte order ----

  lemma {:induction false} LessIrreflexive(a: bytes)
    ensures !Less(a, a)
  {
    if a != [] {
      LessIrreflexive(a[1..]);
    }
  }

  lemma {:induction false} LessTransitive(a: bytes, b: bytes, c: bytes)
    requires Less(a, b) && Less(b, c)
    ensures Less(a, c)
  {
    if a != [] && a[0] == b[0] && b[0] == c[0] {
      LessTransitive(a[1..], b[1..], c[1..]);
    }
  }

  lemma {:induction false} LessTotal(a: bytes, b: bytes)
    ensures a == b || Less(a, b) || Less(b, a)
  {
    if a != [] && b != [] && a[0] == b[0] {
      LessTotal(a[1..], b[1..]);
      assert a == [a[0]] + a[1..] && b == [b[0]] + b[1..];
    }
  }

  lemma {:induction false} LessCommonPrefix(p: bytes, a: bytes, b: bytes)
    ensures Less(p + a, p + b) <==> Less(a, b)
  {
    if p == [] {
      assert p + a == a && p + b == b;
    } else {
      assert (p + a)[1..] == p[1..] + a && (p + b)[1..] == p[1..] + b;
      LessCommonPrefix(p[1..], a, b);
    }
  }

  /** On equal lengths the byte order is the numeric order. */
  lemma {:induction false} LessIsNumeric(a: bytes, b: bytes)
    requires |a| == |b|
    ensures Less(a, b) <==> Value(a) < Value(b)
  {
    if a != [] {
      var ta, tb := a[1..], b[1..];
      LessIsNumeric(ta, tb);
      HeadValue(a);
      HeadValue(b);
      ValueBound(ta);
      ValueBound(tb);
      var p := Pow256(|ta|);
      if a[0] < b[0] {
        HeadDominates(a[0], b[0], p, Value(ta), Value(tb));
      } else if b[0] < a[0] {
        HeadDominates(b[0], a[0], p, Value(tb), Value(ta));
      }
    }
  }

  lemma HeadValue(a: bytes)
    requires a != []
    ensures Value(a) == a[0] * Pow256(|a| - 1) + Value(a[1..])
  {
    var head := [a[0]];
    assert a == head + a[1..];
    ValueConcat(head, a[1..]);
    assert Value(head) == a[0] by {
      assert head[..0] == [] && Value([]) == 0;
    }
  }

  lemma HeadDominates(x: nat, y: nat, p: nat, lo: nat, hi: nat)
    requires x < y && lo < p
    ensures x * p + lo < y * p + hi
  {
    assert (x + 1) * p <= y * p;
  }

  lemma EqualLengthValueInjective(a: bytes, b: bytes)
    requires |a| == |b| && Value(a) == Value(b)
    ensures a == b
  {
    LessTotal(a, b);
    LessIsNumeric(a, b);
    LessIsNumeric(b, a);
  }

  /** Every string between two extensions of `p` extends `p`: a shelf's block is contiguous. */
  lemma {:induction false} PrefixBlockIsConvex(p: bytes, a: bytes, x: bytes, b: bytes)
    requires !Less(x, p + a) && Less(x, p + b)
    ensures p <= x
  {
    if p != [] {
      assert (p + a)[1..] == p[1..] + a && (p + b)[1..] == p[1..] + b;
      PrefixBlockIsConvex(p[1..], a, x[1..], b);
      assert x == [x[0]] + x[1..] && p == [p[0]] + p[1..];
    }
  }
}
