/**
 * Arithmetic behind the short-code encoder: reading a byte string as a
 * big-endian unsigned integer (Python's int.from_bytes(b, 'big')), writing an
 * integer back as a fixed number of big-endian bytes (int.to_bytes(len, 'big')),
 * int.bit_length(), and writing an integer in base 62, most significant digit
 * first, over an alphabet of 62 distinct characters that is left as a parameter.
 */
module Base62 {
  import opened Wrappers

  type Byte = b: nat | b < 256
  type Digit = d: nat | d < 62

  const BASE: nat := 62

  function Pow(b: nat, e: nat): (r: nat)
    ensures b >= 1 ==> r >= 1
  {
    if e == 0 then 1 else b * Pow(b, e - 1)
  }

  lemma MulAssoc(x: nat, y: nat, z: nat)
    ensures x * (y * z) == y * (x * z)
  {
  }

  lemma {:induction false} PowAdd(b: nat, e1: nat, e2: nat)
    ensures Pow(b, e1 + e2) == Pow(b, e1) * Pow(b, e2)
  {
    if e2 > 0 {
      PowAdd(b, e1, e2 - 1);
      calc {
        Pow(b, e1 + e2);
        b * Pow(b, e1 + e2 - 1);
        b * (Pow(b, e1) * Pow(b, e2 - 1));
        { MulAssoc(b, Pow(b, e1), Pow(b, e2 - 1)); }
        Pow(b, e1) * (b * Pow(b, e2 - 1));
        Pow(b, e1) * Pow(b, e2);
      }
    }
  }

  lemma MulAtLeast(x: nat, y: nat)
    requires x >= 1
    ensures x * y >= y
  {
  }

  lemma {:induction false} PowMonotone(b: nat, e1: nat, e2: nat)
    requires b >= 1 && e1 <= e2
    ensures Pow(b, e1) <= Pow(b, e2)
  {
    if e1 < e2 {
      PowMonotone(b, e1, e2 - 1);
      MulAtLeast(b, Pow(b, e2 - 1));
    }
  }

  /** Powers of a base of at least 1 that are strictly ordered have strictly ordered exponents. */
  lemma ExpLess(b: nat, e1: nat, e2: nat)
    requires b >= 1 && Pow(b, e1) < Pow(b, e2)
    ensures e1 < e2
  {
    if e2 <= e1 {
      PowMonotone(b, e2, e1);
    }
  }

  /** 256 to the k is 2 to the 8k: a byte is eight bits. */
  lemma {:induction false} ByteBits(k: nat)
    ensures Pow(256, k) == Pow(2, 8 * k)
  {
    if k > 0 {
      ByteBits(k - 1);
      PowAdd(2, 8 * (k - 1), 8);
      assert Pow(2, 8) == 256;
    }
  }

  // ---------------------------------------------------------------------
  // Bytes <-> integer

  /** int.from_bytes(s, 'big'): the value of s read most significant byte first. */
  function FromBytes(s: seq<Byte>): (n: nat)
    ensures n < Pow(256, |s|)
  {
    if s == [] then 0
    else
      var m := FromBytes(s[..|s| - 1]);
      assert m <= Pow(256, |s| - 1) - 1;
      assert m * 256 <= Pow(256, |s| - 1) * 256 - 256;
      m * 256 + s[|s| - 1]
  }

  /** A byte string with a non-zero leading byte uses all of its bytes. */
  lemma {:induction false} FromBytesLowerBound(s: seq<Byte>)
    requires s != [] && s[0] != 0
    ensures Pow(256, |s| - 1) <= FromBytes(s)
  {
    if |s| > 1 {
      var init := s[..|s| - 1];
      FromBytesLowerBound(init);
      assert FromBytes(s) == FromBytes(init) * 256 + s[|s| - 1];
      assert Pow(256, |s| - 1) == Pow(256, |init| - 1) * 256;
    }
  }

  /** Leading zero bytes do not change the value. */
  lemma {:induction false} FromBytesLeadingZero(s: seq<Byte>)
    ensures FromBytes([0] + s) == FromBytes(s)
  {
    if s != [] {
      var init := s[..|s| - 1];
      FromBytesLeadingZero(init);
      assert ([0] + s)[..|s|] == [0] + init;
    }
  }

  /**
   * n.to_bytes(len, 'big'): the len-byte big-endian representation of n, or
   * None where Python raises OverflowError because n does not fit in len bytes.
   */
  function ToBytes(n: nat, len: nat): (r: Option<seq<Byte>>)
    ensures r.Some? <==> n < Pow(256, len)
    ensures r.Some? ==> |r.value| == len && FromBytes(r.value) == n
  {
    if len == 0 then
      if n == 0 then Some([]) else None
    else
      match ToBytes(n / 256, len - 1)
      case None =>
        assert n >= Pow(256, len) by {
          assert n / 256 >= Pow(256, len - 1);
        }
        None
      case Some(p) =>
        var r := p + [n % 256];
        assert r[..|r| - 1] == p;
        assert n < Pow(256, len) by {
          assert n / 256 < Pow(256, len - 1);
        }
        Some(r)
  }

  /** Writing the value of s back with |s| bytes gives s again. */
  lemma {:induction false} ToBytesFromBytes(s: seq<Byte>)
    ensures ToBytes(FromBytes(s), |s|) == Some(s)
  {
    if s != [] {
      var init := s[..|s| - 1];
      ToBytesFromBytes(init);
      var n := FromBytes(s);
      assert n / 256 == FromBytes(init) && n % 256 == s[|s| - 1];
      assert init + [s[|s| - 1]] == s;
    }
  }

  // ---------------------------------------------------------------------
  // bit_length and the byte count used when decoding

  /** int.bit_length(): the number of binary digits of n, 0 for 0. */
  function BitLength(n: nat): (k: nat)
    ensures n == 0 ==> k == 0
    ensures n < Pow(2, k)
    ensures n > 0 ==> k >= 1 && Pow(2, k - 1) <= n
  {
    if n == 0 then 0 else 1 + BitLength(n / 2)
  }

  /** (n.bit_length() + 7) // 8: the fewest whole bytes that hold n. */
  function ByteLength(n: nat): (m: nat)
    ensures BitLength(n) <= 8 * m < BitLength(n) + 8
  {
    (BitLength(n) + 7) / 8
  }

  /** The byte count is always enough, so the to_bytes of the decoder never overflows. */
  lemma ByteLengthFits(n: nat)
    ensures n < Pow(256, ByteLength(n))
  {
    var k := BitLength(n);
    ByteBits(ByteLength(n));
    PowMonotone(2, k, 8 * ByteLength(n));
  }

  lemma CeilDiv8(k: nat, m: nat)
    requires 8 * m - 8 < k <= 8 * m
    ensures (k + 7) / 8 == m
  {
  }

  /** A value of more than 8(m-1) and at most 8m bits needs exactly m bytes. */
  lemma ByteLengthBetween(n: nat, m: nat)
    requires m >= 1 && Pow(2, 8 * (m - 1)) <= n < Pow(2, 8 * m)
    ensures ByteLength(n) == m
  {
    var k := BitLength(n);
    ExpLess(2, 8 * (m - 1), k);
    ExpLess(2, k - 1, 8 * m);
    CeilDiv8(k, m);
  }

  /** For a byte string without a leading zero byte the byte count is exactly its length. */
  lemma ByteLengthOfFromBytes(s: seq<Byte>)
    requires s == [] || s[0] != 0
    ensures ByteLength(FromBytes(s)) == |s|
  {
    if s != [] {
      FromBytesLowerBound(s);
      ByteBits(|s|);
      ByteBits(|s| - 1);
      ByteLengthBetween(FromBytes(s), |s|);
    }
  }

  // ---------------------------------------------------------------------
  // Base-62 digits

  /** A digit string as the encoder writes it: at least one digit, no leading zero unless it is "0". */
  predicate Canonical(ds: seq<Digit>) {
    |ds| >= 1 && (|ds| > 1 ==> ds[0] != 0)
  }

  /** base62.encode(n) on digit values: most significant first, a single zero digit for 0. */
  function ToDigits(n: nat): (ds: seq<Digit>)
    ensures Canonical(ds)
    ensures n > 0 ==> ds[0] != 0
  {
    if n < BASE then [n] else ToDigits(n / BASE) + [n % BASE]
  }

  /** base62.decode(s) on digit values: the empty string decodes to 0. */
  function FromDigits(ds: seq<Digit>): (n: nat)
    ensures n < Pow(BASE, |ds|)
  {
    if ds == [] then 0
    else
      var m := FromDigits(ds[..|ds| - 1]);
      assert m <= Pow(BASE, |ds| - 1) - 1;
      assert m * BASE <= Pow(BASE, |ds| - 1) * BASE - BASE;
      m * BASE + ds[|ds| - 1]
  }

  lemma {:induction false} FromDigitsToDigits(n: nat)
    ensures FromDigits(ToDigits(n)) == n
  {
    if n >= BASE {
      FromDigitsToDigits(n / BASE);
      var ds := ToDigits(n);
      assert ds[..|ds| - 1] == ToDigits(n / BASE);
    }
  }

  lemma {:induction false} FromDigitsAtLeastLead(ds: seq<Digit>)
    requires ds != []
    ensures FromDigits(ds) >= ds[0]
  {
    if |ds| > 1 {
      FromDigitsAtLeastLead(ds[..|ds| - 1]);
    }
  }

  /** Every canonical digit string is the encoding of its own value. */
  lemma {:induction false} ToDigitsFromDigits(ds: seq<Digit>)
    requires Canonical(ds)
    ensures ToDigits(FromDigits(ds)) == ds
  {
    if |ds| > 1 {
      var init := ds[..|ds| - 1];
      assert init[0] == ds[0];
      ToDigitsFromDigits(init);
      FromDigitsAtLeastLead(init);
      var n := FromDigits(ds);
      assert n / BASE == FromDigits(init) && n % BASE == ds[|ds| - 1];
      assert init + [ds[|ds| - 1]] == ds;
    }
  }

  // ---------------------------------------------------------------------
  // The character alphabet

  /** 62 pairwise distinct characters; digit d is written as a[d]. */
  predicate IsAlphabet(a: seq<char>) {
    |a| == BASE && forall i, j :: 0 <= i < j < |a| ==> a[i] != a[j]
  }

  function Spell(ds: seq<Digit>, a: seq<char>): (s: string)
    requires |a| == BASE
    ensures |s| == |ds| && forall i :: 0 <= i < |ds| ==> s[i] == a[ds[i]]
  {
    seq(|ds|, i requires 0 <= i < |ds| => a[ds[i]])
  }

  /** The first position of c in a, |a| when it does not occur. */
  function IndexOf(a: seq<char>, c: char): (i: nat)
    ensures i <= |a|
    ensures i < |a| ==> a[i] == c
    ensures forall j :: 0 <= j < i ==> a[j] != c
  {
    if a == [] then 0
    else if a[0] == c then 0
    else 1 + IndexOf(a[1..], c)
  }

  /** The digit a character stands for, None when it is not in the alphabet. */
  function DigitOf(c: char, a: seq<char>): (r: Option<Digit>)
    requires |a| == BASE
    ensures r.Some? ==> a[r.value] == c
    ensures r.None? ==> c !in a
  {
    var i := IndexOf(a, c);
    if i < |a| then Some(i) else None
  }

  /** The digits of s, None (base62's ValueError) when a character is outside the alphabet. */
  function Unspell(s: string, a: seq<char>): (r: Option<seq<Digit>>)
    requires |a| == BASE
    ensures r.Some? <==> forall i :: 0 <= i < |s| ==> s[i] in a
    ensures r.Some? ==> |r.value| == |s| && forall i :: 0 <= i < |s| ==> a[r.value[i]] == s[i]
  {
    if s == [] then Some([])
    else
      match (DigitOf(s[0], a), Unspell(s[1..], a))
      case (Some(d), Some(rest)) =>
        assert forall i :: 1 <= i < |s| ==> s[i] == s[1..][i - 1];
        Some([d] + rest)
      case (None, _) => None
      case (_, None) =>
        assert !(s[1..][0] in a) || exists i :: 0 <= i < |s[1..]| && s[1..][i] !in a;
        None
  }

  lemma UnspellSpell(ds: seq<Digit>, a: seq<char>)
    requires IsAlphabet(a)
    ensures Unspell(Spell(ds, a), a) == Some(ds)
  {
    var s := Spell(ds, a);
    forall i | 0 <= i < |s| ensures s[i] in a {
      assert s[i] == a[ds[i]];
    }
    var r := Unspell(s, a);
    assert r.Some? && |r.value| == |ds|;
    forall i | 0 <= i < |ds| ensures r.value[i] == ds[i] {
      var x, y := r.value[i], ds[i];
      assert a[x] == a[y];
    }
    assert r.value == ds;
  }

  lemma SpellUnspell(s: string, a: seq<char>)
    requires |a| == BASE && Unspell(s, a).Some?
    ensures Spell(Unspell(s, a).value, a) == s
  {
  }
}
