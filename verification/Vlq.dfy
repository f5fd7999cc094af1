/** The variable-length integer: little-endian base 128, the unsigned LEB128 of
    section 7.6 of DWARF Version 5. The top bit of a byte says that another follows. */
module Vlq {
  import opened Words
  import opened Errors

  /** No encoding of a 64-bit word is longer. */
  const MAX_VLQ_LEN: nat := 10

  /** The base-128 digits of v, least significant first. */
  function Encoding(v: nat): (s: seq<byte>)
    ensures |s| >= 1
  {
    if v < 128 then [v] else [v % 128 + 128] + Encoding(v / 128)
  }

  /** How many leading bytes have the top bit set. */
  function Continued(s: seq<byte>): (k: nat)
    ensures k <= |s|
    ensures forall i :: 0 <= i < k ==> s[i] >= 128
    ensures k < |s| ==> s[k] < 128
  {
    if s == [] || s[0] < 128 then 0 else 1 + Continued(s[1..])
  }

  /** The sum of the 7-bit groups of s, group i weighted by 128^i. */
  function GroupSum(s: seq<byte>): nat {
    if s == [] then 0 else s[0] % 128 + 128 * GroupSum(s[1..])
  }

  /** What decoding arbitrary bytes means: the groups up to the first byte with a clear
      top bit, if that is among the first ten, summed modulo 2^64. */
  function Decoded(s: seq<byte>): Result<u64> {
    var k := Continued(s);
    if k < |s| && k < MAX_VLQ_LEN then Success(GroupSum(s[..k + 1]) % TWO_64)
    else if |s| >= MAX_VLQ_LEN then Failure(DecodeVlqOverflow)
    else Failure(IncompleteVlqSeq)
  }

  // The loops of the Rust library

  /** `vlq_encode`. */
  method VlqEncode(value: u64) returns (buffer: seq<byte>)
    ensures buffer == Encoding(value)
  {
    hide And, Or, Shr64, Encoding;
    var v := value;
    buffer := [];
    while true
      invariant buffer + Encoding(v) == Encoding(value)
      decreases v
    {
      EncoderRound(v);
      var low: byte := And(v, 0x7F);
      var rest := Shr64(v, 7);
      if rest != 0 {
        low := Or(low, 0x80);
      }
      ghost var before := buffer;
      buffer := buffer + [low];
      if rest == 0 {
        break;
      }
      assert before + ([low] + Encoding(rest)) == buffer + Encoding(rest);
      v := rest;
    }
  }

  /** What one round of either encoder computes. */
  lemma EncoderRound(v: u64)
    ensures And(v, 0x7F) < 128 && Or(And(v, 0x7F), 0x80) == And(v, 0x7F) + 128
    ensures Shr64(v, 7) == v / 128
    ensures Shr64(v, 7) == 0 ==> Encoding(v) == [And(v, 0x7F)]
    ensures Shr64(v, 7) != 0 ==> Encoding(v) == [And(v, 0x7F) + 128] + Encoding(Shr64(v, 7))
  {
    Pow2Values();
    AndLowMask(v, 7);
    OrDisjoint(And(v, 0x7F), 1, 7);
  }

  /** `vlq_decode`. */
  method VlqDecode(bytes: seq<byte>) returns (r: Result<u64>)
    ensures r == Decoded(bytes)
  {
    var value: u64 := 0;
    var shift: nat := 0;
    for i := 0 to |bytes|
      invariant i < MAX_VLQ_LEN && shift == 7 * i
      invariant forall j :: 0 <= j < i ==> bytes[j] >= 128
      invariant value == GroupSum(bytes[..i])
    {
      var b := bytes[i];
      DecoderRound(bytes[..i], b);
      assert bytes[..i + 1] == bytes[..i] + [b];
      value := Or(value, Shl64(And(b, 0x7F), shift));
      if And(b, 0x80) == 0 {
        ContinuedIs(bytes, i);
        return Success(value);
      }
      shift := shift + 7;
      if shift >= 64 {
        ContinuedAtLeast(bytes, i + 1);
        return Failure(DecodeVlqOverflow);
      }
    }
    ContinuedAtLeast(bytes, |bytes|);
    r := Failure(IncompleteVlqSeq);
  }

  lemma ContinuedIs(s: seq<byte>, k: nat)
    requires k < |s| && s[k] < 128
    requires forall j :: 0 <= j < k ==> s[j] >= 128
    ensures Continued(s) == k
  {
    ContinuedAtLeast(s, k);
  }

  lemma ContinuedAtLeast(s: seq<byte>, k: nat)
    requires k <= |s|
    requires forall j :: 0 <= j < k ==> s[j] >= 128
    ensures Continued(s) >= k
  {
    if Continued(s) < k {
      assert false;
    }
  }

  /** What one round of either decoder computes and tests. */
  lemma DecoderRound(s: seq<byte>, b: byte)
    requires |s| < MAX_VLQ_LEN
    ensures And(b, 0x7F) == b % 128
    ensures And(b, 0x80) == 0 <==> b < 128
    ensures Or(GroupSum(s), Shl64(And(b, 0x7F), 7 * |s|)) == GroupSum(s + [b]) % TWO_64
    ensures |s| + 1 < MAX_VLQ_LEN ==> GroupSum(s + [b]) % TWO_64 == GroupSum(s + [b])
  {
    ByteMasks(b);
    AddGroup(s, b);
    if |s| + 1 < MAX_VLQ_LEN {
      ModUnique(GroupSum(s + [b]), TWO_64, 0, GroupSum(s + [b]));
    }
  }

  // Arithmetic of the groups

  lemma {:induction false} GroupSumBound(s: seq<byte>)
    ensures GroupSum(s) < Pow2(7 * |s|)
  {
    if s != [] {
      GroupSumBound(s[1..]);
      Pow2Values();
      Pow2Add(7, 7 * |s[1..]|);
    }
  }

  lemma {:induction false} GroupSumAppend(s: seq<byte>, b: byte)
    ensures GroupSum(s + [b]) == GroupSum(s) + (b % 128) * Pow2(7 * |s|)
  {
    if s == [] {
      assert [b][1..] == [];
      Pow2Values();
    } else {
      hide Pow2;
      assert (s + [b])[1..] == s[1..] + [b];
      GroupSumAppend(s[1..], b);
      Pow2Values();
      Pow2Add(7, 7 * |s[1..]|);
      assert 128 * ((b % 128) * Pow2(7 * |s[1..]|)) == (b % 128) * (128 * Pow2(7 * |s[1..]|));
    }
  }

  /** One round of the decoder: or-ing in group |s|, shifted and cut to 64 bits, gives the
      sum modulo 2^64 of one group more. Only the tenth group loses bits. */
  lemma AddGroup(s: seq<byte>, b: byte)
    requires |s| < MAX_VLQ_LEN
    ensures GroupSum(s) < TWO_64
    ensures Or(GroupSum(s), Shl64(b % 128, 7 * |s|)) == GroupSum(s + [b]) % TWO_64
    ensures |s| + 1 < MAX_VLQ_LEN ==> GroupSum(s + [b]) < TWO_64
  {
    hide Or, Shl64, GroupSum, Pow2;
    Pow2Values();
    GroupSumBound(s);
    Pow2Monotone(7 * |s|, 63);
    GroupSumAppend(s, b);
    if |s| + 1 < MAX_VLQ_LEN {
      GroupSumBound(s + [b]);
      Pow2Monotone(7 * |s + [b]|, 63);
      OrGroup(GroupSum(s), b % 128, 7 * |s|);
    } else {
      OrTenthGroup(GroupSum(s), b % 128);
    }
  }

  lemma OrGroup(x: nat, g: u64, n: nat)
    requires x < Pow2(n) && x + g * Pow2(n) < TWO_64
    ensures Or(x, Shl64(g, n)) == x + g * Pow2(n) == (x + g * Pow2(n)) % TWO_64
  {
    hide Or, Pow2;
    var y := g * Pow2(n);
    OrDisjoint(x, g, n);
    ModUnique(y, TWO_64, 0, y);
    ModUnique(x + y, TWO_64, 0, x + y);
  }

  lemma OrTenthGroup(x: nat, g: u64)
    requires x < Pow2(63)
    ensures Or(x, Shl64(g, 63)) == (x + g * Pow2(63)) % TWO_64
  {
    hide Or, Pow2;
    Pow2Values();
    OrDisjoint(x, g % 2, 63);
    ModUnique(g * Pow2(63), TWO_64, g / 2, g % 2 * Pow2(63));
    ModUnique(x + g * Pow2(63), TWO_64, g / 2, x + g % 2 * Pow2(63));
  }

  // Round trip and minimality

  /** Reading an encoding stops on its last byte, whatever follows. */
  lemma {:induction false} EncodingIsSelfDelimiting(v: nat, rest: seq<byte>)
    ensures Continued(Encoding(v) + rest) == |Encoding(v)| - 1
  {
    if v < 128 {
      assert (Encoding(v) + rest)[0] == v;
    } else {
      var s := Encoding(v) + rest;
      assert s[1..] == Encoding(v / 128) + rest;
      EncodingIsSelfDelimiting(v / 128, rest);
    }
  }

  lemma {:induction false} EncodingSum(v: nat)
    ensures GroupSum(Encoding(v)) == v
  {
    if v < 128 {
      assert Encoding(v)[1..] == [];
    } else {
      EncodingSum(v / 128);
      assert Encoding(v)[1..] == Encoding(v / 128);
    }
  }

  /** The length is the number of base-128 digits. */
  lemma {:induction false} EncodingLength(v: nat, n: nat)
    requires n >= 1
    ensures |Encoding(v)| <= n <==> v < Pow2(7 * n)
  {
    Pow2Values();
    if n == 1 {
    } else if v < 128 {
      Pow2Monotone(7, 7 * n);
    } else {
      EncodingLength(v / 128, n - 1);
      Pow2Add(7, 7 * (n - 1));
    }
  }

  lemma EncodingFitsTen(v: u64)
    ensures |Encoding(v)| <= MAX_VLQ_LEN
  {
    Pow2Values();
    Pow2Monotone(64, 70);
    EncodingLength(v, MAX_VLQ_LEN);
  }

  /** Round trip: every 64-bit word decodes from its encoding, whatever follows it. */
  lemma DecodeEncoding(v: u64, rest: seq<byte>)
    ensures Decoded(Encoding(v) + rest) == Success(v)
  {
    hide Encoding, GroupSum, Continued;
    EncodingFitsTen(v);
    EncodingIsSelfDelimiting(v, rest);
    var s := Encoding(v) + rest;
    assert s[..|Encoding(v)|] == Encoding(v);
    EncodingSum(v);
  }

  /** Minimality: no byte string decodes to v from fewer bytes than its encoding. */
  lemma NoShorterEncoding(s: seq<byte>, v: u64)
    requires Decoded(s) == Success(v)
    ensures Continued(s) + 1 >= |Encoding(v)|
  {
    var p := s[..Continued(s) + 1];
    GroupSumBound(p);
    ModLe(GroupSum(p), TWO_64);
    EncodingLength(v, |p|);
  }

  lemma ModLe(x: nat, m: nat)
    requires m >= 1
    ensures x % m <= x
  {
    if x < m {
      ModUnique(x, m, 0, x);
    }
  }

  /** Exactly which accepted byte strings are encodings: the last group may not be a
      padding zero, and a tenth byte may only hold bit 63. The decoder accepts the others
      too, so it is not injective. */
  lemma AcceptedIsEncodingIff(s: seq<byte>)
    requires Decoded(s).Success?
    ensures var k := Continued(s);
            s[..k + 1] == Encoding(Decoded(s).value) <==>
            (k == 0 || s[k] != 0) && (k == MAX_VLQ_LEN - 1 ==> s[k] <= 1)
  {
    var k := Continued(s);
    var p := s[..k + 1];
    CanonicalIff(p);
    if k < MAX_VLQ_LEN - 1 {
      GroupSumBound(p);
      Pow2Values();
      Pow2Monotone(7 * |p|, 63);
      ModUnique(GroupSum(p), TWO_64, 0, GroupSum(p));
    } else {
      TenthByteIff(p);
      if GroupSum(p) < TWO_64 {
        ModUnique(GroupSum(p), TWO_64, 0, GroupSum(p));
      }
    }
  }

  /** A padded zero is such a string. */
  lemma PaddedZeroIsAccepted()
    ensures Decoded([128, 0]) == Success(0) && [128, 0] != Encoding(0)
  {
    ContinuedIs([128, 0], 1);
    assert [128, 0][..2] == [128, 0] && [128, 0][1..] == [0];
    assert GroupSum([0]) == 0 && GroupSum([128, 0]) == 0;
  }

  /** Ten groups stay below 2^64 exactly when the last one is at most 1. */
  lemma TenthByteIff(p: seq<byte>)
    requires |p| == MAX_VLQ_LEN && p[9] < 128
    ensures GroupSum(p) < TWO_64 <==> p[9] <= 1
    ensures GroupSum(p) >= TWO_64 ==> p != Encoding(GroupSum(p) % TWO_64)
  {
    hide Pow2, Encoding, GroupSum;
    Pow2Values();
    assert p == p[..9] + [p[9]];
    GroupSumAppend(p[..9], p[9]);
    GroupSumBound(p[..9]);
    EncodingSum(GroupSum(p) % TWO_64);
  }

  /** Without the cut to 64 bits, a stop-terminated string is an encoding unless padded. */
  lemma {:induction false} CanonicalIff(p: seq<byte>)
    requires p != [] && Continued(p) == |p| - 1
    ensures p == Encoding(GroupSum(p)) <==> |p| == 1 || p[|p| - 1] != 0
  {
    var x := GroupSum(p);
    if |p| == 1 {
      assert p[1..] == [];
    } else {
      var t := p[1..];
      CanonicalIff(t);
      assert x / 128 == GroupSum(t) && p[0] == x % 128 + 128;
      assert p == [p[0]] + t;
      if x < 128 {
        assert GroupSum(t) == 0 && |Encoding(x)| == 1;
        ZeroSum(t);
      } else {
        assert Encoding(x) == [p[0]] + Encoding(GroupSum(t));
        assert Encoding(x)[1..] == Encoding(GroupSum(t));
        if |t| == 1 {
          assert t[1..] == [];
        }
      }
    }
  }

  lemma {:induction false} ZeroSum(t: seq<byte>)
    requires t != [] && Continued(t) == |t| - 1 && GroupSum(t) == 0
    ensures t[|t| - 1] == 0
  {
    if |t| > 1 {
      ZeroSum(t[1..]);
    } else {
      assert t[1..] == [];
    }
  }
}
