/** The Internet checksum helpers of dnet/ip.h (RFC 1071), on a host of either
    byte order. */
module Checksum {

  import opened Wrappers

  const IP_LEN_MAX := 65535
  const INT_MAX := 0x7fff_ffff

  /** Value of two adjacent bytes read as a native 16-bit word. */
  function Word(little: bool, a: Byte, b: Byte): (w: nat)
    ensures w <= 65535
  {
    if little then a + 256 * b else 256 * a + b
  }

  /** The native words of a buffer; an odd last byte is padded with zero. */
  function Words(little: bool, buf: seq<Byte>): (ws: seq<nat>)
    ensures |ws| == (|buf| + 1) / 2 && forall i :: 0 <= i < |ws| ==> ws[i] <= 65535
  {
    if buf == [] then []
    else if |buf| == 1 then [Word(little, buf[0], 0)]
    else [Word(little, buf[0], buf[1])] + Words(little, buf[2..])
  }

  function Sum(ws: seq<nat>): nat {
    if ws == [] then 0 else ws[0] + Sum(ws[1..])
  }

  /** htons applied to a byte shifted into the high half. */
  function HtonsHigh(little: bool, b: Byte): nat {
    if little then b else 256 * b
  }

  lemma {:induction false} SumConcat(a: seq<nat>, b: seq<nat>)
    ensures Sum(a + b) == Sum(a) + Sum(b)
  {
    if a == [] {
      assert a + b == b;
    } else {
      SumConcat(a[1..], b);
      assert (a + b)[1..] == a[1..] + b;
    }
  }

  lemma WordsStep(little: bool, buf: seq<Byte>, sp: nat)
    requires sp + 2 <= |buf|
    ensures Sum(Words(little, buf[sp..])) ==
            Word(little, buf[sp], buf[sp + 1]) + Sum(Words(little, buf[sp + 2..]))
  {
    var w := Word(little, buf[sp], buf[sp + 1]);
    assert buf[sp..][2..] == buf[sp + 2..];
    assert Words(little, buf[sp..]) == [w] + Words(little, buf[sp + 2..]);
  }

  lemma WordsTail(little: bool, buf: seq<Byte>, sp: nat)
    requires sp <= |buf| <= sp + 1
    ensures Sum(Words(little, buf[sp..])) == if sp < |buf| then HtonsHigh(little, buf[sp]) else 0
  {
    if sp < |buf| {
      assert Words(little, buf[sp..]) == [Word(little, buf[sp], 0)];
    }
  }

  /** ip_cksum_add.  The loop body runs before the first test, so the buffer
      must hold at least one word. */
  method CksumAdd(little: bool, buf: seq<Byte>, cksum0: nat) returns (cksum: nat)
    requires |buf| >= 2
    ensures cksum == cksum0 + Sum(Words(little, buf))
  {
    cksum := cksum0;
    var sp := 0;
    var sn: int := |buf| / 2;
    ghost var total := Sum(Words(little, buf));
    assert buf[0..] == buf;
    while true
      invariant 0 <= sp && sp + 2 * sn == |buf| / 2 * 2 && sn >= 1
      invariant cksum + Sum(Words(little, buf[sp..])) == cksum0 + total
      decreases sn
    {
      WordsStep(little, buf, sp);
      var w := Word(little, buf[sp], buf[sp + 1]);
      cksum := cksum + w;
      sp := sp + 2;
      sn := sn - 1;
      if sn <= 0 { break; }
    }
    assert sp == |buf| / 2 * 2;
    WordsTail(little, buf, sp);
    if |buf| % 2 == 1 {
      cksum := cksum + HtonsHigh(little, buf[sp]);
    }
  }

  lemma {:induction false} SumBound(ws: seq<nat>)
    requires forall i :: 0 <= i < |ws| ==> ws[i] <= 65535
    ensures Sum(ws) <= 65535 * |ws|
  {
    if ws != [] { SumBound(ws[1..]); }
  }

  /** Every partial sum over an IP packet fits a 32-bit signed accumulator. */
  lemma NoOverflow(little: bool, buf: seq<Byte>, n: nat)
    requires |buf| <= IP_LEN_MAX && n <= |Words(little, buf)|
    ensures Sum(Words(little, buf)[..n]) <= INT_MAX
  {
    SumBound(Words(little, buf)[..n]);
  }

  /** ip_cksum_carry: two folds and a complement. */
  function Carry(x: nat): nat {
    var y := x / 65536 + x % 65536;
    65535 - (y + y / 65536) % 65536
  }

  // ----- the reference: one's complement addition, word by word

  /** 16-bit addition with end-around carry. */
  function OnesAdd(a: nat, b: nat): nat {
    if a + b > 65535 then a + b - 65535 else a + b
  }

  function OnesSum(ws: seq<nat>): nat {
    if ws == [] then 0 else OnesAdd(OnesSum(ws[..|ws| - 1]), ws[|ws| - 1])
  }

  /** The 16-bit value congruent to x modulo 65535 that is 0 only for 0. */
  function Canon(x: nat): (r: nat)
    ensures r <= 65535
  {
    if x == 0 then 0 else 1 + (x - 1) % 65535
  }

  lemma CanonAdd(x: nat, w: nat)
    requires w <= 65535
    ensures OnesAdd(Canon(x), w) == Canon(x + w)
  {
    if x > 0 && w > 0 {
      var q, r := (x - 1) / 65535, (x - 1) % 65535;
      assert x - 1 == 65535 * q + r;
      if r + w < 65535 {
        assert x + w - 1 == 65535 * q + (r + w);
      } else {
        assert x + w - 1 == 65535 * (q + 1) + (r + w - 65535);
      }
    }
  }

  lemma {:induction false} OnesSumIsCanon(ws: seq<nat>)
    requires forall i :: 0 <= i < |ws| ==> ws[i] <= 65535
    ensures OnesSum(ws) == Canon(Sum(ws))
  {
    if ws != [] {
      var front, last := ws[..|ws| - 1], ws[|ws| - 1];
      OnesSumIsCanon(front);
      CanonAdd(Sum(front), last);
      SumConcat(front, [last]);
      assert ws == front + [last];
      assert [last][1..] == [];
    }
  }

  /** Two folds suffice for any non-negative 32-bit accumulator. */
  lemma CarryIsCanon(x: nat)
    requires x <= INT_MAX
    ensures Carry(x) == 65535 - Canon(x)
  {
    var h, l := x / 65536, x % 65536;
    var y := h + l;
    assert x == 65536 * h + l && h <= 32767;
    if y > 0 {
      assert x - 1 == 65535 * h + (y - 1);
      if y <= 65535 {
        assert (x - 1) % 65535 == y - 1;
      } else {
        assert x - 1 == 65535 * (h + 1) + (y - 65536);
        assert (x - 1) % 65535 == y - 65536;
        assert y / 65536 == 1;
      }
    }
  }

  /** Main result: for every IP packet the helpers compute the complement of the
      one's complement sum of its words. */
  lemma ChecksumIsOnesComplement(little: bool, buf: seq<Byte>)
    requires 2 <= |buf| <= IP_LEN_MAX
    ensures Carry(Sum(Words(little, buf))) == 65535 - OnesSum(Words(little, buf))
  {
    var ws := Words(little, buf);
    NoOverflow(little, buf, |ws|);
    assert ws[..|ws|] == ws;
    CarryIsCanon(Sum(ws));
    OnesSumIsCanon(ws);
  }

  // ----- verification by recomputing

  /** Storing a native word at an even offset. */
  function Store(little: bool, buf: seq<Byte>, at: nat, v: nat): seq<Byte>
    requires at % 2 == 0 && at + 2 <= |buf| && v <= 65535
  {
    var lo: Byte, hi: Byte := v % 256, v / 256;
    if little then buf[at := lo][at + 1 := hi] else buf[at := hi][at + 1 := lo]
  }

  lemma {:induction false} StoreAdds(little: bool, buf: seq<Byte>, at: nat, v: nat)
    requires at % 2 == 0 && at + 2 <= |buf| && v <= 65535
    requires buf[at] == 0 && buf[at + 1] == 0
    ensures Sum(Words(little, Store(little, buf, at, v))) == Sum(Words(little, buf)) + v
    decreases at
  {
    var b' := Store(little, buf, at, v);
    if at == 0 {
      assert b'[2..] == buf[2..];
    } else {
      StoreAdds(little, buf[2..], at - 2, v);
      assert b'[2..] == Store(little, buf[2..], at - 2, v);
      assert b'[0] == buf[0] && b'[1] == buf[1];
    }
    assert Words(little, b')[1..] == Words(little, b'[2..]);
    assert Words(little, buf)[1..] == Words(little, buf[2..]);
  }

  lemma PacketCarry(little: bool, buf: seq<Byte>)
    requires |buf| <= IP_LEN_MAX
    ensures var x := Sum(Words(little, buf)); Carry(x) == 65535 - Canon(x) <= 65535
  {
    var ws := Words(little, buf);
    NoOverflow(little, buf, |ws|);
    assert ws[..|ws|] == ws;
    CarryIsCanon(Sum(ws));
  }

  /** A packet whose checksum field was zero checks out once the checksum has
      been stored there. */
  lemma StoredChecksumVerifies(little: bool, buf: seq<Byte>, at: nat)
    requires 2 <= |buf| <= IP_LEN_MAX
    requires at % 2 == 0 && at + 2 <= |buf| && buf[at] == 0 && buf[at + 1] == 0
    ensures Carry(Sum(Words(little, buf))) <= 65535
    ensures Carry(Sum(Words(little, Store(little, buf, at, Carry(Sum(Words(little, buf))))))) == 0
  {
    PacketCarry(little, buf);
    ComplementStored(little, buf, at, Sum(Words(little, buf)), Carry(Sum(Words(little, buf))));
  }

  lemma ComplementStored(little: bool, buf: seq<Byte>, at: nat, x: nat, ck: nat)
    requires |buf| <= IP_LEN_MAX && at % 2 == 0 && at + 2 <= |buf| && buf[at] == 0 && buf[at + 1] == 0
    requires x == Sum(Words(little, buf)) && ck == 65535 - Canon(x) <= 65535
    ensures Carry(Sum(Words(little, Store(little, buf, at, ck)))) == 0
  {
    StoreAdds(little, buf, at, ck);
    PacketCarry(little, Store(little, buf, at, ck));
    CanonOfComplement(x);
  }

  lemma CanonOfComplement(x: nat)
    ensures Canon(x + (65535 - Canon(x))) == 65535
  {
    if x > 0 {
      var q := (x - 1) / 65535;
      assert x - 1 == 65535 * q + (x - 1) % 65535;
      assert x + (65535 - Canon(x)) - 1 == 65535 * q + 65534;
    }
  }

  // ----- hosts of either byte order

  function Swap(v: nat): nat { v / 256 + 256 * (v % 256) }

  lemma CanonShift(y: nat, k: nat)
    requires y > 0
    ensures Canon(y + 65535 * k) == Canon(y)
  {
    var q, r := (y - 1) / 65535, (y - 1) % 65535;
    assert y - 1 == 65535 * q + r;
    assert y + 65535 * k - 1 == 65535 * (q + k) + r;
  }

  /** Multiplying by 256 swaps the bytes of a 16-bit sum. */
  lemma CanonSwap(x: nat)
    ensures Canon(256 * x) == Swap(Canon(x))
  {
    if x > 0 {
      var c, m := Canon(x), (x - 1) / 65535;
      assert x == c + 65535 * m;
      var h, l := c / 256, c % 256;
      assert 256 * x == (h + 256 * l) + 65535 * (h + 256 * m);
      CanonShift(h + 256 * l, h + 256 * m);
    }
  }

  /** The sums of the words, read either way, differ by that factor, up to
      multiples of 65535. */
  lemma {:induction false} SumsSwap(buf: seq<Byte>) returns (k: nat)
    ensures 256 * Sum(Words(false, buf)) == Sum(Words(true, buf)) + 65535 * k
    ensures Sum(Words(true, buf)) == 0 ==> k == 0
  {
    if buf == [] {
      k := 0;
    } else if |buf| == 1 {
      k := buf[0];
      assert Words(false, buf) == [Word(false, buf[0], 0)] && Words(true, buf) == [Word(true, buf[0], 0)];
    } else {
      var n := SumsSwap(buf[2..]);
      k := n + buf[0];
      WordsStep(false, buf, 0);
      WordsStep(true, buf, 0);
      assert buf[0..] == buf;
    }
  }

  /** Hosts of either byte order put the same bytes into the packet (section 2 of
      RFC 1071): what one computes is the other's result with its bytes swapped. */
  lemma ByteOrderIndependent(buf: seq<Byte>, at: nat)
    requires |buf| <= IP_LEN_MAX && at % 2 == 0 && at + 2 <= |buf|
    ensures var (little, big) := (Carry(Sum(Words(true, buf))), Carry(Sum(Words(false, buf))));
            && little <= 65535 && big <= 65535 && little == Swap(big)
            && Store(true, buf, at, little) == Store(false, buf, at, big)
  {
    CarriesSwap(buf);
    SameStore(buf, at, Carry(Sum(Words(false, buf))));
  }

  lemma CarriesSwap(buf: seq<Byte>)
    requires |buf| <= IP_LEN_MAX
    ensures Carry(Sum(Words(false, buf))) <= 65535
    ensures Carry(Sum(Words(true, buf))) == Swap(Carry(Sum(Words(false, buf))))
  {
    var k := SumsSwap(buf);
    SumFits(true, buf);
    SumFits(false, buf);
    CarrySwap(Sum(Words(false, buf)), Sum(Words(true, buf)), k);
  }

  lemma SumFits(little: bool, buf: seq<Byte>)
    requires |buf| <= IP_LEN_MAX
    ensures Sum(Words(little, buf)) <= INT_MAX
  {
    var ws := Words(little, buf);
    NoOverflow(little, buf, |ws|);
    assert ws[..|ws|] == ws;
  }

  lemma CarrySwap(x: nat, y: nat, k: nat)
    requires 256 * x == y + 65535 * k && (y == 0 ==> k == 0) && x <= INT_MAX && y <= INT_MAX
    ensures Carry(x) <= 65535 && Carry(y) == Swap(Carry(x))
  {
    CarryIsCanon(x);
    CarryIsCanon(y);
    SwappedSums(x, y, k);
  }

  lemma SwappedSums(x: nat, y: nat, k: nat)
    requires 256 * x == y + 65535 * k && (y == 0 ==> k == 0)
    ensures 65535 - Canon(y) == Swap(65535 - Canon(x))
  {
    if y > 0 { CanonShift(y, k); }
    assert Canon(y) == Canon(256 * x);
    CanonSwap(x);
    SwapBytes(Canon(x));
  }

  lemma SwapBytes(c: nat)
    requires c <= 65535
    ensures Swap(65535 - c) == 65535 - Swap(c)
  {
    var h, l := c / 256, c % 256;
    assert c == 256 * h + l;
    assert 65535 - c == 256 * (255 - h) + (255 - l);
    assert (65535 - c) / 256 == 255 - h && (65535 - c) % 256 == 255 - l;
  }

  lemma SameStore(buf: seq<Byte>, at: nat, v: nat)
    requires at % 2 == 0 && at + 2 <= |buf| && v <= 65535
    ensures Swap(v) <= 65535 && Store(true, buf, at, Swap(v)) == Store(false, buf, at, v)
  {
    var h, l := v / 256, v % 256;
    assert Swap(v) == 256 * l + h && Swap(v) / 256 == l && Swap(v) % 256 == h;
  }
}
