/** The framing of protolib.py: messages preceded by their length as a base-128
    varint. */
module Varint {
  import opened Bits
  import opened Wrappers

  const TWO32 := 0x1_0000_0000
  const TWO63 := 0x8000_0000_0000_0000

  // ----- varints

  /** _EncodeVarint32: seven bits at a time, low bits first. */
  function Enc(v: nat): (s: seq<Byte>)
    ensures s != []
  {
    if v < 128 then [v] else [128 + v % 128] + Enc(v / 128)
  }

  /** What reading a varint yields: a value and the bytes it took, the end of
      the file, or an encoding of more than ten bytes. */
  datatype Decoded = Val(value: nat, used: nat) | Eof | TooLong

  /** The accumulation loop of _DecodeVarint32. */
  function Gather(s: seq<Byte>, shift: nat, acc: nat, used: nat): Decoded {
    if s == [] then Eof
    else
      var acc' := Or(acc, s[0] % 128 * Pow2(shift));
      if s[0] < 128 then Val(acc', used + 1)
      else if shift + 7 >= 64 then TooLong
      else Gather(s[1..], shift + 7, acc', used + 1)
  }

  /** The final masking to 32 bits: sign extension from 64 bits, or the low 32
      bits. */
  function Mask(v: nat): int {
    if v > TWO63 - 1 then v % TWO32 - TWO32 else v % TWO32
  }

  function Pow128(n: nat): (p: nat)
    ensures p >= 1
  {
    if n == 0 then 1 else 128 * Pow128(n - 1)
  }

  /** Length is minimal: |Enc(v)| groups hold v, one less would not. */
  lemma {:induction false} EncLength(v: nat)
    ensures v < Pow128(|Enc(v)|)
    ensures |Enc(v)| > 1 ==> Pow128(|Enc(v)| - 1) <= v
  {
    if v >= 128 {
      EncLength(v / 128);
      var n := |Enc(v / 128)|;
      assert |Enc(v)| == n + 1;
      assert Pow128(n + 1) == 128 * Pow128(n);
    }
  }

  lemma ShiftSeven(shift: nat)
    ensures Pow2(shift + 7) == 128 * Pow2(shift)
  {
    Pow2Add(shift, 7);
    assert Pow2(7) == 128;
  }

  /** Distributing a digit and the rest over a shift. */
  lemma DigitSplit(v: nat, p: nat)
    ensures v % 128 * p + v / 128 * (128 * p) == v * p
  {
    var q, r := v / 128, v % 128;
    assert v == 128 * q + r;
    assert q * (128 * p) == 128 * q * p;
  }

  /** One group: or-ing in the low digit of v is adding it, and what the other
      digits add later completes v. */
  lemma GroupStep(acc: nat, v: nat, shift: nat)
    requires acc < Pow2(shift)
    ensures var acc' := Or(acc, v % 128 * Pow2(shift));
            && acc' == acc + v % 128 * Pow2(shift) < Pow2(shift + 7)
            && acc' + v / 128 * Pow2(shift + 7) == acc + v * Pow2(shift)
  {
    OrDisjoint(acc, v % 128, shift);
    ShiftSeven(shift);
    DigitSplit(v, Pow2(shift));
    MulMono(v % 128, 127, Pow2(shift));
  }

  lemma GatherMore(v: nat, rest: seq<Byte>, shift: nat, acc: nat, used: nat)
    requires v >= 128 && shift + 7 < 64
    ensures Gather(Enc(v) + rest, shift, acc, used) ==
            Gather(Enc(v / 128) + rest, shift + 7, Or(acc, v % 128 * Pow2(shift)), used + 1)
  {
    var s := Enc(v) + rest;
    assert s[0] == 128 + v % 128 && s[0] % 128 == v % 128;
    assert s[1..] == Enc(v / 128) + rest;
  }

  /** Reading an encoding gives the value back, whatever follows, as long as it
      is not too long. */
  lemma {:induction false} GatherEnc(v: nat, rest: seq<Byte>, shift: nat, acc: nat, used: nat)
    requires shift < 64 && acc < Pow2(shift)
    ensures Gather(Enc(v) + rest, shift, acc, used) ==
            if shift + 7 * (|Enc(v)| - 1) < 64 then Val(acc + v * Pow2(shift), used + |Enc(v)|) else TooLong
    decreases v
  {
    var s := Enc(v) + rest;
    var acc' := Or(acc, v % 128 * Pow2(shift));
    GroupStep(acc, v, shift);
    if v < 128 {
      assert s[0] == v;
    } else if shift + 7 < 64 {
      GatherMore(v, rest, shift, acc, used);
      GatherEnc(v / 128, rest, shift + 7, acc', used + 1);
    } else {
      assert s[0] == 128 + v % 128;
    }
  }

  /** Byte i of an encoding is digit i of the value to the base 128, low digits
      first; all bytes but the last are marked. */
  lemma {:induction false} EncDigits(v: nat, i: nat)
    requires i < |Enc(v)|
    ensures Enc(v)[i] == v / Pow128(i) % 128 + if i + 1 < |Enc(v)| then 128 else 0
    decreases v
  {
    if i > 0 {
      EncDigits(v / 128, i - 1);
      NestedDiv(v, Pow128(i - 1));
    }
  }

  lemma NestedDiv(v: nat, p: nat)
    requires p > 0
    ensures v / 128 / p == v / (128 * p)
  {
    var q, r := v / 128, v % 128;
    var k, m := q / p, q % p;
    assert q == k * p + m;
    assert v == 128 * (k * p + m) + r == k * (128 * p) + (128 * m + r);
    DivModUnique(v, 128 * p, k, 128 * m + r);
  }

  // ----- reading whatever bytes there are

  /** The number with the given digits to the base 128, low digits first; the
      marks of the bytes do not matter. */
  function Digits(s: seq<Byte>): nat {
    if s == [] then 0 else s[0] % 128 + 128 * Digits(s[1..])
  }

  /** All of the first `n` bytes are marked. */
  ghost predicate Marked(s: seq<Byte>, n: nat)
    requires n <= |s|
  {
    forall i :: 0 <= i < n ==> s[i] >= 128
  }

  /** The reader's answer to any input: the number up to the first unmarked byte
      if that is among the first ten, a complaint if the first ten are marked,
      the end of the file otherwise. */
  ghost predicate Reads(s: seq<Byte>, limit: nat, r: Decoded) {
    match r
    case Val(v, used) => 0 < used <= |s| && used <= limit && Marked(s, used - 1) && s[used - 1] < 128 && v == Digits(s[..used])
    case TooLong => limit <= |s| && Marked(s, limit)
    case Eof => |s| < limit && Marked(s, |s|)
  }

  lemma AnyGroup(acc: nat, d: nat, shift: nat)
    requires acc < Pow2(shift) && d < 128
    ensures Or(acc, d * Pow2(shift)) == acc + d * Pow2(shift) < Pow2(shift + 7)
  {
    GroupStep(acc, d, shift);
    assert d % 128 == d;
  }

  lemma DigitsCons(b: Byte, s: seq<Byte>, p: nat)
    ensures Digits([b] + s) * p == b % 128 * p + Digits(s) * (128 * p)
  {
    assert ([b] + s)[1..] == s;
    assert 128 * Digits(s) * p == Digits(s) * (128 * p);
  }

  /** ... with `n` groups of seven bits, worth `acc`, read before. */
  ghost predicate ReadsOn(s: seq<Byte>, n: nat, acc: nat, r: Decoded)
    requires n < 10
  {
    match r
    case Val(v, used) =>
      && n < used <= n + |s|
      && Reads(s, 10 - n, Val(Digits(s[..used - n]), used - n))
      && v == acc + Digits(s[..used - n]) * Pow2(7 * n)
    case _ => Reads(s, 10 - n, r)
  }

  lemma {:induction false} GatherAny(s: seq<Byte>, n: nat, acc: nat)
    requires n < 10 && acc < Pow2(7 * n)
    ensures ReadsOn(s, n, acc, Gather(s, 7 * n, acc, n))
    decreases s
  {
    if s != [] {
      var acc' := GatherStep(s, n, acc);
      if s[0] < 128 {
        OneDigit(s, n, acc);
      } else if n < 9 {
        GatherAny(s[1..], n + 1, acc');
        MoreDigits(s, n, acc, Gather(s, 7 * n, acc, n));
      }
    }
  }

  lemma GatherStep(s: seq<Byte>, n: nat, acc: nat) returns (acc': nat)
    requires n < 10 && acc < Pow2(7 * n) && s != []
    ensures acc' == acc + s[0] % 128 * Pow2(7 * n) < Pow2(7 * (n + 1))
    ensures Gather(s, 7 * n, acc, n) == if s[0] < 128 then Val(acc', n + 1)
                                        else if n == 9 then TooLong
                                        else Gather(s[1..], 7 * (n + 1), acc', n + 1)
  {
    AnyGroup(acc, s[0] % 128, 7 * n);
    assert 7 * n + 7 == 7 * (n + 1);
    acc' := acc + s[0] % 128 * Pow2(7 * n);
  }

  lemma OneDigit(s: seq<Byte>, n: nat, acc: nat)
    requires s != [] && s[0] < 128 && n < 10
    ensures ReadsOn(s, n, acc, Val(acc + s[0] % 128 * Pow2(7 * n), n + 1))
  {
    assert s[..1][1..] == [];
  }

  lemma MoreDigits(s: seq<Byte>, n: nat, acc: nat, r: Decoded)
    requires s != [] && s[0] >= 128 && n < 9
    requires ReadsOn(s[1..], n + 1, acc + s[0] % 128 * Pow2(7 * n), r)
    ensures ReadsOn(s, n, acc, r)
  {
    assert forall i :: 1 <= i < |s| ==> s[i] == s[1..][i - 1];
    if r.Val? {
      var k := r.used - n;
      assert s[..k] == [s[0]] + s[1..][..k - 1];
      ShiftSeven(7 * n);
      assert 7 * n + 7 == 7 * (n + 1);
      DigitsCons(s[0], s[1..][..k - 1], Pow2(7 * n));
    }
  }

  /** Main result for the reader: on every input it answers as described. */
  lemma GatherExactly(s: seq<Byte>)
    ensures Reads(s, 10, Gather(s, 0, 0, 0))
  {
    assert Pow2(0) == 1 && 7 * 0 == 0;
    GatherAny(s, 0, 0);
  }

  /** The masked result is the 32-bit pattern of the value: below 2^63 as it is,
      from there on as a negative number. */
  lemma MaskExactly(v: nat)
    ensures (Mask(v) - v) % TWO32 == 0
    ensures if v < TWO63 then 0 <= Mask(v) < TWO32 else -TWO32 <= Mask(v) < 0
  {
    var q := v / TWO32;
    assert v == q * TWO32 + v % TWO32;
    if v < TWO63 {
      assert Mask(v) - v == -q * TWO32;
    } else {
      assert Mask(v) - v == (-q - 1) * TWO32;
    }
  }

  /** No encoding is a proper prefix of another. */
  lemma {:induction false} PrefixFree(a: nat, b: nat)
    requires Enc(a) <= Enc(b)
    ensures a == b
    decreases a
  {
    var s, t := Enc(a), Enc(b);
    assert s[0] == t[0];
    if a >= 128 {
      assert s[1..] == Enc(a / 128) && t[1..] == Enc(b / 128);
      assert s[1..] <= t[1..];
      PrefixFree(a / 128, b / 128);
    }
  }

  lemma EncShort(v: nat)
    requires v < TWO63
    ensures |Enc(v)| <= 9
  {
    EncLength(v);
    assert Pow128(9) == TWO63;
    if |Enc(v)| > 9 {
      Pow128Grows(9, |Enc(v)| - 1);
    }
  }

  lemma {:induction false} Pow128Grows(a: nat, b: nat)
    requires a <= b
    ensures Pow128(a) <= Pow128(b)
  {
    if a < b { Pow128Grows(a, b - 1); }
  }

  /** The 32-bit reader: a value below 2^63 comes back reduced to 32 bits. */
  lemma DecodeEncode(v: nat, rest: seq<Byte>)
    requires v < TWO63
    ensures Gather(Enc(v) + rest, 0, 0, 0) == Val(v, |Enc(v)|)
    ensures Mask(v) == v % TWO32
    ensures Mask(v) == v <==> v < TWO32
  {
    EncShort(v);
    GatherEnc(v, rest, 0, 0, 0);
  }

  // ----- framed messages

  /** encodeMessage */
  function Frame(m: seq<Byte>): seq<Byte> { Enc(|m|) + m }

  function FrameAll(ms: seq<seq<Byte>>): seq<Byte> {
    if ms == [] then [] else Frame(ms[0]) + FrameAll(ms[1..])
  }

  /** file.read(n): at most n bytes, everything for a negative n. */
  function ReadCount(available: nat, n: int): nat {
    if n < 0 || n > available then available else n
  }

  /** What decodeMessage finds at the front of the input. */
  datatype Message = Message(bytes: seq<Byte>, used: nat) | NoMessage

  function Unframe(s: seq<Byte>): (m: Message)
    ensures m.Message? ==> 0 < m.used <= |s|
  {
    GatherUses(s, 0, 0, 0);
    match Gather(s, 0, 0, 0)
    case Eof => NoMessage
    case TooLong => NoMessage
    case Val(v, used) =>
      var size := Mask(v);
      if size == 0 then NoMessage
      else
        var n := ReadCount(|s| - used, size);
        Message(s[used..used + n], used + n)
  }

  lemma {:induction false} GatherUses(s: seq<Byte>, shift: nat, acc: nat, used: nat)
    ensures Gather(s, shift, acc, used).Val? ==> used < Gather(s, shift, acc, used).used <= used + |s|
    decreases s
  {
    if s != [] && s[0] >= 128 && shift + 7 < 64 {
      GatherUses(s[1..], shift + 7, Or(acc, s[0] % 128 * Pow2(shift)), used + 1);
    }
  }

  /** Reading messages until decodeMessage returns False. */
  function UnframeAll(s: seq<Byte>): seq<seq<Byte>> {
    match Unframe(s)
    case NoMessage => []
    case Message(m, used) => [m] + UnframeAll(s[used..])
  }

  lemma UnframeFrame(m: seq<Byte>, rest: seq<Byte>)
    requires |m| < TWO63
    ensures var size := |m| % TWO32;
            Unframe(Frame(m) + rest) ==
            if size == 0 then NoMessage
            else Message(m[..size], |Enc(|m|)| + size)
  {
    var s, e := Frame(m) + rest, Enc(|m|);
    assert s == e + (m + rest);
    DecodeEncode(|m|, m + rest);
    var size := |m| % TWO32;
    assert s[|e|..] == m + rest;
    assert s[|e|..|e| + size] == m[..size];
  }

  /** A message survives exactly when it is not empty and its length fits in 32
      bits. */
  predicate Frames(m: seq<Byte>) { 0 < |m| < TWO32 }

  lemma GoodUnframe(m: seq<Byte>, rest: seq<Byte>)
    requires Frames(m)
    ensures Unframe(Frame(m) + rest) == Message(m, |Frame(m)|)
  {
    UnframeFrame(m, rest);
    assert m[..|m|] == m;
  }

  lemma GoodMessageRead(m: seq<Byte>, rest: seq<Byte>)
    requires Frames(m)
    ensures UnframeAll(Frame(m) + rest) == [m] + UnframeAll(rest)
  {
    GoodUnframe(m, rest);
    assert (Frame(m) + rest)[|Frame(m)|..] == rest;
  }

  lemma BadMessageLost(m: seq<Byte>, rest: seq<Byte>)
    requires |m| < TWO63 && !Frames(m)
    ensures UnframeAll(Frame(m) + rest) == [] || UnframeAll(Frame(m) + rest)[0] != m
  {
    UnframeFrame(m, rest);
    var size := |m| % TWO32;
    if size != 0 {
      assert |m[..size]| < |m|;
    }
  }

  lemma StreamStep(m: seq<Byte>, tail: seq<seq<Byte>>)
    requires |m| < TWO63
    ensures UnframeAll(FrameAll([m] + tail)) == [m] + tail <==>
            Frames(m) && UnframeAll(FrameAll(tail)) == tail
  {
    var rest := FrameAll(tail);
    assert ([m] + tail)[1..] == tail;
    if Frames(m) {
      GoodMessageRead(m, rest);
      assert ([m] + UnframeAll(rest))[1..] == UnframeAll(rest);
    } else {
      BadMessageLost(m, rest);
      assert ([m] + tail)[0] == m;
    }
  }

  /** Main result: a stream of framed messages decodes to exactly those messages
      if and only if each of them is non-empty and shorter than 2^32 bytes. */
  lemma {:induction false} StreamRoundTrip(ms: seq<seq<Byte>>)
    requires forall i :: 0 <= i < |ms| ==> |ms[i]| < TWO63
    ensures UnframeAll(FrameAll(ms)) == ms <==> forall i :: 0 <= i < |ms| ==> Frames(ms[i])
  {
    if ms != [] {
      assert ms == [ms[0]] + ms[1..];
      StreamStep(ms[0], ms[1..]);
      StreamRoundTrip(ms[1..]);
      assert forall i :: 1 <= i < |ms| ==> ms[i] == ms[1..][i - 1];
    }
  }

  /** An empty message ends the stream for the reader, whatever follows. */
  lemma EmptyMessageEnds(ms: seq<seq<Byte>>)
    ensures UnframeAll(FrameAll([[]] + ms)) == []
  {
    assert ([[]] + ms)[1..] == ms;
    UnframeFrame([], FrameAll(ms));
  }

  // ----- the loops in place

  /** _EncodeVarint32, writing to a growing file. */
  method EncodeVarint32(out0: seq<Byte>, value0: nat) returns (out: seq<Byte>)
    ensures out == out0 + Enc(value0)
  {
    out := out0;
    var bits: nat, value: nat := value0 % 128, value0 / 128;
    while value != 0
      invariant bits < 128
      invariant out + Enc(value * 128 + bits) == out0 + Enc(value0)
      decreases value
    {
      var b: Byte := 128 + bits;
      var v := value * 128 + bits;
      assert v / 128 == value && v % 128 == bits && v >= 128;
      assert out + Enc(v) == out + [b] + Enc(value);
      out := out + [b];
      bits := value % 128;
      value := value / 128;
    }
    out := out + [bits];
  }

  class InFile {
    const data: seq<Byte>
    var pos: nat

    constructor (data: seq<Byte>)
      ensures this.data == data && pos == 0
    {
      this.data, pos := data, 0;
    }

    /** file.read(n) */
    method Read(n: int) returns (buf: seq<Byte>)
      requires pos <= |data|
      modifies this
      ensures pos <= |data| && pos == old(pos) + ReadCount(|data| - old(pos), n)
      ensures n < 0 ==> pos == |data|
      ensures n >= 0 ==> pos == old(pos) + n || (pos == |data| && |buf| < n)
      ensures buf == data[old(pos)..pos]
    {
      var k := ReadCount(|data| - pos, n);
      buf := data[pos..pos + k];
      pos := pos + k;
    }

    /** _DecodeVarint32 before the masking. */
    method DecodeVarint() returns (r: Decoded)
      requires pos <= |data|
      modifies this
      ensures pos <= |data| && r == Gather(data[old(pos)..], 0, 0, 0)
      ensures r.Val? ==> pos == old(pos) + r.used
    {
      var result: nat, shift: nat, used: nat := 0, 0, 0;
      ghost var all := data[pos..];
      while true
        invariant pos <= |data| && pos == old(pos) + used && shift < 64
        invariant Gather(all, 0, 0, 0) == Gather(data[pos..], shift, result, used)
        decreases |data| - pos
      {
        ghost var s := data[pos..];
        var c := Read(1);
        if |c| == 0 {
          return Eof;
        }
        var b := c[0];
        assert s[0] == b && s[1..] == data[pos..];
        result := Or(result, b % 128 * Pow2(shift));
        used := used + 1;
        if b < 128 {
          return Val(result, used);
        }
        shift := shift + 7;
        if shift >= 64 {
          return TooLong;
        }
      }
    }

    /** decodeMessage; the parsing of the bytes is left to the caller. */
    method DecodeMessage() returns (r: Message)
      requires pos <= |data|
      modifies this
      ensures pos <= |data| && r == Unframe(data[old(pos)..])
      ensures r.Message? ==> pos == old(pos) + r.used
    {
      ghost var s := data[pos..];
      GatherUses(s, 0, 0, 0);
      var d := DecodeVarint();
      if !d.Val? || Mask(d.value) == 0 {
        return NoMessage;
      }
      var buf := Read(Mask(d.value));
      assert buf == s[d.used..d.used + |buf|];
      return Message(buf, d.used + |buf|);
    }
  }
}
