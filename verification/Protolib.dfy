/** Length-prefixed protobuf messages in a byte stream, with base-128 varint lengths. */
module Protolib {
  import opened Arithmetic
  import opened Bits
  import opened Options

  const MASK32 := 0xffff_ffff

  // ---- The wire format ----

  /** Value of a group of varint bytes, least significant group of seven bits first. */
  function Base128(bs: seq<byte>): nat {
    if bs == [] then 0 else bs[0] % 128 + 128 * Base128(bs[1..])
  }

  /** The shortest varint of v. */
  function Varint(v: nat): seq<byte> {
    if v < 128 then [v] else [128 + v % 128] + Varint(v / 128)
  }

  /** Leading bytes that announce a further byte. */
  function Continued(bs: seq<byte>): (n: nat)
    ensures n <= |bs| && (forall i | 0 <= i < n :: bs[i] >= 128) && (n < |bs| ==> bs[n] < 128)
  {
    if bs == [] || bs[0] < 128 then 0 else 1 + Continued(bs[1..])
  }

  /** A 64-bit varint read as a 32-bit one. */
  function Truncate32(v: nat): int {
    if v < Pow2(63) then v % Pow2(32) else v % Pow2(32) - Pow2(32)
  }

  /** What reading a varint yields: its value, end of file (reported as 0), or an error; and how many
      bytes were read. */
  datatype Varint32 = Value(value: int, count: nat) | EndOfFile(count: nat) | TooLong(count: nat)

  function ReadVarint(bs: seq<byte>): Varint32 {
    var n := Continued(bs);
    if n >= 10 then TooLong(10)
    else if n == |bs| then EndOfFile(n)
    else Value(Truncate32(Base128(bs[..n + 1])), n + 1)
  }

  /** How the decoder hands this to its caller: the IOError, or the value and its length. */
  function Reported(read: Varint32): Option<(int, nat)> {
    match read
    case TooLong(_) => None
    case EndOfFile(_) => Some((0, 0))
    case Value(v, n) => Some((v, n))
  }

  // ---- Encoding and decoding ----

  /** An open file: its bytes and the read position. */
  class InFile {
    const data: seq<byte>
    var pos: nat

    ghost predicate Valid()
      reads this
    {
      pos <= |data|
    }

    ghost function Rest(): seq<byte>
      requires Valid()
      reads this
    {
      data[pos..]
    }

    constructor (data: seq<byte>)
      ensures Valid() && Rest() == data
    {
      this.data := data;
      pos := 0;
    }

    /** Up to n bytes; everything that is left if n is negative. */
    method Read(n: int) returns (buf: seq<byte>)
      requires Valid()
      modifies this
      ensures Valid()
      ensures var rest := old(Rest());
              buf == if n < 0 || n > |rest| then rest else rest[..n]
      ensures Rest() == old(Rest())[|buf|..] && pos == old(pos) + |buf|
    {
      var end := if n < 0 || n > |data| - pos then |data| else pos + n;
      buf := data[pos..end];
      pos := end;
    }
  }

  lemma ScaleShift(x: nat, p: nat)
    ensures 128 * (x * p) == x * (128 * p)
  {
  }

  lemma {:induction false} Base128Append(bs: seq<byte>, b: byte)
    ensures Base128(bs + [b]) == Base128(bs) + ShiftLeft(b % 128, 7 * |bs|)
    ensures Base128(bs) < Pow2(7 * |bs|)
  {
    if bs == [] {
      assert (bs + [b])[1..] == [];
    } else {
      assert (bs + [b])[1..] == bs[1..] + [b];
      Base128Append(bs[1..], b);
      Pow2Plus7(7 * |bs[1..]|);
      ScaleShift(b % 128, Pow2(7 * |bs[1..]|));
    }
  }

  lemma {:induction false} ContinuedPrefix(bs: seq<byte>, n: nat)
    requires n <= |bs| && forall i | 0 <= i < n :: bs[i] >= 128
    ensures Continued(bs) >= n
  {
    if n > 0 {
      ContinuedPrefix(bs[1..], n - 1);
    }
  }

  lemma FinishedVarint(bs: seq<byte>, n: nat)
    requires n < |bs| && (forall i | 0 <= i < n :: bs[i] >= 128) && bs[n] < 128
    ensures Continued(bs) == n
  {
    ContinuedPrefix(bs, n);
  }

  /** Constants of the decoder in terms of powers of two. */
  lemma Constants()
    ensures Pow2(7) == 128 && Pow2(32) == MASK32 + 1
    ensures Pow2(63) == 0x7fff_ffff_ffff_ffff + 1 && Pow2(64) == 0x1_0000_0000_0000_0000
  {
    Pow2Plus7(0);
    Pow2Plus8(0);
    Pow2Plus8(8);
    Pow2Plus8(16);
    Pow2Plus8(24);
    Pow2Plus8(32);
    Pow2Plus8(40);
    Pow2Plus8(48);
    Pow2Plus7(56);
  }

  lemma PayloadBits(b: byte)
    ensures BitAnd(b, 0x7f) == b % 128
  {
    Constants();
    AndLowMask(b, 7);
    LowIsMod(b, 7);
  }

  lemma HighBit(b: byte)
    ensures BitAnd(b, 0x80) == 0 <==> b < 128
  {
    Constants();
    AndSingleBit(b, 7);
    TopBit(b);
  }

  lemma TopBit(b: byte)
    ensures Bit(b, 7) == 1 <==> b >= 128
  {
    var b1 := b / 2;
    var b2 := b1 / 2;
    var b3 := b2 / 2;
    assert Bit(b, 7) == Bit(b1, 6) == Bit(b2, 5) == Bit(b3, 4);
    var b4 := b3 / 2;
    var b5 := b4 / 2;
    var b6 := b5 / 2;
    assert Bit(b3, 4) == Bit(b4, 3) == Bit(b5, 2) == Bit(b6, 1) == Bit(b6 / 2, 0);
  }

  /** The final adjustment of the decoder. */
  function Adjust(result: int): int {
    if result > 0x7fff_ffff_ffff_ffff
    then BitOr(result - ShiftLeft(1, 64), BitNot(MASK32))
    else BitAnd(result, MASK32)
  }

  lemma AdjustTruncates(result: nat)
    ensures Adjust(result) == Truncate32(result)
  {
    Constants();
    if result > 0x7fff_ffff_ffff_ffff {
      OrHighMask(result - ShiftLeft(1, 64), 32);
      LowIsMod(result - ShiftLeft(1, 64), 32);
      ModShift(result, Pow2(32), 0x1_0000_0000);
    } else {
      AndLowMask(result, 32);
      LowIsMod(result, 32);
    }
  }

  lemma ModShift(x: int, d: nat, k: nat)
    requires d > 0
    ensures (x - d * k) % d == x % d
  {
    var q, m := x / d, x % d;
    assert x - d * k == d * (q - k) + m;
    DivModUnique(x - d * k, d, q - k, m);
  }

  /** The payload of a byte or-ed into the result, and whether another byte follows. */
  method AddByte(ghost bs: seq<byte>, ghost pos: nat, result: int, b: byte, shift: nat)
    returns (result': nat, more: bool)
    requires pos < |bs| && b == bs[pos] && shift == 7 * pos && result == Base128(bs[..pos])
    ensures result' == Base128(bs[..pos + 1]) && (more <==> b >= 128)
  {
    DecoderStep(bs, pos);
    result' := BitOr(result, ShiftLeft(BitAnd(b, 0x7f), shift));
    more := BitAnd(b, 0x80) != 0;
  }

  /** _DecodeVarint32; None stands for the IOError. */
  method DecodeVarint32(f: InFile) returns (r: Option<(int, nat)>)
    requires f.Valid()
    modifies f
    ensures f.Valid()
    ensures var read := ReadVarint(old(f.Rest()));
            f.Rest() == old(f.Rest())[read.count..] && r == Reported(read)
  {
    ghost var bs, start := f.Rest(), f.pos;
    var result, shift, pos := 0, 0, 0;
    while true
      invariant f.Valid() && 0 <= pos <= |bs| && f.pos == start + pos
      invariant shift == 7 * pos && pos < 10
      invariant forall i | 0 <= i < pos :: bs[i] >= 128
      invariant result == Base128(bs[..pos])
      decreases 10 - pos
    {
      var c := f.Read(1);
      if |c| == 0 {
        DecoderCutOff(bs, pos);
        return Some((0, 0));
      }
      var b := c[0];
      assert b == bs[pos];
      var more;
      result, more := AddByte(bs, pos, result, b, shift);
      pos := pos + 1;
      if !more {
        DecoderDone(bs, pos - 1);
        return Some((Adjust(result), pos));
      }
      shift := shift + 7;
      if shift >= 64 {
        DecoderOverrun(bs);
        return None;
      }
    }
  }

  /** One more byte or-ed into the result. */
  lemma DecoderStep(bs: seq<byte>, pos: nat)
    requires pos < |bs|
    ensures BitOr(Base128(bs[..pos]), ShiftLeft(BitAnd(bs[pos], 0x7f), 7 * pos)) == Base128(bs[..pos + 1])
    ensures BitAnd(bs[pos], 0x80) == 0 <==> bs[pos] < 128
  {
    var b := bs[pos];
    assert bs[..pos + 1] == bs[..pos] + [b];
    PayloadBits(b);
    HighBit(b);
    Base128Append(bs[..pos], b);
    OrDisjoint(Base128(bs[..pos]), b % 128, 7 * pos);
  }

  lemma DecoderDone(bs: seq<byte>, n: nat)
    requires n < |bs| && n < 10 && (forall i | 0 <= i < n :: bs[i] >= 128) && bs[n] < 128
    ensures ReadVarint(bs) == Value(Adjust(Base128(bs[..n + 1])), n + 1)
  {
    FinishedVarint(bs, n);
    AdjustTruncates(Base128(bs[..n + 1]));
  }

  lemma DecoderCutOff(bs: seq<byte>, n: nat)
    requires n == |bs| < 10 && forall i | 0 <= i < n :: bs[i] >= 128
    ensures ReadVarint(bs) == EndOfFile(n)
  {
    ContinuedPrefix(bs, n);
  }

  lemma DecoderOverrun(bs: seq<byte>)
    requires |bs| >= 10 && forall i | 0 <= i < 10 :: bs[i] >= 128
    ensures ReadVarint(bs) == TooLong(10)
  {
    ContinuedPrefix(bs, 10);
  }

  lemma ByteWithFlag(bits: nat)
    requires bits < 128
    ensures BitOr(0x80, bits) == 128 + bits
  {
    Constants();
    OrCommutes(0x80, bits);
    assert ShiftLeft(1, 7) == 128;
    OrDisjoint(bits, 1, 7);
  }

  lemma {:induction false} OrCommutes(x: int, y: int)
    ensures BitOr(x, y) == BitOr(y, x)
    decreases Magnitude(x) + Magnitude(y)
  {
    if Magnitude(x) + Magnitude(y) > 0 {
      OrCommutes(x / 2, y / 2);
    }
  }

  lemma SplitOffSeven(value: nat)
    ensures BitAnd(value, 0x7f) == value % 128 && ShiftRight(value, 7) == value / 128
  {
    Constants();
    AndLowMask(value, 7);
    LowIsMod(value, 7);
  }

  /** The two statements that prepare the next byte. */
  method TakeSeven(value: nat) returns (bits: nat, rest: nat)
    ensures bits == value % 128 && rest == value / 128
  {
    SplitOffSeven(value);
    bits := BitAnd(value, 0x7f);
    rest := ShiftRight(value, 7);
  }

  /** A byte with the flag that announces another. */
  method Flagged(bits: nat) returns (b: byte)
    requires bits < 128
    ensures b == 128 + bits
  {
    ByteWithFlag(bits);
    b := BitOr(0x80, bits);
  }

  lemma EncoderStep(out: seq<byte>, bits: nat, value: nat)
    requires bits < 128 && value > 0
    ensures out + Varint(bits + 128 * value) == (out + [128 + bits]) + Varint(value % 128 + 128 * (value / 128))
  {
    var v := bits + 128 * value;
    DivModUnique(v, 128, value, bits);
    assert Varint(v) == [128 + bits] + Varint(value);
    assert value % 128 + 128 * (value / 128) == value;
  }

  /** _EncodeVarint32; returns the file contents after the write. */
  method EncodeVarint32(out0: seq<byte>, value0: nat) returns (out: seq<byte>)
    ensures out == out0 + Varint(value0)
  {
    out := out0;
    var bits, value := TakeSeven(value0);
    while value != 0
      invariant bits < 128
      invariant out0 + Varint(value0) == out + Varint(bits + 128 * value)
      decreases value
    {
      EncoderStep(out, bits, value);
      var b := Flagged(bits);
      out := out + [b];
      bits, value := TakeSeven(value);
    }
    out := out + [bits];
  }

  // ---- Varint laws ----

  lemma {:induction false} VarintBytes(v: nat)
    ensures var bs, n := Varint(v), |Varint(v)|;
            n > 0 && (forall i | 0 <= i < n - 1 :: bs[i] >= 128) && bs[n - 1] < 128
  {
    if v >= 128 {
      VarintBytes(v / 128);
    }
  }

  lemma {:induction false} VarintValue(v: nat)
    ensures Base128(Varint(v)) == v
  {
    if v < 128 {
      assert [v][1..] == [];
    } else {
      VarintValue(v / 128);
      assert Varint(v)[1..] == Varint(v / 128);
    }
  }

  lemma VarintShape(v: nat, rest: seq<byte>)
    ensures var bs, n := Varint(v) + rest, |Varint(v)|;
            n > 0 && Continued(bs) == n - 1 && Base128(bs[..n]) == v
  {
    var bs, n := Varint(v) + rest, |Varint(v)|;
    VarintBytes(v);
    VarintValue(v);
    FinishedVarint(bs, n - 1);
    assert bs[..n] == Varint(v);
  }

  /** Groups of seven bits: n bytes hold exactly the values below 128^n. */
  lemma {:induction false} VarintLength(v: nat, n: nat)
    requires n > 0
    ensures |Varint(v)| <= n <==> v < Pow2(7 * n)
  {
    Constants();
    if n == 1 {
    } else {
      Pow2Plus7(7 * (n - 1));
      Pow2Monotone(0, 7 * (n - 1));
      if v >= 128 {
        VarintLength(v / 128, n - 1);
      }
    }
  }

  lemma SmallVarint(v: nat)
    requires v <= MASK32
    ensures 1 <= |Varint(v)| <= 5 && Truncate32(v) == v
  {
    VarintBytes(v);
    Below35Bits(v);
    VarintLength(v, 5);
  }

  lemma Below35Bits(v: nat)
    requires v <= MASK32
    ensures v < Pow2(35) && Truncate32(v) == v
  {
    Constants();
    Pow2Monotone(32, 35);
    DivModUnique(v, Pow2(32), 0, v);
  }

  /** Encoding any 32-bit length takes the least possible number of bytes, at most five, and decoding
      gives it back and leaves the rest of the stream alone. */
  lemma VarintRoundTrip(v: nat, rest: seq<byte>, n: nat)
    requires v <= MASK32
    ensures ReadVarint(Varint(v) + rest) == Value(v, |Varint(v)|)
    ensures 1 <= |Varint(v)| <= 5
    ensures n > 0 ==> (|Varint(v)| <= n <==> v < Pow2(7 * n))
  {
    SmallVarint(v);
    VarintShape(v, rest);
    if n > 0 {
      VarintLength(v, n);
    }
    var bs, k := Varint(v) + rest, |Varint(v)|;
    assert bs[..k - 1 + 1] == bs[..k];
  }

  /** On any bytes at all: at most ten are read, and a completed value lies within 33 signed bits and
      agrees modulo 2^32 with the base-128 number that was read. */
  lemma AnyVarint(bs: seq<byte>)
    ensures var read := ReadVarint(bs);
            && read.count <= 10 && read.count <= |bs|
            && (read.Value? ==> Agrees32(read.value, Base128(bs[..read.count])))
  {
    var read := ReadVarint(bs);
    if read.Value? {
      TruncateBounds(Base128(bs[..read.count]));
    }
  }

  /** The outcome is decided by the first byte without the continuation flag among the first ten. */
  lemma VarintOutcome(bs: seq<byte>)
    ensures var read := ReadVarint(bs);
            && (read == TooLong(10) <==> |bs| >= 10 && forall i | 0 <= i < 10 :: bs[i] >= 128)
            && (read == EndOfFile(|bs|) <==> |bs| < 10 && forall i | 0 <= i < |bs| :: bs[i] >= 128)
            && (read.Value? <==> exists i :: 0 <= i < |bs| && i < 10 && bs[i] < 128)
            && (read.Value? ==> 0 < read.count <= |bs| && bs[read.count - 1] < 128 &&
                                forall i | 0 <= i < read.count - 1 :: bs[i] >= 128)
  {
  }

  /** A frame that is cut off in its payload is delivered as far as it goes. */
  lemma TruncatedFrame(size: nat, rest: seq<byte>)
    requires |rest| < size <= MASK32
    ensures ReadMessage(Varint(size) + rest) == (Some(rest), [])
  {
    VarintRoundTrip(size, rest, 0);
    assert (Varint(size) + rest)[|Varint(size)|..] == rest;
  }

  ghost predicate Agrees32(value: int, v: nat) {
    0 - Pow2(32) <= value < Pow2(32) && value % Pow2(32) == v % Pow2(32) && (value < 0 <==> v >= Pow2(63))
  }

  lemma TruncateBounds(v: nat)
    ensures Agrees32(Truncate32(v), v)
  {
    Constants();
  }

  // ---- Messages ----

  /** encodeMessage on a serialised message. */
  method EncodeMessage(out0: seq<byte>, payload: seq<byte>) returns (out: seq<byte>)
    ensures out == out0 + Frame(payload)
  {
    out := EncodeVarint32(out0, |payload|);
    out := out + payload;
  }

  function Frame(payload: seq<byte>): seq<byte> {
    Varint(|payload|) + payload
  }

  function Frames(payloads: seq<seq<byte>>): seq<byte> {
    if payloads == [] then [] else Frame(payloads[0]) + Frames(payloads[1..])
  }

  /** One message off the front of a stream: the bytes handed to the parser, if any, and the rest. */
  function ReadMessage(bs: seq<byte>): (r: (Option<seq<byte>>, seq<byte>))
    ensures r.0.Some? ==> |r.1| < |bs|
  {
    var read := ReadVarint(bs);
    AnyVarint(bs);
    var rest := bs[read.count..];
    if !read.Value? || read.value == 0 then (None, rest)
    else if read.value < 0 || read.value > |rest| then (Some(rest), [])
    else (Some(rest[..read.value]), rest[read.value..])
  }

  /** decodeMessage, which answers whether a message was found. */
  method DecodeMessage(f: InFile) returns (message: Option<seq<byte>>)
    requires f.Valid()
    modifies f
    ensures f.Valid() && (message, f.Rest()) == ReadMessage(old(f.Rest()))
  {
    ghost var bs, start := f.Rest(), f.pos;
    AnyVarint(bs);
    var r := DecodeVarint32(f);
    if r.None? {
      return None;
    }
    var size := r.value.0;
    if size == 0 {
      return None;
    }
    var buf := f.Read(size);
    return Some(buf);
  }

  /** All messages up to the first failure to read one. */
  function ReadAll(bs: seq<byte>): seq<seq<byte>>
    decreases |bs|
  {
    var (message, rest) := ReadMessage(bs);
    if message.None? then [] else [message.value] + ReadAll(rest)
  }

  lemma ReadAllStep(bs: seq<byte>)
    ensures var (message, rest) := ReadMessage(bs);
            ReadAll(bs) == if message.None? then [] else [message.value] + ReadAll(rest)
  {
  }

  lemma FrameRead(payload: seq<byte>, rest: seq<byte>)
    requires |payload| <= MASK32
    ensures ReadMessage(Frame(payload) + rest) == (if payload == [] then (None, rest) else (Some(payload), rest))
  {
    var bs, n := Frame(payload) + rest, |Varint(|payload|)|;
    assert bs == Varint(|payload|) + (payload + rest);
    VarintRoundTrip(|payload|, payload + rest, 0);
    assert bs[n..] == payload + rest;
    assert (payload + rest)[..|payload|] == payload && (payload + rest)[|payload|..] == rest;
  }

  /** The messages before the first empty one. */
  function UpToEmpty(payloads: seq<seq<byte>>): seq<seq<byte>> {
    if payloads == [] || payloads[0] == [] then [] else [payloads[0]] + UpToEmpty(payloads[1..])
  }

  lemma {:induction false} FramesRead(payloads: seq<seq<byte>>)
    requires forall i | 0 <= i < |payloads| :: |payloads[i]| <= MASK32
    ensures ReadAll(Frames(payloads)) == UpToEmpty(payloads)
  {
    if payloads == [] {
      assert ReadMessage([]).0.None?;
    } else {
      FrameRead(payloads[0], Frames(payloads[1..]));
      FramesRead(payloads[1..]);
    }
  }

  /** Writing messages and reading them back until the end returns exactly what was written if and only
      if none of the messages serialises to nothing. */
  lemma {:induction false} MessagesRoundTrip(payloads: seq<seq<byte>>)
    requires forall i | 0 <= i < |payloads| :: |payloads[i]| <= MASK32
    ensures ReadAll(Frames(payloads)) == payloads <==> forall i | 0 <= i < |payloads| :: payloads[i] != []
  {
    FramesRead(payloads);
    if payloads != [] && payloads[0] != [] {
      var rest := payloads[1..];
      MessagesRoundTrip(rest);
      FramesRead(rest);
      assert payloads == [payloads[0]] + rest;
      assert UpToEmpty(payloads)[1..] == UpToEmpty(rest);
    }
  }

  /** An empty message hides everything behind it. */
  lemma EmptyPayloadEndsStream()
    ensures ReadAll(Frames([[], [7]])) == []
  {
    FramesRead([[], [7]]);
  }
}
