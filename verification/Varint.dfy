/**
  The binary codec for lengths, strings and optional scalars (common/io/src/binary_write.rs, binary_read.rs).
  Lengths are unsigned LEB128, section 7.6 of DWARF Version 4.
 */
module Varint {
  import opened Wrappers

  type Byte = n: int | 0 <= n < 256

  const TWO_64 := 0x1_0000_0000_0000_0000

  type U64 = n: int | 0 <= n < TWO_64

  const MAX_VARINT_LEN64 := 10

  /** `Panicked` stands for shifting a 64-bit number by 64 or more, and for a buffer over the greatest size. */
  datatype ReadError = UnexpectedEof | Overflow | InvalidUtf8 | Panicked

  // ----- The format -----

  /** Seven bits a byte, low ones first, and the top bit on all bytes but the last. */
  function Encode(x: nat): seq<Byte>
  {
    if x < 128 then [x] else [x % 128 + 128] + Encode(x / 128)
  }

  predicate Terminated(group: seq<Byte>)
  {
    && group != []
    && group[|group| - 1] < 128
    && forall i :: 0 <= i < |group| - 1 ==> group[i] >= 128
  }

  /** The number a terminated group of bytes denotes. */
  function Value(group: seq<Byte>): nat
  {
    if group == [] then 0 else group[0] % 128 + 128 * Value(group[1..])
  }

  /** Every number is encoded by a terminated group that denotes it. */
  lemma {:induction false} EncodeDenotes(x: nat)
    ensures Terminated(Encode(x)) && Value(Encode(x)) == x
  {
    if x >= 128 {
      EncodeDenotes(x / 128);
      assert Encode(x)[1..] == Encode(x / 128);
    } else {
      assert Encode(x)[1..] == [];
    }
  }

  /** A digit at place `i`. */
  function Place(v: nat, i: nat): nat
  {
    if i == 0 then v else 128 * Place(v, i - 1)
  }

  function Power(i: nat): nat
  {
    Place(1, i)
  }

  lemma {:induction false} EncodeLength(x: nat, n: nat)
    requires x < Power(n) && n > 0
    ensures |Encode(x)| <= n
  {
    if x >= 128 {
      assert Power(1) == 128;
      EncodeLength(x / 128, n - 1);
    }
  }

  lemma Places(v: nat)
    ensures Place(v, 9) == 0x8000_0000_0000_0000 * v
    ensures Place(v, 10) == 0x40_0000_0000_0000_0000 * v
  {
    assert Place(v, 1) == 0x80 * v;
    assert Place(v, 2) == 0x4000 * v;
    assert Place(v, 3) == 0x20_0000 * v;
    assert Place(v, 4) == 0x1000_0000 * v;
    assert Place(v, 5) == 0x8_0000_0000 * v;
    assert Place(v, 6) == 0x400_0000_0000 * v;
    assert Place(v, 7) == 0x2_0000_0000_0000 * v;
    assert Place(v, 8) == 0x100_0000_0000_0000 * v;
  }

  /** At most ten bytes for every 64-bit number. */
  lemma EncodeFits(x: U64)
    ensures 1 <= |Encode(x)| <= MAX_VARINT_LEN64
  {
    Places(1);
    EncodeLength(x, 10);
  }

  /** `put_uvarint`: the buffer is never too small. */
  method PutUvarint(buf: array<Byte>, x: U64) returns (n: nat)
    requires buf.Length == MAX_VARINT_LEN64
    modifies buf
    ensures n <= buf.Length && buf[..n] == Encode(x)
  {
    EncodeFits(x);
    var i, mx: nat := 0, x;
    while mx >= 0x80
      invariant i + |Encode(mx)| <= buf.Length
      invariant buf[..i] + Encode(mx) == Encode(x)
    {
      buf[i] := mx % 128 + 128;
      assert buf[..i + 1] == buf[..i] + [mx % 128 + 128];
      mx := mx / 128;
      i := i + 1;
    }
    buf[i] := mx;
    assert buf[..i + 1] == buf[..i] + [mx];
    return i + 1;
  }

  // ----- Reading -----

  /** What reading a length gives after `i` bytes that make up `x`: the number and the bytes left. */
  function DecodeFrom(bytes: seq<Byte>, i: nat, x: nat): Result<(nat, seq<Byte>), ReadError>
  {
    if bytes == [] then Err(UnexpectedEof)
    else if bytes[0] < 128 then
      if i == 9 && bytes[0] > 1 then Err(Overflow)
      else if i > 9 then Err(Panicked)
      else Ok((x + Place(bytes[0], i), bytes[1..]))
    else if i > 9 then Err(Panicked)
    else DecodeFrom(bytes[1..], i + 1, (x + Place(bytes[0] % 128, i)) % TWO_64)
  }

  function Decode(bytes: seq<Byte>): Result<(nat, seq<Byte>), ReadError>
  {
    DecodeFrom(bytes, 0, 0)
  }

  lemma {:induction false} PlaceGrows(i: nat)
    requires i <= 9
    ensures 1 <= Power(i) <= Power(9)
    decreases 9 - i
  {
    if i < 9 {
      PlaceGrows(i + 1);
    } else {
      Places(1);
    }
  }

  lemma {:induction false} DigitBound(b: nat, i: nat)
    requires b < 128
    ensures Place(b, i) <= 127 * Power(i)
  {
    if i > 0 {
      DigitBound(b, i - 1);
    }
  }

  lemma {:induction false} PlaceSum(b: nat, higher: nat, i: nat)
    ensures Place(b + 128 * higher, i) == Place(b, i) + Place(higher, i + 1)
  {
    if i > 0 {
      PlaceSum(b, higher, i - 1);
    }
  }

  lemma PlaceBound(i: nat, x: nat, b: nat)
    requires i < 9 && x < Power(i) && b < 128
    ensures x + Place(b, i) < Power(i + 1) && Power(i + 1) < TWO_64
  {
    DigitBound(b, i);
    PlaceGrows(i + 1);
    Places(1);
  }

  lemma LastByte(i: nat, x: nat, b: nat)
    requires i <= 9 && x < Power(i) && b < 128
    ensures x + Place(b, i) < TWO_64 <==> !(i == 9 && b > 1)
  {
    if i < 9 {
      PlaceBound(i, x, b);
    } else {
      Places(b);
      Places(1);
    }
  }

  lemma Fits(n: nat)
    requires n < TWO_64
    ensures n % TWO_64 == n
  {
  }

  lemma DecodeLast(b: Byte, rest: seq<Byte>, i: nat, x: nat)
    requires b < 128 && i <= 9 && x < Power(i)
    ensures DecodeFrom([b] + rest, i, x) == Read(x + Place(b, i), rest)
  {
    LastByte(i, x, b);
    assert ([b] + rest)[1..] == rest;
  }

  lemma DecodeMore(b: Byte, rest: seq<Byte>, i: nat, x: nat)
    requires b >= 128 && i < 9 && x < Power(i)
    ensures DecodeFrom([b] + rest, i, x) == DecodeFrom(rest, i + 1, x + Place(b % 128, i))
  {
    PlaceBound(i, x, b % 128);
    Fits(x + Place(b % 128, i));
    assert ([b] + rest)[1..] == rest;
  }

  function Read(total: nat, rest: seq<Byte>): Result<(nat, seq<Byte>), ReadError>
  {
    if total < TWO_64 then Ok((total, rest)) else Err(Overflow)
  }

  lemma DecodeStep(b: Byte, bytes: seq<Byte>, i: nat, x: nat, higher: nat, rest: seq<Byte>)
    requires b >= 128 && i < 9 && x < Power(i)
    requires DecodeFrom(bytes, i + 1, x + Place(b % 128, i)) == Read(x + Place(b % 128, i) + Place(higher, i + 1), rest)
    ensures DecodeFrom([b] + bytes, i, x) == Read(x + Place(b % 128 + 128 * higher, i), rest)
  {
    DecodeMore(b, bytes, i, x);
    PlaceSum(b % 128, higher, i);
  }

  lemma ValueStep(group: seq<Byte>)
    requires group != []
    ensures Value(group) == group[0] % 128 + 128 * Value(group[1..])
  {
  }

  /** A group of at most ten bytes is read as the number it denotes, or refused when that is not a 64-bit number. */
  lemma {:induction false} DecodeGroup(group: seq<Byte>, rest: seq<Byte>, i: nat, x: nat)
    requires Terminated(group) && i + |group| <= 10 && x < Power(i)
    ensures DecodeFrom(group + rest, i, x) == Read(x + Place(Value(group), i), rest)
    decreases |group|
  {
    var b, tail := group[0], group[1..];
    assert group + rest == [b] + (tail + rest);
    if tail == [] {
      assert Value(group) == b && tail + rest == rest;
      DecodeLast(b, rest, i, x);
    } else {
      PlaceBound(i, x, b % 128);
      DecodeGroup(tail, rest, i + 1, x + Place(b % 128, i));
      GroupMore(group, rest, i, x);
    }
  }

  lemma GroupMore(group: seq<Byte>, rest: seq<Byte>, i: nat, x: nat)
    requires Terminated(group) && |group| > 1 && i + |group| <= 10 && x < Power(i)
    requires var y := x + Place(group[0] % 128, i);
             DecodeFrom(group[1..] + rest, i + 1, y) == Read(y + Place(Value(group[1..]), i + 1), rest)
    ensures DecodeFrom(group + rest, i, x) == Read(x + Place(Value(group), i), rest)
  {
    assert group + rest == [group[0]] + (group[1..] + rest);
    DecodeStep(group[0], group[1..] + rest, i, x, Value(group[1..]), rest);
    ValueStep(group);
  }

  /** Reading accepts exactly the groups that denote 64-bit numbers, shortest or not, and leaves what follows. */
  lemma DecodeDenotes(group: seq<Byte>, rest: seq<Byte>)
    requires Terminated(group) && |group| <= 10
    ensures Decode(group + rest) == if Value(group) < TWO_64 then Ok((Value(group), rest)) else Err(Overflow)
  {
    DecodeGroup(group, rest, 0, 0);
    assert Place(Value(group), 0) == Value(group);
  }

  /** Reading back what was written gives the number and consumes exactly its bytes, whatever follows. */
  lemma RoundTrip(x: U64, rest: seq<Byte>)
    ensures Decode(Encode(x) + rest) == Ok((x, rest))
  {
    EncodeDenotes(x);
    EncodeFits(x);
    DecodeDenotes(Encode(x), rest);
  }

  // ----- Strings and optional scalars -----

  /** A scalar type: its width, its bytes, and reading them back. */
  datatype Scalar<!V> = Scalar(width: nat, marshal: V -> seq<Byte>, unmarshal: seq<Byte> -> V)

  ghost predicate Faithful<V(!new)>(c: Scalar<V>)
  {
    forall v: V :: |c.marshal(v)| == c.width && c.unmarshal(c.marshal(v)) == v
  }

  /** No buffer or string is longer. */
  const ISIZE_MAX := 0x7FFF_FFFF_FFFF_FFFF

  function EncodeString(text: seq<Byte>): seq<Byte>
  {
    Encode(|text|) + text
  }

  function DecodeString(utf8: seq<Byte> -> bool, bytes: seq<Byte>): Result<(seq<Byte>, seq<Byte>), ReadError>
  {
    var (len, rest) :- Decode(bytes);
    if len > ISIZE_MAX then Err(Panicked)
    else if len > |rest| then Err(UnexpectedEof)
    else if !utf8(rest[..len]) then Err(InvalidUtf8)
    else Ok((rest[..len], rest[len..]))
  }

  function EncodeOption<V>(c: Scalar<V>, v: Option<V>): seq<Byte>
  {
    if v.Some? then [1] + c.marshal(v.value) else [0]
  }

  function DecodeOption<V>(c: Scalar<V>, bytes: seq<Byte>): Result<(Option<V>, seq<Byte>), ReadError>
  {
    if bytes == [] then Err(UnexpectedEof)
    else if bytes[0] == 0 then Ok((None, bytes[1..]))
    else if |bytes| - 1 < c.width then Err(UnexpectedEof)
    else Ok((Some(c.unmarshal(bytes[1..][..c.width])), bytes[1 + c.width..]))
  }

  lemma StringRoundTrip(utf8: seq<Byte> -> bool, text: seq<Byte>, rest: seq<Byte>)
    requires utf8(text) && |text| <= ISIZE_MAX
    ensures DecodeString(utf8, EncodeString(text) + rest) == Ok((text, rest))
  {
    RoundTrip(|text|, text + rest);
    assert EncodeString(text) + rest == Encode(|text|) + (text + rest);
    assert (text + rest)[..|text|] == text;
  }

  lemma OptionRoundTrip<V(!new)>(c: Scalar<V>, v: Option<V>, rest: seq<Byte>)
    requires Faithful(c)
    ensures DecodeOption(c, EncodeOption(c, v) + rest) == Ok((v, rest))
  {
    var bytes := EncodeOption(c, v) + rest;
    if v.Some? {
      assert bytes[1..] == c.marshal(v.value) + rest;
      assert bytes[1..][..c.width] == c.marshal(v.value) && bytes[1 + c.width..] == rest;
    } else {
      assert bytes[1..] == rest;
    }
  }

  class Writer {
    var out: seq<Byte>

    constructor ()
      ensures out == []
    {
      out := [];
    }

    method WriteUvarint(v: U64)
      modifies this
      ensures out == old(out) + Encode(v)
    {
      var scratch := new Byte[MAX_VARINT_LEN64](_ => 0);
      var ln := PutUvarint(scratch, v);
      out := out + scratch[..ln];
    }

    method WriteString(text: seq<Byte>)
      requires |text| < TWO_64
      modifies this
      ensures out == old(out) + EncodeString(text)
    {
      WriteUvarint(|text|);
      out := out + text;
    }

    method WriteOptScalar<V>(c: Scalar<V>, v: Option<V>)
      modifies this
      ensures out == old(out) + EncodeOption(c, v)
    {
      if v.Some? {
        out := out + [1];
        out := out + c.marshal(v.value);
      } else {
        out := out + [0];
      }
    }
  }

  class Reader {
    var rest: seq<Byte>

    constructor (bytes: seq<Byte>)
      ensures rest == bytes
    {
      rest := bytes;
    }

    /** `read_exact`; what a short read has consumed is gone. */
    method ReadExact(n: nat) returns (r: Result<seq<Byte>, ReadError>)
      modifies this
      ensures if n <= |old(rest)| then r == Ok(old(rest)[..n]) && rest == old(rest)[n..] else r == Err(UnexpectedEof)
    {
      if n <= |rest| {
        r := Ok(rest[..n]);
        rest := rest[n..];
      } else {
        r := Err(UnexpectedEof);
        rest := [];
      }
    }

    method ReadUvarint() returns (r: Result<nat, ReadError>)
      modifies this
      ensures match Decode(old(rest))
              case Ok((x, left)) => r == Ok(x) && rest == left
              case Err(e) => r == Err(e)
    {
      var x: nat, i: nat := 0, 0;
      while true
        invariant Decode(old(rest)) == DecodeFrom(rest, i, x)
        decreases |rest|
      {
        var b :- ReadByte();
        if i > 9 {
          return Err(Panicked);
        }
        if b < 0x80 {
          if i == 9 && b > 1 {
            return Err(Overflow);
          }
          return Ok(x + Place(b, i));
        }
        x := (x + Place(b % 128, i)) % TWO_64;
        i := i + 1;
      }
    }

    method ReadByte() returns (r: Result<Byte, ReadError>)
      modifies this
      ensures if old(rest) == [] then r == Err(UnexpectedEof) else r == Ok(old(rest)[0]) && rest == old(rest)[1..]
    {
      var bytes :- ReadExact(1);
      return Ok(bytes[0]);
    }

    method ReadString(utf8: seq<Byte> -> bool) returns (r: Result<seq<Byte>, ReadError>)
      modifies this
      ensures match DecodeString(utf8, old(rest))
              case Ok((text, left)) => r == Ok(text) && rest == left
              case Err(e) => r == Err(e)
    {
      var len :- ReadUvarint();
      if len > ISIZE_MAX {
        return Err(Panicked);
      }
      var text :- ReadExact(len);
      if !utf8(text) {
        return Err(InvalidUtf8);
      }
      return Ok(text);
    }

    method ReadOptScalar<V>(c: Scalar<V>) returns (r: Result<Option<V>, ReadError>)
      modifies this
      ensures match DecodeOption(c, old(rest))
              case Ok((v, left)) => r == Ok(v) && rest == left
              case Err(e) => r == Err(e)
    {
      var flag :- ReadByte();
      if flag == 0 {
        return Ok(None);
      }
      var bytes :- ReadExact(c.width);
      return Ok(Some(c.unmarshal(bytes)));
    }
  }
}
