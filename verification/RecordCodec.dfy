/** The byte records between the device and its reader. */
module RecordCodec {

  /** An unsigned 32-bit number. */
  type Word = x: int | 0 <= x < 0x1_0000_0000

  type Byte = x: int | 0 <= x < 256

  /** One record of the device: two unsigned 32-bit fields. */
  datatype Update = Update(source: Word, value: Word)

  /** A record as the reader sees it: its bit operations give signed numbers. */
  datatype Reading = Reading(source: int, value: int)

  type Bytes = seq<Byte>

  /** Ok, or the length assertion fails. */
  datatype Decoding = Decoded(updates: seq<Reading>) | AssertionError

  // ------------------------------------------------------------------- the device

  /** The digits of a number in base 256, the least first. */
  function ByteOf(w: nat, i: nat): Byte
    decreases i
  {
    if i == 0 then w % 256 else ByteOf(w / 256, i - 1)
  }

  /** A field in memory, least significant byte first. */
  function FieldBytes(w: Word): (b: Bytes)
    ensures |b| == 4
  {
    seq(4, i requires 0 <= i < 4 => ByteOf(w, i))
  }

  function Encode(u: Update): (b: Bytes)
    ensures |b| == 8
  {
    FieldBytes(u.source) + FieldBytes(u.value)
  }

  function EncodeAll(us: seq<Update>): (b: Bytes)
    ensures |b| == 8 * |us|
  {
    if us == [] then [] else Encode(us[0]) + EncodeAll(us[1..])
  }

  // ------------------------------------------------------------------- the reader

  /** The bits of a 32-bit word as a two's complement number. */
  function Signed(w: nat): int {
    var m := w % 0x1_0000_0000;
    if m < 0x8000_0000 then m else m - 0x1_0000_0000
  }

  /** The bitwise or of two bit patterns. */
  function BitOr(a: nat, b: nat): nat {
    if a == 0 then b
    else 2 * BitOr(a / 2, b / 2) + (if a % 2 == 1 || b % 2 == 1 then 1 else 0)
  }

  /** Four bytes shifted into place and joined. */
  function JoinBytes(a: Byte, b: Byte, c: Byte, d: Byte): nat {
    BitOr(BitOr(BitOr(a, b * 0x100), c * 0x1_0000), d * 0x100_0000)
  }

  function FieldAt(data: Bytes, i: nat): int
    requires i + 4 <= |data|
  {
    Signed(JoinBytes(data[i], data[i + 1], data[i + 2], data[i + 3]))
  }

  function ReadingAt(data: Bytes, i: nat): Reading
    requires i + 8 <= |data|
  {
    Reading(FieldAt(data, i), FieldAt(data, i + 4))
  }

  /** The readings of as many whole records as there are. */
  function Readings(data: Bytes): seq<Reading> {
    if |data| < 8 then [] else [ReadingAt(data, 0)] + Readings(data[8..])
  }

  function DecodeData(data: Bytes): Decoding {
    if |data| % 8 == 0 then Decoded(Readings(data)) else AssertionError
  }

  lemma ReadingsStep(data: Bytes, i: nat, done: seq<Reading>)
    requires i + 8 <= |data|
    ensures done + Readings(data[i..]) == done + [ReadingAt(data, i)] + Readings(data[i + 8..])
  {
    var rest := data[i..];
    assert rest[8..] == data[i + 8..];
    assert ReadingAt(rest, 0) == ReadingAt(data, i);
    assert Readings(rest) == [ReadingAt(data, i)] + Readings(data[i + 8..]);
  }

  /** Decodes one chunk of the stream. */
  method OnData(data: Bytes) returns (r: Decoding)
    ensures r == DecodeData(data)
  {
    var updates := [];
    if |data| % 8 != 0 {
      return AssertionError;
    }
    var i := 0;
    ghost var n, k := |data| / 8, 0;
    assert |data| == 8 * n;
    while i < |data|
      invariant i == 8 * k && k <= n
      invariant Readings(data) == updates + Readings(data[i..])
    {
      var source := FieldAt(data, i);
      var value := FieldAt(data, i + 4);
      ReadingsStep(data, i, updates);
      updates := updates + [Reading(source, value)];
      i, k := i + 8, k + 1;
    }
    r := Decoded(updates);
  }

  // ------------------------------------------------------------------- properties

  /** What the reader sees of a record. */
  function Seen(u: Update): Reading { Reading(Signed(u.source), Signed(u.value)) }

  function SeenAll(us: seq<Update>): (r: seq<Reading>)
    ensures |r| == |us| && forall i :: 0 <= i < |us| ==> r[i] == Seen(us[i])
  {
    seq(|us|, i requires 0 <= i < |us| => Seen(us[i]))
  }

  function Pow2(k: nat): (p: nat)
    ensures p > 0
  {
    if k == 0 then 1 else 2 * Pow2(k - 1)
  }

  /** Where the bits do not overlap, or is addition. */
  lemma {:induction false} OrAdds(a: nat, b: nat, k: nat)
    requires a < Pow2(k)
    ensures BitOr(a, b * Pow2(k)) == a + b * Pow2(k)
  {
    if a == 0 {
    } else {
      var j: nat := k - 1;
      var half := b * Pow2(j);
      assert b * Pow2(k) == 2 * half;
      OrAdds(a / 2, b, j);
    }
  }

  /** Joined bytes make the number they are the base 256 digits of. */
  lemma JoinAdds(a: Byte, b: Byte, c: Byte, d: Byte)
    ensures JoinBytes(a, b, c, d) == a + b * 0x100 + c * 0x1_0000 + d * 0x100_0000
  {
    assert Pow2(8) == 0x100 && Pow2(16) == 0x1_0000 && Pow2(24) == 0x100_0000;
    OrAdds(a, b, 8);
    OrAdds(a + b * 0x100, c, 16);
    OrAdds(a + b * 0x100 + c * 0x1_0000, d, 24);
  }

  lemma TwoDigits(w: nat)
    ensures w == ByteOf(w, 0) + 0x100 * ByteOf(w, 1) + 0x1_0000 * (w / 256 / 256)
  {
    assert ByteOf(w, 1) == ByteOf(w / 256, 0);
  }

  lemma FieldReads(w: Word)
    ensures var b := FieldBytes(w); JoinBytes(b[0], b[1], b[2], b[3]) == w
  {
    var h := w / 256 / 256;
    TwoDigits(w);
    TwoDigits(h);
    assert h / 256 / 256 == 0;
    assert ByteOf(w, 2) == ByteOf(w / 256, 1) == ByteOf(h, 0);
    assert ByteOf(w, 3) == ByteOf(w / 256, 2) == ByteOf(h, 1);
    JoinAdds(ByteOf(w, 0), ByteOf(w, 1), ByteOf(w, 2), ByteOf(w, 3));
  }

  /** The number of four digits in base 256. */
  function Number(a: nat, b: nat, c: nat, d: nat): nat { a + b * 0x100 + c * 0x1_0000 + d * 0x100_0000 }

  /** A record is its source and then its value, each as four base 256 digits, the least
      first. */
  lemma RecordLayout(u: Update)
    ensures var b := Encode(u);
      && Number(b[0], b[1], b[2], b[3]) == u.source && Number(b[4], b[5], b[6], b[7]) == u.value
  {
    FieldReads(u.source);
    FieldReads(u.value);
    var b := Encode(u);
    JoinAdds(b[0], b[1], b[2], b[3]);
    JoinAdds(b[4], b[5], b[6], b[7]);
  }

  lemma RecordReads(u: Update, tail: Bytes)
    ensures ReadingAt(Encode(u) + tail, 0) == Seen(u)
  {
    var data := Encode(u) + tail;
    FieldReads(u.source);
    FieldReads(u.value);
    assert data[0..4] == FieldBytes(u.source) && data[4..8] == FieldBytes(u.value);
    assert data[0] == FieldBytes(u.source)[0] && data[3] == FieldBytes(u.source)[3];
    assert data[4] == FieldBytes(u.value)[0] && data[7] == FieldBytes(u.value)[3];
  }

  /** Decoding the bytes of a sequence of records gives them back, one for one and in
      order. */
  lemma DecodeEncode(us: seq<Update>)
    ensures DecodeData(EncodeAll(us)) == Decoded(SeenAll(us))
  {
    ReadingsEncode(us);
    WholeRecords(EncodeAll(us), |us|);
  }

  lemma WholeRecords(data: Bytes, n: nat)
    requires |data| == 8 * n
    ensures DecodeData(data) == Decoded(Readings(data))
  {
  }

  lemma {:induction false} ReadingsEncode(us: seq<Update>)
    ensures Readings(EncodeAll(us)) == SeenAll(us)
  {
    if us == [] {
    } else {
      var data, rest := EncodeAll(us), us[1..];
      ReadingsEncode(rest);
      RecordReads(us[0], EncodeAll(rest));
      assert data == Encode(us[0]) + EncodeAll(rest);
      assert data[8..] == EncodeAll(rest);
      assert Readings(data) == [ReadingAt(data, 0)] + Readings(data[8..]);
      assert SeenAll(us) == [Seen(us[0])] + SeenAll(rest);
    }
  }

  /** A field is seen modulo 2^32, and exactly when it is below 2^31. */
  lemma FieldCongruent(w: Word)
    ensures (Signed(w) - w) % 0x1_0000_0000 == 0
    ensures Signed(w) == w <==> w < 0x8000_0000
    ensures -0x8000_0000 <= Signed(w) < 0x8000_0000
  {
  }

  lemma {:induction false} ReadingsSplit(a: Bytes, b: Bytes)
    requires |a| % 8 == 0
    ensures Readings(a + b) == Readings(a) + Readings(b)
    decreases |a|
  {
    if a == [] {
      assert a + b == b;
    } else {
      ReadingsSplit(a[8..], b);
      assert (a + b)[8..] == a[8..] + b;
      assert ReadingAt(a + b, 0) == ReadingAt(a, 0);
    }
  }

  function Concat(chunks: seq<Bytes>): Bytes {
    if chunks == [] then [] else chunks[0] + Concat(chunks[1..])
  }

  function ReadingsOfEach(chunks: seq<Bytes>): seq<Reading> {
    if chunks == [] then [] else Readings(chunks[0]) + ReadingsOfEach(chunks[1..])
  }

  lemma {:induction false} ConcatWhole(chunks: seq<Bytes>)
    requires forall i :: 0 <= i < |chunks| ==> |chunks[i]| % 8 == 0
    ensures |Concat(chunks)| % 8 == 0
  {
    if chunks == [] {
    } else {
      ConcatWhole(chunks[1..]);
    }
  }

  lemma {:induction false} ConcatReadings(chunks: seq<Bytes>)
    requires forall i :: 0 <= i < |chunks| ==> |chunks[i]| % 8 == 0
    ensures Readings(Concat(chunks)) == ReadingsOfEach(chunks)
  {
    if chunks == [] {
    } else {
      ConcatReadings(chunks[1..]);
      ReadingsSplit(chunks[0], Concat(chunks[1..]));
    }
  }

  /** However whole records are cut into chunks, decoding the chunks one by one gives
      what decoding the whole stream gives, and no chunk fails. */
  lemma ChunksDecode(chunks: seq<Bytes>)
    requires forall i :: 0 <= i < |chunks| ==> |chunks[i]| % 8 == 0
    ensures DecodeData(Concat(chunks)) == Decoded(ReadingsOfEach(chunks))
    ensures forall i :: 0 <= i < |chunks| ==> DecodeData(chunks[i]) == Decoded(Readings(chunks[i]))
  {
    ConcatWhole(chunks);
    ConcatReadings(chunks);
  }
}
