/** Little-endian integers and the bounded byte reader every saved state is read through. */
module BlobCodecs {
  import opened GuestTypes

  function Power256(n: nat): nat {
    if n == 0 then 1 else 256 * Power256(n - 1)
  }

  /** Byte i of v, least significant first. */
  function Digit(v: nat, i: nat): Byte {
    if i == 0 then v % 256 else Digit(v / 256, i - 1)
  }

  /** The n low bytes of v, least significant first. */
  function Encode(v: nat, n: nat): (bytes: seq<Byte>)
    ensures |bytes| == n
  {
    seq(n, i requires 0 <= i < n => Digit(v, i))
  }

  function Value(bytes: seq<Byte>): nat {
    if |bytes| == 0 then 0 else bytes[0] + 256 * Value(bytes[1..])
  }

  lemma {:induction false} EncodeSplits(v: nat, n: nat)
    requires n > 0
    ensures Encode(v, n) == [v % 256] + Encode(v / 256, n - 1)
  {
    forall i | 0 <= i < n ensures Encode(v, n)[i] == ([v % 256] + Encode(v / 256, n - 1))[i] {
      assert Encode(v, n)[i] == Digit(v, i);
    }
  }

  lemma {:induction false} ValueOfEncode(v: nat, n: nat)
    requires v < Power256(n)
    ensures Value(Encode(v, n)) == v
  {
    if n > 0 {
      EncodeSplits(v, n);
      ValueOfEncode(v / 256, n - 1);
      assert Encode(v, n)[1..] == Encode(v / 256, n - 1);
    }
  }

  lemma {:induction false} EncodeOfValue(bytes: seq<Byte>)
    ensures Value(bytes) < Power256(|bytes|)
    ensures Encode(Value(bytes), |bytes|) == bytes
  {
    if |bytes| > 0 {
      EncodeSplits(Value(bytes), |bytes|);
      EncodeOfValue(bytes[1..]);
      assert bytes == [bytes[0]] + bytes[1..];
    }
  }

  lemma Powers()
    ensures Power256(1) == 0x100 && Power256(2) == 0x1_0000 && Power256(4) == 0x1_0000_0000
    ensures Power256(8) == 0x1_0000_0000_0000_0000
  {
    assert Power256(2) == 256 * Power256(1);
    assert Power256(4) == 256 * (256 * Power256(2));
    assert Power256(8) == 256 * (256 * (256 * (256 * Power256(4))));
  }

  /** A cursor over fixed bytes. Once a read asks for more than is left, ok is gone and all reads answer zero. */
  datatype Reader = Reader(bytes: seq<Byte>, offset: nat, ok: bool) {
    predicate Valid() {
      offset <= |bytes|
    }
  }

  datatype Read<T> = Read(value: T, reader: Reader)

  /** An n-byte integer. A short read takes the bytes there are as its low bytes and latches. */
  function ReadInt(r: Reader, n: nat): (read: Read<nat>)
    requires r.Valid()
    ensures read.reader.Valid() && read.reader.bytes == r.bytes
    ensures read.reader.ok <==> r.ok && n <= |r.bytes| - r.offset
  {
    if !r.ok then Read(0, r)
    else if n <= |r.bytes| - r.offset then
      Read(Value(r.bytes[r.offset..r.offset + n]), r.(offset := r.offset + n))
    else Read(Value(r.bytes[r.offset..]), r.(offset := |r.bytes|, ok := false))
  }

  /** A length-prefixed run of bytes. */
  function Blob(bytes: seq<Byte>): seq<Byte>
    requires |bytes| < 0x1_0000_0000
  {
    Encode(|bytes|, 4) + bytes
  }

  function ReadBlob(r: Reader): (read: Read<seq<Byte>>)
    requires r.Valid()
    ensures read.reader.Valid() && read.reader.bytes == r.bytes
  {
    var length := ReadInt(r, 4);
    if !length.reader.ok || length.value > |r.bytes| - length.reader.offset then Read([], length.reader.(ok := false))
    else
      var end := length.reader.offset + length.value;
      Read(r.bytes[length.reader.offset..end], length.reader.(offset := end))
  }

  /** A read past the latch gives zero and stays; one that runs short keeps the bytes there were, then latches at the
      end. */
  lemma {:induction false} ShortReadIff(r: Reader, n: nat)
    requires r.Valid()
    ensures var read := ReadInt(r, n);
            && (!r.ok ==> read == Read(0, r))
            && (r.ok && !read.reader.ok <==> r.ok && r.offset + n > |r.bytes|)
            && (r.ok && !read.reader.ok ==>
                  read.reader.offset == |r.bytes| && Encode(read.value, |r.bytes| - r.offset) == r.bytes[r.offset..])
            && (read.reader.ok ==>
                  read.reader.offset == r.offset + n && Encode(read.value, n) == r.bytes[r.offset..r.offset + n])
  {
    if r.ok && n <= |r.bytes| - r.offset {
      EncodeOfValue(r.bytes[r.offset..r.offset + n]);
    } else if r.ok {
      EncodeOfValue(r.bytes[r.offset..]);
    }
  }

  /** A blob is read exactly when its length and all of its bytes are there; otherwise it is empty and latches. */
  lemma {:induction false} BlobIsReadIff(r: Reader)
    requires r.Valid()
    ensures var read := ReadBlob(r);
            && (read.reader.ok <==>
                && r.ok && r.offset + 4 <= |r.bytes|
                && r.offset + 4 + Value(r.bytes[r.offset..r.offset + 4]) <= |r.bytes|)
            && (!read.reader.ok ==> read.value == [])
            && (read.reader.ok ==>
                  && |read.value| == Value(r.bytes[r.offset..r.offset + 4])
                  && read.reader.offset == r.offset + 4 + |read.value|
                  && read.value == r.bytes[r.offset + 4..read.reader.offset])
  {
  }

  /** The reader stands before `part`. */
  ghost predicate Before(r: Reader, part: seq<Byte>) {
    r.ok && r.offset + |part| <= |r.bytes| && r.bytes[r.offset..r.offset + |part|] == part
  }

  lemma SplitBefore(r: Reader, a: seq<Byte>, b: seq<Byte>)
    requires Before(r, a + b)
    ensures Before(r, a) && Before(r.(offset := r.offset + |a|), b)
  {
    var all := r.bytes[r.offset..r.offset + |a + b|];
    assert all[..|a|] == a && all[|a|..] == b;
    assert r.bytes[r.offset..r.offset + |a|] == all[..|a|];
    assert r.bytes[r.offset + |a|..r.offset + |a| + |b|] == all[|a|..];
  }

  lemma ReadIntOfEncode(r: Reader, v: nat, n: nat)
    requires r.Valid() && v < Power256(n) && Before(r, Encode(v, n))
    ensures ReadInt(r, n) == Read(v, r.(offset := r.offset + n))
  {
    ValueOfEncode(v, n);
  }

  lemma ReadBlobOfBlob(r: Reader, bytes: seq<Byte>)
    requires r.Valid() && |bytes| < 0x1_0000_0000 && Before(r, Blob(bytes))
    ensures ReadBlob(r) == Read(bytes, r.(offset := r.offset + 4 + |bytes|))
  {
    Powers();
    SplitBefore(r, Encode(|bytes|, 4), bytes);
    ReadIntOfEncode(r, |bytes|, 4);
  }
}
