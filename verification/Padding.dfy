// Padding to one of three sizes: the round trip, and what the length gives away.
module Padding {
  import opened Protocol

  newtype byte = x: int | 0 <= x < 256

  datatype Result<T> = Ok(value: T) | Err

  const PREFIX: nat := 4

  // A big-endian integer in n bytes.
  function Encode(value: nat, n: nat): (r: seq<byte>)
    ensures |r| == n
  {
    if n == 0 then [] else Encode(value / 256, n - 1) + [(value % 256) as byte]
  }

  function Decode(bytes: seq<byte>): nat {
    if bytes == [] then 0 else 256 * Decode(bytes[..|bytes| - 1]) + bytes[|bytes| - 1] as nat
  }

  function Pow256(n: nat): nat {
    if n == 0 then 1 else 256 * Pow256(n - 1)
  }

  lemma {:induction false} DecodeEncode(value: nat, n: nat)
    requires value < Pow256(n)
    ensures Decode(Encode(value, n)) == value
  {
    if n > 0 {
      DecodeEncode(value / 256, n - 1);
      assert Encode(value, n)[..n - 1] == Encode(value / 256, n - 1);
    }
  }

  // Big-endian, so that the last byte counts ones and the one before it counts 256es.
  lemma EncodeFour(value: nat)
    requires value < 0x1_0000
    ensures Encode(value, 4) == [0, 0, (value / 256) as byte, (value % 256) as byte]
  {
    hide Encode;
    EncodeTwo(value / 256);
    EncodeNext(value, 4);
    EncodeNext(value / 256, 3);
  }

  lemma EncodeTwo(high: nat)
    requires high < 256
    ensures Encode(high / 256, 2) == [0, 0]
  {
    assert Encode(0, 1) == [0];
  }

  lemma EncodeNext(value: nat, n: nat)
    requires 0 < n
    ensures Encode(value, n) == Encode(value / 256, n - 1) + [(value % 256) as byte]
  {
  }

  lemma DecodeFour(bytes: seq<byte>)
    requires |bytes| == 4
    ensures Decode(bytes) ==
              0x100_0000 * bytes[0] as nat + 0x1_0000 * bytes[1] as nat + 0x100 * bytes[2] as nat + bytes[3] as nat
  {
    var three, two, one := bytes[..3], bytes[..2], bytes[..1];
    assert three[..2] == two && two[..1] == one && one[..0] == [];
    assert Decode(one) == one[0] as nat;
    assert Decode(two) == 256 * Decode(one) + two[1] as nat;
    assert Decode(three) == 256 * Decode(two) + three[2] as nat;
  }

  // The smallest bucket that holds `needed` bytes.
  function Bucket(needed: nat, buckets: seq<nat>): (r: Result<nat>)
    ensures r.Ok? ==> needed <= r.value
  {
    if buckets == [] then Err
    else if needed <= buckets[0] then Ok(buckets[0])
    else Bucket(needed, buckets[1..])
  }

  function Noise(noise: nat -> byte, n: nat): (r: seq<byte>)
    ensures |r| == n && forall i | 0 <= i < n :: r[i] == noise(i)
  {
    seq(n, i requires 0 <= i < n => noise(i))
  }

  // pad_plaintext; noise stands for os.urandom.
  function Pad(plaintext: seq<byte>, noise: nat -> byte): Result<seq<byte>> {
    var needed := PREFIX + |plaintext|;
    match Bucket(needed, PAD_BUCKETS)
    case Err => Err
    case Ok(bucket) => Ok(Encode(|plaintext|, PREFIX) + plaintext + Noise(noise, bucket - needed))
  }

  // unpad_plaintext.
  function Unpad(padded: seq<byte>): Result<seq<byte>> {
    if |padded| < PREFIX then Err
    else
      var length := Decode(padded[..PREFIX]);
      if length > |padded| - PREFIX then Err else Ok(padded[PREFIX..PREFIX + length])
  }

  lemma {:induction false} BucketIsSmallest(needed: nat, buckets: seq<nat>)
    requires forall i, j | 0 <= i < j < |buckets| :: buckets[i] < buckets[j]
    ensures match Bucket(needed, buckets)
            case Ok(b) => b in buckets && needed <= b && forall c | c in buckets && needed <= c :: b <= c
            case Err => forall c | c in buckets :: c < needed
  {
    if buckets != [] {
      assert buckets == [buckets[0]] + buckets[1..];
      if buckets[0] < needed { BucketIsSmallest(needed, buckets[1..]); }
    }
  }

  // Padding succeeds exactly up to 65532 bytes; the result is the smallest bucket that
  // fits, whatever the content and the noise; and unpadding it gives the plaintext back.
  lemma PadRoundTrip(plaintext: seq<byte>, noise: nat -> byte)
    ensures Pad(plaintext, noise).Ok? <==> |plaintext| <= 65532
    ensures var padded := Pad(plaintext, noise);
            padded.Ok? ==>
              && Unpad(padded.value) == Ok(plaintext)
              && |padded.value| == if |plaintext| <= 4092 then 4096 else if |plaintext| <= 16380 then 16384 else 65536
  {
    var needed := PREFIX + |plaintext|;
    BucketIsSmallest(needed, PAD_BUCKETS);
    assert PAD_BUCKETS[2] in PAD_BUCKETS;
    if |plaintext| <= 65532 {
      assert Pow256(4) == 256 * (256 * (256 * 256)) by { assert Pow256(1) == 256; }
      DecodeEncode(|plaintext|, PREFIX);
      var padded := Pad(plaintext, noise).value;
      assert padded[..PREFIX] == Encode(|plaintext|, PREFIX);
      assert padded[PREFIX..PREFIX + |plaintext|] == plaintext;
    }
  }

  // What is padded, byte by byte: the length in four, the highest first, then the plaintext,
  // then noise up to the end.
  lemma PadLayout(plaintext: seq<byte>, noise: nat -> byte)
    requires |plaintext| <= 65532
    ensures Pad(plaintext, noise).Ok?
    ensures var padded, length := Pad(plaintext, noise).value, |plaintext|;
            && 4 + length <= |padded|
            && padded[0] == 0 && padded[1] == 0
            && padded[2] as nat == length / 256 && padded[3] as nat == length % 256
            && (forall i | 0 <= i < length :: padded[4 + i] == plaintext[i])
            && (forall i | 0 <= i < |padded| - 4 - length :: padded[4 + length + i] == noise(i))
  {
    PadRoundTrip(plaintext, noise);
    EncodeFour(|plaintext|);
    var padded := Pad(plaintext, noise).value;
    var head, rest := Encode(|plaintext|, PREFIX) + plaintext, |padded| - 4 - |plaintext|;
    assert padded == head + Noise(noise, rest);
    forall i | 0 <= i < rest ensures padded[4 + |plaintext| + i] == noise(i) {
      assert padded[|head| + i] == Noise(noise, rest)[i];
    }
  }

  // Two plaintexts of one length pad to one length.
  lemma LengthHidesContent(a: seq<byte>, b: seq<byte>, noise: nat -> byte, other: nat -> byte)
    requires |a| == |b| <= 65532
    ensures Pad(a, noise).Ok? && Pad(b, other).Ok? && |Pad(a, noise).value| == |Pad(b, other).value|
  {
    PadRoundTrip(a, noise);
    PadRoundTrip(b, other);
  }

  // Unpadding accepts exactly what has a length in four bytes, the highest first, followed by
  // that many bytes.
  lemma UnpadExact(padded: seq<byte>, plaintext: seq<byte>)
    ensures Unpad(padded) == Ok(plaintext) <==>
              && 4 <= |padded|
              && 0x100_0000 * padded[0] as nat + 0x1_0000 * padded[1] as nat + 0x100 * padded[2] as nat
                 + padded[3] as nat == |plaintext|
              && plaintext <= padded[4..]
  {
    hide Decode;
    if |padded| >= PREFIX {
      DecodeFour(padded[..PREFIX]);
      var rest, length := padded[PREFIX..], Decode(padded[..PREFIX]);
      if length <= |rest| { assert padded[PREFIX..PREFIX + length] == rest[..length]; }
      if plaintext <= rest { assert plaintext == rest[..|plaintext|]; }
    }
  }

  // Base64 writes each group of three bytes, the last one perhaps incomplete, in four characters.
  lemma Base64Exact(n: nat, groups: nat)
    ensures Base64Length(n) == 4 * groups <==> 3 * (groups - 1) < n <= 3 * groups
  {
  }

  // The ciphertext of any padded message, with its tag, in base64 and with the other
  // fields, fits the size a publish may have.
  lemma PaddedFitsPublish(plaintext: seq<byte>, noise: nat -> byte)
    requires Pad(plaintext, noise).Ok?
    ensures Base64Length(|Pad(plaintext, noise).value| + TAG_BYTES) + JSON_FIELD_OVERHEAD_BYTES
         <= MAX_PUBLISH_BODY_BYTES
    ensures MAX_PUBLISH_BODY_BYTES == 88_724 && MAX_BODY_BYTES == 133_086
  {
    PadRoundTrip(plaintext, noise);
  }
}
