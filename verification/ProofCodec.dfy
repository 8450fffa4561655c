/** Proofs as text: content, signature and the length of the content in four little-endian bytes, in base64url. */
module ProofCodec {
  import opened Common
  import opened Base64Url
  import opened Combining
  import opened FixedWidth

  const SIGNATURE_BYTES: nat := 64
  const U32: nat := 0x1_0000_0000

  datatype Proof = Proof(content: Bytes, signature: Bytes)

  datatype InvalidProof = InvalidProof

  /** `(n as u32).to_le_bytes()`; the cast drops everything above 32 bits. */
  function LengthBytes(n: nat): (b: Bytes)
    ensures |b| == 4
  {
    LittleEndian(n % U32, 4)
  }

  ghost function Text(p: Proof): Bytes {
    Encode(p.content + p.signature + LengthBytes(|p.content|))
  }

  /** Encoding panics exactly for a one-byte signature after a content that leaves one byte over. */
  method EncodeProof(p: Proof) returns (r: Encoded)
    ensures r == if |p.signature| == 1 && |p.content| % 3 == 1 then Panic else Encoded(Text(p))
  {
    var length := LengthBytes(|p.content|);
    var inputs := [p.content, p.signature, length];
    Parts(p.content, p.signature, length);
    r := CombineEncode(inputs, 4 + |p.content| + |p.signature|);
  }

  lemma Parts(a: Bytes, b: Bytes, c: Bytes)
    requires |c| == 4
    ensures Flatten([a, b, c]) == a + b + c
    ensures Trap([a, b, c]) <==> |b| == 1 && |a| % 3 == 1
  {
    var s := [a, b, c];
    assert s[..0] == [] && s[..1] == [a] && s[..2] == [a, b] && s[..3] == s;
    FlattenNext(s, 0);
    FlattenNext(s, 1);
    FlattenNext(s, 2);
    assert Flatten(s[..1]) == a;
    assert TrapAt(s, 1) <==> |b| == 1 && |a| % 3 == 1;
    assert forall i :: TrapAt(s, i) ==> i == 1;
  }

  /** The decoder accepts exactly the encodings of proofs it can represent, and returns the encoded proof. */
  method DecodeProof(encoded: Bytes) returns (r: Result<Proof, InvalidProof>)
    ensures forall p: Proof :: r == Ok(p) <==> encoded == Text(p) && |p.signature| >= 64 && |p.content| < 0x1_0000_0000
  {
    var decoded := Decode(encoded);
    forall p: Proof
      ensures encoded == Text(p) <==> decoded == Some(p.content + p.signature + LengthBytes(|p.content|))
    {
      DecodesExactly(encoded, p.content + p.signature + LengthBytes(|p.content|));
    }
    if decoded.None? {
      return Err(InvalidProof);
    }
    var bytes := decoded.value;
    var totalLen := |bytes|;
    if totalLen < 4 {
      return Err(InvalidProof);
    }
    var contentLength := FromLittleEndian(bytes[totalLen - 4..]);
    LengthIsShort(bytes[totalLen - 4..]);
    forall p: Proof | |p.content| < U32
      ensures bytes == p.content + p.signature + LengthBytes(|p.content|) <==> IsSplit(bytes, contentLength, p)
    {
      SplitExactly(bytes, p);
    }
    if totalLen < 4 + 64 + contentLength {
      return Err(InvalidProof);
    }
    var signature := bytes[contentLength..];
    bytes := bytes[..contentLength];
    signature := signature[..|signature| - 4];
    assert signature == decoded.value[contentLength..totalLen - 4];
    r := Ok(Proof(bytes, signature));
  }

  ghost predicate IsSplit(bytes: Bytes, contentLength: nat, p: Proof) {
    contentLength + 4 <= |bytes| && p.content == bytes[..contentLength] && p.signature == bytes[contentLength..|bytes| - 4]
  }

  lemma LengthReads(tail: Bytes, n: nat)
    requires |tail| == 4 && n < U32
    ensures FromLittleEndian(tail) == n <==> tail == LengthBytes(n)
  {
    BelowLimit(n);
    LittleEndianExactly(tail, n);
  }

  lemma LengthIsShort(tail: Bytes)
    requires |tail| == 4
    ensures FromLittleEndian(tail) < U32
  {
    FromLittleEndianFits(tail);
    Limits();
  }

  lemma BelowLimit(n: nat)
    requires n < U32
    ensures n < Limit(4) && n % U32 == n
  {
    Limits();
  }

  lemma Joins(bytes: Bytes, a: Bytes, b: Bytes, c: Bytes)
    requires |bytes| >= |c|
    ensures bytes == a + b + c <==>
      && bytes[|bytes| - |c|..] == c && |a| + |c| <= |bytes|
      && a == bytes[..|a|] && b == bytes[|a|..|bytes| - |c|]
  {
    if bytes[|bytes| - |c|..] == c && |a| + |c| <= |bytes| && a == bytes[..|a|] && b == bytes[|a|..|bytes| - |c|] {
      assert bytes == bytes[..|a|] + bytes[|a|..|bytes| - |c|] + bytes[|bytes| - |c|..];
    }
  }

  lemma SplitExactly(bytes: Bytes, p: Proof)
    requires |bytes| >= 4 && |p.content| < U32
    ensures bytes == p.content + p.signature + LengthBytes(|p.content|) <==>
      IsSplit(bytes, FromLittleEndian(bytes[|bytes| - 4..]), p)
  {
    LengthReads(bytes[|bytes| - 4..], |p.content|);
    Joins(bytes, p.content, p.signature, LengthBytes(|p.content|));
  }

  /** So decoding undoes encoding for every content below 2^32 bytes with a 64-byte signature, and encoding does not panic. */
  method RoundTrip(p: Proof) returns (text: Encoded, back: Result<Proof, InvalidProof>)
    requires |p.signature| == SIGNATURE_BYTES && |p.content| < U32
    ensures text.Encoded? && back == Ok(p)
  {
    text := EncodeProof(p);
    back := DecodeProof(text.text);
    assert text.text == Text(p);
  }
}
