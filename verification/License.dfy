/** The envelope of a licence token: a version byte, the payload length as a big-endian 32-bit
    number, the payload, and a 64-byte signature over everything before it. */
module License {
  import opened Bytes
  import opened Wrappers

  const CURRENT_VERSION: Byte := 1
  const MAX_TOKEN_SIZE := 4096
  const SIG_LEN := 64

  datatype Error = TokenTooShort | TokenTooLarge | UnsupportedVersion | BadLength | InvalidSignature

  datatype Envelope = Envelope(payload: seq<Byte>, signature: seq<Byte>, signedMsg: seq<Byte>)

  /** 32-bit unsigned arithmetic. */
  function Wrap32(n: int): nat {
    n % TWO32
  }

  /** The envelope part of Verify; `validSig` is the signature check over message and signature. */
  function Verify(token: seq<Byte>, validSig: (seq<Byte>, seq<Byte>) -> bool): Result<Envelope, Error> {
    if |token| < 5 + SIG_LEN then Err(TokenTooShort)
    else if |token| > MAX_TOKEN_SIZE then Err(TokenTooLarge)
    else if token[0] != CURRENT_VERSION then Err(UnsupportedVersion)
    else
      var payloadLen := Uint32(token[1..5]);
      var expectedTotal := Wrap32(Wrap32(5 + payloadLen) + SIG_LEN);
      if |token| != expectedTotal then Err(BadLength)
      else
        LengthIsExact(token);
        var end := Wrap32(5 + payloadLen);
        var envelope := Envelope(token[5..end], token[end..], token[..end]);
        if !validSig(envelope.signedMsg, envelope.signature) then Err(InvalidSignature) else Ok(envelope)
  }

  /** Wrapping never hides a wrong length: within the size limits the check compares exact numbers. */
  lemma {:induction false} LengthIsExact(token: seq<Byte>)
    requires 5 + SIG_LEN <= |token| <= MAX_TOKEN_SIZE
    ensures |token| == Wrap32(Wrap32(5 + Uint32(token[1..5])) + SIG_LEN) <==> Uint32(token[1..5]) == |token| - 69
    ensures Uint32(token[1..5]) == |token| - 69 ==> Wrap32(5 + Uint32(token[1..5])) == |token| - SIG_LEN
  {
    BigEndianOfUint32(token[1..5]);
  }

  /** The documented encoding. */
  function Seal(payload: seq<Byte>, signature: seq<Byte>): seq<Byte>
    requires |payload| < TWO32
  {
    [CURRENT_VERSION] + BigEndian(|payload|) + payload + signature
  }

  /** Opening a sealed token gives back its parts, and the signed message is all but the signature. */
  lemma {:induction false} VerifySeal(payload: seq<Byte>, signature: seq<Byte>, validSig: (seq<Byte>, seq<Byte>) -> bool)
    requires |payload| <= MAX_TOKEN_SIZE - 69 && |signature| == SIG_LEN
    ensures var signedMsg := Seal(payload, []);
            Verify(Seal(payload, signature), validSig) ==
              if validSig(signedMsg, signature) then Ok(Envelope(payload, signature, signedMsg)) else Err(InvalidSignature)
  {
    var token := Seal(payload, signature);
    Uint32OfBigEndian(|payload|);
    assert token[1..5] == BigEndian(|payload|);
    LengthIsExact(token);
    var end := 5 + |payload|;
    assert token[5..end] == payload && token[end..] == signature;
    assert token[..end] == Seal(payload, []);
  }

  /** The slices are inverse to the encoding. */
  lemma {:induction false} SealOfSlices(token: seq<Byte>)
    requires 69 <= |token| <= MAX_TOKEN_SIZE && token[0] == CURRENT_VERSION && Uint32(token[1..5]) == |token| - 69
    ensures token == Seal(token[5..|token| - SIG_LEN], token[|token| - SIG_LEN..])
    ensures token[..|token| - SIG_LEN] == Seal(token[5..|token| - SIG_LEN], [])
  {
    var end := |token| - SIG_LEN;
    var payload := token[5..end];
    BigEndianOfUint32(token[1..5]);
    var head := [CURRENT_VERSION] + BigEndian(|payload|);
    assert token[..5] == head;
    assert token[..end] == head + payload;
    assert head + payload + [] == head + payload;
    assert token == token[..end] + token[end..];
  }

  /** An accepted token is the encoding of its parts: they partition it. */
  lemma {:induction false} AcceptedIsSealed(token: seq<Byte>, validSig: (seq<Byte>, seq<Byte>) -> bool)
    requires Verify(token, validSig).Ok?
    ensures var e := Verify(token, validSig).value;
            && |e.payload| <= MAX_TOKEN_SIZE - 69 && |e.signature| == SIG_LEN
            && token == Seal(e.payload, e.signature) && e.signedMsg == Seal(e.payload, [])
            && validSig(e.signedMsg, e.signature)
  {
    LengthIsExact(token);
    SealOfSlices(token);
  }

  ghost predicate SealedWith(token: seq<Byte>, validSig: (seq<Byte>, seq<Byte>) -> bool,
                             payload: seq<Byte>, signature: seq<Byte>) {
    && |payload| <= MAX_TOKEN_SIZE - 69 && |signature| == SIG_LEN
    && token == Seal(payload, signature) && validSig(Seal(payload, []), signature)
  }

  /** A token passes exactly when it is the encoding of a payload that fits and a valid signature. */
  lemma {:induction false} VerifyAccepts(token: seq<Byte>, validSig: (seq<Byte>, seq<Byte>) -> bool)
    ensures Verify(token, validSig).Ok? <==> exists payload, signature :: SealedWith(token, validSig, payload, signature)
  {
    if Verify(token, validSig).Ok? {
      AcceptedIsSealed(token, validSig);
      var e := Verify(token, validSig).value;
      assert SealedWith(token, validSig, e.payload, e.signature);
    }
    forall payload, signature | SealedWith(token, validSig, payload, signature)
      ensures Verify(token, validSig).Ok?
    {
      VerifySeal(payload, signature, validSig);
    }
  }

  /** Every answer, with the sizes and offsets as numbers: which check a token fails first, and what the
      parts of an accepted one are. */
  lemma {:induction false} VerifyAnswers(token: seq<Byte>, validSig: (seq<Byte>, seq<Byte>) -> bool)
    ensures var r := Verify(token, validSig);
            && (r == Err(TokenTooShort) <==> |token| < 69)
            && (r == Err(TokenTooLarge) <==> |token| > 4096)
            && (69 <= |token| <= 4096 ==>
                  var n := ((token[1] as int * 256 + token[2] as int) * 256 + token[3] as int) * 256 + token[4] as int;
                  var message, signature := token[..|token| - 64], token[|token| - 64..];
                  && (r == Err(UnsupportedVersion) <==> token[0] != 1)
                  && (r == Err(BadLength) <==> token[0] == 1 && n != |token| - 69)
                  && (r == Err(InvalidSignature) <==> token[0] == 1 && n == |token| - 69 && !validSig(message, signature))
                  && (r.Ok? ==> r.value == Envelope(token[5..|token| - 64], signature, message)))
  {
    if 69 <= |token| <= 4096 {
      LengthIsExact(token);
      Uint32Means(token[1], token[2], token[3], token[4]);
      assert token[1..5] == [token[1], token[2], token[3], token[4]];
    }
  }
}
