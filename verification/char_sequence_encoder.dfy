/** `CharSequenceEncoder`: turns a stream of character sequences into a stream
    of data buffers, one buffer per element, every element encoded with the
    one charset resolved at the start of the call.

    The library calls the encoder makes are parameters, left uninterpreted:
    - `codec(charset, chars)` is `charset.encode(chars)` from `java.nio`; it
      fails with `UnsupportedOperationException` for a charset that can only decode;
    - `bufferFactory(bytes)` is `DataBufferFactory.wrap`, returning a buffer of
      type `B` or failing with whatever the factory throws;
    - `baseCanEncode(supported, elementType, mimeType, hints)` is the inherited
      `AbstractEncoder.canEncode`, given the encoder's supported MIME types. */
module CharSequenceEncoding {
  import opened Wrappers
  import opened JavaTypes
  import opened Reactive

  const DEFAULT_CHARSET: Charset := UTF_8

  /** The MIME type the no-argument constructor passes to its base class. */
  const TEXT_PLAIN_UTF_8: MimeType := MimeType("text", "plain", Some(DEFAULT_CHARSET))

  datatype CharSequenceEncoder = CharSequenceEncoder(encodableMimeTypes: seq<MimeType>)

  /** The no-argument constructor. */
  function NewEncoder(): (e: CharSequenceEncoder)
    ensures |e.encodableMimeTypes| == 1
    ensures e.encodableMimeTypes[0].primaryType == "text"
    ensures e.encodableMimeTypes[0].subtype == "plain"
    ensures e.encodableMimeTypes[0].charset == Some(UTF_8)
  {
    CharSequenceEncoder([TEXT_PLAIN_UTF_8])
  }

  /** `canEncode(elementType, mimeType, hints)`. The raw class is read first;
      the base check runs next and, by `&&`, decides alone when it fails; only
      when it passes is `CharSequence.class.isAssignableFrom(clazz)` called,
      which throws on a null (unresolvable) raw class. */
  function CanEncode<H>(
    encoder: CharSequenceEncoder,
    baseCanEncode: (seq<MimeType>, ResolvableType, Option<MimeType>, seq<H>) -> bool,
    elementType: ResolvableType, mimeType: Option<MimeType>, hints: seq<H>
  ): (r: Result<bool, JavaException>)
    ensures r == Success(true) <==>
              && baseCanEncode(encoder.encodableMimeTypes, elementType, mimeType, hints)
              && elementType.rawClass.Some?
              && IsAssignableFrom(CHAR_SEQUENCE, elementType.rawClass.value)
    ensures r.Failure? <==>
              baseCanEncode(encoder.encodableMimeTypes, elementType, mimeType, hints) && elementType.rawClass.None?
    ensures r.Failure? ==> r.error == NullPointerException
  {
    var clazz := elementType.rawClass;
    if !baseCanEncode(encoder.encodableMimeTypes, elementType, mimeType, hints) then
      Success(false)
    else
      match clazz
      case None => Failure(NullPointerException)
      case Some(c) => Success(IsAssignableFrom(CHAR_SEQUENCE, c))
  }

  /** An element type whose raw class is not a `CharSequence` is never
      accepted, and is rejected without an exception. */
  lemma CanEncodeRejectsNonCharSequence<H>(
    encoder: CharSequenceEncoder,
    baseCanEncode: (seq<MimeType>, ResolvableType, Option<MimeType>, seq<H>) -> bool,
    c: JavaClass, mimeType: Option<MimeType>, hints: seq<H>
  )
    requires !IsAssignableFrom(CHAR_SEQUENCE, c)
    ensures CanEncode(encoder, baseCanEncode, ResolvableType(Some(c)), mimeType, hints) == Success(false)
  {
  }

  /** `String` is a `CharSequence`: whatever the base check says is the answer. */
  lemma CanEncodeString<H>(
    encoder: CharSequenceEncoder,
    baseCanEncode: (seq<MimeType>, ResolvableType, Option<MimeType>, seq<H>) -> bool,
    mimeType: Option<MimeType>, hints: seq<H>
  )
    ensures CanEncode(encoder, baseCanEncode, ResolvableType(Some(STRING)), mimeType, hints)
            == Success(baseCanEncode(encoder.encodableMimeTypes, ResolvableType(Some(STRING)), mimeType, hints))
  {
  }

  /** The charset `encode` uses: the MIME type's own charset when the MIME type
      is present and carries one, otherwise `DEFAULT_CHARSET`. */
  function EffectiveCharset(mimeType: Option<MimeType>): (charset: Charset)
    ensures mimeType.Some? && mimeType.value.charset.Some? ==> charset == mimeType.value.charset.value
    ensures mimeType.None? || mimeType.value.charset.None? ==> charset == UTF_8
  {
    if mimeType.Some? && mimeType.value.charset.Some? then
      mimeType.value.charset.value
    else
      DEFAULT_CHARSET
  }

  /** The per-element transform: wrap the characters, encode them with
      `charset`, wrap the bytes into a buffer. An exception from either call
      is the element's result. */
  function EncodeElement<B>(
    codec: (Charset, CharBuffer) -> Result<ByteBuffer, JavaException>,
    bufferFactory: ByteBuffer -> Result<B, JavaException>,
    charset: Charset, cs: CharSequence
  ): (r: Result<B, JavaException>)
    ensures r.Success? <==>
              codec(charset, CharBuffer(cs)).Success? && bufferFactory(codec(charset, CharBuffer(cs)).value).Success?
    ensures codec(charset, CharBuffer(cs)).Failure? ==> r == Failure(codec(charset, CharBuffer(cs)).error)
    ensures codec(charset, CharBuffer(cs)).Success? ==> r == bufferFactory(codec(charset, CharBuffer(cs)).value)
  {
    match codec(charset, CharBuffer(cs))
    case Failure(e) => Failure(e)
    case Success(bytes) => bufferFactory(bytes)
  }

  /** `encode(inputStream, bufferFactory, elementType, mimeType, hints)`. The
      charset is resolved once; the stream is then mapped element by element.
      The outputs are the buffers of the longest prefix of elements that encode
      and wrap without an exception; if that prefix is the whole input the upstream
      terminal signal follows, otherwise the first exception does. */
  function Encode<B, H>(
    input: Flux<CharSequence>,
    codec: (Charset, CharBuffer) -> Result<ByteBuffer, JavaException>,
    bufferFactory: ByteBuffer -> Result<B, JavaException>,
    elementType: ResolvableType, mimeType: Option<MimeType>, hints: seq<H>
  ): (r: Flux<B>)
    ensures |r.elements| <= |input.elements|
    ensures forall i :: 0 <= i < |r.elements| ==>
              && codec(EffectiveCharset(mimeType), CharBuffer(input.elements[i])).Success?
              && bufferFactory(codec(EffectiveCharset(mimeType), CharBuffer(input.elements[i])).value)
                 == Success(r.elements[i])
    ensures |r.elements| == |input.elements| ==> r.termination == input.termination
    ensures |r.elements| < |input.elements| ==>
              var encoded := codec(EffectiveCharset(mimeType), CharBuffer(input.elements[|r.elements|]));
              || (encoded.Failure? && r.termination == Failed(encoded.error))
              || (&& encoded.Success?
                  && bufferFactory(encoded.value).Failure?
                  && r.termination == Failed(bufferFactory(encoded.value).error))
  {
    var charset := EffectiveCharset(mimeType);
    Map(input, (cs: CharSequence) => EncodeElement(codec, bufferFactory, charset, cs))
  }

  /** When every element encodes and wraps without an exception there is
      exactly one buffer per element, an empty sequence included, and the
      upstream terminal signal is kept. */
  lemma EncodeOneBufferPerElement<B, H>(
    input: Flux<CharSequence>,
    codec: (Charset, CharBuffer) -> Result<ByteBuffer, JavaException>,
    bufferFactory: ByteBuffer -> Result<B, JavaException>,
    elementType: ResolvableType, mimeType: Option<MimeType>, hints: seq<H>
  )
    requires forall i :: 0 <= i < |input.elements| ==>
               EncodeElement(codec, bufferFactory, EffectiveCharset(mimeType), input.elements[i]).Success?
    ensures |Encode(input, codec, bufferFactory, elementType, mimeType, hints).elements| == |input.elements|
    ensures Encode(input, codec, bufferFactory, elementType, mimeType, hints).termination == input.termination
  {
  }

  /** Any MIME type naming a charset that can only decode: a non-empty stream
      emits no buffer and ends with `UnsupportedOperationException`. */
  lemma EncodeWithDecodeOnlyCharset<B, H>(
    input: Flux<CharSequence>,
    codec: (Charset, CharBuffer) -> Result<ByteBuffer, JavaException>,
    bufferFactory: ByteBuffer -> Result<B, JavaException>,
    elementType: ResolvableType, m: MimeType, charset: Charset, hints: seq<H>
  )
    requires m.charset == Some(charset)
    requires forall cb :: codec(charset, cb) == Failure(UnsupportedOperationException)
    requires |input.elements| > 0
    ensures Encode(input, codec, bufferFactory, elementType, Some(m), hints)
            == Flux([], Failed(UnsupportedOperationException))
  {
  }

  /** The result depends on the MIME type only through its resolved charset:
      two calls that resolve the same charset produce the same stream. */
  lemma EncodeDependsOnlyOnCharset<B, H>(
    input: Flux<CharSequence>,
    codec: (Charset, CharBuffer) -> Result<ByteBuffer, JavaException>,
    bufferFactory: ByteBuffer -> Result<B, JavaException>,
    elementType: ResolvableType, m1: Option<MimeType>, m2: Option<MimeType>, hints: seq<H>
  )
    requires EffectiveCharset(m1) == EffectiveCharset(m2)
    ensures Encode(input, codec, bufferFactory, elementType, m1, hints)
            == Encode(input, codec, bufferFactory, elementType, m2, hints)
  {
  }

  /** Neither the element type nor the hints influence the output. */
  lemma EncodeIgnoresElementTypeAndHints<B, H>(
    input: Flux<CharSequence>,
    codec: (Charset, CharBuffer) -> Result<ByteBuffer, JavaException>,
    bufferFactory: ByteBuffer -> Result<B, JavaException>,
    t1: ResolvableType, t2: ResolvableType, mimeType: Option<MimeType>, h1: seq<H>, h2: seq<H>
  )
    ensures Encode(input, codec, bufferFactory, t1, mimeType, h1)
            == Encode(input, codec, bufferFactory, t2, mimeType, h2)
  {
  }

  /** No state crosses elements: encoding `a` then `b` in one stream gives the
      stream of encoding `a`, followed, when that completes, by the stream of
      encoding `b`. */
  lemma EncodeAppend<B, H>(
    a: seq<CharSequence>, b: seq<CharSequence>, termination: Termination,
    codec: (Charset, CharBuffer) -> Result<ByteBuffer, JavaException>,
    bufferFactory: ByteBuffer -> Result<B, JavaException>,
    elementType: ResolvableType, mimeType: Option<MimeType>, hints: seq<H>
  )
    ensures var ra := Encode(Flux(a, Completed), codec, bufferFactory, elementType, mimeType, hints);
            var rb := Encode(Flux(b, termination), codec, bufferFactory, elementType, mimeType, hints);
            Encode(Flux(a + b, termination), codec, bufferFactory, elementType, mimeType, hints)
            == if ra.termination.Completed? then Flux(ra.elements + rb.elements, rb.termination) else ra
  {
    var charset := EffectiveCharset(mimeType);
    MapAppend(a, b, termination, (cs: CharSequence) => EncodeElement(codec, bufferFactory, charset, cs));
  }

  /** Every output is what encoding its element alone would give under the same
      MIME type, and the exception that ends a stream early is the one that
      element alone raises: one charset serves the whole call and no element
      sees another. */
  lemma EncodeIsElementwise<B, H>(
    input: Flux<CharSequence>,
    codec: (Charset, CharBuffer) -> Result<ByteBuffer, JavaException>,
    bufferFactory: ByteBuffer -> Result<B, JavaException>,
    elementType: ResolvableType, mimeType: Option<MimeType>, hints: seq<H>, i: nat
  )
    requires i < |input.elements|
    ensures var r := Encode(input, codec, bufferFactory, elementType, mimeType, hints);
            var single := Encode(Flux([input.elements[i]], Completed), codec, bufferFactory, elementType, mimeType, hints);
            && (i < |r.elements| ==> single == Flux([r.elements[i]], Completed))
            && (i == |r.elements| ==> single == Flux([], r.termination))
  {
  }

  /** The first `n` inputs yield the first outputs of the whole stream: what is
      emitted before a later element arrives is final. */
  lemma EncodePrefix<B, H>(
    input: Flux<CharSequence>, n: nat,
    codec: (Charset, CharBuffer) -> Result<ByteBuffer, JavaException>,
    bufferFactory: ByteBuffer -> Result<B, JavaException>,
    elementType: ResolvableType, mimeType: Option<MimeType>, hints: seq<H>
  )
    requires n <= |input.elements|
    ensures var r := Encode(input, codec, bufferFactory, elementType, mimeType, hints);
            var p := Encode(Flux(input.elements[..n], Completed), codec, bufferFactory, elementType, mimeType, hints);
            p.elements == r.elements[..if n <= |r.elements| then n else |r.elements|]
  {
    assert input.elements == input.elements[..n] + input.elements[n..];
    EncodeAppend(input.elements[..n], input.elements[n..], input.termination,
                 codec, bufferFactory, elementType, mimeType, hints);
  }

  /** A subscriber's view of `encode`: the charset is fixed before the first
      element, then each `onNext` encodes one element and emits one buffer,
      until an exception ends the stream or the upstream terminal signal arrives. */
  method EncodeBySubscription<B, H>(
    input: Flux<CharSequence>,
    codec: (Charset, CharBuffer) -> Result<ByteBuffer, JavaException>,
    bufferFactory: ByteBuffer -> Result<B, JavaException>,
    elementType: ResolvableType, mimeType: Option<MimeType>, hints: seq<H>
  ) returns (emitted: seq<B>, termination: Termination)
    ensures Flux(emitted, termination) == Encode(input, codec, bufferFactory, elementType, mimeType, hints)
  {
    var charset := EffectiveCharset(mimeType);
    emitted := [];
    var k := 0;
    while k < |input.elements|
      invariant k <= |input.elements|
      invariant |emitted| == k
      invariant forall i :: 0 <= i < k ==>
                  EncodeElement(codec, bufferFactory, charset, input.elements[i]) == Success(emitted[i])
    {
      var out := EncodeElement(codec, bufferFactory, charset, input.elements[k]);
      if out.Failure? {
        termination := Failed(out.error);
        return;
      }
      emitted := emitted + [out.value];
      k := k + 1;
    }
    termination := input.termination;
  }

  /** The encoder's own supported MIME type resolves to the default charset. */
  lemma SupportedMimeTypeUsesDefaultCharset()
    ensures forall m :: m in NewEncoder().encodableMimeTypes ==> EffectiveCharset(Some(m)) == DEFAULT_CHARSET
  {
  }

  /** `["ab", "", "cd"]` with no MIME type, where UTF-8 encoding and the buffer
      factory do not throw: three buffers in input order, each the UTF-8
      encoding of its element; the empty sequence is not skipped. */
  lemma ThreeChunksWithDefaultCharset<B, H>(
    codec: (Charset, CharBuffer) -> Result<ByteBuffer, JavaException>,
    bufferFactory: ByteBuffer -> Result<B, JavaException>,
    elementType: ResolvableType, hints: seq<H>
  )
    requires forall cb :: codec(UTF_8, cb).Success?
    requires forall bb :: bufferFactory(bb).Success?
    ensures Encode(Flux([[0x61, 0x62], [], [0x63, 0x64]], Completed), codec, bufferFactory, elementType, None, hints)
            == Flux([bufferFactory(codec(UTF_8, CharBuffer([0x61, 0x62])).value).value,
                     bufferFactory(codec(UTF_8, CharBuffer([])).value).value,
                     bufferFactory(codec(UTF_8, CharBuffer([0x63, 0x64])).value).value],
                    Completed)
  {
  }
}
