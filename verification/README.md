# CharSequenceEncoder, modelled in Dafny

Spring's `CharSequenceEncoder` turns a stream of `CharSequence` values into a
stream of `DataBuffer`s. It resolves one charset per `encode` call: the MIME
type's charset when there is one, otherwise `DEFAULT_CHARSET` (UTF-8). It then
maps every element, in order, to `bufferFactory.wrap(charset.encode(CharBuffer.wrap(element)))`.
Its `canEncode` combines the inherited check with "the raw element class is a
`CharSequence`".

Files:

- `wrappers.dfy` (`Wrappers`): `Option` stands for a nullable reference and `Result` for a call that may throw.
- `java_types.dfy` (`JavaTypes`): UTF-16 code units and `CharSequence`, charsets, MIME types,
  classes and their supertypes, `ResolvableType`, `CharBuffer`/`ByteBuffer`, the
  exceptions in play, and `isAssignableFrom`.
- `reactive.dfy` (`Reactive`): a finite `Flux`, meaning the elements delivered
  through `onNext` followed by the terminal signal, and `Flux.map` with a mapper that may throw.
- `char_sequence_encoder.dfy` (`CharSequenceEncoding`): the encoder itself.

A `CharSequence` is a sequence of 16-bit code units, as in Java. An unpaired
surrogate is therefore a legal element, and a supplementary character counts as two units.

The library calls are parameters of the model and stay uninterpreted:

- `codec` is `Charset.encode`. It returns the encoded bytes or an exception. For
  a charset that can only decode, `Charset.encode` throws `UnsupportedOperationException`.
- `bufferFactory` is `DataBufferFactory.wrap`, with the buffer type left generic.
  It returns a buffer or an exception. A `null` result, which `map` turns into a
  `NullPointerException`, counts as that exception.
- `baseCanEncode` is the inherited `AbstractEncoder.canEncode`. It receives the encoder's supported MIME types.

All proofs are about the encoder's own logic. They assume only that each call's result depends on its arguments alone.

Two behaviours of the code worth stating explicitly:

- An unresolvable element type (null raw class) does not make `canEncode` return false.
  When the inherited check passes, `CharSequence.class.isAssignableFrom(null)` throws
  `NullPointerException`, and `CanEncode` returns `Failure(NullPointerException)`.
  When the inherited check fails, `&&` short-circuits and the answer is `false`.
- An exception thrown while encoding or wrapping an element ends the output
  stream. `map` emits the buffers of the elements before it, then `onError`
  with that exception. Nothing after that element is encoded. When no element
  throws, there is exactly one buffer per element, followed by the upstream terminal signal.

## Model

| member | source | states |
|---|---|---|
| CharSequenceEncoding.NewEncoder | spring-core/src/main/java/org/springframework/core/codec/CharSequenceEncoder.java:45-47 | the encoder supports exactly one MIME type: text/plain with charset UTF-8 |
| CharSequenceEncoding.SupportedMimeTypeUsesDefaultCharset | spring-core/src/main/java/org/springframework/core/codec/CharSequenceEncoder.java:42-47 | every MIME type the encoder supports resolves to DEFAULT_CHARSET |
| CharSequenceEncoding.CanEncode | spring-core/src/main/java/org/springframework/core/codec/CharSequenceEncoder.java:51-53 | true exactly when the inherited check passes and the raw class is assignable to CharSequence; throws NullPointerException exactly when the inherited check passes and the raw class is null; otherwise false |
| CharSequenceEncoding.CanEncodeRejectsNonCharSequence | spring-core/src/main/java/org/springframework/core/codec/CharSequenceEncoder.java:52-53 | a resolved element type that is not a CharSequence is rejected with false and no exception, whatever the MIME type and hints |
| CharSequenceEncoding.CanEncodeString | spring-core/src/main/java/org/springframework/core/codec/CharSequenceEncoder.java:52-53 | for String the answer is exactly the inherited check's answer |
| CharSequenceEncoding.EffectiveCharset | spring-core/src/main/java/org/springframework/core/codec/CharSequenceEncoder.java:61-67 | an explicit charset on a present MIME type is used as is; a null MIME type or one without charset gives UTF-8 |
| CharSequenceEncoding.EncodeElement | spring-core/src/main/java/org/springframework/core/codec/CharSequenceEncoder.java:69-71 | an element yields a buffer exactly when encoding its characters with the charset and wrapping the bytes both succeed; otherwise its exception is the encoder's when encoding fails, and the factory's when wrapping fails |
| CharSequenceEncoding.Encode | spring-core/src/main/java/org/springframework/core/codec/CharSequenceEncoder.java:57-72 | the outputs are, in order, the buffers wrap(encode(resolved charset, input i)) of the longest prefix of elements that do not throw, all under one charset; then the upstream terminal signal if that prefix is the whole input, otherwise onError with the first element's exception |
| CharSequenceEncoding.EncodeOneBufferPerElement | spring-core/src/main/java/org/springframework/core/codec/CharSequenceEncoder.java:68-72 | when no element throws, there are exactly as many buffers as elements (zero for empty input, one for an empty sequence) and the upstream terminal signal is kept |
| CharSequenceEncoding.EncodeWithDecodeOnlyCharset | spring-core/src/main/java/org/springframework/core/codec/CharSequenceEncoder.java:62-63 | any MIME type naming a charset that cannot encode makes any non-empty stream emit no buffer and end with UnsupportedOperationException |
| CharSequenceEncoding.EncodeBySubscription | spring-core/src/main/java/org/springframework/core/codec/CharSequenceEncoder.java:61-72 | resolving the charset once and then handling one element per onNext, stopping at the first exception, yields exactly the elements and terminal signal of Encode |
| CharSequenceEncoding.EncodeDependsOnlyOnCharset | spring-core/src/main/java/org/springframework/core/codec/CharSequenceEncoder.java:61-72 | two MIME types that resolve to the same charset give the same output stream |
| CharSequenceEncoding.EncodeIgnoresElementTypeAndHints | spring-core/src/main/java/org/springframework/core/codec/CharSequenceEncoder.java:57-72 | the output does not depend on elementType or hints |
| CharSequenceEncoding.EncodeAppend | spring-core/src/main/java/org/springframework/core/codec/CharSequenceEncoder.java:68-72 | encoding a ++ b gives the stream for a, followed by the stream for b exactly when the stream for a completes, because no state crosses elements |
| CharSequenceEncoding.EncodeIsElementwise | spring-core/src/main/java/org/springframework/core/codec/CharSequenceEncoder.java:68-72 | each output equals the single output of encoding its element alone under the same MIME type, and the element where the stream stops raises the same exception alone |
| CharSequenceEncoding.EncodePrefix | spring-core/src/main/java/org/springframework/core/codec/CharSequenceEncoder.java:68-72 | the outputs for the first n inputs are the first outputs of the whole stream, never more than it emits |
| CharSequenceEncoding.ThreeChunksWithDefaultCharset | spring-core/src/main/java/org/springframework/core/codec/CharSequenceEncoder.java:61-72 | with UTF-8 encoding and the factory not throwing, ["ab", "", "cd"] without MIME type gives three UTF-8 buffers in order, including one for the empty sequence, and completes |
| Reactive.Map | spring-core/src/main/java/org/springframework/core/codec/CharSequenceEncoder.java:68 | Flux.map emits f(x) for the longest prefix on which f does not throw, in order; then the upstream terminal signal, or onError with the first exception |
| Reactive.MapTotal | spring-core/src/main/java/org/springframework/core/codec/CharSequenceEncoder.java:68 | a mapper that never throws keeps the element count and the terminal signal |
| Reactive.MapAppend | spring-core/src/main/java/org/springframework/core/codec/CharSequenceEncoder.java:68 | mapping distributes over concatenation, and the second part is mapped exactly when the first completes |

## Left out

- Reactive.Map: JVM-fatal errors from the mapper are not modelled. Reactor rethrows a `VirtualMachineError` (such as `OutOfMemoryError`), a `LinkageError` or a `ThreadDeath` out of `onNext` instead of signalling `onError`, and the model has no such outcome. Error replacement by Reactor's operator-error hooks is not modelled either. Every mapper failure the model represents is a non-fatal exception that ends the stream with `onError`.
- CharSequenceEncoding.Encode: the same gap holds for it, because it is built on `Reactive.Map`. A JVM-fatal error thrown by `Charset.encode` or `DataBufferFactory.wrap` escapes instead of becoming the terminal signal, and is not represented.
- Reactor `Flux`/`Publisher` semantics are not modelled: asynchrony, demand and backpressure, cancellation and infinite streams. A stream is the finite sequence of elements it delivers plus its terminal signal. The prefix property (`EncodePrefix`) is the finite part of what cancellation after n elements observes.
- The byte encoding done by `Charset.encode` is an uninterpreted parameter. This includes UTF-8 details, the replacement of unmappable characters and unpaired surrogates, and which charsets can encode at all. No decode/encode round trip is stated, because the decoder is a different component.
- `DataBufferFactory.wrap` and buffer ownership or release are not modelled. The factory is an uninterpreted parameter.
- `DataBufferFactory.wrap` is modelled as stateless and deterministic: equal bytes give the same buffer or the same exception. A factory whose result or failure depends on earlier calls, such as a pool that fails on its n-th allocation, is not represented. Every statement about `Encode` relies on this.
- `AbstractEncoder.canEncode` and the MIME-type compatibility rules are an uninterpreted predicate over the supported MIME types, the element type, the MIME type and the hints.
- `MimeType.getCharset()` parsing of the `charset` parameter (including its errors for unknown charset names) is not modelled. A MIME type carries an already resolved optional charset.
- A null `elementType` argument is not modelled. `ResolvableType` is always present, and only its raw class may be null.
- A null `inputStream` is not modelled. `Flux.from` would throw `NullPointerException` synchronously, before any stream exists; here the input is always a stream.
- The Java class hierarchy is given per class as the set of its supertype names. How the JVM computes that set is not modelled.
