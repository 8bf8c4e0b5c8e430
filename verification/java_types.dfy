/** The Java platform values the encoder handles, reduced to what the encoder
    observes of them: a charset's identity, a MIME type's charset parameter,
    a class's place in the type hierarchy. */
module JavaTypes {
  import opened Wrappers

  /** The bytes of a `ByteBuffer`, as unsigned octets. */
  newtype uint8 = x: int | 0 <= x < 256

  /** A Java `char`: one UTF-16 code unit. A `CharSequence` is a sequence of
      them, so an unpaired surrogate is representable and a supplementary
      character counts as two. */
  newtype char16 = x: int | 0 <= x < 0x1_0000

  type CharSequence = seq<char16>

  /** `java.nio.charset.Charset`, identified by its canonical name. */
  datatype Charset = Charset(name: string)

  const UTF_8: Charset := Charset("UTF-8")

  /** `org.springframework.util.MimeType`: the primary type (`getType()`), the
      subtype and the optional `charset` parameter that `getCharset()` returns
      (null when absent). */
  datatype MimeType = MimeType(primaryType: string, subtype: string, charset: Option<Charset>)

  /** `java.lang.Class`: its name and the names of every class and interface it
      extends or implements, directly or indirectly. */
  datatype JavaClass = JavaClass(name: string, supertypes: set<string>)

  /** `org.springframework.core.ResolvableType`: `getRawClass()` is null when
      the type cannot be resolved. */
  datatype ResolvableType = ResolvableType(rawClass: Option<JavaClass>)

  /** The read-only character view `java.nio.CharBuffer.wrap(cs)` returns:
      `CharBuffer(cs)`, holding the sequence's own characters. */
  datatype CharBuffer = CharBuffer(chars: CharSequence)

  /** The bytes `Charset.encode` produces. */
  datatype ByteBuffer = ByteBuffer(bytes: seq<uint8>)

  /** Exceptions the modelled code and its collaborators can raise and that
      end a stream with `onError`: `UnsupportedOperationException` is what
      `Charset.encode` throws for a charset that can only decode; any other
      non-fatal throwable is named by class, and `className` never names
      `java.lang.NullPointerException` or `java.lang.UnsupportedOperationException`,
      which have their own constructors. JVM-fatal errors are not among them. */
  datatype JavaException =
    | NullPointerException
    | UnsupportedOperationException
    | OtherException(className: string)

  const CHAR_SEQUENCE_NAME: string := "java.lang.CharSequence"

  const CHAR_SEQUENCE: JavaClass := JavaClass(CHAR_SEQUENCE_NAME, {"java.lang.Object"})

  const STRING: JavaClass :=
    JavaClass("java.lang.String",
              {"java.lang.Object", "java.io.Serializable", "java.lang.Comparable", CHAR_SEQUENCE_NAME})

  /** `target.isAssignableFrom(c)` for a non-null `c`: `c` is `target` itself
      or one of its subtypes. */
  predicate IsAssignableFrom(target: JavaClass, c: JavaClass) {
    c.name == target.name || target.name in c.supertypes
  }
}
