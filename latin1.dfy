/**
 * The Latin-1 (ISO-8859-1) codec as main.py uses it:
 * `text.encode("latin-1", "replace").decode("latin-1")`.
 * Latin-1 maps the code points 0..255 to the byte of the same value; the
 * `replace` error handler writes one `?` for each code point it cannot encode.
 */
module Latin1 {

  newtype byte = x: int | 0 <= x < 256

  /** The byte the `replace` handler writes for an unencodable code point: `?`. */
  const Placeholder: byte := 0x3F

  predicate Encodable(c: char) {
    c as int < 256
  }

  function EncodeChar(c: char): byte {
    if Encodable(c) then c as int as byte else Placeholder
  }

  function DecodeByte(b: byte): char {
    b as int as char
  }

  /** `s.encode("latin-1", "replace")`: one byte per character. */
  function Encode(s: string): (b: seq<byte>)
    ensures |b| == |s|
    ensures forall k :: 0 <= k < |s| && Encodable(s[k]) ==> b[k] as int == s[k] as int
    ensures forall k :: 0 <= k < |s| && !Encodable(s[k]) ==> b[k] == Placeholder
  {
    seq(|s|, k requires 0 <= k < |s| => EncodeChar(s[k]))
  }

  /** `b.decode("latin-1")`: never fails, one character per byte. */
  function Decode(b: seq<byte>): (s: string)
    ensures |s| == |b|
    ensures forall k :: 0 <= k < |b| ==> s[k] as int == b[k] as int
  {
    seq(|b|, k requires 0 <= k < |b| => DecodeByte(b[k]))
  }

  /** Decoding after encoding gives the text back exactly when every character is encodable. */
  lemma DecodeEncode(s: string)
    ensures Decode(Encode(s)) == s <==> forall k :: 0 <= k < |s| ==> Encodable(s[k])
  {
    var t := Decode(Encode(s));
    if forall k :: 0 <= k < |s| ==> Encodable(s[k]) {
      forall k | 0 <= k < |s| ensures t[k] == s[k] {
        assert t[k] as int == s[k] as int;
      }
    } else {
      var k :| 0 <= k < |s| && !Encodable(s[k]);
      assert t[k] == '?';
    }
  }

  /** Encoding after decoding gives the bytes back. */
  lemma EncodeDecode(b: seq<byte>)
    ensures Encode(Decode(b)) == b
  {
    var t := Encode(Decode(b));
    forall k | 0 <= k < |b| ensures t[k] == b[k] {
      assert t[k] as int == b[k] as int;
    }
  }

  /** The character the round trip leaves in place of `c`. */
  function SafeChar(c: char): (r: char)
    ensures Encodable(r)
    ensures Encodable(c) ==> r == c
    ensures !Encodable(c) ==> r == '?'
  {
    if Encodable(c) then c else '?'
  }

  /**
   * `text.encode("latin-1", "replace").decode("latin-1")`: the same length,
   * every character now encodable, characters below 256 untouched, and each
   * other character turned into exactly one `?`.
   */
  function Replace(s: string): (r: string)
    ensures |r| == |s|
    ensures forall k :: 0 <= k < |r| ==> Encodable(r[k])
    ensures forall k :: 0 <= k < |s| ==> r[k] == SafeChar(s[k])
  {
    var r := Decode(Encode(s));
    assert forall k :: 0 <= k < |s| ==> r[k] as int == SafeChar(s[k]) as int;
    r
  }

  /** The round trip works character by character, so it distributes over concatenation. */
  lemma ReplaceConcat(a: string, b: string)
    ensures Replace(a + b) == Replace(a) + Replace(b)
  {
  }

  /** The round trip is idempotent: a second pass finds nothing to replace. */
  lemma ReplaceIdempotent(s: string)
    ensures Replace(Replace(s)) == Replace(s)
  {
  }
}
