/**
 * Embedding the release data in the installer binary and reading it back.
 *
 * The release data is appended to the binary as standard Base64 between a
 * begin and an end delimiter. Reading it back finds the first begin
 * delimiter, then the first end delimiter after it, and decodes what lies
 * between. The delimiter texts are parameters: the extraction is safe when
 * the begin delimiter cannot be found inside the binary (or straddling its
 * end) and the end delimiter starts with a byte that Base64 never writes.
 */
module Embed {
  import opened Wrappers
  import opened Strings
  import opened Base64

  /** `EmbedReleaseDataInBinary` on the contents of the two files. */
  function EmbedRelease(bin: seq<Byte>, release: seq<Byte>, begin: seq<Byte>, end: seq<Byte>): seq<Byte> {
    bin + begin + Encode(release) + end
  }

  /** `ExtractReleaseDataFromBinary` on the contents of the file: `None`
      when there is no complete, decodable release section. */
  function ExtractRelease(data: seq<Byte>, begin: seq<Byte>, end: seq<Byte>): Option<seq<Byte>> {
    match IndexOf(data, begin)
    case None => None
    case Some(i) =>
      var after := data[i + |begin|..];
      match IndexOf(after, end)
      case None => None
      case Some(j) => Decode(after[..j])
  }

  /** Delimiters that the extraction cannot confuse with the binary or with
      the encoded data. */
  ghost predicate SafeDelimiters(bin: seq<Byte>, begin: seq<Byte>, end: seq<Byte>) {
    && |begin| > 0
    && !Contains(bin + begin[..|begin| - 1], begin)
    && |end| > 0
    && !InAlphabet(end[0])
    && end[0] != Pad
  }

  /** The original binary is an unchanged prefix of the output, and the
      output is exactly as long as its four parts together. */
  lemma EmbedLayout(bin: seq<Byte>, release: seq<Byte>, begin: seq<Byte>, end: seq<Byte>)
    ensures var out := EmbedRelease(bin, release, begin, end);
      && |out| == |bin| + |begin| + 4 * ((|release| + 2) / 3) + |end|
      && out[..|bin|] == bin
      && out[|bin|..|bin| + |begin|] == begin
      && out[|out| - |end|..] == end
  {
    EncodeLength(release);
  }

  /** The first begin delimiter in the output is the one that was added. */
  lemma BeginFound(bin: seq<Byte>, begin: seq<Byte>, rest: seq<Byte>)
    requires |begin| > 0 && !Contains(bin + begin[..|begin| - 1], begin)
    ensures IndexOf(bin + begin + rest, begin) == Some(|bin|)
  {
    var out := bin + begin + rest;
    var n := |begin|;
    var head := bin + begin[..n - 1];
    assert begin == begin[..n - 1] + begin[n - 1..];
    assert out == head + (begin[n - 1..] + rest);
    assert out[..|head|] == head;
    assert out[|bin|..|bin| + n] == begin;
    forall j: nat | j < |bin| ensures !OccursAt(out, begin, j) {
      assert out[j..j + n] == out[..|head|][j..j + n];
      assert !OccursAt(head, begin, j);
    }
    FirstOccurrence(out, begin, |bin|);
  }

  /** The first end delimiter after the encoded data is the one that was
      added. */
  lemma EndFound(encoded: seq<Byte>, end: seq<Byte>)
    requires forall i :: 0 <= i < |encoded| ==> InAlphabet(encoded[i]) || encoded[i] == Pad
    requires |end| > 0 && !InAlphabet(end[0]) && end[0] != Pad
    ensures IndexOf(encoded + end, end) == Some(|encoded|)
  {
    var s := encoded + end;
    assert s[|encoded|..|encoded| + |end|] == end;
    forall j: nat | j < |encoded| ensures !OccursAt(s, end, j) {
      assert s[j] == encoded[j];
      assert j + |end| <= |s| ==> s[j..j + |end|][0] == s[j];
    }
    FirstOccurrence(s, end, |encoded|);
  }

  lemma EncodedBytes(release: seq<Byte>)
    ensures forall i :: 0 <= i < |Encode(release)| ==> InAlphabet(Encode(release)[i]) || Encode(release)[i] == Pad
  {
    EncodeAlphabet(release);
  }

  /** Reading back an embedded release gives the release. */
  lemma ExtractEmbed(bin: seq<Byte>, release: seq<Byte>, begin: seq<Byte>, end: seq<Byte>)
    requires SafeDelimiters(bin, begin, end)
    ensures ExtractRelease(EmbedRelease(bin, release, begin, end), begin, end) == Some(release)
  {
    var encoded := Encode(release);
    var out := EmbedRelease(bin, release, begin, end);
    assert out == bin + begin + (encoded + end);
    BeginFound(bin, begin, encoded + end);
    assert out[|bin| + |begin|..] == encoded + end;
    EncodedBytes(release);
    EndFound(encoded, end);
    assert (encoded + end)[..|encoded|] == encoded;
    ExtractBetween(out, begin, end, |bin|, |encoded|);
    DecodeEncode(release);
  }

  /** Once both delimiters are located, the extraction decodes what lies
      between them. */
  lemma ExtractBetween(data: seq<Byte>, begin: seq<Byte>, end: seq<Byte>, i: nat, j: nat)
    requires IndexOf(data, begin) == Some(i)
    requires IndexOf(data[i + |begin|..], end) == Some(j)
    ensures ExtractRelease(data, begin, end) == Decode(data[i + |begin|..][..j])
  {
  }
}
