/**
  Content checks of `validateAndSaveImage`: which image format a buffer is,
  told by its leading bytes, and the order in which a buffer is refused.
*/
module ImageFormat {
  import opened Wrappers
  import opened FileTree

  datatype Format = Png | Jpg | Gif | Webp

  /** The extension a saved file of this format gets, dot included. */
  function Ext(f: Format): (r: string)
    ensures |r| >= 4 && r[0] == '.'
    ensures forall i :: 1 <= i < |r| ==> 'a' <= r[i] <= 'z'
  {
    match f
    case Png => ".png"
    case Jpg => ".jpg"
    case Gif => ".gif"
    case Webp => ".webp"
  }

  const Riff: seq<byte> := [0x52, 0x49, 0x46, 0x46]
  const WebpTag: seq<byte> := [0x57, 0x45, 0x42, 0x50]

  /** `buffer[i] === v`; reading past the end yields `undefined`, which is
      no byte. */
  predicate ByteIs(b: seq<byte>, i: nat, v: byte) {
    i < |b| && b[i] == v
  }

  /** `buffer.slice(from, from + |tag|).toString() === tag` for an ASCII tag:
      the slice decodes to the tag exactly when it holds the tag's bytes. */
  predicate SliceIs(b: seq<byte>, from: nat, tag: seq<byte>) {
    from + |tag| <= |b| && b[from..from + |tag|] == tag
  }

  /** The format test as written: the first matching signature wins. */
  function Sniff(b: seq<byte>): Option<Format> {
    if ByteIs(b, 0, 0x89) && ByteIs(b, 1, 0x50) && ByteIs(b, 2, 0x4E) && ByteIs(b, 3, 0x47) then Some(Png)
    else if ByteIs(b, 0, 0xFF) && ByteIs(b, 1, 0xD8) && ByteIs(b, 2, 0xFF) then Some(Jpg)
    else if ByteIs(b, 0, 0x47) && ByteIs(b, 1, 0x49) && ByteIs(b, 2, 0x46) then Some(Gif)
    else if SliceIs(b, 0, Riff) && SliceIs(b, 8, WebpTag) then Some(Webp)
    else None
  }

  /** The leading bytes that announce each format. */
  function Magic(f: Format): (r: seq<byte>)
    ensures |r| > 0
  {
    match f
    case Png => [0x89, 0x50, 0x4E, 0x47]
    case Jpg => [0xFF, 0xD8, 0xFF]
    case Gif => [0x47, 0x49, 0x46]
    case Webp => Riff
  }

  /** Reference definition: `b` starts with the magic of `f` (and, for WebP,
      carries the `WEBP` tag at offset 8). */
  predicate HasSignature(b: seq<byte>, f: Format) {
    SliceIs(b, 0, Magic(f)) && (f == Webp ==> SliceIs(b, 8, WebpTag))
  }

  /** The byte-by-byte test agrees with the signatures, in both directions. */
  lemma SniffIsSignature(b: seq<byte>, f: Format)
    ensures Sniff(b) == Some(f) <==> HasSignature(b, f)
  {
    if HasSignature(b, f) {
      assert b[..|Magic(f)|] == Magic(f);
      assert b[0] == Magic(f)[0];
      match f
      case Png => assert b[1] == 0x50 && b[2] == 0x4E && b[3] == 0x47;
      case Jpg => assert b[1] == 0xD8 && b[2] == 0xFF;
      case Gif => assert b[1] == 0x49 && b[2] == 0x46;
      case Webp =>
    }
    if Sniff(b) == Some(f) {
      match f
      case Png => assert b[..4] == [0x89, 0x50, 0x4E, 0x47];
      case Jpg => assert b[..3] == [0xFF, 0xD8, 0xFF];
      case Gif => assert b[..3] == [0x47, 0x49, 0x46];
      case Webp =>
    }
  }

  /** No buffer carries two signatures: they differ in their first byte, so
      the priority order of the test never matters. */
  lemma SignaturesDisjoint(b: seq<byte>, f: Format, g: Format)
    requires HasSignature(b, f) && HasSignature(b, g)
    ensures f == g
  {
    assert b[..|Magic(f)|] == Magic(f) && b[..|Magic(g)|] == Magic(g);
    assert Magic(f)[0] == b[0] == Magic(g)[0];
  }

  /** A buffer of fewer than three bytes is never recognised; neither is a
      RIFF buffer shorter than twelve bytes. */
  lemma ShortBuffersUnrecognised(b: seq<byte>)
    ensures |b| < 3 ==> Sniff(b) == None
    ensures |b| < 12 && SliceIs(b, 0, Riff) ==> Sniff(b) == None
  {
  }

  /** Why a buffer is refused before anything touches the disk. */
  datatype Refusal = EmptyData | TooLarge | Unsupported

  /** The checks of `validateAndSaveImage` before the directory is made:
      empty, then larger than the limit, then of unknown format. */
  function CheckBuffer(b: seq<byte>, limit: nat): Result<Format, Refusal> {
    if |b| == 0 then Err(EmptyData)
    else if |b| > limit then Err(TooLarge)
    else match Sniff(b)
      case None => Err(Unsupported)
      case Some(f) => Ok(f)
  }

  /** Each refusal happens exactly under its condition, in order, and an
      accepted buffer carries the signature of the format it is saved as.
      A buffer exactly at the limit is accepted. */
  lemma CheckBufferCases(b: seq<byte>, limit: nat)
    ensures CheckBuffer(b, limit) == Err(EmptyData) <==> |b| == 0
    ensures CheckBuffer(b, limit) == Err(TooLarge) <==> 0 < |b| && limit < |b|
    ensures CheckBuffer(b, limit) == Err(Unsupported) <==> 0 < |b| <= limit && Sniff(b).None?
    ensures CheckBuffer(b, limit).Ok? ==> 0 < |b| <= limit && HasSignature(b, CheckBuffer(b, limit).value)
  {
    if CheckBuffer(b, limit).Ok? {
      SniffIsSignature(b, CheckBuffer(b, limit).value);
    }
  }

  /** A buffer holding `n` bytes of which the first are the signature of `f`. */
  function Sample(f: Format, n: nat): (r: seq<byte>)
    requires n >= 12
    ensures |r| == n
  {
    seq(n, i requires 0 <= i < n =>
      if i < |Magic(f)| then Magic(f)[i]
      else if f == Webp && 8 <= i < 12 then WebpTag[i - 8]
      else 0)
  }

  lemma SampleHasSignature(f: Format, n: nat)
    requires n >= 12
    ensures Sniff(Sample(f, n)) == Some(f)
  {
    var b := Sample(f, n);
    assert b[..|Magic(f)|] == Magic(f);
    if f == Webp {
      assert b[8..12] == WebpTag;
    }
    SniffIsSignature(b, f);
  }
}
