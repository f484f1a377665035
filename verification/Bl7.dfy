/** Parsing, rebuilding and signature removal of Ruckus BL7 images. */
module Bl7 {
  import opened Wrappers
  import opened Bytes
  import opened InternetChecksum

  const HEADER_SIZE := 160
  const PAGE_SIZE := 0x1_0000
  const MAGIC: seq<byte> := [0x52, 0x43, 0x4B, 0x53]

  type Digest = d: seq<byte> | |d| == 16 witness seq(16, _ => 0)

  /** MD5 is left uninterpreted: any function from bytes to sixteen bytes. */
  type Md5 = seq<byte> -> Digest

  type Header = h: seq<byte> | |h| == HEADER_SIZE witness seq(HEADER_SIZE, _ => 0)

  datatype Bl7Image = Bl7Image(header: Header, kernel: seq<byte>, rootfs: seq<byte>, kernelPadding: seq<byte>)

  datatype Bl7Error =
    | NotBl7
    | HeaderLength
    | SignedImage
    | UnsignedImage
    | OutOfBounds
    | Md5Mismatch
    | ChecksumMismatch
    | FieldOverflow

  // ---------------------------------------------------------------- header fields

  function NextImage(h: Header): u32 { ReadBe32(h, 4) }
  function PayloadLength(h: Header): u32 { ReadBe32(h, 0x10) }
  function StoredDigest(h: Header): seq<byte> { h[0x18..0x28] }
  function StoredChecksum(h: Header): u16 { ReadBe16(h, 0x2A) }
  function ImageType(h: Header): u32 { ReadBe32(h, 0x84) }

  /** The checksum over the header with its own field zeroed. */
  function HeaderChecksum(h: Header): u16 {
    Complement(OnesValue(WordSum(Splice(h, 0x2A, [0, 0]))))
  }

  /** The header with its checksum field filled in. */
  function Seal(h: Header): Header {
    Splice(h, 0x2A, Be16(HeaderChecksum(h)))
  }

  function Rstrip(data: seq<byte>): (stripped: seq<byte>)
    ensures stripped <= data
    ensures stripped == [] || stripped[|stripped| - 1] != 0xFF
    ensures forall i :: |stripped| <= i < |data| ==> data[i] == 0xFF
  {
    if data == [] || data[|data| - 1] != 0xFF then data else Rstrip(data[..|data| - 1])
  }

  /** Stripping is the only way to split bytes into a part not ending in 0xFF and 0xFF padding. */
  lemma RstripUnique(kernel: seq<byte>, padding: seq<byte>)
    requires forall i :: 0 <= i < |padding| ==> padding[i] == 0xFF
    ensures Rstrip(kernel + padding) == Rstrip(kernel)
    decreases |padding|
  {
    if padding == [] {
      assert kernel + padding == kernel;
    } else {
      var all := kernel + padding;
      assert all[|all| - 1] == padding[|padding| - 1];
      assert all[..|all| - 1] == kernel + padding[..|padding| - 1];
      RstripUnique(kernel, padding[..|padding| - 1]);
    }
  }

  // ---------------------------------------------------------------- parsing

  function ParseSpec(md5: Md5, data: seq<byte>): Result<Bl7Image, Bl7Error> {
    if |data| < HEADER_SIZE || data[..4] != MAGIC then Failure(NotBl7)
    else
      var header: Header := data[..HEADER_SIZE];
      var next, end := NextImage(header), HEADER_SIZE + PayloadLength(header);
      if header[9] != HEADER_SIZE then Failure(HeaderLength)
      else if ImageType(header) != 0 then Failure(SignedImage)
      else if next < HEADER_SIZE || next > end || end > |data| then Failure(OutOfBounds)
      else
        var kernelPadded, rootfs := data[HEADER_SIZE..next], data[next..end];
        var kernel := Rstrip(kernelPadded);
        if md5(kernelPadded + rootfs) != StoredDigest(header) then Failure(Md5Mismatch)
        else if HeaderChecksum(header) != StoredChecksum(header) then Failure(ChecksumMismatch)
        else Success(Bl7Image(header, kernel, rootfs, kernelPadded[|kernel|..]))
  }

  method Parse(md5: Md5, data: seq<byte>) returns (r: Result<Bl7Image, Bl7Error>)
    ensures r == ParseSpec(md5, data)
  {
    if |data| < HEADER_SIZE || data[..4] != MAGIC {
      return Failure(NotBl7);
    }
    var header: Header := data[..HEADER_SIZE];
    if header[9] != HEADER_SIZE {
      return Failure(HeaderLength);
    }
    var next, end := NextImage(header), HEADER_SIZE + PayloadLength(header);
    if ImageType(header) != 0 {
      return Failure(SignedImage);
    }
    if next < HEADER_SIZE || next > end || end > |data| {
      return Failure(OutOfBounds);
    }
    var kernelPadded, rootfs := data[HEADER_SIZE..next], data[next..end];
    var kernel := Rstrip(kernelPadded);
    if md5(kernelPadded + rootfs) != StoredDigest(header) {
      return Failure(Md5Mismatch);
    }
    var zeroed := new byte[HEADER_SIZE](i requires 0 <= i < HEADER_SIZE => header[i]);
    assert zeroed[..] == header;
    WriteBytes(zeroed, 0x2A, [0, 0]);
    var checksum := InternetChecksumOf(zeroed[..]);
    if checksum != StoredChecksum(header) {
      return Failure(ChecksumMismatch);
    }
    return Success(Bl7Image(header, kernel, rootfs, kernelPadded[|kernel|..]));
  }

  /** What makes a header valid for a payload that starts with `split` kernel bytes. */
  predicate Describes(md5: Md5, h: Header, payload: seq<byte>, split: nat) {
    && h[..4] == MAGIC
    && h[9] == HEADER_SIZE
    && NextImage(h) == HEADER_SIZE + split
    && PayloadLength(h) == |payload|
    && split <= |payload|
    && StoredDigest(h) == md5(payload)
    && StoredChecksum(h) == HeaderChecksum(h)
  }

  lemma ParsedDescribes(md5: Md5, data: seq<byte>, image: Bl7Image)
    requires ParseSpec(md5, data) == Success(image)
    ensures var payload := image.kernel + image.kernelPadding + image.rootfs;
            && image.header + payload <= data
            && Describes(md5, image.header, payload, |image.kernel + image.kernelPadding|)
            && ImageType(image.header) == 0
            && image.kernel == Rstrip(image.kernel + image.kernelPadding)
  {
    hide HeaderChecksum, Rstrip;
    var padded := image.kernel + image.kernelPadding;
    var payload := padded + image.rootfs;
    var next, end := NextImage(image.header), HEADER_SIZE + PayloadLength(image.header);
    assert padded == data[HEADER_SIZE..next];
    assert payload == data[HEADER_SIZE..next] + data[next..end] == data[HEADER_SIZE..end];
    assert image.header + payload == data[..end];
  }

  lemma DescribedParses(md5: Md5, data: seq<byte>, image: Bl7Image)
    requires image.header + (image.kernel + image.kernelPadding + image.rootfs) <= data
    requires Describes(md5, image.header, image.kernel + image.kernelPadding + image.rootfs,
                       |image.kernel + image.kernelPadding|)
    requires ImageType(image.header) == 0
    requires image.kernel == Rstrip(image.kernel + image.kernelPadding)
    ensures ParseSpec(md5, data) == Success(image)
  {
    hide HeaderChecksum, Rstrip, ReadBe32, ReadBe16;
    var padded := image.kernel + image.kernelPadding;
    var payload := padded + image.rootfs;
    var next, end, start := HEADER_SIZE + |padded|, HEADER_SIZE + |payload|, image.header + payload;
    assert data[..end] == start;
    assert data[..HEADER_SIZE] == start[..HEADER_SIZE] == image.header;
    assert data[..4] == start[..4] == image.header[..4];
    assert data[HEADER_SIZE..next] == start[HEADER_SIZE..next] == padded;
    assert data[next..end] == start[next..end] == image.rootfs;
    assert padded[|image.kernel|..] == image.kernelPadding;
  }

  /** The parser accepts exactly the images laid out as header, kernel, padding,
      rootfs and unused trailing bytes, with a header that describes them. */
  lemma ParseExactly(md5: Md5, data: seq<byte>, image: Bl7Image)
    ensures ParseSpec(md5, data) == Success(image) <==>
            var payload := image.kernel + image.kernelPadding + image.rootfs;
            && image.header + payload <= data
            && Describes(md5, image.header, payload, |image.kernel + image.kernelPadding|)
            && ImageType(image.header) == 0
            && image.kernel == Rstrip(image.kernel + image.kernelPadding)
  {
    hide HeaderChecksum, Rstrip, ParseSpec, Describes;
    var payload := image.kernel + image.kernelPadding + image.rootfs;
    if ParseSpec(md5, data) == Success(image) {
      ParsedDescribes(md5, data, image);
    }
    if && image.header + payload <= data
       && Describes(md5, image.header, payload, |image.kernel + image.kernelPadding|)
       && ImageType(image.header) == 0
       && image.kernel == Rstrip(image.kernel + image.kernelPadding) {
      DescribedParses(md5, data, image);
    }
  }

  // ---------------------------------------------------------------- rebuilding

  function PageGap(kernelLength: nat): (gap: nat)
    ensures gap < PAGE_SIZE && (HEADER_SIZE + kernelLength + gap) % PAGE_SIZE == 0
  {
    (-(HEADER_SIZE + kernelLength)) % PAGE_SIZE
  }

  function Padded(kernel: seq<byte>): (padded: seq<byte>)
    ensures |padded| == |kernel| + PageGap(|kernel|)
  {
    kernel + seq(PageGap(|kernel|), _ => 0xFF)
  }

  /** The header of a payload: offsets, digest and checksum recalculated, the rest kept. */
  function HeaderFor(md5: Md5, header: Header, payload: seq<byte>, split: nat): Header
    requires HEADER_SIZE + split < U32 && |payload| < U32
  {
    Seal(Splice(Splice(Splice(header, 4, Be32(HEADER_SIZE + split)), 0x10, Be32(|payload|)), 0x18, md5(payload)))
  }

  predicate Fits32(kernel: seq<byte>, rootfs: seq<byte>) {
    HEADER_SIZE + |Padded(kernel)| < U32 && |Padded(kernel)| + |rootfs| < U32
  }

  function Given(replacement: Option<seq<byte>>, kept: seq<byte>): seq<byte> {
    if replacement.None? then kept else replacement.value
  }

  function RebuildSpec(md5: Md5, image: Bl7Image, kernel: Option<seq<byte>>, rootfs: Option<seq<byte>>)
    : Result<seq<byte>, Bl7Error>
  {
    var k, r := Given(kernel, image.kernel), Given(rootfs, image.rootfs);
    if ImageType(image.header) != 0 then Failure(SignedImage)
    else if !Fits32(k, r) then Failure(FieldOverflow)
    else Success(HeaderFor(md5, image.header, Padded(k) + r, |Padded(k)|) + (Padded(k) + r))
  }

  method Rebuild(md5: Md5, image: Bl7Image, kernel: Option<seq<byte>>, rootfs: Option<seq<byte>>)
    returns (r: Result<seq<byte>, Bl7Error>)
    ensures r == RebuildSpec(md5, image, kernel, rootfs)
  {
    hide HeaderChecksum, HeaderFor;
    if ImageType(image.header) != 0 {
      return Failure(SignedImage);
    }
    var newKernel := if kernel.None? then image.kernel else kernel.value;
    var newRootfs := if rootfs.None? then image.rootfs else rootfs.value;
    var padding := seq((-(HEADER_SIZE + |newKernel|)) % PAGE_SIZE, _ => 0xFF);
    var payload := newKernel + padding + newRootfs;
    var header := new byte[HEADER_SIZE](i requires 0 <= i < HEADER_SIZE => image.header[i]);
    assert header[..] == image.header;
    assert newKernel + padding == Padded(newKernel);
    if HEADER_SIZE + |newKernel| + |padding| >= U32 || |payload| >= U32 {
      return Failure(FieldOverflow);
    }
    WriteHeader(md5, header, payload, |newKernel| + |padding|);
    return Success(header[..] + payload);
  }

  /** The field assignments of `rebuild`, in place. */
  method WriteHeader(md5: Md5, header: array<byte>, payload: seq<byte>, split: nat)
    requires header.Length == HEADER_SIZE && HEADER_SIZE + split < U32 && |payload| < U32
    modifies header
    ensures header[..] == HeaderFor(md5, old(header[..]), payload, split)
  {
    hide HeaderChecksum, Be32;
    WriteBytes(header, 4, Be32(HEADER_SIZE + split));
    WriteBytes(header, 0x10, Be32(|payload|));
    WriteBytes(header, 0x18, md5(payload));
    SealInPlace(header);
  }

  method SealInPlace(header: array<byte>)
    requires header.Length == HEADER_SIZE
    modifies header
    ensures header[..] == Seal(old(header[..]))
  {
    ghost var before: Header := header[..];
    WriteBytes(header, 0x2A, [0, 0]);
    var checksum := InternetChecksumOf(header[..]);
    WriteBytes(header, 0x2A, Be16(checksum));
    assert header[..] == Seal(before);
  }

  /** A sealed header carries its own checksum. */
  lemma SealedIsValid(h: Header)
    ensures StoredChecksum(Seal(h)) == HeaderChecksum(Seal(h)) == HeaderChecksum(h)
  {
    assert Splice(Seal(h), 0x2A, [0, 0]) == Splice(h, 0x2A, [0, 0]);
    var c := HeaderChecksum(h);
    assert Seal(h)[0x2A] == Be16(c)[0] && Seal(h)[0x2B] == Be16(c)[1];
  }

  lemma HeaderForFields(md5: Md5, header: Header, payload: seq<byte>, split: nat)
    requires HEADER_SIZE + split < U32 && |payload| < U32
    requires header[..4] == MAGIC && header[9] == HEADER_SIZE && split <= |payload|
    ensures Describes(md5, HeaderFor(md5, header, payload, split), payload, split)
    ensures ImageType(HeaderFor(md5, header, payload, split)) == ImageType(header)
  {
    hide HeaderChecksum, OnesValue, WordSum;
    var h1: Header := Splice(header, 4, Be32(HEADER_SIZE + split));
    var h2: Header := Splice(h1, 0x10, Be32(|payload|));
    var h3: Header := Splice(h2, 0x18, md5(payload));
    SealedIsValid(h3);
    var h := Seal(h3);
    assert h[4..8] == Be32(HEADER_SIZE + split);
    Be32RoundTrip(h, 4, HEADER_SIZE + split);
    assert h[0x10..0x14] == Be32(|payload|);
    Be32RoundTrip(h, 0x10, |payload|);
    assert h[0x18..0x28] == md5(payload);
    assert h[..4] == header[..4];
  }

  /** Rebuilding a parsed image with any kernel and rootfs that fit gives an image
      the parser accepts: that rootfs, the kernel less its trailing 0xFF bytes, and
      the rootfs on a page boundary. */
  lemma RebuildParses(md5: Md5, data: seq<byte>, image: Bl7Image,
                      kernel: Option<seq<byte>>, rootfs: Option<seq<byte>>, out: seq<byte>)
    requires ParseSpec(md5, data) == Success(image)
    requires RebuildSpec(md5, image, kernel, rootfs) == Success(out)
    ensures ParseSpec(md5, out).Success?
    ensures var again := ParseSpec(md5, out).value;
            && again.rootfs == Given(rootfs, image.rootfs)
            && again.kernel == Rstrip(Given(kernel, image.kernel))
            && again.kernel + again.kernelPadding == Padded(Given(kernel, image.kernel))
            && NextImage(again.header) % PAGE_SIZE == 0
            && |out| == HEADER_SIZE + PayloadLength(again.header)
  {
    hide HeaderChecksum, Rstrip, ParseSpec;
    ParseExactly(md5, data, image);
    var k, r := Given(kernel, image.kernel), Given(rootfs, image.rootfs);
    var payload := Padded(k) + r;
    var header := HeaderFor(md5, image.header, payload, |Padded(k)|);
    HeaderForFields(md5, image.header, payload, |Padded(k)|);
    RstripUnique(k, seq(PageGap(|k|), _ => 0xFF));
    var kept := Rstrip(Padded(k));
    var again := Bl7Image(header, kept, r, Padded(k)[|kept|..]);
    RstripPrefix(Padded(k));
    assert again.kernel + again.kernelPadding == Padded(k);
    assert out == again.header + payload;
    ParseExactly(md5, out, again);
  }

  lemma RstripPrefix(data: seq<byte>)
    ensures Rstrip(data) <= data && Rstrip(data) + data[|Rstrip(data)|..] == data
  {
  }

  lemma RstripTwice(data: seq<byte>)
    ensures Rstrip(Rstrip(data)) == Rstrip(data)
  {
  }

  lemma ParsedKernelIsStripped(md5: Md5, data: seq<byte>)
    requires ParseSpec(md5, data).Success?
    ensures Rstrip(ParseSpec(md5, data).value.kernel) == ParseSpec(md5, data).value.kernel
  {
    var image := ParseSpec(md5, data).value;
    RstripTwice(data[HEADER_SIZE..NextImage(image.header)]);
  }

  lemma HeaderForKeepsOthers(md5: Md5, header: Header, payload: seq<byte>, split: nat)
    requires HEADER_SIZE + split < U32 && |payload| < U32
    requires Describes(md5, header, payload, split)
    ensures HeaderFor(md5, header, payload, split) == header
  {
    hide HeaderChecksum;
    Be32Injective(header, 4);
    SpliceSame(header, 4, Be32(HEADER_SIZE + split));
    Be32Injective(header, 0x10);
    SpliceSame(header, 0x10, Be32(|payload|));
    SpliceSame(header, 0x18, md5(payload));
    Be16Injective(header, 0x2A);
    SpliceSame(header, 0x2A, Be16(HeaderChecksum(header)));
  }

  /** Rebuilding what was parsed reproduces the file exactly when its rootfs is page
      aligned, its 0xFF padding is under one page and no bytes trail. */
  lemma RebuildIsIdentityExactly(md5: Md5, data: seq<byte>, image: Bl7Image)
    requires ParseSpec(md5, data) == Success(image)
    ensures RebuildSpec(md5, image, None, None) == Success(data) <==>
            && NextImage(image.header) % PAGE_SIZE == 0
            && |image.kernelPadding| < PAGE_SIZE
            && |data| == HEADER_SIZE + PayloadLength(image.header)
  {
    hide HeaderChecksum, Rstrip, HeaderFor, ParseSpec;
    ParseExactly(md5, data, image);
    var padded := image.kernel + image.kernelPadding;
    var payload := padded + image.rootfs;
    assert image.kernel + image.kernelPadding + image.rootfs == payload;
    if |data| == HEADER_SIZE + PayloadLength(image.header) {
      assert data == image.header + payload;
    }
    if RebuildSpec(md5, image, None, None) == Success(data) {
      RebuildParses(md5, data, image, None, None, data);
      assert |padded| == |Padded(image.kernel)|;
    }
    if NextImage(image.header) % PAGE_SIZE == 0 && |image.kernelPadding| < PAGE_SIZE
       && |data| == HEADER_SIZE + PayloadLength(image.header) {
      GapIsUnique(|image.kernel|, |image.kernelPadding|);
      PaddingIsFilled(image.kernel, image.kernelPadding);
      assert Padded(image.kernel) == padded;
      HeaderForKeepsOthers(md5, image.header, payload, |padded|);
    }
  }

  lemma GapIsUnique(length: nat, gap: nat)
    requires gap < PAGE_SIZE && (HEADER_SIZE + length + gap) % PAGE_SIZE == 0
    ensures gap == PageGap(length)
  {
  }

  lemma PaddingIsFilled(kernel: seq<byte>, padding: seq<byte>)
    requires kernel == Rstrip(kernel + padding)
    ensures padding == seq(|padding|, _ => 0xFF)
  {
    assert forall i :: 0 <= i < |padding| ==> padding[i] == (kernel + padding)[|kernel| + i];
  }

  /** Parsing and rebuilding twice gives what it gives once. */
  lemma RebuildIsIdempotent(md5: Md5, data: seq<byte>, image: Bl7Image, out: seq<byte>)
    requires ParseSpec(md5, data) == Success(image)
    requires RebuildSpec(md5, image, None, None) == Success(out)
    ensures ParseSpec(md5, out).Success?
    ensures RebuildSpec(md5, ParseSpec(md5, out).value, None, None) == Success(out)
  {
    hide HeaderChecksum, Rstrip, HeaderFor, ParseSpec, RebuildSpec;
    RebuildParses(md5, data, image, None, None, out);
    ParsedKernelIsStripped(md5, data);
    var again := ParseSpec(md5, out).value;
    assert again.kernel == image.kernel;
    assert |again.kernelPadding| == PageGap(|image.kernel|);
    RebuildIsIdentityExactly(md5, out, again);
  }

  // ---------------------------------------------------------------- signature removal

  function Unsign(h: Header): Header {
    Seal(Splice(h, 0x84, [0, 0, 0, 0]))
  }

  function SignedToUiSpec(md5: Md5, data: seq<byte>): Result<seq<byte>, Bl7Error> {
    if |data| < HEADER_SIZE || data[..4] != MAGIC then Failure(NotBl7)
    else
      var header: Header := data[..HEADER_SIZE];
      var next, end := NextImage(header), HEADER_SIZE + PayloadLength(header);
      if header[9] != HEADER_SIZE then Failure(HeaderLength)
      else if ImageType(header) != 1 && ImageType(header) != 2 then Failure(UnsignedImage)
      else if next < HEADER_SIZE || next > end || end >= |data| then Failure(OutOfBounds)
      else if md5(data[HEADER_SIZE..end]) != StoredDigest(header) then Failure(Md5Mismatch)
      else if HeaderChecksum(header) != StoredChecksum(header) then Failure(ChecksumMismatch)
      else Success(Unsign(header) + data[HEADER_SIZE..end])
  }

  method SignedToUi(md5: Md5, data: seq<byte>) returns (r: Result<seq<byte>, Bl7Error>)
    ensures r == SignedToUiSpec(md5, data)
  {
    hide Seal, OnesValue, WordSum, ReadBe32, ReadBe16, Be32, Unsign;
    if |data| < HEADER_SIZE || data[..4] != MAGIC {
      return Failure(NotBl7);
    }
    ghost var original: Header := data[..HEADER_SIZE];
    var header := new byte[HEADER_SIZE](i requires 0 <= i < HEADER_SIZE => data[i]);
    assert header[..] == original;
    if header[9] != HEADER_SIZE {
      return Failure(HeaderLength);
    }
    var imageType := ImageType(header[..]);
    if imageType !in {1, 2} {
      return Failure(UnsignedImage);
    }
    var next, end := NextImage(header[..]), HEADER_SIZE + PayloadLength(header[..]);
    if next < HEADER_SIZE || next > end || end >= |data| {
      return Failure(OutOfBounds);
    }
    var payload := data[HEADER_SIZE..end];
    if md5(payload) != StoredDigest(header[..]) {
      return Failure(Md5Mismatch);
    }
    var expected := StoredChecksum(header[..]);
    WriteBytes(header, 0x2A, [0, 0]);
    var checksum := InternetChecksumOf(header[..]);
    if checksum != expected {
      return Failure(ChecksumMismatch);
    }
    WriteBytes(header, 0x84, Be32(0));
    SealInPlace(header);
    UnsignAfterZeroing(original);
    return Success(header[..] + payload);
  }

  lemma UnsignAfterZeroing(h: Header)
    ensures Seal(Splice(Splice(h, 0x2A, [0, 0]), 0x84, Be32(0))) == Unsign(h)
  {
    hide OnesValue, WordSum;
    var a: Header, b: Header := Splice(Splice(h, 0x2A, [0, 0]), 0x84, Be32(0)), Splice(h, 0x84, [0, 0, 0, 0]);
    assert Be32(0) == [0, 0, 0, 0];
    assert Splice(a, 0x2A, [0, 0]) == Splice(b, 0x2A, [0, 0]);
    assert Seal(a) == Seal(b);
  }

  /** What signature removal keeps: the parser accepts the result, the payload is
      byte-identical and only the type and checksum fields of the header differ. */
  lemma UnsignedParses(md5: Md5, data: seq<byte>, out: seq<byte>)
    requires SignedToUiSpec(md5, data) == Success(out)
    ensures ParseSpec(md5, out).Success?
    ensures |data| > |out| >= HEADER_SIZE
    ensures out[HEADER_SIZE..] == data[HEADER_SIZE..|out|]
    ensures forall i :: 0 <= i < HEADER_SIZE && out[i] != data[i] ==> 0x84 <= i < 0x88 || 0x2A <= i < 0x2C
    ensures var image := ParseSpec(md5, out).value;
            image.kernel + image.kernelPadding + image.rootfs == data[HEADER_SIZE..|out|]
  {
    hide HeaderChecksum, OnesValue, WordSum, Rstrip;
    var header: Header := data[..HEADER_SIZE];
    var payload := data[HEADER_SIZE..HEADER_SIZE + PayloadLength(header)];
    var ui := Unsign(header);
    SealedIsValid(Splice(header, 0x84, [0, 0, 0, 0]));
    var split := NextImage(header) - HEADER_SIZE;
    assert ui[..4] == header[..4] == data[..4];
    assert ui[0x18..0x28] == header[0x18..0x28];
    assert ui[9] == header[9];
    assert Describes(md5, ui, payload, split);
    assert ImageType(ui) == 0;
    var padded := payload[..split];
    RstripPrefix(padded);
    var image := Bl7Image(ui, Rstrip(padded), payload[split..], padded[|Rstrip(padded)|..]);
    assert image.kernel + image.kernelPadding == padded;
    assert image.kernel + image.kernelPadding + image.rootfs == payload;
    ParseExactly(md5, out, image);
    assert out[HEADER_SIZE..] == payload;
  }
}
