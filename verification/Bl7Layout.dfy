/** BL7 images byte by byte: which files are accepted, and what is written. */
module Bl7Layout {
  import opened Wrappers
  import opened Bytes
  import opened InternetChecksum
  import opened Bl7

  /** The four bytes at `at`, most significant first. */
  function Number(data: seq<byte>, at: nat): nat
    requires at + 4 <= |data|
  {
    ((data[at] as int * 256 + data[at + 1] as int) * 256 + data[at + 2] as int) * 256 + data[at + 3] as int
  }

  /** The checksum of RFC 1071 over a header whose bytes 0x2A and 0x2B count as zero. */
  function HeaderSum(header: seq<byte>): nat
    requires |header| == 160
  {
    0xFFFF - OnesValue(WordSum(header[..0x2A] + [0, 0] + header[0x2C..]))
  }

  /** A header of 160 bytes, of type `kind`, that fits the file: kernel and rootfs lie
      within it, and their digest and the header's checksum are the stored ones. */
  predicate WellFormed(md5: Md5, data: seq<byte>, kind: seq<byte>) {
    && |data| >= 160 && data[..4] == [0x52, 0x43, 0x4B, 0x53] && data[9] == 160 && data[0x84..0x88] == kind
    && var next, end := Number(data, 4), 160 + Number(data, 0x10);
       && 160 <= next <= end <= |data|
       && data[0x18..0x28] == md5(data[160..end])
       && 256 * (data[0x2A] as int) + (data[0x2B] as int) == HeaderSum(data[..160])
  }

  lemma NumberReads(data: seq<byte>, header: seq<byte>, at: nat)
    requires at + 4 <= |header| <= |data| && header == data[..|header|]
    ensures ReadBe32(header, at) == Number(data, at) && header[at..at + 4] == data[at..at + 4]
  {
  }

  lemma KindIs(data: seq<byte>, at: nat, n: byte)
    requires at + 4 <= |data|
    ensures ReadBe32(data, at) == n <==> data[at..at + 4] == [0, 0, 0, n]
  {
    Be32Injective(data, at);
    assert Be32(n) == [0, 0, 0, n];
    if data[at..at + 4] == [0, 0, 0, n] { Be32RoundTrip(data, at, n); }
  }

  lemma HeaderSumIs(header: Header)
    ensures HeaderChecksum(header) == HeaderSum(header)
  {
    assert Splice(header, 0x2A, [0, 0]) == header[..0x2A] + [0, 0] + header[0x2C..];
  }

  lemma HeaderFacts(data: seq<byte>)
    requires |data| >= 160
    ensures var header: Header := data[..160];
            && header[9] == data[9] && StoredDigest(header) == data[0x18..0x28]
            && NextImage(header) == Number(data, 4) && PayloadLength(header) == Number(data, 0x10)
            && StoredChecksum(header) == 256 * (data[0x2A] as int) + (data[0x2B] as int)
            && HeaderChecksum(header) == HeaderSum(header)
            && (ImageType(header) == 0 <==> data[0x84..0x88] == [0, 0, 0, 0])
            && (ImageType(header) == 1 <==> data[0x84..0x88] == [0, 0, 0, 1])
            && (ImageType(header) == 2 <==> data[0x84..0x88] == [0, 0, 0, 2])
  {
    hide ReadBe32, Number, HeaderSum, HeaderChecksum;
    var header: Header := data[..160];
    NumberReads(data, header, 4);
    NumberReads(data, header, 0x10);
    NumberReads(data, header, 0x84);
    HeaderSumIs(header);
    KindIs(header, 0x84, 0);
    KindIs(header, 0x84, 1);
    KindIs(header, 0x84, 2);
    assert header[0x18..0x28] == data[0x18..0x28];
  }

  /** The parser takes exactly the well-formed images of type 0, and cuts them at the offsets. */
  lemma ParsesExactly(md5: Md5, data: seq<byte>)
    ensures ParseSpec(md5, data).Success? <==> WellFormed(md5, data, [0, 0, 0, 0])
    ensures ParseSpec(md5, data).Success? ==>
              var image, next, end := ParseSpec(md5, data).value, Number(data, 4), 160 + Number(data, 0x10);
              && image.header == data[..160]
              && image.kernel + image.kernelPadding == data[160..next] && image.rootfs == data[next..end]
              && (forall i :: 0 <= i < |image.kernelPadding| ==> image.kernelPadding[i] == 0xFF)
              && (image.kernel == [] || image.kernel[|image.kernel| - 1] != 0xFF)
  {
    hide HeaderChecksum, HeaderSum, Rstrip, Number, NextImage, PayloadLength, ImageType, StoredDigest, StoredChecksum;
    if |data| >= 160 {
      HeaderFacts(data);
      var next, end := Number(data, 4), 160 + Number(data, 0x10);
      if 160 <= next <= end <= |data| {
        assert data[160..next] + data[next..end] == data[160..end];
        RstripPrefix(data[160..next]);
      }
    }
  }

  /** Signature removal takes exactly the well-formed images of types 1 and 2 with
      something behind the payload. */
  lemma UnsignsExactly(md5: Md5, data: seq<byte>)
    ensures SignedToUiSpec(md5, data).Success? <==>
              && (WellFormed(md5, data, [0, 0, 0, 1]) || WellFormed(md5, data, [0, 0, 0, 2]))
              && 160 + Number(data, 0x10) < |data|
    ensures SignedToUiSpec(md5, data).Success? ==>
              SignedToUiSpec(md5, data).value[160..] == data[160..160 + Number(data, 0x10)]
  {
    hide HeaderChecksum, HeaderSum, Number, NextImage, PayloadLength, ImageType, StoredDigest, StoredChecksum, Unsign;
    if |data| >= 160 {
      HeaderFacts(data);
    }
  }

  /** The fields that describe a payload whose rootfs starts `split` bytes in; all
      other bytes of the header are the old ones. */
  predicate HeaderWritten(md5: Md5, out: seq<byte>, header: Header, payload: seq<byte>, split: nat)
    requires |out| >= 160 && 160 + split < 0x1_0000_0000 && |payload| < 0x1_0000_0000
  {
    && out[4..8] == Be32(160 + split) && out[0x10..0x14] == Be32(|payload|) && out[0x18..0x28] == md5(payload)
    && out[0x2A..0x2C] == Be16(HeaderSum(out[..160]))
    && forall i :: 0 <= i < 160 && !(4 <= i < 8 || 0x10 <= i < 0x14 || 0x18 <= i < 0x28 || 0x2A <= i < 0x2C) ==>
         out[i] == header[i]
  }

  /** Rebuilding refuses other types and lengths over 32 bits, and otherwise writes the
      kernel, as many bytes 0xFF as reach the next multiple of 65536, and the rootfs,
      behind a header that differs in its offset, length, digest and checksum only. */
  lemma RebuildsExactly(md5: Md5, image: Bl7Image, kernel: Option<seq<byte>>, rootfs: Option<seq<byte>>, gap: nat)
    requires gap < 65536
    requires var k := if kernel.Some? then kernel.value else image.kernel; (160 + |k| + gap) % 65536 == 0
    ensures var k, r := if kernel.Some? then kernel.value else image.kernel,
                        if rootfs.Some? then rootfs.value else image.rootfs;
            var rebuilt, payload := RebuildSpec(md5, image, kernel, rootfs), k + seq(gap, _ => 0xFF) + r;
            && (rebuilt.Success? <==>
                 && image.header[0x84..0x88] == [0, 0, 0, 0]
                 && 160 + |k| + gap < 0x1_0000_0000 && |payload| < 0x1_0000_0000)
            && (rebuilt.Success? ==>
                 && |rebuilt.value| >= 160 && rebuilt.value[160..] == payload
                 && HeaderWritten(md5, rebuilt.value, image.header, payload, |k| + gap))
  {
    hide HeaderChecksum, HeaderWritten, HeaderFor, ReadBe32, Be32, Be16;
    var k, r := Given(kernel, image.kernel), Given(rootfs, image.rootfs);
    KindIs(image.header, 0x84, 0);
    GapIsUnique(|k|, gap);
    assert Padded(k) == k + seq(gap, _ => 0xFF);
    if RebuildSpec(md5, image, kernel, rootfs).Success? {
      HeaderIsWritten(md5, image.header, Padded(k) + r, |k| + gap);
    }
  }

  lemma HeaderIsWritten(md5: Md5, header: Header, payload: seq<byte>, split: nat)
    requires HEADER_SIZE + split < U32 && |payload| < U32
    ensures var out := HeaderFor(md5, header, payload, split) + payload;
            out[160..] == payload && HeaderWritten(md5, out, header, payload, split)
  {
    hide HeaderChecksum, HeaderSum, Be32, Be16;
    var before: Header :=
      Splice(Splice(Splice(header, 4, Be32(HEADER_SIZE + split)), 0x10, Be32(|payload|)), 0x18, md5(payload));
    var h := Seal(before);
    SealedIsValid(before);
    HeaderSumIs(h);
    assert h[0x2A..0x2C] == Be16(HeaderChecksum(before));
    assert (h + payload)[..160] == h;
  }
}
