/** The TAC chained-XOR stream: decryption in chunks, its inverse and the final padding. */
module Tac {
  import opened Wrappers

  type octet = bv8
  type word = bv64

  const INITIAL_XOR: word := 0xF2D6_2CBD_0542_1A29
  const XOR_FLIP: word := 0x38C5_543F_E0B8_AD35

  // ---------------------------------------------------------------- words

  function Join(a: octet, b: octet, c: octet, d: octet, e: octet, f: octet, g: octet, h: octet): word {
    (a as word) | ((b as word) << 8) | ((c as word) << 16) | ((d as word) << 24)
    | ((e as word) << 32) | ((f as word) << 40) | ((g as word) << 48) | ((h as word) << 56)
  }

  /** The little-endian word at an offset. */
  function Unpack(s: seq<octet>, at: nat): word
    requires at + 8 <= |s|
  {
    Join(s[at], s[at + 1], s[at + 2], s[at + 3], s[at + 4], s[at + 5], s[at + 6], s[at + 7])
  }

  function Pack(w: word): (s: seq<octet>)
    ensures |s| == 8
  {
    [(w & 0xFF) as octet, ((w >> 8) & 0xFF) as octet, ((w >> 16) & 0xFF) as octet, ((w >> 24) & 0xFF) as octet,
     ((w >> 32) & 0xFF) as octet, ((w >> 40) & 0xFF) as octet, ((w >> 48) & 0xFF) as octet, (w >> 56) as octet]
  }

  lemma JoinLow(a: octet, b: octet, c: octet, d: octet, e: octet, f: octet, g: octet, h: octet)
    ensures var w := Join(a, b, c, d, e, f, g, h);
            && (w & 0xFF) as octet == a && ((w >> 8) & 0xFF) as octet == b
            && ((w >> 16) & 0xFF) as octet == c && ((w >> 24) & 0xFF) as octet == d
  {
  }

  lemma JoinHigh(a: octet, b: octet, c: octet, d: octet, e: octet, f: octet, g: octet, h: octet)
    ensures var w := Join(a, b, c, d, e, f, g, h);
            && ((w >> 32) & 0xFF) as octet == e && ((w >> 40) & 0xFF) as octet == f
            && ((w >> 48) & 0xFF) as octet == g && (w >> 56) as octet == h
  {
  }

  lemma PackUnpack(s: seq<octet>, at: nat)
    requires at + 8 <= |s|
    ensures Pack(Unpack(s, at)) == s[at..at + 8]
  {
    hide Join;
    JoinLow(s[at], s[at + 1], s[at + 2], s[at + 3], s[at + 4], s[at + 5], s[at + 6], s[at + 7]);
    JoinHigh(s[at], s[at + 1], s[at + 2], s[at + 3], s[at + 4], s[at + 5], s[at + 6], s[at + 7]);
  }

  lemma UnpackPack(w: word, s: seq<octet>, at: nat)
    requires at + 8 <= |s| && s[at..at + 8] == Pack(w)
    ensures Unpack(s, at) == w
  {
    var f := s[at..at + 8];
    assert f[0] == s[at] && f[1] == s[at + 1] && f[2] == s[at + 2] && f[3] == s[at + 3];
    assert f[4] == s[at + 4] && f[5] == s[at + 5] && f[6] == s[at + 6] && f[7] == s[at + 7];
  }

  // ---------------------------------------------------------------- the chain

  /** What one chunk leaves for the next. */
  datatype Chain = Chain(previous: word, xor: word)

  const START := Chain(0, INITIAL_XOR)

  predicate Aligned(data: seq<octet>) { |data| % 8 == 0 }

  lemma AlignedPrefixOf(data: seq<octet>, words: nat)
    requires Aligned(data) && 8 * words <= |data|
    ensures Aligned(data[..8 * words])
    ensures 8 * words < |data| ==> 8 * words + 8 <= |data|
  {
  }

  lemma AlignedRest(data: seq<octet>, size: nat)
    requires size % 8 == 0 && size <= |data|
    ensures Aligned(data[size..]) <==> Aligned(data)
  {
    assert size == 8 * (size / 8);
    assert |data| % 8 == (|data| - 8 * (size / 8)) % 8;
  }

  function Next(chain: Chain, cipher: word): Chain {
    Chain(cipher, chain.xor ^ XOR_FLIP)
  }

  function Plain(chain: Chain, cipher: word): word { chain.previous ^ chain.xor ^ cipher }

  function Cipher(chain: Chain, plain: word): word { plain ^ chain.previous ^ chain.xor }

  lemma XorCancels(chain: Chain, v: word)
    ensures Plain(chain, Cipher(chain, v)) == v && Cipher(chain, Plain(chain, v)) == v
  {
    hide Plain, Cipher;
    PlainOfCipher(chain, v);
    CipherOfPlain(chain, v);
  }

  lemma PlainOfCipher(chain: Chain, v: word)
    ensures Plain(chain, Cipher(chain, v)) == v
  {
  }

  lemma CipherOfPlain(chain: Chain, v: word)
    ensures Cipher(chain, Plain(chain, v)) == v
  {
  }

  function Decrypted(chain: Chain, data: seq<octet>): (plain: seq<octet>)
    requires Aligned(data)
    ensures |plain| == |data|
    decreases |data|
  {
    if data == [] then []
    else
      var cipher := Unpack(data, 0);
      Pack(Plain(chain, cipher)) + Decrypted(Next(chain, cipher), data[8..])
  }

  function After(chain: Chain, data: seq<octet>): Chain
    requires Aligned(data)
    decreases |data|
  {
    if data == [] then chain else After(Next(chain, Unpack(data, 0)), data[8..])
  }

  /** The chained encryption that the repository's tests use. */
  function Encrypted(chain: Chain, plain: seq<octet>): (data: seq<octet>)
    requires Aligned(plain)
    ensures |data| == |plain|
    decreases |plain|
  {
    if plain == [] then []
    else
      var cipher := Cipher(chain, Unpack(plain, 0));
      Pack(cipher) + Encrypted(Next(chain, cipher), plain[8..])
  }

  lemma {:induction false} DecryptedSplit(chain: Chain, a: seq<octet>, b: seq<octet>)
    requires Aligned(a) && Aligned(b)
    ensures Decrypted(chain, a + b) == Decrypted(chain, a) + Decrypted(After(chain, a), b)
    ensures After(chain, a + b) == After(After(chain, a), b)
    decreases |a|
  {
    hide Join, Pack;
    if a == [] {
      assert a + b == b;
    } else {
      assert (a + b)[8..] == a[8..] + b;
      DecryptedSplit(Next(chain, Unpack(a, 0)), a[8..], b);
    }
  }

  lemma HeadAndTail(head: seq<octet>, tail: seq<octet>, whole: seq<octet>)
    requires |head| == 8 && whole == head + tail
    ensures whole[0..8] == head && whole[8..] == tail
  {
  }

  /** Decryption inverts encryption. */
  lemma {:induction false} DecryptEncrypt(chain: Chain, plain: seq<octet>)
    requires Aligned(plain)
    ensures Decrypted(chain, Encrypted(chain, plain)) == plain
    decreases |plain|
  {
    hide Join, Pack, Unpack, Plain, Cipher, Next;
    if plain != [] {
      var cipher := Cipher(chain, Unpack(plain, 0));
      var rest := Encrypted(Next(chain, cipher), plain[8..]);
      HeadAndTail(Pack(cipher), rest, Encrypted(chain, plain));
      UnpackPack(cipher, Encrypted(chain, plain), 0);
      XorCancels(chain, Unpack(plain, 0));
      PackUnpack(plain, 0);
      DecryptEncrypt(Next(chain, cipher), plain[8..]);
    }
  }

  /** Encryption inverts decryption. */
  lemma {:induction false} EncryptDecrypt(chain: Chain, data: seq<octet>)
    requires Aligned(data)
    ensures Encrypted(chain, Decrypted(chain, data)) == data
    decreases |data|
  {
    hide Join, Pack, Unpack, Plain, Cipher, Next;
    if data != [] {
      var cipher := Unpack(data, 0);
      var rest := Decrypted(Next(chain, cipher), data[8..]);
      HeadAndTail(Pack(Plain(chain, cipher)), rest, Decrypted(chain, data));
      UnpackPack(Plain(chain, cipher), Decrypted(chain, data), 0);
      XorCancels(chain, cipher);
      PackUnpack(data, 0);
      EncryptDecrypt(Next(chain, cipher), data[8..]);
    }
  }

  // ---------------------------------------------------------------- byte by byte

  const INITIAL_BYTES: seq<octet> := [0x29, 0x1A, 0x42, 0x05, 0xBD, 0x2C, 0xD6, 0xF2]
  const FLIP_BYTES: seq<octet> := [0x35, 0xAD, 0xB8, 0xE0, 0x3F, 0x54, 0xC5, 0x38]

  lemma XorFirst(a: word, b: word)
    ensures Pack(a ^ b)[0] == Pack(a)[0] ^ Pack(b)[0] && Pack(a ^ b)[1] == Pack(a)[1] ^ Pack(b)[1]
  {
  }

  lemma XorSecond(a: word, b: word)
    ensures Pack(a ^ b)[2] == Pack(a)[2] ^ Pack(b)[2] && Pack(a ^ b)[3] == Pack(a)[3] ^ Pack(b)[3]
  {
  }

  lemma XorThird(a: word, b: word)
    ensures Pack(a ^ b)[4] == Pack(a)[4] ^ Pack(b)[4] && Pack(a ^ b)[5] == Pack(a)[5] ^ Pack(b)[5]
  {
  }

  lemma XorFourth(a: word, b: word)
    ensures Pack(a ^ b)[6] == Pack(a)[6] ^ Pack(b)[6] && Pack(a ^ b)[7] == Pack(a)[7] ^ Pack(b)[7]
  {
  }

  /** A word's bytes are combined one by one. */
  lemma XorBytes(a: word, b: word, k: nat)
    requires k < 8
    ensures Pack(a ^ b)[k] == Pack(a)[k] ^ Pack(b)[k]
  {
    hide Pack;
    XorFirst(a, b);
    XorSecond(a, b);
    XorThird(a, b);
    XorFourth(a, b);
    assert k == 0 || k == 1 || k == 2 || k == 3 || k == 4 || k == 5 || k == 6 || k == 7;
  }

  function Mixed(a: word, b: word): word { a ^ b }
  function MixedByte(a: octet, b: octet): octet { a ^ b }

  lemma MixedBytes(a: word, b: word, k: nat)
    requires k < 8
    ensures Pack(Mixed(a, b))[k] == MixedByte(Pack(a)[k], Pack(b)[k])
  {
    hide Pack;
    XorBytes(a, b, k);
  }

  lemma MixedIs(a: word, b: word)
    ensures Mixed(a, b) == a ^ b
  {
  }

  lemma PlainIsMixed(chain: Chain, cipher: word)
    ensures Plain(chain, cipher) == Mixed(Mixed(chain.previous, chain.xor), cipher)
  {
    hide Mixed;
    MixedIs(chain.previous, chain.xor);
    MixedIs(chain.previous ^ chain.xor, cipher);
  }

  lemma ThreeBytes(a: octet, b: octet, c: octet)
    ensures MixedByte(MixedByte(a, b), c) == c ^ a ^ b
  {
  }

  lemma FlipTwice(x: word)
    ensures x ^ XOR_FLIP ^ XOR_FLIP == x
  {
  }

  function XorAt(chain: Chain, j: nat): word {
    if j / 8 % 2 == 0 then chain.xor else chain.xor ^ XOR_FLIP
  }

  lemma PlainByte(chain: Chain, data: seq<octet>, k: nat)
    requires k < 8 <= |data|
    ensures Pack(Plain(chain, Unpack(data, 0)))[k] == data[k] ^ Pack(chain.previous)[k] ^ Pack(chain.xor)[k]
  {
    hide Pack, Unpack, Plain;
    var cipher := Unpack(data, 0);
    PackUnpack(data, 0);
    assert Pack(cipher)[k] == data[0..8][k] == data[k];
    PlainByteOf(chain, cipher, k);
  }

  lemma PlainByteOf(chain: Chain, cipher: word, k: nat)
    requires k < 8
    ensures Pack(Plain(chain, cipher))[k] == Pack(cipher)[k] ^ Pack(chain.previous)[k] ^ Pack(chain.xor)[k]
  {
    hide Pack, Plain, Mixed, MixedByte;
    PlainIsMixed(chain, cipher);
    MixedBytes(chain.previous, chain.xor, k);
    MixedBytes(Mixed(chain.previous, chain.xor), cipher, k);
    ThreeBytes(Pack(chain.previous)[k], Pack(chain.xor)[k], Pack(cipher)[k]);
  }

  lemma XorGoesOn(chain: Chain, cipher: word, j: nat)
    requires j >= 8
    ensures XorAt(Next(chain, cipher), j - 8) == XorAt(chain, j) && (j - 8) % 8 == j % 8
  {
    FlipTwice(chain.xor);
    assert (j - 8) / 8 == j / 8 - 1;
  }

  lemma {:induction false} DecryptedByte(chain: Chain, data: seq<octet>, j: nat)
    requires Aligned(data) && j < |data|
    ensures Decrypted(chain, data)[j] ==
            data[j] ^ (if j < 8 then Pack(chain.previous)[j] else data[j - 8]) ^ Pack(XorAt(chain, j))[j % 8]
    decreases |data|
  {
    hide Pack, Unpack, Plain, Next, XorAt;
    var cipher := Unpack(data, 0);
    HeadAndTail(Pack(Plain(chain, cipher)), Decrypted(Next(chain, cipher), data[8..]), Decrypted(chain, data));
    var plain := Decrypted(chain, data);
    if j < 8 {
      PlainByte(chain, data, j);
      assert plain[j] == plain[0..8][j];
      FirstXor(chain, j);
    } else {
      DecryptedByte(Next(chain, cipher), data[8..], j - 8);
      assert plain[j] == plain[8..][j - 8] && data[8..][j - 8] == data[j];
      XorGoesOn(chain, cipher, j);
      PackUnpack(data, 0);
      Remembers(chain, cipher);
      if j < 16 {
        assert data[0..8][j - 8] == data[j - 8];
      } else {
        assert data[8..][j - 16] == data[j - 8];
      }
    }
  }

  lemma FirstXor(chain: Chain, j: nat)
    requires j < 8
    ensures XorAt(chain, j) == chain.xor && j % 8 == j
  {
  }

  lemma Remembers(chain: Chain, cipher: word)
    ensures Next(chain, cipher).previous == cipher
  {
  }

  lemma KeyBytes()
    ensures Pack(INITIAL_XOR) == INITIAL_BYTES && Pack(XOR_FLIP) == FLIP_BYTES
    ensures Pack(0) == [0, 0, 0, 0, 0, 0, 0, 0]
  {
  }

  lemma KeyByte(j: nat)
    ensures Pack(XorAt(START, j))[j % 8] ==
            INITIAL_BYTES[j % 8] ^ (if j % 16 < 8 then 0 else FLIP_BYTES[j % 8])
  {
    hide Pack;
    KeyBytes();
    EvenWord(j);
    XorBytes(INITIAL_XOR, XOR_FLIP, j % 8);
  }

  lemma XorAssociates(a: octet, b: octet, c: octet, d: octet)
    ensures a ^ b ^ (c ^ d) == a ^ b ^ c ^ d
  {
  }

  /** A plain byte is its cipher byte combined with the cipher byte eight places before it,
      with the initial value's byte and, in every second word, with the flip value's. */
  lemma DecryptsExactly(data: seq<octet>, j: nat)
    requires Aligned(data) && j < |data|
    ensures Decrypted(START, data)[j] ==
            data[j] ^ (if j < 8 then 0 else data[j - 8]) ^ INITIAL_BYTES[j % 8]
            ^ (if j % 16 < 8 then 0 else FLIP_BYTES[j % 8])
  {
    hide Pack, Decrypted, XorAt;
    DecryptedByte(START, data, j);
    KeyByte(j);
    KeyBytes();
    assert j < 8 ==> Pack(START.previous)[j] == 0;
    XorAssociates(data[j], if j < 8 then 0 else data[j - 8], INITIAL_BYTES[j % 8],
      if j % 16 < 8 then 0 else FLIP_BYTES[j % 8]);
  }

  lemma EvenWord(j: nat)
    ensures j / 8 % 2 == 0 <==> j % 16 < 8
  {
  }

  // ---------------------------------------------------------------- the stream

  datatype TacError = ChunkTooSmall | Misaligned | PaddingTooLong | SameFile

  function Concat(pieces: seq<seq<octet>>): (whole: seq<octet>)
    ensures AllAligned(pieces) ==> Aligned(whole)
  {
    if pieces == [] then [] else pieces[0] + Concat(pieces[1..])
  }

  ghost predicate AllAligned(pieces: seq<seq<octet>>) {
    forall i :: 0 <= i < |pieces| ==> Aligned(pieces[i])
  }

  /** One word at a time, in place in the output buffer. */
  method DecryptChunk(chain: Chain, encrypted: seq<octet>) returns (output: array<octet>, next: Chain)
    requires Aligned(encrypted)
    ensures fresh(output) && output[..] == Decrypted(chain, encrypted) && next == After(chain, encrypted)
  {
    hide Join, Pack, Unpack, Plain, Next, Decrypted, After, Aligned;
    EmptyStream(chain);
    output := new octet[|encrypted|](_ => 0);
    var previousInput, xorValue := chain.previous, chain.xor;
    var offset := 0;
    ghost var words := 0;
    AlignedPrefixOf(encrypted, 0);
    while offset < |encrypted|
      invariant 0 <= offset == 8 * words <= |encrypted| && Aligned(encrypted[..offset])
      invariant output[..offset] == Decrypted(chain, encrypted[..offset])
      invariant Chain(previousInput, xorValue) == After(chain, encrypted[..offset])
    {
      AlignedPrefixOf(encrypted, words);
      AlignedPrefixOf(encrypted, words + 1);
      var currentInput := Unpack(encrypted, offset);
      var value := previousInput ^ xorValue ^ currentInput;
      ghost var here, done := Chain(previousInput, xorValue), output[..offset];
      ChainStep(previousInput, xorValue, currentInput);
      PutWord(output, offset, Pack(value));
      OneMoreWord(chain, encrypted, offset, here, value);
      assert output[..offset + 8] == done + Pack(value);
      words := words + 1;
      xorValue := xorValue ^ XOR_FLIP;
      previousInput := currentInput;
      offset := offset + 8;
    }
    assert encrypted[..offset] == encrypted && output[..offset] == output[..];
    next := Chain(previousInput, xorValue);
  }

  lemma ChainStep(previous: word, xor: word, cipher: word)
    ensures Plain(Chain(previous, xor), cipher) == previous ^ xor ^ cipher
    ensures Next(Chain(previous, xor), cipher) == Chain(cipher, xor ^ XOR_FLIP)
  {
  }

  method PutWord(output: array<octet>, offset: nat, packed: seq<octet>)
    requires |packed| == 8 && offset + 8 <= output.Length
    modifies output
    ensures output[..offset + 8] == old(output[..offset]) + packed
  {
    for k := 0 to 8
      invariant output[..offset] == old(output[..offset])
      invariant output[offset..offset + k] == packed[..k]
    {
      output[offset + k] := packed[k];
    }
    assert output[..offset + 8] == output[..offset] + output[offset..offset + 8];
  }

  lemma OneWord(chain: Chain, one: seq<octet>)
    requires |one| == 8
    ensures Decrypted(chain, one) == Pack(Plain(chain, Unpack(one, 0)))
    ensures After(chain, one) == Next(chain, Unpack(one, 0))
  {
    hide Join, Pack, Unpack;
    assert one[8..] == [];
  }

  lemma OneMoreWord(chain: Chain, data: seq<octet>, offset: nat, here: Chain, value: word)
    requires offset + 8 <= |data| && Aligned(data[..offset]) && Aligned(data[..offset + 8])
    requires here == After(chain, data[..offset]) && value == Plain(here, Unpack(data, offset))
    ensures Decrypted(chain, data[..offset + 8]) == Decrypted(chain, data[..offset]) + Pack(value)
    ensures After(chain, data[..offset + 8]) == Next(here, Unpack(data, offset))
  {
    hide Join, Pack, Decrypted, After, Plain, Next;
    var one := data[offset..offset + 8];
    assert data[..offset + 8] == data[..offset] + one;
    DecryptedSplit(chain, data[..offset], one);
    OneWord(here, one);
    assert Unpack(one, 0) == Unpack(data, offset);
  }

  /** The leading pieces whose lengths are multiples of eight. */
  function AlignedPrefix(pieces: seq<seq<octet>>): (n: nat)
    ensures n <= |pieces| && AllAligned(pieces[..n])
    ensures n < |pieces| ==> !Aligned(pieces[n])
  {
    if pieces == [] || !Aligned(pieces[0]) then 0
    else
      var n := AlignedPrefix(pieces[1..]);
      assert pieces[..n + 1] == [pieces[0]] + pieces[1..][..n];
      n + 1
  }

  /** Decrypts what successive reads return before the empty read that ends the
      stream and writes each decrypted piece out; a misaligned piece stops it after
      what came before. */
  method DecryptReads(pieces: seq<seq<octet>>) returns (r: Result<nat, TacError>, destination: seq<octet>)
    requires forall i :: 0 <= i < |pieces| ==> pieces[i] != []
    ensures destination == Decrypted(START, Concat(pieces[..AlignedPrefix(pieces)]))
    ensures r == if AlignedPrefix(pieces) == |pieces| then Success(|destination|) else Failure(Misaligned)
  {
    hide Join, Pack, Decrypted, After;
    var chain, written := START, 0;
    destination := [];
    EmptyStream(START);
    for i := 0 to |pieces|
      invariant AllAligned(pieces[..i])
      invariant destination == Decrypted(START, Concat(pieces[..i])) && chain == After(START, Concat(pieces[..i]))
      invariant written == |destination|
    {
      if |pieces[i]| % 8 != 0 {
        PrefixIs(pieces, i);
        return Failure(Misaligned), destination;
      }
      var output, next := DecryptChunk(chain, pieces[i]);
      ConcatOneMore(pieces, i);
      DecryptedSplit(START, Concat(pieces[..i]), pieces[i]);
      destination := destination + output[..];
      written := written + output.Length;
      chain := next;
    }
    PrefixIs(pieces, |pieces|);
    r := Success(written);
  }

  lemma EmptyStream(chain: Chain)
    ensures Decrypted(chain, []) == [] && After(chain, []) == chain
  {
  }

  lemma {:induction false} PrefixIs(pieces: seq<seq<octet>>, i: nat)
    requires i <= |pieces| && AllAligned(pieces[..i]) && (i < |pieces| ==> !Aligned(pieces[i]))
    ensures AlignedPrefix(pieces) == i
    decreases |pieces|
  {
    if i > 0 {
      assert pieces[..i] == [pieces[0]] + pieces[1..][..i - 1];
      assert pieces[..i][0] == pieces[0];
      assert pieces[..i][1..] == pieces[1..][..i - 1];
      PrefixIs(pieces[1..], i - 1);
    }
  }

  lemma {:induction false} ConcatSplit(a: seq<seq<octet>>, b: seq<seq<octet>>)
    ensures Concat(a + b) == Concat(a) + Concat(b)
  {
    if a == [] {
      assert a + b == b;
    } else {
      assert (a + b)[1..] == a[1..] + b;
      ConcatSplit(a[1..], b);
    }
  }

  lemma ConcatOneMore(pieces: seq<seq<octet>>, i: nat)
    requires i < |pieces|
    ensures Concat(pieces[..i + 1]) == Concat(pieces[..i]) + pieces[i]
  {
    assert pieces[..i + 1] == pieces[..i] + [pieces[i]];
    ConcatSplit(pieces[..i], [pieces[i]]);
    assert [pieces[i]][1..] == [];
  }

  /** What `read(size)` returns until the end of a file. */
  function Reads(source: seq<octet>, size: nat): (pieces: seq<seq<octet>>)
    requires size > 0
    ensures Concat(pieces) == source && forall i :: 0 <= i < |pieces| ==> pieces[i] != []
    decreases |source|
  {
    if source == [] then []
    else if |source| <= size then
      assert [source][1..] == [];
      [source]
    else [source[..size]] + Reads(source[size..], size)
  }

  /** With a chunk size that is a multiple of eight, only the last read of a
      misaligned file is misaligned. */
  lemma {:induction false} ReadsAligned(source: seq<octet>, size: nat)
    requires size > 0 && size % 8 == 0
    ensures AlignedPrefix(Reads(source, size)) ==
            if Aligned(source) then |Reads(source, size)| else |Reads(source, size)| - 1
    decreases |source|
  {
    hide Concat;
    if |source| > size {
      var rest := source[size..];
      ReadsAligned(rest, size);
      AlignedRest(source, size);
      assert Reads(source, size)[1..] == Reads(rest, size);
    }
  }

  /** How many of `length` bytes full reads return. */
  function WholeReads(length: nat, size: nat): (whole: nat)
    requires size > 0
    ensures whole <= length < whole + size
    ensures size % 8 == 0 ==> whole % 8 == 0
    decreases length
  {
    if length < size then 0 else size + WholeReads(length - size, size)
  }

  lemma ReadsFirst(source: seq<octet>, size: nat)
    requires 0 < size < |source|
    ensures Reads(source, size) == [source[..size]] + Reads(source[size..], size)
    ensures Reads(source[size..], size) != []
  {
  }

  lemma ConcatFront(first: seq<octet>, rest: seq<seq<octet>>)
    requires rest != []
    ensures Concat(([first] + rest)[..|rest|]) == first + Concat(rest[..|rest| - 1])
  {
    assert ([first] + rest)[..|rest|] == [first] + rest[..|rest| - 1];
    assert ([first] + rest[..|rest| - 1])[1..] == rest[..|rest| - 1];
  }

  lemma CutAfter(source: seq<octet>, size: nat, more: nat)
    requires size + more <= |source|
    ensures source[..size + more] == source[..size] + source[size..][..more]
  {
  }

  /** What precedes a last short read is the full reads. */
  lemma {:induction false} ReadsBeforeLast(source: seq<octet>, size: nat)
    requires size > 0 && WholeReads(|source|, size) != |source|
    ensures Concat(Reads(source, size)[..|Reads(source, size)| - 1]) == source[..WholeReads(|source|, size)]
    decreases |source|
  {
    if |source| > size {
      hide Concat, Reads;
      var rest := source[size..];
      ReadsBeforeLast(rest, size);
      ReadsFirst(source, size);
      ConcatFront(source[..size], Reads(rest, size));
      CutAfter(source, size, WholeReads(|rest|, size));
    }
  }

  function ChunkSize(requested: int): (size: int)
    ensures size % 8 == 0 && size <= requested < size + 8
  {
    requested - requested % 8
  }

  /** For every chunk size the stream fails exactly on a length that is no
      multiple of eight, having written its full reads, and otherwise writes the same bytes. */
  method DecryptStream(source: seq<octet>, chunkSize: int) returns (r: Result<nat, TacError>, destination: seq<octet>)
    ensures chunkSize < 8 ==> r == Failure(ChunkTooSmall) && destination == []
    ensures chunkSize >= 8 && !Aligned(source) ==>
              && r == Failure(Misaligned)
              && var whole := WholeReads(|source|, ChunkSize(chunkSize));
                 whole % 8 == 0 && destination == Decrypted(START, source[..whole])
    ensures chunkSize >= 8 && Aligned(source) ==> r == Success(|source|) && destination == Decrypted(START, source)
  {
    hide Join, Pack, Decrypted;
    if chunkSize < 8 {
      return Failure(ChunkTooSmall), [];
    }
    var pieces := Reads(source, ChunkSize(chunkSize));
    ReadsAligned(source, ChunkSize(chunkSize));
    assert pieces[..|pieces|] == pieces;
    if |source| % 8 != 0 {
      ReadsBeforeLast(source, ChunkSize(chunkSize));
    }
    r, destination := DecryptReads(pieces);
  }

  // ---------------------------------------------------------------- files and padding

  const CHUNK := 1024 * 1024

  function PaddingCount(last: octet): nat {
    (last & 0x0F) as int
  }

  function Stripped(plain: seq<octet>): Result<seq<octet>, TacError> {
    if plain == [] then Success(plain)
    else
      var padding := PaddingCount(plain[|plain| - 1]);
      if padding == 0 then Success(plain)
      else if padding > |plain| then Failure(PaddingTooLong)
      else Success(plain[..|plain| - padding])
  }

  /** The low nibble of the last byte says how many bytes go. */
  lemma StripsExactly(plain: seq<octet>)
    requires plain != []
    ensures var count := (plain[|plain| - 1] & 0x0F) as int;
            Stripped(plain) == if count <= |plain| then Success(plain[..|plain| - count]) else Failure(PaddingTooLong)
  {
    assert plain[..|plain|] == plain;
  }

  function FileSpec(source: seq<octet>): Result<seq<octet>, TacError> {
    if !Aligned(source) then Failure(Misaligned) else Stripped(Decrypted(START, source))
  }

  /** Decrypts to a temporary file and replaces the destination only on success;
      refuses two resolved paths that are the same. */
  method DecryptFile(sourcePath: string, destinationPath: string, source: seq<octet>, destination: Option<seq<octet>>)
    returns (r: Result<nat, TacError>, after: Option<seq<octet>>)
    ensures sourcePath == destinationPath ==> after == destination && r == Failure(SameFile)
    ensures sourcePath != destinationPath && FileSpec(source).Success? ==>
              after == Some(FileSpec(source).value) && r == Success(|FileSpec(source).value|)
    ensures sourcePath != destinationPath && FileSpec(source).Failure? ==>
              after == destination && r == Failure(FileSpec(source).error)
  {
    hide Join, Pack, Decrypted, PaddingCount;
    if sourcePath == destinationPath {
      return Failure(SameFile), destination;
    }
    if |source| % 8 != 0 {
      return Failure(Misaligned), destination;
    }
    var streamed, temporary := DecryptStream(source, CHUNK);
    var written := streamed.value;
    if written != 0 {
      var padding := PaddingCount(temporary[|temporary| - 1]);
      if padding != 0 {
        if padding > written {
          return Failure(PaddingTooLong), destination;
        }
        written := written - padding;
        temporary := temporary[..written];
      }
    }
    return Success(written), Some(temporary);
  }

  lemma TailOfPadded(payload: seq<octet>, filler: seq<octet>, last: octet)
    ensures var padded := payload + filler + [last];
            && padded[|padded| - 1] == last
            && padded[..|padded| - (|filler| + 1)] == payload
  {
  }

  /** Any payload padded to a word boundary, the count in the low nibble of the
      last byte, then encrypted, comes back exactly. */
  lemma PaddedRoundTrip(payload: seq<octet>, filler: seq<octet>, last: octet)
    requires PaddingCount(last) == |filler| + 1
    requires Aligned(payload + filler + [last])
    ensures FileSpec(Encrypted(START, payload + filler + [last])) == Success(payload)
  {
    hide Join, Pack, Unpack, Decrypted, Encrypted, PaddingCount;
    var padded := payload + filler + [last];
    DecryptEncrypt(START, padded);
    TailOfPadded(payload, filler, last);
  }
}
