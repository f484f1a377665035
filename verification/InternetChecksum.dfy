/** The Internet checksum of RFC 1071, as the image tool and the ping collector compute it. */
module InternetChecksum {
  import opened Bytes

  const ONES := 0xFFFF

  /** The plain sum of the big-endian 16-bit words; an odd last byte is padded with zero. */
  function WordSum(data: seq<byte>): nat {
    var n := |data|;
    if n == 0 then 0
    else if n % 2 == 1 then WordSum(data[..n - 1]) + 256 * data[n - 1] as int
    else WordSum(data[..n - 2]) + 256 * data[n - 2] as int + data[n - 1] as int
  }

  /** The same words read little-endian. */
  function LeSum(data: seq<byte>): nat {
    var n := |data|;
    if n == 0 then 0
    else if n % 2 == 1 then LeSum(data[..n - 1]) + data[n - 1] as int
    else LeSum(data[..n - 2]) + data[n - 2] as int + 256 * data[n - 1] as int
  }

  lemma LastWord(data: seq<byte>)
    requires data != []
    ensures var n := |data|;
            && (n % 2 == 1 ==> WordSum(data) == WordSum(data[..n - 1]) + 256 * data[n - 1] as int
                               && LeSum(data) == LeSum(data[..n - 1]) + data[n - 1] as int)
            && (n % 2 == 0 ==> WordSum(data) == WordSum(data[..n - 2]) + 256 * data[n - 2] as int + data[n - 1] as int
                               && LeSum(data) == LeSum(data[..n - 2]) + data[n - 2] as int + 256 * data[n - 1] as int)
  {
  }

  lemma EmptySums()
    ensures WordSum([]) == LeSum([]) == 0
  {
  }

  /** Byte by byte: in the big-endian sum a byte at an even position counts 256 times and one
      at an odd position once, and the other way round in the little-endian one. */
  lemma OneMoreByte(data: seq<byte>, last: byte)
    ensures WordSum([]) == LeSum([]) == 0
    ensures WordSum(data + [last]) == WordSum(data) + if |data| % 2 == 0 then 256 * (last as int) else last as int
    ensures LeSum(data + [last]) == LeSum(data) + if |data| % 2 == 0 then last as int else 256 * (last as int)
  {
    hide WordSum, LeSum;
    var more := data + [last];
    EmptySums();
    LastWord(more);
    assert more[..|data|] == data;
    if |data| % 2 == 1 {
      LastWord(data);
      assert more[..|data| - 1] == data[..|data| - 1];
    }
  }

  /** The one's complement value of a plain sum: congruent to it modulo 0xFFFF,
      and zero only for a zero sum. */
  function OnesValue(sum: nat): (v: u16)
    ensures v == 0 <==> sum == 0
    ensures (sum - v) % ONES == 0
  {
    if sum == 0 then 0 else 1 + (sum - 1) % ONES
  }

  /** RFC 1071 addition: the carry out of 16 bits is added back. */
  function AddEndAround(a: u16, b: u16): u16 {
    if (a as int) + (b as int) > ONES then (a as int) + (b as int) - ONES else (a as int) + (b as int)
  }

  function Complement(v: u16): u16 { ONES - v }

  function Fold(total: nat): nat { total % U16 + total / U16 }

  lemma ModUnique(a: nat, b: nat, m: int)
    requires 1 <= a <= ONES && 1 <= b <= ONES && a - b == ONES * m
    ensures a == b
  {
  }

  /** The value is determined by the congruence and by being zero or not. */
  lemma OnesValueUnique(sum: nat, v: u16, q: int)
    requires v == 0 <==> sum == 0
    requires sum - v == ONES * q
    ensures OnesValue(sum) == v
  {
    if sum != 0 {
      ModUnique(OnesValue(sum), v, q - (sum - 1) / ONES);
    }
  }

  /** Folding keeps the one's complement value and shrinks anything wider than 16 bits. */
  lemma FoldKeepsValue(total: nat)
    ensures OnesValue(Fold(total)) == OnesValue(total)
    ensures total >= U16 ==> Fold(total) < total
  {
    var v := OnesValue(total);
    var q := if total == 0 then 0 else (total - 1) / ONES;
    assert total - v == ONES * q;
    assert Fold(total) - v == ONES * (q - total / U16);
    OnesValueUnique(Fold(total), v, q - total / U16);
  }

  /** One fold after adding one word to a folded total is the end-around addition
      and stays within 16 bits, so the trailing fold loop has nothing to do. */
  lemma FoldAfterWord(total: u16, word: u16)
    ensures Fold((total as int) + (word as int)) == AddEndAround(total, word)
  {
  }

  /** End-around addition of the words, one by one, is the value of their plain sum. */
  lemma AddEndAroundValue(sum: nat, word: u16)
    ensures AddEndAround(OnesValue(sum), word) == OnesValue(sum + word)
  {
    var v := AddEndAround(OnesValue(sum), word);
    var q := if sum == 0 then 0 else (sum - 1) / ONES;
    assert sum - OnesValue(sum) == ONES * q;
    OnesValueUnique(sum + word, v, if (OnesValue(sum) as int) + (word as int) > ONES then q + 1 else q);
  }

  /** The big-endian checksum with a fold after every word. */
  method InternetChecksumOf(data: seq<byte>) returns (checksum: u16)
    ensures checksum == Complement(OnesValue(WordSum(data)))
  {
    var total: nat := 0;
    var offset := 0;
    while offset < |data|
      invariant 0 <= offset <= |data| && (offset < |data| ==> offset % 2 == 0)
      invariant total == OnesValue(WordSum(data[..offset]))
    {
      var next := if offset + 2 <= |data| then offset + 2 else |data|;
      var word: u16 := if offset + 2 <= |data| then 256 * data[offset] as int + data[offset + 1] as int
                       else 256 * data[offset] as int;
      assert data[..next][..offset] == data[..offset];
      assert WordSum(data[..next]) == WordSum(data[..offset]) + word;
      FoldAfterWord(total, word);
      AddEndAroundValue(WordSum(data[..offset]), word);
      total := total + word;
      total := total % U16 + total / U16;
      offset := next;
    }
    assert data[..|data|] == data;
    assert total / U16 == 0;
    total := FoldDown(total);
    checksum := ONES - total;
  }

  /** The fold loop that ends both functions; it leaves a 16-bit total alone. */
  method FoldDown(sum: nat) returns (total: u16)
    ensures total == OnesValue(sum)
    ensures sum < U16 ==> total == sum
  {
    var running: nat := sum;
    while running / U16 != 0
      invariant OnesValue(running) == OnesValue(sum)
      invariant sum < U16 ==> running == sum
      decreases running
    {
      FoldKeepsValue(running);
      running := running % U16 + running / U16;
    }
    ShortIsItsValue(running);
    total := running;
  }

  lemma ShortIsItsValue(v: u16)
    ensures OnesValue(v) == v
  {
    OnesValueUnique(v, v, 0);
  }

  lemma AddWrapped(sum: nat, word: nat)
    ensures (sum % U32 + word) % U32 == (sum + word) % U32
  {
    assert sum == sum % U32 + U32 * (sum / U32);
    assert (sum % U32 + word) / U32 == (sum + word) / U32 - sum / U32;
  }

  lemma LeSumStep(data: seq<byte>, at: nat, next: nat)
    requires at % 2 == 0 && at < next <= |data| && next <= at + 2 && (next == at + 1 ==> next == |data|)
    ensures LeSum(data[..next]) ==
            LeSum(data[..at]) + data[at] as int + if next == at + 2 then 256 * data[at + 1] as int else 0
  {
    assert data[..next][..at] == data[..at];
  }

  /** The little-endian checksum with a 32-bit running sum, folded at the end. */
  method IcmpChecksum(data: seq<byte>) returns (checksum: u16)
    ensures checksum == Complement(OnesValue(LeSum(data) % U32))
  {
    var sum: u32 := 0;
    var word, length := 0, |data|;
    while length > 1
      invariant 0 <= length && word + length == |data| && word % 2 == 0
      invariant sum == LeSum(data[..word]) % U32
    {
      LeSumStep(data, word, word + 2);
      AddWrapped(LeSum(data[..word]), data[word] as int + 256 * data[word + 1] as int);
      sum := (sum as int + data[word] as int + 256 * data[word + 1] as int) % U32;
      word := word + 2;
      length := length - 2;
    }
    if length > 0 {
      LeSumStep(data, word, word + 1);
      AddWrapped(LeSum(data[..word]), data[word] as int);
      sum := (sum as int + data[word] as int) % U32;
      word := word + 1;
    }
    assert data[..word] == data;
    var folded := FoldDown(sum);
    checksum := ONES - folded;
  }

  // ---------------------------------------------------------------- byte order independence

  function HighSum(data: seq<byte>): nat {
    var n := |data|;
    if n == 0 then 0
    else if n % 2 == 1 then HighSum(data[..n - 1]) + data[n - 1]
    else HighSum(data[..n - 2]) + data[n - 2]
  }

  lemma {:induction false} SwappedSums(data: seq<byte>)
    ensures 256 * WordSum(data) - LeSum(data) == ONES * HighSum(data)
    ensures WordSum(data) == 0 <==> LeSum(data) == 0
    ensures LeSum(data) <= ONES * ((|data| + 1) / 2)
  {
    var n := |data|;
    if n > 0 {
      SwappedSums(if n % 2 == 1 then data[..n - 1] else data[..n - 2]);
    }
  }

  function Swap(v: u16): u16 {
    256 * (v % 256) + v / 256
  }

  lemma SwapValue(data: seq<byte>)
    ensures OnesValue(LeSum(data)) == Swap(OnesValue(WordSum(data)))
  {
    SwappedSums(data);
    var be, le := WordSum(data), LeSum(data);
    var w := OnesValue(be);
    var q := if be == 0 then 0 else (be - 1) / ONES;
    assert be - w == ONES * q;
    assert 256 * w - Swap(w) == ONES * (w / 256);
    assert le - Swap(w) == ONES * (256 * q - HighSum(data) + w / 256);
    OnesValueUnique(le, Swap(w), 256 * q - HighSum(data) + w / 256);
  }

  lemma StoredSwap(v: u16)
    ensures Le16(Complement(Swap(v))) == Be16(Complement(v))
  {
    assert v == 256 * (v / 256) + v % 256;
    assert Complement(v) == 256 * (255 - v / 256) + (255 - v % 256);
    assert Complement(Swap(v)) == 256 * (255 - v % 256) + (255 - v / 256);
  }

  lemma StoredDiffers(v: u16, w: u16)
    requires Le16(v) == Le16(w)
    ensures v == w
  {
    assert Le16(v)[0] == v % 256 && Le16(v)[1] == v / 256;
    assert Le16(w)[0] == w % 256 && Le16(w)[1] == w / 256;
  }

  /** The two implementations store the same two bytes exactly when the carries
      lost by the 32-bit sum make no difference. */
  lemma SameBytesExactly(data: seq<byte>)
    ensures Le16(Complement(OnesValue(LeSum(data) % U32))) == Be16(Complement(OnesValue(WordSum(data)))) <==>
            LeSum(data) / U32 % ONES == 0 && (LeSum(data) % U32 == 0 ==> LeSum(data) == 0)
  {
    SwapValue(data);
    StoredSwap(OnesValue(WordSum(data)));
    var le := LeSum(data);
    var kept, lost := le % U32, le / U32;
    if Le16(Complement(OnesValue(kept))) == Le16(Complement(OnesValue(le))) {
      StoredDiffers(Complement(OnesValue(kept)), Complement(OnesValue(le)));
    }
    LostCarries(le, kept, lost);
  }

  lemma LostCarries(le: nat, kept: nat, lost: nat)
    requires le == kept + U32 * lost && kept < U32
    ensures OnesValue(kept) == OnesValue(le) <==> lost % ONES == 0 && (kept == 0 ==> le == 0)
  {
    var v: int, w: int := OnesValue(kept), OnesValue(le);
    var p, q := if kept == 0 then 0 else (kept - 1) / ONES, if le == 0 then 0 else (le - 1) / ONES;
    assert kept - v == ONES * p && le - w == ONES * q;
    assert U32 == ONES * 65537 + 1;
    assert w - v == lost + ONES * (65537 * lost + p - q);
    if v == w {
      assert lost == ONES * (q - p - 65537 * lost);
    }
    if lost % ONES == 0 && (kept == 0 ==> le == 0) {
      var m := lost / ONES;
      assert lost == ONES * m;
      assert le - v == ONES * (p + U32 * m);
      OnesValueUnique(le, v, p + U32 * m);
    }
  }

  /** No carry is lost up to 131074 bytes, so the two agree there for every data. */
  lemma SameBytesWhenShort(data: seq<byte>)
    requires |data| <= 131074
    ensures Le16(Complement(OnesValue(LeSum(data) % U32))) == Be16(Complement(OnesValue(WordSum(data))))
  {
    hide LeSum, WordSum, HighSum, OnesValue, Complement, Le16, Be16;
    SwappedSums(data);
    SameBytesExactly(data);
    var le := LeSum(data);
    assert (|data| + 1) / 2 <= 65537;
    assert le < U32;
    assert le / U32 == 0 && le % U32 == le;
  }
}
