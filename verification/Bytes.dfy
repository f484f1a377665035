/** Bytes and fixed-width little- and big-endian fields. */
module Bytes {
  type byte = b: int | 0 <= b < 256

  const U16 := 0x1_0000
  const U32 := 0x1_0000_0000

  type u16 = v: int | 0 <= v < 0x1_0000
  type u32 = v: int | 0 <= v < 0x1_0000_0000

  // ---------------------------------------------------------------- hexadecimal digits

  function HexDigit(c: char): (v: int)
    ensures -1 <= v < 16
  {
    if '0' <= c <= '9' then c as int - '0' as int
    else if 'a' <= c <= 'f' then c as int - 'a' as int + 10
    else if 'A' <= c <= 'F' then c as int - 'A' as int + 10
    else -1
  }

  function LowerHex(d: int): (c: char)
    requires 0 <= d < 16
    ensures HexDigit(c) == d && ('0' <= c <= '9' || 'a' <= c <= 'f')
  {
    if d < 10 then ('0' as int + d) as char else ('a' as int + d - 10) as char
  }

  // ---------------------------------------------------------------- fields

  function Le16(v: u16): (s: seq<byte>)
    ensures |s| == 2
  {
    [v % 256, v / 256]
  }

  function Le32(v: u32): (s: seq<byte>)
    ensures |s| == 4
  {
    [v % 256, v / 256 % 256, v / 256 / 256 % 256, v / 256 / 256 / 256]
  }

  function Be32(v: u32): (s: seq<byte>)
    ensures |s| == 4
  {
    [v / 256 / 256 / 256, v / 256 / 256 % 256, v / 256 % 256, v % 256]
  }

  function Be16(v: u16): (s: seq<byte>)
    ensures |s| == 2
  {
    [v / 256, v % 256]
  }

  function ReadLe16(s: seq<byte>, at: int): u16
    requires 0 <= at && at + 2 <= |s|
  {
    (s[at] as int) + 256 * (s[at + 1] as int)
  }

  function ReadLe32(s: seq<byte>, at: int): u32
    requires 0 <= at && at + 4 <= |s|
  {
    (s[at] as int) + 256 * (s[at + 1] as int) + 0x1_0000 * (s[at + 2] as int) + 0x100_0000 * (s[at + 3] as int)
  }

  function ReadBe16(s: seq<byte>, at: int): u16
    requires 0 <= at && at + 2 <= |s|
  {
    256 * (s[at] as int) + (s[at + 1] as int)
  }

  function ReadBe32(s: seq<byte>, at: int): u32
    requires 0 <= at && at + 4 <= |s|
  {
    0x100_0000 * (s[at] as int) + 0x1_0000 * (s[at + 1] as int) + 256 * (s[at + 2] as int) + (s[at + 3] as int)
  }

  /** A four-byte field reads back as the value written. */
  lemma Le32RoundTrip(s: seq<byte>, at: int, v: u32)
    requires 0 <= at && at + 4 <= |s| && s[at..at + 4] == Le32(v)
    ensures ReadLe32(s, at) == v
  {
    var f := s[at..at + 4];
    assert f[0] == s[at] && f[1] == s[at + 1] && f[2] == s[at + 2] && f[3] == s[at + 3];
  }

  lemma Le16RoundTrip(s: seq<byte>, at: int, v: u16)
    requires 0 <= at && at + 2 <= |s| && s[at..at + 2] == Le16(v)
    ensures ReadLe16(s, at) == v
  {
    var f := s[at..at + 2];
    assert f[0] == s[at] && f[1] == s[at + 1];
  }

  lemma Be16RoundTrip(s: seq<byte>, at: int, v: u16)
    requires 0 <= at && at + 2 <= |s| && s[at..at + 2] == Be16(v)
    ensures ReadBe16(s, at) == v
  {
    var f := s[at..at + 2];
    assert f[0] == s[at] && f[1] == s[at + 1];
  }

  lemma Be32RoundTrip(s: seq<byte>, at: int, v: u32)
    requires 0 <= at && at + 4 <= |s| && s[at..at + 4] == Be32(v)
    ensures ReadBe32(s, at) == v
  {
    var f := s[at..at + 4];
    assert f[0] == s[at] && f[1] == s[at + 1] && f[2] == s[at + 2] && f[3] == s[at + 3];
  }

  /** Distinct fields have distinct values, so a field is determined by its value. */
  lemma Be32Injective(s: seq<byte>, at: int)
    requires 0 <= at && at + 4 <= |s|
    ensures s[at..at + 4] == Be32(ReadBe32(s, at))
  {
    var a: int, b: int, c: int, d: int := s[at], s[at + 1], s[at + 2], s[at + 3];
    var v := ReadBe32(s, at);
    assert v == 256 * (256 * (256 * a + b) + c) + d;
    assert v / 256 == 256 * (256 * a + b) + c;
    assert v / 256 / 256 == 256 * a + b;
    assert s[at..at + 4] == [s[at], s[at + 1], s[at + 2], s[at + 3]];
  }

  lemma Be16Injective(s: seq<byte>, at: int)
    requires 0 <= at && at + 2 <= |s|
    ensures s[at..at + 2] == Be16(ReadBe16(s, at))
  {
    assert s[at..at + 2] == [s[at], s[at + 1]];
  }

  /** `data` with `patch` written over it at `at`. */
  function Splice(data: seq<byte>, at: int, patch: seq<byte>): (r: seq<byte>)
    requires 0 <= at && at + |patch| <= |data|
    ensures |r| == |data|
    ensures forall p :: 0 <= p < |data| ==> r[p] == if at <= p < at + |patch| then patch[p - at] else data[p]
  {
    data[..at] + patch + data[at + |patch|..]
  }

  lemma SpliceSame(data: seq<byte>, at: int, patch: seq<byte>)
    requires 0 <= at && at + |patch| <= |data| && data[at..at + |patch|] == patch
    ensures Splice(data, at, patch) == data
  {
  }

  /** The in-place slice assignment of a byte array. */
  method WriteBytes(result: array<byte>, at: nat, patch: seq<byte>)
    requires at + |patch| <= result.Length
    modifies result
    ensures result[..] == Splice(old(result[..]), at, patch)
  {
    for i := 0 to |patch|
      invariant forall p :: 0 <= p < result.Length ==>
                  result[p] == if at <= p < at + i then patch[p - at] else old(result[p])
    {
      result[at + i] := patch[i];
    }
  }
}
