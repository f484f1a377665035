/** MAC addresses as six bytes and as canonical lower-case text. */
module MacAddress {
  import opened Wrappers
  import opened Bytes

  type Mac = m: seq<byte> | |m| == 6 witness [0, 0, 0, 0, 0, 0]

  /** Two lower-case digits a byte, joined by colons. */
  function MacText(mac: Mac): (text: string)
    ensures |text| == 17
  {
    seq(17, k requires 0 <= k < 17 =>
      if k % 3 == 2 then ':' else if k % 3 == 0 then LowerHex(mac[k / 3] / 16) else LowerHex(mac[k / 3] % 16))
  }

  predicate IsMacText(text: string) {
    && |text| == 17
    && forall i :: 0 <= i < 6 ==>
         && (i > 0 ==> text[3 * i - 1] == ':')
         && HexDigit(text[3 * i]) >= 0 && HexDigit(text[3 * i + 1]) >= 0
  }

  /** The canonical text is an address that reads back as the same bytes. */
  lemma MacTextReadsBack(mac: Mac)
    ensures IsMacText(MacText(mac))
    ensures forall i :: 0 <= i < 6 ==> mac[i] == 16 * HexDigit(MacText(mac)[3 * i]) + HexDigit(MacText(mac)[3 * i + 1])
  {
    hide HexDigit, LowerHex;
    forall i | 0 <= i < 6
      ensures i > 0 ==> MacText(mac)[3 * i - 1] == ':'
      ensures HexDigit(MacText(mac)[3 * i]) == mac[i] / 16 && HexDigit(MacText(mac)[3 * i + 1]) == mac[i] % 16
    {
      assert (3 * i) / 3 == i && (3 * i + 1) / 3 == i;
    }
  }

  method ParseMac(text: string) returns (mac: Option<Mac>)
    ensures mac.Some? <==> IsMacText(text)
    ensures mac.Some? ==> forall i :: 0 <= i < 6 ==>
              mac.value[i] == 16 * HexDigit(text[3 * i]) + HexDigit(text[3 * i + 1])
  {
    if |text| != 17 {
      return None;
    }
    var out := new byte[6](_ => 0);
    for i := 0 to 6
      invariant forall k :: 0 <= k < i ==>
                  && (k > 0 ==> text[3 * k - 1] == ':')
                  && HexDigit(text[3 * k]) >= 0 && HexDigit(text[3 * k + 1]) >= 0
                  && out[k] == 16 * HexDigit(text[3 * k]) + HexDigit(text[3 * k + 1])
    {
      if i > 0 && text[3 * i - 1] != ':' {
        return None;
      }
      var high, low := HexDigit(text[3 * i]), HexDigit(text[3 * i + 1]);
      if high < 0 || low < 0 {
        return None;
      }
      out[i] := 16 * high + low;
    }
    return Some(out[..]);
  }

  function LowerChar(c: char): char {
    if 'A' <= c <= 'Z' then (c as int + 32) as char else c
  }

  function Lower(text: string): string {
    seq(|text|, i requires 0 <= i < |text| => LowerChar(text[i]))
  }

  lemma LowerDigit(c: char)
    requires HexDigit(c) >= 0
    ensures LowerHex(HexDigit(c)) == LowerChar(c)
  {
  }

  lemma ByteIsLower(text: string, mac: Mac, i: nat)
    requires IsMacText(text) && i < 6
    requires mac[i] == 16 * HexDigit(text[3 * i]) + HexDigit(text[3 * i + 1])
    ensures MacText(mac)[3 * i] == LowerChar(text[3 * i])
    ensures MacText(mac)[3 * i + 1] == LowerChar(text[3 * i + 1])
    ensures i > 0 ==> MacText(mac)[3 * i - 1] == LowerChar(text[3 * i - 1])
  {
    hide HexDigit, LowerHex;
    LowerDigit(text[3 * i]);
    LowerDigit(text[3 * i + 1]);
    assert mac[i] / 16 == HexDigit(text[3 * i]) && mac[i] % 16 == HexDigit(text[3 * i + 1]);
  }

  /** The canonical text of a parsed address is its lower-case spelling, so the
      case-blind order of the stored texts is the order of the canonical ones. */
  lemma CanonicalIsLower(text: string, mac: Mac)
    requires IsMacText(text)
    requires forall i :: 0 <= i < 6 ==> mac[i] == 16 * HexDigit(text[3 * i]) + HexDigit(text[3 * i + 1])
    ensures MacText(mac) == Lower(text)
  {
    hide HexDigit, MacText, LowerHex;
    forall k | 0 <= k < 17
      ensures MacText(mac)[k] == Lower(text)[k]
    {
      ByteIsLower(text, mac, k / 3);
      if k % 3 == 2 {
        ByteIsLower(text, mac, k / 3 + 1);
      }
    }
  }

  /** The order of JavaScript strings. */
  predicate TextLess(a: string, b: string) {
    if b == "" then false
    else if a == "" then true
    else a[0] < b[0] || (a[0] == b[0] && TextLess(a[1..], b[1..]))
  }

  lemma {:induction false} TextLessTotal(a: string, b: string)
    ensures TextLess(a, b) || TextLess(b, a) || a == b
    ensures !(TextLess(a, b) && TextLess(b, a)) && !TextLess(a, a)
    decreases |a|
  {
    if a != "" && b != "" {
      TextLessTotal(a[1..], b[1..]);
      TextLessTotal(a[1..], a[1..]);
    } else if a != "" {
      TextLessTotal(a[1..], a[1..]);
    }
  }
}
