/** The text line `write_sequence` prints for a byte slice: printable ASCII
    punctuation and alphanumerics as themselves, every other byte in Rust's
    `{:#02x}` format, all joined with no separator. */
module Rendering {
  import opened Events

  predicate IsAsciiPunctuation(c: char)
  {
    ('!' <= c <= '/') || (':' <= c <= '@') || ('[' <= c <= '`') || ('{' <= c <= '~')
  }

  predicate IsAsciiAlphanumeric(c: char)
  {
    ('0' <= c <= '9') || ('A' <= c <= 'Z') || ('a' <= c <= 'z')
  }

  predicate IsLowerHexDigit(c: char)
  {
    ('0' <= c <= '9') || ('a' <= c <= 'f')
  }

  /** `String::from_utf8(vec![b])`: a single byte is valid UTF-8 exactly when it is
      below 0x80, and then it decodes to the character with that code point. */
  function Utf8Single(b: byte): (r: Option<char>)
    ensures r.Some? <==> b < 0x80
    ensures r.Some? ==> r.value as int == b as int
  {
    if b < 0x80 then Some((b as int) as char) else None
  }

  function HexDigit(d: nat): (c: char)
    requires d < 16
    ensures IsLowerHexDigit(c)
    ensures c == '0' <==> d == 0
  {
    if d < 10 then ('0' as int + d) as char else ('a' as int + d - 10) as char
  }

  function DigitValue(c: char): (d: nat)
    requires IsLowerHexDigit(c)
    ensures d < 16
  {
    if c <= '9' then c as int - '0' as int else c as int - 'a' as int + 10
  }

  /** Lower-case hexadecimal digits of `n`, without leading zeros ("0" for zero). */
  function LowerHex(n: nat): (r: string)
    ensures 1 <= |r|
    ensures IsHexNumeral(r)
    ensures r[0] == '0' ==> n == 0
    ensures n < 16 <==> |r| == 1
    decreases n
  {
    if n < 16 then [HexDigit(n)] else LowerHex(n / 16) + [HexDigit(n % 16)]
  }

  predicate IsHexNumeral(s: string)
  {
    forall i :: 0 <= i < |s| ==> IsLowerHexDigit(s[i])
  }

  /** Reads a string of lower-case hexadecimal digits back as a number. */
  function HexValue(s: string): nat
    requires IsHexNumeral(s)
  {
    if s == [] then 0 else HexValue(s[..|s| - 1]) * 16 + DigitValue(s[|s| - 1])
  }

  function Zeros(k: nat): (r: string)
    ensures |r| == k && forall i :: 0 <= i < k ==> r[i] == '0'
  {
    seq(k, _ => '0')
  }

  /** Width of the `{:#02x}` format used for non-printable bytes. */
  const FORMAT_WIDTH: nat := 2

  /** Rust's `{:#0Wx}`: the prefix "0x", then zeros, then the digits, the zeros
      filling the field up to `width` characters counting the prefix. */
  function FormatAltHex(n: nat, width: nat): (r: string)
    ensures |r| == if width > 2 + |LowerHex(n)| then width else 2 + |LowerHex(n)|
  {
    var digits := LowerHex(n);
    var pad := if width > 2 + |digits| then width - 2 - |digits| else 0;
    "0x" + Zeros(pad) + digits
  }

  /** Whatever the width, the text is "0x" followed by a numeral whose value is `n`. */
  lemma {:induction false} FormatAltHexValue(n: nat, width: nat)
    ensures FormatAltHex(n, width)[..2] == "0x"
    ensures IsHexNumeral(FormatAltHex(n, width)[2..])
    ensures HexValue(FormatAltHex(n, width)[2..]) == n
  {
    var digits := LowerHex(n);
    var pad := if width > 2 + |digits| then width - 2 - |digits| else 0;
    HexValueLeadingZeros(pad, digits);
    HexRoundTrip(n);
    assert FormatAltHex(n, width)[2..] == Zeros(pad) + digits;
  }

  /** How one byte is shown. */
  function RenderByte(b: byte): (r: string)
    ensures 0x21 <= b <= 0x7E ==> r == [(b as int) as char]
    ensures !(0x21 <= b <= 0x7E) ==> r == "0x" + LowerHex(b as nat)
  {
    match Utf8Single(b)
    case Some(c) =>
      if IsAsciiPunctuation(c) || IsAsciiAlphanumeric(c) then [c]
      else FormatAltHex(b as nat, FORMAT_WIDTH)
    case None => FormatAltHex(b as nat, FORMAT_WIDTH)
  }

  /** The line printed for a whole slice: the per-byte texts joined with "". */
  function Render(s: seq<byte>): (r: string)
    ensures |r| >= |s|
  {
    if s == [] then "" else RenderByte(s[0]) + Render(s[1..])
  }

  lemma {:induction false} DigitRoundTrip(d: nat)
    requires d < 16
    ensures DigitValue(HexDigit(d)) == d
  {
  }

  /** Reading the digits of `n` back gives `n`. */
  lemma {:induction false} HexRoundTrip(n: nat)
    ensures HexValue(LowerHex(n)) == n
    decreases n
  {
    var r := LowerHex(n);
    if n < 16 {
      assert r[..0] == [];
      DigitRoundTrip(n);
    } else {
      HexRoundTrip(n / 16);
      assert r[..|r| - 1] == LowerHex(n / 16);
      DigitRoundTrip(n % 16);
    }
  }

  /** Leading zeros do not change the value of a hexadecimal numeral. */
  lemma {:induction false} HexValueLeadingZeros(k: nat, s: string)
    requires IsHexNumeral(s)
    ensures IsHexNumeral(Zeros(k) + s)
    ensures HexValue(Zeros(k) + s) == HexValue(s)
    decreases |s|
  {
    var z := Zeros(k);
    if s == [] {
      assert z + s == z;
      HexValueZeros(k);
    } else {
      var init := s[..|s| - 1];
      HexValueLeadingZeros(k, init);
      assert (z + s)[..|z + s| - 1] == z + init;
    }
  }

  lemma {:induction false} HexValueZeros(k: nat)
    ensures IsHexNumeral(Zeros(k))
    ensures HexValue(Zeros(k)) == 0
  {
    if k > 0 {
      HexValueZeros(k - 1);
      assert Zeros(k)[..k - 1] == Zeros(k - 1);
    }
  }

  /** With the width of 2 the prefix already fills the field: no zero padding,
      so bytes below 0x10 get one digit and the others two. */
  lemma {:induction false} NoPadding(b: byte)
    ensures FormatAltHex(b as nat, FORMAT_WIDTH) == "0x" + LowerHex(b as nat)
    ensures |FormatAltHex(b as nat, FORMAT_WIDTH)| == if b < 0x10 then 3 else 4
  {
  }

  /** Rendering distributes over concatenation: the joined per-byte texts. */
  lemma {:induction false} RenderAppend(a: seq<byte>, b: seq<byte>)
    ensures Render(a + b) == Render(a) + Render(b)
    decreases |a|
  {
    if a == [] {
      assert a + b == b;
    } else {
      assert (a + b)[1..] == a[1..] + b;
      RenderAppend(a[1..], b);
    }
  }

  /** A slice made only of bytes 0x21..0x7E is shown verbatim. */
  lemma {:induction false} RenderPrintable(s: seq<byte>)
    requires forall i :: 0 <= i < |s| ==> 0x21 <= s[i] <= 0x7E
    ensures Render(s) == seq(|s|, i requires 0 <= i < |s| => (s[i] as int) as char)
    decreases |s|
  {
    if s != [] {
      RenderPrintable(s[1..]);
    }
  }

  /** A slice is shown with one text per byte, in order. */
  lemma {:induction false} RenderOfByte(s: seq<byte>, i: nat)
    requires i < |s|
    ensures Render(s) == Render(s[..i]) + RenderByte(s[i]) + Render(s[i + 1..])
  {
    var front, back := s[..i], s[i..];
    assert Render(s) == Render(front) + Render(back) by {
      assert s == front + back;
      RenderAppend(front, back);
    }
    assert Render(back) == RenderByte(s[i]) + Render(s[i + 1..]) by {
      assert back[1..] == s[i + 1..];
    }
  }

  /** The line shown for an up-arrow key sequence, and an unpadded control byte. */
  lemma RenderExamples()
    ensures Render([0x1B, 0x5B, 0x41]) == "0x1b[A"
    ensures Render([0x05]) == "0x5"
    ensures Render([0x1B, 0x61]) == "0x1ba"
    ensures Render([0x20, 0xFF]) == "0x200xff"
  {
    HexByteTexts();
    assert Render([0x1B, 0x5B, 0x41]) == "0x1b" + "[" + "A" by {
      assert Render([0x5B, 0x41]) == "[" + Render([0x41]);
    }
    assert Render([0x20, 0xFF]) == "0x20" + "0xff" by {
      assert Render([0xFF]) == "0xff" + Render([]);
    }
  }

  lemma HexByteTexts()
    ensures RenderByte(0x1B) == "0x1b"
    ensures RenderByte(0x20) == "0x20"
    ensures RenderByte(0xFF) == "0xff"
  {
    assert LowerHex(0x1B) == "1b";
    assert LowerHex(0x20) == "20";
    assert LowerHex(0xFF) == "ff";
  }
}
