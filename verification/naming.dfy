/**
 * Frame naming and crop geometry of `extractRunsAsBlobs`: the i-th run
 * (counting from 1) becomes a PNG named `<prefix><i padded with zeros>.png`
 * cropped to the run's columns over the full sheet height.
 */
module Naming {
  import opened Wrappers
  import opened Runs

  predicate IsDigit(c: char) {
    '0' <= c <= '9'
  }

  predicate AllDigits(s: string) {
    forall i :: 0 <= i < |s| ==> IsDigit(s[i])
  }

  function DigitChar(d: int): (c: char)
    requires 0 <= d < 10
  {
    (48 + d) as char
  }

  function DigitValue(c: char): int {
    c as int - 48
  }

  /** `String(n)` for a non-negative integer: its decimal digits, most significant first. */
  function Decimal(n: nat): string
    decreases n
  {
    if n < 10 then [DigitChar(n)] else Decimal(n / 10) + [DigitChar(n % 10)]
  }

  /** The value of a string of decimal digits; the empty string is 0. */
  function ParseDecimal(s: string): nat
    requires AllDigits(s)
    decreases |s|
  {
    if s == [] then 0 else ParseDecimal(s[..|s| - 1]) * 10 + DigitValue(s[|s| - 1])
  }

  /** `Decimal` writes only digits, at least one, and no leading zero except for 0 itself. */
  lemma {:induction false} DecimalWellFormed(n: nat)
    ensures var s := Decimal(n);
      && s != [] && AllDigits(s)
      && (s[0] == '0' <==> n == 0)
    decreases n
  {
    if n >= 10 {
      DecimalWellFormed(n / 10);
      var s := Decimal(n);
      assert s[0] == Decimal(n / 10)[0];
    }
  }

  /** Reading back what `Decimal` wrote gives the number again. */
  lemma {:induction false} DecimalRoundTrip(n: nat)
    ensures AllDigits(Decimal(n))
    ensures ParseDecimal(Decimal(n)) == n
    decreases n
  {
    DecimalWellFormed(n);
    if n >= 10 {
      var s := Decimal(n);
      DecimalWellFormed(n / 10);
      DecimalRoundTrip(n / 10);
      assert s[..|s| - 1] == Decimal(n / 10);
    }
  }

  /** `k` copies of the character `c`. */
  function Repeat(c: char, k: nat): (r: string)
  {
    seq(k, _ => c)
  }

  /**
   * JavaScript's `s.padStart(len, c)` with a one-character pad: strings
   * shorter than `len` get copies of `c` in front until they reach `len`.
   */
  function PadStart(s: string, len: int, c: char): (r: string)
    ensures |r| == if len > |s| then len else |s|
    ensures r[|r| - |s|..] == s
    ensures forall i :: 0 <= i < |r| - |s| ==> r[i] == c
  {
    if len > |s| then Repeat(c, len - |s|) + s else s
  }

  /** Zeros in front do not change the value of a digit string. */
  lemma {:induction false} LeadingZerosIgnored(k: nat, s: string)
    requires AllDigits(s)
    ensures AllDigits(Repeat('0', k) + s)
    ensures ParseDecimal(Repeat('0', k) + s) == ParseDecimal(s)
    decreases |s|
  {
    var z := Repeat('0', k);
    assert AllDigits(z + s) by {
      forall i | 0 <= i < |z + s|
        ensures IsDigit((z + s)[i])
      {
        if i >= |z| {
          assert (z + s)[i] == s[i - |z|];
        }
      }
    }
    if s == [] {
      assert z + s == z;
      ZerosParseToZero(k);
    } else {
      assert (z + s)[..|z + s| - 1] == z + s[..|s| - 1];
      LeadingZerosIgnored(k, s[..|s| - 1]);
    }
  }

  lemma {:induction false} ZerosParseToZero(k: nat)
    ensures AllDigits(Repeat('0', k))
    ensures ParseDecimal(Repeat('0', k)) == 0
    decreases k
  {
    if k > 0 {
      assert Repeat('0', k)[..k - 1] == Repeat('0', k - 1);
      ZerosParseToZero(k - 1);
    }
  }

  /** The zero-padded index reads back as the index, whatever the pad length. */
  lemma PaddedIndexRoundTrip(n: nat, padLen: int)
    ensures AllDigits(PadStart(Decimal(n), padLen, '0'))
    ensures ParseDecimal(PadStart(Decimal(n), padLen, '0')) == n
  {
    var d := Decimal(n);
    DecimalRoundTrip(n);
    if padLen > |d| {
      LeadingZerosIgnored(padLen - |d|, d);
    }
  }

  const Extension: string := ".png"

  /** `${prefix}${String(idx).padStart(padLen,'0')}.png`. */
  function FrameName(prefix: string, index: nat, padLen: int): string
  {
    prefix + PadStart(Decimal(index), padLen, '0') + Extension
  }

  /**
   * A frame name is the prefix, then at least `padLen` digits that read back
   * as the index, then `.png`.
   */
  lemma FrameNameShape(prefix: string, index: nat, padLen: int)
    ensures var name := FrameName(prefix, index, padLen);
      var digits := name[|prefix|..|name| - |Extension|];
      && |name| >= |prefix| + |Extension|
      && name[..|prefix|] == prefix
      && name[|name| - |Extension|..] == Extension
      && |digits| >= padLen && |digits| >= 1
      && AllDigits(digits)
      && ParseDecimal(digits) == index
  {
    var p := PadStart(Decimal(index), padLen, '0');
    var name := FrameName(prefix, index, padLen);
    assert name == prefix + p + Extension;
    assert name[|prefix|..|name| - |Extension|] == p;
    PaddedIndexRoundTrip(index, padLen);
    DecimalWellFormed(index);
  }

  /**
   * Reads the frame number back from a file name: the name must be the
   * prefix, then at least one digit, then `.png`.
   */
  function IndexOfName(prefix: string, name: string): Option<nat>
  {
    if |name| >= |prefix| + |Extension| + 1
       && name[..|prefix|] == prefix
       && name[|name| - |Extension|..] == Extension
       && AllDigits(name[|prefix|..|name| - |Extension|])
    then Some(ParseDecimal(name[|prefix|..|name| - |Extension|]))
    else None
  }

  /** Naming a frame and reading its number back gives the number again. */
  lemma FrameNameRoundTrip(prefix: string, index: nat, padLen: int)
    ensures IndexOfName(prefix, FrameName(prefix, index, padLen)) == Some(index)
  {
    FrameNameShape(prefix, index, padLen);
  }

  /** Within one prefix and pad length, different indices give different names. */
  lemma FrameNameInjective(prefix: string, i: nat, j: nat, padLen: int)
    requires FrameName(prefix, i, padLen) == FrameName(prefix, j, padLen)
    ensures i == j
  {
    FrameNameRoundTrip(prefix, i, padLen);
    FrameNameRoundTrip(prefix, j, padLen);
  }

  /** A crop rectangle of the sheet, `drawImage(fullC, x, y, width, height, ...)`. */
  datatype Crop = Crop(x: int, y: int, width: int, height: int)

  /** The crop of one run: the run's columns over the full sheet height. */
  function CropOf(r: Run, sheetHeight: nat): Crop
  {
    Crop(r.start, 0, r.end - r.start + 1, sheetHeight)
  }

  /** The crop covers exactly the run's columns and every row of the sheet. */
  lemma CropCoversRun(r: Run, sheetHeight: nat, c: int, y: int)
    ensures var k := CropOf(r, sheetHeight);
      && (k.x <= c < k.x + k.width <==> r.Contains(c))
      && (k.y <= y < k.y + k.height <==> 0 <= y < sheetHeight)
      && k.width == r.Width()
  {
  }

  /** One extracted frame: its file name, the crop it was cut from and the encoded size. */
  datatype Frame = Frame(name: string, crop: Crop, size: nat)

  /**
   * `extractRunsAsBlobs(runs, prefix, padLen)`: one frame per run, in run
   * order, numbered from 1. The PNG encoder is the parameter `encode`, which
   * gives the byte size of the encoded crop.
   */
  method ExtractRunsAsBlobs(runs: seq<Run>, prefix: string, padLen: int, sheetHeight: nat,
                            encode: Crop -> nat)
    returns (out: seq<Frame>)
    ensures |out| == |runs|
    ensures forall i :: 0 <= i < |runs| ==>
      && out[i].crop == CropOf(runs[i], sheetHeight)
      && out[i].size == encode(out[i].crop)
      && out[i].name == FrameName(prefix, i + 1, padLen)
      && IndexOfName(prefix, out[i].name) == Some(i + 1)
    ensures forall i, j :: 0 <= i < j < |out| ==> out[i].name != out[j].name
  {
    out := [];
    var idx := 1;
    for k := 0 to |runs|
      invariant idx == k + 1
      invariant |out| == k
      invariant forall i :: 0 <= i < k ==>
        && out[i].crop == CropOf(runs[i], sheetHeight)
        && out[i].size == encode(out[i].crop)
        && out[i].name == FrameName(prefix, i + 1, padLen)
        && IndexOfName(prefix, out[i].name) == Some(i + 1)
    {
      var r := runs[k];
      var crop := Crop(r.start, 0, r.end - r.start + 1, sheetHeight);
      var name := prefix + PadStart(Decimal(idx), padLen, '0') + Extension;
      FrameNameRoundTrip(prefix, idx, padLen);
      out := out + [Frame(name, crop, encode(crop))];
      idx := idx + 1;
    }
    forall i, j | 0 <= i < j < |out|
      ensures out[i].name != out[j].name
    {
      assert IndexOfName(prefix, out[i].name) != IndexOfName(prefix, out[j].name);
    }
  }

  /** Frame 7 of `hero_` with pad length 2 is `hero_07.png`; frame 123 overflows the padding. */
  lemma FrameNameExamples()
    ensures FrameName("hero_", 7, 2) == "hero_07.png"
    ensures FrameName("hero_", 123, 2) == "hero_123.png"
  {
  }
}
