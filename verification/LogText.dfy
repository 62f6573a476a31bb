/** What the bounded log buffer of lib/zlog/src/buf.c is meant to hold: the text of all calls, cut to the
    limit and marked with the truncate string. */
module LogText {
  import opened ByteStrings

  /** zlog_buf_truncate: the mark over the end of the text, or as much of it as there is room for. */
  function Overlay(text: string, mark: string): (r: string)
    ensures |r| == |text|
  {
    if |mark| <= |text| then text[..|text| - |mark|] + mark else mark[..|text|]
  }

  /** The law: everything, if it fits in one byte less than the limit, else the first bytes, marked. */
  function Bounded(text: string, sizeMax: nat, mark: string): (r: string)
    ensures !Overflows(text, sizeMax) ==> r == text
    ensures Overflows(text, sizeMax) ==> |r| == sizeMax - 1
  {
    if Overflows(text, sizeMax) then Overlay(text[..sizeMax - 1], mark) else text
  }

  predicate Overflows(text: string, sizeMax: nat) {
    sizeMax != 0 && |text| > sizeMax - 1
  }

  /** What a full buffer holds, character by character: the beginning of the text, and the mark at its end; or, when
      there is no room for all of the mark, the beginning of the mark. */
  ghost predicate CutAndMarked(held: string, text: string, sizeMax: nat, mark: string)
    requires 0 < sizeMax <= |text|
  {
    && |held| == sizeMax - 1
    && if |mark| <= sizeMax - 1 then
         && (forall k | 0 <= k < sizeMax - 1 - |mark| :: held[k] == text[k])
         && (forall k | 0 <= k < |mark| :: held[sizeMax - 1 - |mark| + k] == mark[k])
       else forall k | 0 <= k < sizeMax - 1 :: held[k] == mark[k]
  }

  lemma BoundedHolds(text: string, sizeMax: nat, mark: string)
    ensures sizeMax > 0 && |text| > sizeMax - 1 ==> CutAndMarked(Bounded(text, sizeMax, mark), text, sizeMax, mark)
    ensures sizeMax == 0 || |text| <= sizeMax - 1 ==> Bounded(text, sizeMax, mark) == text
  {
  }

  /** A piece of a buffer overwritten, seen up to the end of that piece. */
  lemma Overwritten(was: string, p: nat, piece: string)
    requires p + |piece| <= |was|
    ensures (was[..p] + piece + was[p + |piece|..])[..p + |piece|] == was[..p] + piece
  {
  }

  lemma OverlayTwice(text: string, mark: string)
    ensures Overlay(Overlay(text, mark), mark) == Overlay(text, mark)
  {
    var once := Overlay(text, mark);
    if |mark| <= |text| {
      assert once[..|once| - |mark|] == text[..|text| - |mark|];
    }
  }

  /** Once full, further text changes nothing. */
  lemma StaysFull(text: string, more: string, sizeMax: nat, mark: string)
    requires Overflows(text, sizeMax)
    ensures Overflows(text + more, sizeMax)
    ensures Bounded(text + more, sizeMax, mark) == Bounded(text, sizeMax, mark)
  {
    assert (text + more)[..sizeMax - 1] == text[..sizeMax - 1];
  }

  /** The text that makes the buffer full: what fits of it is appended, then the mark goes over the end. */
  lemma BecomesFull(text: string, more: string, sizeMax: nat, mark: string)
    requires !Overflows(text, sizeMax) && Overflows(text + more, sizeMax)
    ensures |text| + |more| > sizeMax - 1 >= |text|
    ensures Bounded(text + more, sizeMax, mark) == Overlay(text + more[..sizeMax - 1 - |text|], mark)
  {
    assert (text + more)[..sizeMax - 1] == text + more[..sizeMax - 1 - |text|];
  }

  /** One more piece of text, when there is room for it behind what is held, and when there is not. */
  lemma OneMore(text: string, more: string, sizeMax: nat, mark: string)
    ensures var held := Bounded(text, sizeMax, mark);
            sizeMax == 0 || |held| + |more| <= sizeMax - 1 ==>
              Bounded(text + more, sizeMax, mark) == held + more && (Overflows(text + more, sizeMax) <==> Overflows(text, sizeMax))
    ensures var held := Bounded(text, sizeMax, mark);
            sizeMax != 0 && |held| + |more| > sizeMax - 1 ==>
              && |held| <= sizeMax - 1 && Overflows(text + more, sizeMax)
              && Bounded(text + more, sizeMax, mark) == Overlay(held + more[..sizeMax - 1 - |held|], mark)
  {
    var held := Bounded(text, sizeMax, mark);
    if Overflows(text, sizeMax) {
      StaysFull(text, more, sizeMax, mark);
      OverlayTwice(text[..sizeMax - 1], mark);
      assert held + more[..0] == held;
      assert more == [] ==> text + more == text && held + more == held;
    } else if Overflows(text + more, sizeMax) {
      BecomesFull(text, more, sizeMax, mark);
    }
  }

  // ---------- The text of the calls ----------

  function Repeat(c: char, n: nat): (s: string)
    ensures |s| == n
    ensures forall k | 0 <= k < n :: s[k] == c
  {
    seq(n, _ => c)
  }

  function DigitChar(d: nat): char
    requires d < 16
  {
    "0123456789abcdef"[d]
  }

  datatype Base = Dec | Hex

  function Radix(b: Base): nat { if b.Dec? then 10 else 16 }

  /** The number without its last digit; hexadecimal shifts right by four. */
  function Rest(n: nat, b: Base): nat { if b.Dec? then n / 10 else n / 16 }

  function LastDigit(n: nat, b: Base): (d: nat)
    ensures d < 16
  {
    if b.Dec? then n % 10 else n % 16
  }

  /** The digits of a number, without leading zeros. */
  function Digits(n: nat, b: Base): (s: string)
    ensures |s| > 0
    decreases n
  {
    if n < Radix(b) then [DigitChar(n)] else Digits(Rest(n, b), b) + [DigitChar(LastDigit(n, b))]
  }

  /** One digit put in front of those already produced. */
  lemma OneDigit(n: nat, b: Base, done: string)
    ensures n >= Radix(b) ==> Digits(n, b) + done == Digits(Rest(n, b), b) + ([DigitChar(LastDigit(n, b))] + done)
    ensures n >= Radix(b) ==> |Digits(n, b)| == |Digits(Rest(n, b), b)| + 1 && Rest(n, b) < n
    ensures n < Radix(b) ==> Digits(n, b) + done == [DigitChar(LastDigit(n, b))] + done
  {
    if n >= Radix(b) { Assoc(Digits(Rest(n, b), b), [DigitChar(LastDigit(n, b))], done); }
  }

  function DigitValue(c: char): (d: nat)
    ensures d < 16
  {
    if '0' <= c <= '9' then c as int - '0' as int
    else if 'a' <= c <= 'f' then c as int - 'a' as int + 10
    else 0
  }

  function NumberOf(s: string, b: Base): nat {
    if s == [] then 0
    else
      var high := NumberOf(s[..|s| - 1], b);
      (if b.Dec? then high * 10 else high * 16) + DigitValue(s[|s| - 1])
  }

  /** The digits printed for a number read back as that number. */
  lemma {:induction false} DigitsRoundTrip(n: nat, b: Base)
    ensures NumberOf(Digits(n, b), b) == n
    decreases n
  {
    DigitCharValue(LastDigit(n, b));
    var s := Digits(n, b);
    if n >= Radix(b) {
      DigitsRoundTrip(Rest(n, b), b);
      assert s[..|s| - 1] == Digits(Rest(n, b), b);
    } else {
      assert s[..0] == [];
    }
  }

  lemma DigitCharValue(d: nat)
    requires d < 16
    ensures DigitValue(DigitChar(d)) == d && (DigitChar(d) == '0' <==> d == 0)
    ensures DigitChar(d) as int == if d < 10 then 48 + d else 87 + d
  {
  }

  /** No number has a leading zero but zero itself. */
  lemma {:induction false} NoLeadingZero(n: nat, b: Base)
    ensures Digits(n, b)[0] == '0' <==> n == 0
    decreases n
  {
    if n >= Radix(b) { NoLeadingZero(Rest(n, b), b); }
  }

  function Power(b: Base, k: nat): nat {
    if k == 0 then 1 else (if b.Dec? then 10 * Power(b, k - 1) else 16 * Power(b, k - 1))
  }

  /** A number below the k-th power of the radix has at most k digits. */
  lemma {:induction false} DigitsFit(n: nat, b: Base, k: nat)
    requires k > 0 && n < Power(b, k)
    ensures |Digits(n, b)| <= k
    decreases k
  {
    if n >= Radix(b) {
      assert k > 1;
      DigitsFit(Rest(n, b), b, k - 1);
    }
  }

  /** The temporary buffers of the printers are long enough: 11 and 20 characters. */
  lemma NumbersFit(n: nat)
    ensures n < 0x1_0000_0000 ==> |Digits(n, Dec)| <= 10 && |Digits(n, Hex)| <= 8
    ensures n < 0x1_0000_0000_0000_0000 ==> |Digits(n, Dec)| <= 20
  {
    assert Power(Dec, 5) == 100000;
    assert Power(Dec, 10) == 10000000000;
    assert Power(Dec, 15) == 1000000000000000;
    assert Power(Dec, 20) == 100000000000000000000;
    assert Power(Hex, 4) == 0x1_0000;
    assert Power(Hex, 8) == 0x1_0000_0000;
    if n < 0x1_0000_0000 { DigitsFit(n, Dec, 10); DigitsFit(n, Hex, 8); }
    if n < 0x1_0000_0000_0000_0000 { DigitsFit(n, Dec, 20); }
  }

  /** Zeros up to the width, then the number. */
  function PaddedNumber(digits: string, width: nat): string {
    Repeat('0', if width > |digits| then width - |digits| else 0) + digits
  }

  lemma {:induction false} LeadingZeros(k: nat, s: string, b: Base)
    ensures NumberOf(Repeat('0', k) + s, b) == NumberOf(s, b)
    decreases k + |s|
  {
    var t := Repeat('0', k) + s;
    if s != [] {
      assert t[..|t| - 1] == Repeat('0', k) + s[..|s| - 1] && t[|t| - 1] == s[|s| - 1];
      LeadingZeros(k, s[..|s| - 1], b);
    } else if k > 0 {
      assert t[..|t| - 1] == Repeat('0', k - 1) + [] && t[|t| - 1] == '0';
      LeadingZeros(k - 1, [], b);
    }
  }

  /** A printed number has at least the width asked for and reads back as the number; it starts with a zero exactly
      when it was filled up, or is zero. */
  lemma PaddedReads(n: nat, b: Base, width: nat)
    ensures var s, d := PaddedNumber(Digits(n, b), width), Digits(n, b);
      && NumberOf(s, b) == n && |s| == (if width > |d| then width else |d|)
      && (s[0] == '0' <==> width > |d| || n == 0)
  {
    DigitsRoundTrip(n, b);
    NoLeadingZero(n, b);
    LeadingZeros(if width > |Digits(n, b)| then width - |Digits(n, b)| else 0, Digits(n, b), b);
  }

  /** What is left of padding and a number when only room bytes can be written. */
  lemma PaddedPrefix(digits: string, width: nat, room: nat)
    requires room < |PaddedNumber(digits, width)|
    ensures var zeros := if width > |digits| then width - |digits| else 0;
            PaddedNumber(digits, width)[..room]
              == if room <= zeros then Repeat('0', room) else Repeat('0', zeros) + digits[..room - zeros]
  {
  }

  /** zlog_buf_adjust_append: at most outWidth characters of the string, filled up to inWidth. */
  function Adjusted(str: string, leftAdjust: bool, zeroPad: bool, inWidth: nat, outWidth: nat): string {
    var source := if outWidth == 0 || |str| < outWidth then str else str[..outWidth];
    var space := if inWidth == 0 || |source| >= inWidth then 0 else inWidth - |source|;
    if leftAdjust then source + Repeat(' ', space)
    else Repeat(if zeroPad then '0' else ' ', space) + source
  }

  /** Character by character: as much of the string as the output width allows, with blanks behind it, or blanks or
      zeros in front of it, up to the input width. */
  lemma AdjustedAt(str: string, leftAdjust: bool, zeroPad: bool, inWidth: nat, outWidth: nat)
    ensures var r := Adjusted(str, leftAdjust, zeroPad, inWidth, outWidth);
      var source := if outWidth > 0 && outWidth < |str| then outWidth else |str|;
      && |r| == (if inWidth > source then inWidth else source)
      && (leftAdjust ==> (forall k | 0 <= k < source :: r[k] == str[k]) && (forall k | source <= k < |r| :: r[k] == ' '))
      && (!leftAdjust ==>
            && (forall k | 0 <= k < |r| - source :: r[k] == if zeroPad then '0' else ' ')
            && (forall k | 0 <= k < source :: r[|r| - source + k] == str[k]))
  {
  }

  /** The first characters of a string with padding behind or in front of them. */
  function Padded(str: string, leftAdjust: bool, pad: char, source: nat, space: nat): (r: string)
    requires source <= |str|
    ensures |r| == source + space
  {
    if leftAdjust then str[..source] + Repeat(' ', space) else Repeat(pad, space) + str[..source]
  }

  lemma AdjustedParts(str: string, leftAdjust: bool, zeroPad: bool, inWidth: nat, outWidth: nat)
    ensures var source := if outWidth == 0 || |str| < outWidth then |str| else outWidth;
      var space := if inWidth == 0 || source >= inWidth then 0 else inWidth - source;
      Adjusted(str, leftAdjust, zeroPad, inWidth, outWidth)
      == Padded(str, leftAdjust, if zeroPad then '0' else ' ', source, space)
  {
    assert str[..|str|] == str;
  }

  /** What is left of it when only room bytes can be written. */
  lemma LeftPrefix(str: string, source: nat, space: nat, room: nat)
    requires source <= |str| && room < source + space
    ensures (str[..source] + Repeat(' ', space))[..room]
         == if source < room then str[..source] + Repeat(' ', room - source) else str[..room] + Repeat(' ', 0)
  {
  }

  lemma RightPrefix(str: string, pad: char, source: nat, space: nat, room: nat)
    requires source <= |str| && room < source + space
    ensures (Repeat(pad, space) + str[..source])[..room]
         == if space < room then Repeat(pad, space) + str[..room - space] else Repeat(pad, room) + str[..0]
  {
  }
}
