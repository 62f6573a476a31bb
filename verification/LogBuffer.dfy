/** The growing, bounded buffer of lib/zlog/src/buf.c, in which one log line is put together. */
module LogBuffer {
  import opened ByteStrings
  import opened LogText

  datatype Call =
    | Append(str: string)
    | Adjust(str: string, leftAdjust: bool, zeroPad: bool, inWidth: nat, outWidth: nat)
    | Number(n: nat, base: Base, width: nat)

  /** What a call would write into an unlimited buffer. */
  function TextOf(call: Call): string {
    match call
    case Append(str) => str
    case Adjust(str, left, zero, inWidth, outWidth) => Adjusted(str, left, zero, inWidth, outWidth)
    case Number(n, base, width) => PaddedNumber(Digits(n, base), width)
  }

  function TextOfAll(calls: seq<Call>): string {
    if calls == [] then [] else TextOf(calls[0]) + TextOfAll(calls[1..])
  }

  lemma NextCall(text: string, calls: seq<Call>, i: nat)
    requires i < |calls|
    ensures text + TextOfAll(calls[i..]) == text + TextOf(calls[i]) + TextOfAll(calls[i + 1..])
  {
    assert calls[i..][1..] == calls[i + 1..];
    Assoc(text, TextOf(calls[i]), TextOfAll(calls[i + 1..]));
  }

  class Buffer {
    const sizeMax: nat     // 0 means unlimited
    const mark: string     // truncate_str
    var data: array<char>  // data.Length is size_real; the end is its last byte
    var tail: nat
    ghost var text: string // everything the calls so far would have written

    ghost predicate Placed()
      reads this, data
    {
      && tail < data.Length
      && (sizeMax != 0 ==> data.Length <= sizeMax)
    }

    /** start <= tail <= end, and the content obeys the law. */
    ghost predicate Valid()
      reads this, data
    {
      && Placed()
      && data[..tail] == Bounded(text, sizeMax, mark)
      && (Overflows(text, sizeMax) ==> data.Length == sizeMax)
    }

    ghost function Content(): string
      reads this, data
      requires tail <= data.Length
    {
      data[..tail]
    }

    /** zlog_buf_new with sizes it accepts. */
    constructor (min: nat, max: nat, truncateStr: string)
      requires min > 0 && (max == 0 || min <= max)
      ensures Valid() && sizeMax == max && mark == truncateStr && text == [] && fresh(data) && data.Length == min
    {
      sizeMax, mark, tail, text := max, truncateStr, 0, [];
      data := new char[min](_ => '\0');
    }

    /** zlog_buf_restart. */
    method Restart()
      requires Valid()
      modifies this`tail, this`text
      ensures Valid() && text == []
    {
      tail, text := 0, [];
    }

    /** memcpy or memset behind the tail. */
    method Copy(at: nat, s: string)
      requires at + |s| <= data.Length
      modifies data
      ensures data[..] == old(data[..at]) + s + old(data[at + |s|..])
    {
      forall k | 0 <= k < |s| {
        data[at + k] := s[k];
      }
    }

    /** zlog_buf_truncate. */
    method Truncate()
      requires Placed()
      modifies data
      ensures data[..tail] == Overlay(old(data[..tail]), mark)
      ensures forall k | 0 <= k < tail && k < tail - |mark| :: data[k] == old(data[k])
      ensures forall k | 0 <= k < tail && k >= tail - |mark| :: data[k] == mark[k - if |mark| <= tail then tail - |mark| else 0]
    {
      ghost var was := data[..];
      var p := if |mark| <= tail then tail - |mark| else 0;
      Overwritten(was, p, mark[..tail - p]);
      Copy(p, mark[..tail - p]);
      assert data[..tail] == data[..][..tail] == was[..p] + mark[..tail - p];
      assert was[..p] == was[..tail][..p];
    }

    /** zlog_buf_resize: room for increment more bytes, or as much as the limit allows. */
    method Resize(increment: nat) returns (limited: bool)
      requires Placed() && increment > 0
      modifies this`data
      ensures Placed() && (data == old(data) || fresh(data)) && data[..tail] == old(data[..tail])
      ensures limited <==> sizeMax != 0 && old(data.Length) + increment > sizeMax
      ensures limited ==> data.Length == sizeMax
      ensures !limited ==> data.Length >= old(data.Length) + increment
    {
      if sizeMax != 0 && data.Length >= sizeMax { return true; }
      limited := false;
      var newSize;
      if sizeMax == 0 {
        newSize := data.Length + 3 * increment / 2;
      } else if data.Length + increment <= sizeMax {
        newSize := data.Length + increment;
      } else {
        newSize := sizeMax;
        limited := true;
      }
      Reallocate(newSize);
    }

    method Reallocate(newSize: nat)
      requires tail <= data.Length <= newSize
      modifies this`data
      ensures fresh(data) && data.Length == newSize && data[..tail] == old(data[..tail])
    {
      var was := data;
      var grown := new char[newSize](_ => '\0');
      for k := 0 to tail
        invariant data == was && grown[..k] == was[..k]
      {
        grown[k] := was[k];
      }
      data := grown;
    }

    /** The check at the start of every call that writes n bytes. */
    method Room(n: nat) returns (limited: bool)
      requires Placed()
      modifies this`data
      ensures Placed() && (data == old(data) || fresh(data)) && data[..tail] == old(data[..tail])
      ensures limited <==> sizeMax != 0 && tail + n > sizeMax - 1
      ensures limited ==> data.Length == sizeMax
      ensures !limited ==> tail + n < data.Length && (old(data.Length) == sizeMax ==> data.Length == sizeMax)
    {
      limited := false;
      if tail + n > data.Length - 1 {
        limited := Resize(n - (data.Length - 1 - tail));
      }
    }

    /** The bytes of one call go behind the tail, and the tail moves. */
    method Put(s: string)
      requires Placed() && tail + |s| < data.Length
      modifies data, this`tail
      ensures Placed() && tail == old(tail) + |s| && data[..tail] == old(data[..tail]) + s
    {
      ghost var was := data[..];
      Overwritten(was, tail, s);
      Copy(tail, s);
      assert data[..tail + |s|] == data[..][..tail + |s|];
      tail := tail + |s|;
    }

    /** The end of a call for which there was room. */
    method Fits(s: string)
      requires Valid() && tail + |s| < data.Length
      modifies data, this`tail, this`text
      ensures Valid() && text == old(text) + s && (s != [] ==> !Overflows(text, sizeMax))
    {
      OneMore(text, s, sizeMax, mark);
      text := text + s;
      Put(s);
    }

    /** The end of a call for which there was no room: as much as goes in, then the mark. */
    method Fills(s: string, ghost all: string)
      requires Valid() && sizeMax != 0 && data.Length == sizeMax && tail + |all| > sizeMax - 1
      requires s == all[..sizeMax - 1 - tail]
      modifies data, this`tail, this`text
      ensures Valid() && text == old(text) + all && Overflows(text, sizeMax)
    {
      OneMore(text, all, sizeMax, mark);
      text := text + all;
      Put(s);
      Truncate();
    }

    /** zlog_buf_append; the result tells whether the limit was hit. */
    method AppendStr(str: string) returns (limited: bool)
      requires Valid()
      modifies this`data, this`tail, this`text, data
      ensures Valid() && text == old(text) + str && (data == old(data) || fresh(data))
      ensures limited <==> sizeMax != 0 && |str| > 0 && Overflows(text, sizeMax)
    {
      limited := Room(|str|);
      if limited {
        Fills(str[..data.Length - 1 - tail], str);
      } else {
        Fits(str);
      }
    }

    /** The digits of a number, from the last one to the first, at the end of a temporary buffer. */
    method DigitsBackwards(n: nat, base: Base, room: nat) returns (digits: string)
      requires |Digits(n, base)| <= room
      ensures digits == Digits(n, base)
    {
      var tmp := new char[room](_ => '\0');
      var p, rest: nat := room, n;
      while rest >= Radix(base)
        invariant p <= room && |Digits(rest, base)| <= p
        invariant Digits(rest, base) + tmp[p..] == Digits(n, base)
        decreases rest
      {
        OneDigit(rest, base, tmp[p..]);
        p := PutDigit(tmp, p, DigitChar(LastDigit(rest, base)));
        rest := Rest(rest, base);
      }
      OneDigit(rest, base, tmp[p..]);
      p := PutDigit(tmp, p, DigitChar(LastDigit(rest, base)));
      return tmp[p..];
    }

    /** *--p = digit. */
    method PutDigit(tmp: array<char>, p: nat, digit: char) returns (q: nat)
      requires 0 < p <= tmp.Length
      modifies tmp
      ensures q == p - 1 && tmp[q..] == [digit] + old(tmp[p..])
    {
      q := p - 1;
      tmp[q] := digit;
    }

    /** zlog_buf_printf_dec32, _dec64 and _hex: padding and digits, cut to the room there is. */
    method PrintNumber(n: nat, base: Base, width: nat) returns (limited: bool)
      requires Valid() && n < 0x1_0000_0000_0000_0000 && (base.Hex? ==> n < 0x1_0000_0000)
      modifies this`data, this`tail, this`text, data
      ensures Valid() && text == old(text) + PaddedNumber(Digits(n, base), width) && (data == old(data) || fresh(data))
      ensures limited <==> sizeMax != 0 && Overflows(text, sizeMax)
    {
      NumbersFit(n);
      var digits := DigitsBackwards(n, base, 20);
      ghost var all := PaddedNumber(digits, width);
      var zeroLen := if width > |digits| then width - |digits| else 0;
      var numLen := |digits|;
      limited := Room(zeroLen + numLen);
      if limited {
        var lenLeft := data.Length - 1 - tail;
        PaddedPrefix(digits, width, lenLeft);
        if lenLeft <= zeroLen {
          zeroLen, numLen := lenLeft, 0;
        } else {
          numLen := lenLeft - zeroLen;
        }
        Fills(Repeat('0', zeroLen) + digits[..numLen], all);
      } else {
        Fits(Repeat('0', zeroLen) + digits);
      }
    }

    /** zlog_buf_adjust_append: the string cut to outWidth and filled up to inWidth on one side. */
    method AdjustAppend(str: string, leftAdjust: bool, zeroPad: bool, inWidth: nat, outWidth: nat) returns (limited: bool)
      requires Valid()
      modifies this`data, this`tail, this`text, data
      ensures Valid() && text == old(text) + Adjusted(str, leftAdjust, zeroPad, inWidth, outWidth)
      ensures data == old(data) || fresh(data)
      ensures limited <==> sizeMax != 0 && Adjusted(str, leftAdjust, zeroPad, inWidth, outWidth) != [] && Overflows(text, sizeMax)
    {
      var sourceLen := if outWidth == 0 || |str| < outWidth then |str| else outWidth;
      var spaceLen := if inWidth == 0 || sourceLen >= inWidth then 0 else inWidth - sourceLen;
      AdjustedParts(str, leftAdjust, zeroPad, inWidth, outWidth);
      limited := PutAdjusted(str, leftAdjust, if zeroPad then '0' else ' ', sourceLen, spaceLen);
    }

    /** The part that writes: source characters of the string, space characters of padding. */
    method PutAdjusted(str: string, leftAdjust: bool, pad: char, source: nat, space: nat) returns (limited: bool)
      requires Valid() && source <= |str|
      modifies this`data, this`tail, this`text, data
      ensures Valid() && text == old(text) + Padded(str, leftAdjust, pad, source, space)
      ensures data == old(data) || fresh(data)
      ensures limited <==> sizeMax != 0 && source + space > 0 && Overflows(text, sizeMax)
    {
      ghost var all := Padded(str, leftAdjust, pad, source, space);
      limited := Room(source + space);
      if limited {
        FillAdjusted(str, leftAdjust, pad, source, space, all);
      } else if leftAdjust {
        Fits(str[..source] + Repeat(' ', space));
      } else {
        Fits(Repeat(pad, space) + str[..source]);
      }
    }

    /** Its branch at the limit: less padding, or less of the string, so that the buffer is full. */
    method FillAdjusted(str: string, leftAdjust: bool, pad: char, source: nat, space: nat, ghost all: string)
      requires Valid() && sizeMax != 0 && data.Length == sizeMax && source <= |str|
      requires all == Padded(str, leftAdjust, pad, source, space)
      requires tail + source + space > sizeMax - 1
      modifies data, this`tail, this`text
      ensures Valid() && text == old(text) + all && Overflows(text, sizeMax)
    {
      var appendLen := data.Length - 1 - tail;
      var sourceLen, spaceLen := source, space;
      if leftAdjust {
        if sourceLen < appendLen {
          spaceLen := appendLen - sourceLen;
        } else {
          sourceLen, spaceLen := appendLen, 0;
        }
        LeftPrefix(str, source, space, appendLen);
        Fills(str[..sourceLen] + Repeat(' ', spaceLen), all);
      } else {
        if spaceLen < appendLen {
          sourceLen := appendLen - spaceLen;
        } else {
          spaceLen, sourceLen := appendLen, 0;
        }
        RightPrefix(str, pad, source, space, appendLen);
        Fills(Repeat(pad, spaceLen) + str[..sourceLen], all);
      }
    }

    /** Any sequence of calls: what the buffer holds depends only on the text of all of them together. */
    method WriteAll(calls: seq<Call>)
      requires Valid()
      requires forall i | 0 <= i < |calls| && calls[i].Number? ::
                 calls[i].n < 0x1_0000_0000_0000_0000 && (calls[i].base.Hex? ==> calls[i].n < 0x1_0000_0000)
      modifies this`data, this`tail, this`text, data
      ensures Valid() && text == old(text) + TextOfAll(calls)
      ensures Content() == Bounded(old(text) + TextOfAll(calls), sizeMax, mark)
      ensures sizeMax > 0 && |old(text) + TextOfAll(calls)| > sizeMax - 1 ==>
                CutAndMarked(Content(), old(text) + TextOfAll(calls), sizeMax, mark)
    {
      var i := 0;
      assert calls[0..] == calls;
      while i < |calls|
        invariant 0 <= i <= |calls| && Valid() && (data == old(data) || fresh(data))
        invariant text + TextOfAll(calls[i..]) == old(text) + TextOfAll(calls)
      {
        NextCall(text, calls, i);
        var _ := Write(calls[i]);
        i := i + 1;
      }
      assert text + [] == text;
      BoundedHolds(text, sizeMax, mark);
    }

    /** One log line: it does not depend on the lines before it, however far those have made the buffer grow. */
    method WriteLine(calls: seq<Call>)
      requires Valid()
      requires forall i | 0 <= i < |calls| && calls[i].Number? ::
                 calls[i].n < 0x1_0000_0000_0000_0000 && (calls[i].base.Hex? ==> calls[i].n < 0x1_0000_0000)
      modifies this`data, this`tail, this`text, data
      ensures Valid() && Content() == Bounded(TextOfAll(calls), sizeMax, mark)
      ensures sizeMax == 0 || |TextOfAll(calls)| <= sizeMax - 1 ==> Content() == TextOfAll(calls)
      ensures sizeMax > 0 && |TextOfAll(calls)| > sizeMax - 1 ==> CutAndMarked(Content(), TextOfAll(calls), sizeMax, mark)
    {
      Restart();
      assert text + TextOfAll(calls) == TextOfAll(calls);
      WriteAll(calls);
      BoundedHolds(TextOfAll(calls), sizeMax, mark);
    }

    method Write(call: Call) returns (limited: bool)
      requires Valid()
      requires call.Number? ==> call.n < 0x1_0000_0000_0000_0000 && (call.base.Hex? ==> call.n < 0x1_0000_0000)
      modifies this`data, this`tail, this`text, data
      ensures Valid() && text == old(text) + TextOf(call) && (data == old(data) || fresh(data))
    {
      match call
      case Append(str) => limited := AppendStr(str);
      case Adjust(str, left, zero, inWidth, outWidth) => limited := AdjustAppend(str, left, zero, inWidth, outWidth);
      case Number(n, base, width) => limited := PrintNumber(n, base, width);
    }
  }
}
