/**
 * base/strings/utf_string_conversions.cc and utf_string_conversion_utils.cc:
 * the loops that read one character after another and append to the output.
 */
module UtfConversion {
  import opened Utf
  import opened UtfStrings

  // The parts of std::string and std::u16string the writers use.
  class Text<T(0)> {
    var chars: seq<T>

    constructor ()
      ensures chars == []
    {
      chars := [];
    }

    method Clear()
      modifies this
      ensures chars == []
    {
      chars := [];
    }

    method PushBack(c: T)
      modifies this
      ensures chars == old(chars) + [c]
    {
      chars := chars + [c];
    }

    // Cuts the text, or fills it up, to n characters.
    method Resize(n: nat, zero: T)
      modifies this
      ensures |chars| == n
      ensures forall k :: 0 <= k < n && k < |old(chars)| ==> chars[k] == old(chars)[k]
    {
      chars := if n <= |chars| then chars[..n] else chars + seq(n - |chars|, _ => zero);
    }

    method Put(i: nat, c: T)
      requires i < |chars|
      modifies this
      ensures chars == old(chars)[i := c]
    {
      chars := chars[i := c];
    }
  }

  const INT32_LIMIT := 0x8000_0000

  // ---------------------------------------------------------------------------
  // Writing.

  // CBU8_APPEND_UNSAFE: overwrites 1 to 4 bytes from `offset`.
  method AppendUnsafe8(output: Text<Byte>, offset: nat, c: CodePoint) returns (end: nat)
    requires 0 <= c <= 0x10FFFF && offset + 4 <= |output.chars|
    modifies output
    ensures end == offset + |Encode8(c)| && |output.chars| == |old(output.chars)|
    ensures output.chars[..end] == old(output.chars)[..offset] + Encode8(c)
  {
    end := offset;
    if c <= 0x7F {
      output.Put(end, c);
      end := end + 1;
    } else {
      if c <= 0x7FF {
        output.Put(end, c / 0x40 + 0xC0);
        end := end + 1;
      } else {
        if c <= 0xFFFF {
          output.Put(end, c / 0x1000 + 0xE0);
          end := end + 1;
        } else {
          output.Put(end, c / 0x4_0000 + 0xF0);
          end := end + 1;
          output.Put(end, c / 0x1000 % 0x40 + 0x80);
          end := end + 1;
        }
        output.Put(end, c / 0x40 % 0x40 + 0x80);
        end := end + 1;
      }
      output.Put(end, c % 0x40 + 0x80);
      end := end + 1;
    }
  }

  method WriteUnicodeCharacter8(c: CodePoint, output: Text<Byte>) returns (written: nat)
    requires 0 <= c <= 0x10FFFF
    modifies output
    ensures output.chars == old(output.chars) + Encode8(c) && written == |Encode8(c)|
  {
    if c <= 0x7F {
      output.PushBack(c);
      return 1;
    }
    var offset := |output.chars|;
    ghost var before := output.chars;
    output.Resize(offset + 4, 0);
    assert output.chars[..offset] == before;
    var end := AppendUnsafe8(output, offset, c);
    assert output.chars[..end] == before + Encode8(c);
    ghost var wide := output.chars;
    output.Resize(end, 0);
    assert output.chars == wide[..end];
    return end - offset;
  }

  method WriteUnicodeCharacter16(c: CodePoint, output: Text<Unit>) returns (written: nat)
    requires 0 <= c <= 0x10FFFF
    modifies output
    ensures output.chars == old(output.chars) + Encode16(c) && written == |Encode16(c)|
  {
    if c <= 0xFFFF {
      output.PushBack(c);
      return 1;
    }
    var offset := |output.chars|;
    ghost var before := output.chars;
    output.Resize(offset + 2, 0);
    assert output.chars[..offset] == before;
    output.Put(offset, c / 0x400 + 0xD7C0);
    output.Put(offset + 1, c % 0x400 + 0xDC00);
    return 2;
  }

  // ---------------------------------------------------------------------------
  // Reading. The index goes to the last unit consumed, as the loop will add 1.

  method ReadUnicodeCharacter8(src: seq<Byte>, index: nat) returns (ok: bool, code: CodePoint, last: nat)
    requires index < |src| < INT32_LIMIT
    ensures last + 1 == Next8(src, index).next && code == Next8(src, index).code
    ensures ok <==> code != BAD
  {
    var r := Next8(src, index);
    Next8Scalar(src, index);
    code := r.code;
    last := r.next - 1;
    ok := IsScalar(code);
  }

  method ReadUnicodeCharacter16(src: seq<Unit>, index: nat) returns (ok: bool, code: CodePoint, last: nat)
    requires index < |src| < INT32_LIMIT
    ensures last + 1 == Next16(src, index).next
    ensures ok <==> Next16(src, index).code != BAD
    ensures ok ==> code == Next16(src, index).code
  {
    Next16Scalar(src, index);
    last := index;
    if SurrogateBits(src[index]) {
      if !SurrogateLeadBit(src[index]) || index + 1 >= |src| || !TrailSurrogateBits(src[index + 1]) {
        return false, BAD, last;
      }
      code := GetSupplementary(src[index], src[index + 1]);
      last := last + 1;
    } else {
      code := src[index];
    }
    ok := IsScalar(code);
  }

  // ---------------------------------------------------------------------------
  // ConvertUnicode, for the two pairs of types it is used with.

  // The part of the input that is looked at: its length is cut to an int32_t, and
  // a negative one stands for nothing.
  function Seen<T>(src: seq<T>): (t: seq<T>)
    ensures |t| < INT32_LIMIT && t <= src
    ensures |src| < INT32_LIMIT ==> t == src
  {
    var n := |src| % (2 * INT32_LIMIT);
    if n < INT32_LIMIT then src[..n] else []
  }

  lemma {:induction false} SeenExact<T>(src: seq<T>, n: nat, k: nat)
    requires |src| == n + k * 0x1_0000_0000 && n < 0x1_0000_0000
    ensures Seen(src) == if n < 0x8000_0000 then src[..n] else []
  {
  }

  // The next part e of what is still to come moves to what is there.
  lemma {:induction false} MoveOver<T>(before: seq<T>, e: seq<T>, tail: seq<T>, rest: seq<T>)
    requires rest == e + tail
    ensures before + e + tail == before + rest
  {
  }

  // The body of the loop: one character is read, and it or U+FFFD is written. What
  // is written and what is still to come make up the whole.
  method ConvertCharacter8To16(src: seq<Byte>, i: nat, output: Text<Unit>, ghost whole: seq<Unit>)
    returns (ok: bool, last: nat)
    requires i < |src| < INT32_LIMIT
    requires output.chars + RestToUtf16(src, i) == whole
    modifies output
    ensures i <= last < |src|
    ensures output.chars + RestToUtf16(src, last + 1) == whole
    ensures Misread8(src, i) <==> !ok || Misread8(src, last + 1)
  {
    Next8Scalar(src, i);
    ghost var r := Next8(src, i);
    MoveOver(output.chars, Encode16(Shown(r.code)), RestToUtf16(src, r.next), RestToUtf16(src, i));
    var code;
    ok, code, last := ReadUnicodeCharacter8(src, i);
    if ok {
      var _ := WriteUnicodeCharacter16(code, output);
    } else {
      var _ := WriteUnicodeCharacter16(0xFFFD, output);
    }
  }

  method ConvertUnicode8To16(src: seq<Byte>, output: Text<Unit>) returns (success: bool)
    modifies output
    ensures output.chars == old(output.chars) + ToUtf16(Seen(src))
    ensures success <==> !Misread8(Seen(src), 0)
  {
    success := true;
    var seen := Seen(src);
    ghost var whole, bad := output.chars + ToUtf16(seen), Misread8(seen, 0);
    var i := 0;
    while i < |seen|
      invariant i <= |seen|
      invariant output.chars + RestToUtf16(seen, i) == whole
      invariant bad <==> !success || Misread8(seen, i)
    {
      var ok, last := ConvertCharacter8To16(seen, i, output, whole);
      if !ok {
        success := false;
      }
      i := last + 1;
    }
  }

  // The body of the loop: one character is read, and it or U+FFFD is written. What
  // is written and what is still to come make up the whole.
  method ConvertCharacter16To8(src: seq<Unit>, i: nat, output: Text<Byte>, ghost whole: seq<Byte>)
    returns (ok: bool, last: nat)
    requires i < |src| < INT32_LIMIT
    requires output.chars + RestToUtf8(src, i) == whole
    modifies output
    ensures i <= last < |src|
    ensures output.chars + RestToUtf8(src, last + 1) == whole
    ensures Misread16(src, i) <==> !ok || Misread16(src, last + 1)
  {
    Next16Scalar(src, i);
    ghost var r := Next16(src, i);
    MoveOver(output.chars, Encode8(Shown(r.code)), RestToUtf8(src, r.next), RestToUtf8(src, i));
    var code;
    ok, code, last := ReadUnicodeCharacter16(src, i);
    if ok {
      var _ := WriteUnicodeCharacter8(code, output);
    } else {
      var _ := WriteUnicodeCharacter8(0xFFFD, output);
    }
  }

  method ConvertUnicode16To8(src: seq<Unit>, output: Text<Byte>) returns (success: bool)
    modifies output
    ensures output.chars == old(output.chars) + ToUtf8(Seen(src))
    ensures success <==> !Misread16(Seen(src), 0)
  {
    success := true;
    var seen := Seen(src);
    ghost var whole, bad := output.chars + ToUtf8(seen), Misread16(seen, 0);
    var i := 0;
    while i < |seen|
      invariant i <= |seen|
      invariant output.chars + RestToUtf8(seen, i) == whole
      invariant bad <==> !success || Misread16(seen, i)
    {
      var ok, last := ConvertCharacter16To8(seen, i, output, whole);
      if !ok {
        success := false;
      }
      i := last + 1;
    }
  }

  method UTF8ToUTF16(src: seq<Byte>, output: Text<Unit>) returns (success: bool)
    modifies output
    ensures success <==> IsUtf8(Seen(src))
    ensures output.chars == ToUtf16(Seen(src))
    ensures IsUtf16(output.chars) && |output.chars| <= |src|
    ensures success ==> ToUtf8(output.chars) == Seen(src)
  {
    var seen := Seen(src);
    output.Clear();
    success := ConvertUnicode8To16(src, output);
    assert seen[0..] == seen;
    Decoded8WellFormed(seen, 0);
    RestIsEncoded16(seen, 0);
    Size16(seen, 0);
    EncodedWellFormed(Decoded8(seen, 0));
    if success {
      RoundTrip8(seen);
    }
  }

  method UTF16ToUTF8(src: seq<Unit>, output: Text<Byte>) returns (success: bool)
    modifies output
    ensures success <==> IsUtf16(Seen(src))
    ensures output.chars == ToUtf8(Seen(src))
    ensures IsUtf8(output.chars) && |output.chars| <= 3 * |src|
    ensures ToUtf16(output.chars) == Repaired(Seen(src))
  {
    var seen := Seen(src);
    output.Clear();
    success := ConvertUnicode16To8(src, output);
    assert seen[0..] == seen;
    Decoded16WellFormed(seen, 0);
    RestIsEncoded8(seen, 0);
    Size8(seen, 0);
    RoundTrip16(seen);
  }
}
