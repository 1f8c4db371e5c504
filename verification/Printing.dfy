/** Text built from `snprintf` pieces: chaining them through `bacapp_snprintf_shift` refines one print of
    the whole text, for every buffer and every size. */
module Printing {
  import opened Wrappers
  import opened Octets

  const NUL := '\0'

  /** The buffer after one `snprintf` of `text` at `base` with room for `size` characters. */
  function Printed(before: string, base: nat, size: nat, text: string): (after: string)
    requires base + size <= |before|
    ensures |after| == |before|
  {
    if size == 0 then before
    else
      var n := Min(|text|, size - 1);
      before[..base] + text[..n] + [NUL] + before[base + n + 1..]
  }

  /** What is left of the size after `len` characters. */
  function Left(size: nat, len: nat): nat {
    if size >= len then size - len else 0
  }

  lemma NothingPrinted(before: string, base: nat, text: string)
    requires base <= |before|
    ensures Printed(before, base, 0, text) == before
  {
  }

  lemma PrintedElement(before: string, base: nat, size: nat, text: string, k: nat)
    requires base + size <= |before| && 0 < size && k < |before|
    ensures var n := Min(|text|, size - 1);
      Printed(before, base, size, text)[k] ==
      if base <= k < base + n then text[k - base] else if k == base + n then NUL else before[k]
  {
  }

  /** Printing two texts one after the other, the second where the first ended and with the size that was
      left, is printing their concatenation. */
  lemma PrintedInPieces(before: string, base: nat, size: nat, first: string, second: string)
    requires base + size <= |before|
    ensures Left(size, |first|) > 0 ==> base + |first| + Left(size, |first|) <= |before|
    ensures
      var once := Printed(before, base, size, first + second);
      if Left(size, |first|) == 0 then once == Printed(before, base, size, first)
      else once == Printed(Printed(before, base, size, first), base + |first|, Left(size, |first|), second)
  {
    hide Printed;
    var once, between := Printed(before, base, size, first + second), Printed(before, base, size, first);
    var left := Left(size, |first|);
    if size == 0 {
      NothingPrinted(before, base, first);
      NothingPrinted(before, base, first + second);
    } else {
      forall k | 0 <= k < |before|
        ensures once[k] == if left == 0 then between[k] else Printed(between, base + |first|, left, second)[k]
      {
        PrintedElement(before, base, size, first + second, k);
        PrintedElement(before, base, size, first, k);
        if left > 0 {
          PrintedElement(between, base + |first|, left, second, k);
        }
      }
    }
  }

  /** The buffer's contents after the given number of pieces, which together are `text`. */
  function After(before: string, base: nat, size: nat, text: string, pieces: nat): string
    requires base + size <= |before|
  {
    if pieces == 0 then before else Printed(before, base, size, text)
  }

  lemma NextPiece(before: string, base: nat, size: nat, text: string, pieces: nat, piece: string)
    requires base + size <= |before|
    requires pieces == 0 ==> text == ""
    ensures Left(size, |text|) > 0 ==> base + |text| + Left(size, |text|) <= |before|
    ensures
      var now := After(before, base, size, text, pieces);
      After(before, base, size, text + piece, pieces + 1) ==
      if Left(size, |text|) == 0 then now else Printed(now, base + |text|, Left(size, |text|), piece)
  {
    hide Printed;
    if pieces == 0 {
      assert text + piece == piece;
      if size == 0 {
        NothingPrinted(before, base, piece);
      }
    } else {
      PrintedInPieces(before, base, size, text, piece);
    }
  }

  function Concat(pieces: seq<string>): string {
    if pieces == [] then "" else Concat(pieces[..|pieces| - 1]) + pieces[|pieces| - 1]
  }

  /** The buffer after printing the pieces one by one, each where the last one ended and with the size the
      shifts left over. */
  function Chained(before: string, base: nat, size: nat, pieces: seq<string>): (after: string)
    requires base + size <= |before|
    ensures |after| == |before|
  {
    if pieces == [] then before
    else
      var front := pieces[..|pieces| - 1];
      var now := Chained(before, base, size, front);
      var left := Left(size, |Concat(front)|);
      if left == 0 then now else Printed(now, base + |Concat(front)|, left, pieces[|pieces| - 1])
  }

  /** Any number of pieces, printed one by one, leave what one print of the whole text leaves. */
  lemma {:induction false} ChainingRefinesOnePrint(before: string, base: nat, size: nat, pieces: seq<string>)
    requires base + size <= |before|
    ensures Chained(before, base, size, pieces) == After(before, base, size, Concat(pieces), |pieces|)
    decreases |pieces|
  {
    hide Printed;
    if pieces == [] {
    } else {
      var front := pieces[..|pieces| - 1];
      ChainingRefinesOnePrint(before, base, size, front);
      NextPiece(before, base, size, Concat(front), |front|, pieces[|pieces| - 1]);
    }
  }

  /** The pair of pointer and size that the printers pass on: with no buffer the size is 0. */
  class Cursor {
    const buffer: array?<char>
    const base: nat
    const capacity: nat
    var at: nat
    var size: nat
    ghost const before: string
    ghost var text: string
    ghost var pieces: nat

    /** The buffer holds exactly what one print of the whole text would have left, and nothing outside
        the given room has changed. */
    ghost predicate Valid()
      reads this, buffer
    {
      && (buffer == null ==> capacity == 0)
      && (buffer != null ==> base + capacity <= buffer.Length == |before|)
      && size == Left(capacity, |text|)
      && (buffer != null ==> at == base + |text|)
      && (pieces == 0 ==> text == "")
      && (buffer != null ==> buffer[..] == After(before, base, capacity, text, pieces))
    }

    constructor (buffer: array?<char>, base: nat, capacity: nat)
      requires if buffer == null then capacity == 0 else base + capacity <= buffer.Length
      ensures Valid() && text == "" && pieces == 0
      ensures this.buffer == buffer && this.base == base && this.capacity == capacity
      ensures buffer != null ==> before == buffer[..]
    {
      this.buffer, this.base, this.capacity := buffer, base, capacity;
      at, size, text, pieces := base, capacity, "", 0;
      before := if buffer != null then buffer[..] else "";
    }

    /** `bacapp_snprintf`: prints at most `size - 1` characters and a NUL, and returns the full length. */
    method Snprintf(piece: string) returns (len: nat)
      requires buffer == null ==> size == 0
      requires buffer != null && size > 0 ==> at + size <= buffer.Length
      modifies buffer
      ensures len == |piece|
      ensures buffer != null && size > 0 ==> buffer[..] == Printed(old(buffer[..]), at, size, piece)
      ensures buffer != null && size == 0 ==> buffer[..] == old(buffer[..])
    {
      hide Printed;
      len := |piece|;
      if size > 0 {
        ghost var was := buffer[..];
        var n := Min(len, size - 1);
        forall i | 0 <= i < n {
          buffer[at + i] := piece[i];
        }
        buffer[at + n] := NUL;
        forall k | 0 <= k < |was| ensures buffer[k] == Printed(was, at, size, piece)[k] {
          PrintedElement(was, at, size, piece, k);
        }
      }
    }

    /** `bacapp_snprintf_shift` */
    method Shift(len: nat)
      modifies this`at, this`size
      ensures at == (if buffer != null then old(at) + len else old(at))
      ensures size == if old(size) >= len then old(size) - len else 0
    {
      if buffer != null {
        at := at + len;
      }
      if size >= len {
        size := size - len;
      } else {
        size := 0;
      }
    }

    /** One print and one shift, as every printer writes them. */
    method Piece(piece: string) returns (len: nat)
      requires Valid()
      modifies this, buffer
      ensures Valid() && text == old(text) + piece && pieces == old(pieces) + 1
      ensures len == |piece|
    {
      hide Printed, After;
      if buffer != null {
        NextPiece(before, base, capacity, text, pieces, piece);
      }
      len := Snprintf(piece);
      Shift(len);
      text, pieces := text + piece, pieces + 1;
    }
  }

  function HexDigit(n: nat): char
    requires n < 16
  {
    (if n < 10 then '0' as int + n else 'A' as int + n - 10) as char
  }

  /** "%02X" */
  function Hex(o: Octet): string {
    [HexDigit(o / 16), HexDigit(o % 16)]
  }

  function HexAll(bytes: Bytes): string {
    if bytes == [] then "" else HexAll(bytes[..|bytes| - 1]) + Hex(bytes[|bytes| - 1])
  }

  function OctetStringText(bytes: Bytes): string {
    "X'" + HexAll(bytes) + "'"
  }

  /** The digit a character stands for. */
  function DigitOf(c: char): int {
    if '0' <= c <= '9' then c as int - '0' as int else if 'A' <= c <= 'F' then c as int - 'A' as int + 10 else -1
  }

  /** Two upper-case digits, the high one first. */
  lemma HexExactly(o: Octet)
    ensures |Hex(o)| == 2 && 0 <= DigitOf(Hex(o)[0]) < 16 && 0 <= DigitOf(Hex(o)[1]) < 16
    ensures 16 * DigitOf(Hex(o)[0]) + DigitOf(Hex(o)[1]) == o
  {
  }

  lemma {:induction false} HexAllReads(bytes: Bytes)
    ensures |HexAll(bytes)| == 2 * |bytes|
    ensures forall k :: 0 <= k < |bytes| ==>
              16 * DigitOf(HexAll(bytes)[2 * k]) + DigitOf(HexAll(bytes)[2 * k + 1]) == bytes[k]
  {
    hide Hex, DigitOf;
    if bytes == [] {
    } else {
      var last := |bytes| - 1;
      var front, pair := HexAll(bytes[..last]), Hex(bytes[last]);
      HexAllReads(bytes[..last]);
      HexExactly(bytes[last]);
      forall k | 0 <= k < |bytes|
        ensures 16 * DigitOf(HexAll(bytes)[2 * k]) + DigitOf(HexAll(bytes)[2 * k + 1]) == bytes[k]
      {
        if k < last {
          assert (front + pair)[2 * k] == front[2 * k] && (front + pair)[2 * k + 1] == front[2 * k + 1];
        } else {
          assert (front + pair)[2 * k] == pair[0] && (front + pair)[2 * k + 1] == pair[1];
        }
      }
    }
  }

  /** An octet string's text is X and the octets in quotes, two digits each. */
  lemma OctetStringReads(bytes: Bytes)
    ensures var text := OctetStringText(bytes);
      && |text| == 2 * |bytes| + 3 && text[..2] == "X'" && text[|text| - 1] == '\''
      && forall k :: 0 <= k < |bytes| ==>
           16 * DigitOf(text[2 * k + 2]) + DigitOf(text[2 * k + 3]) == bytes[k]
  {
    hide DigitOf, HexAll;
    HexAllReads(bytes);
  }

  /** What a printer leaves behind: the length of the whole text, its first characters that fit with a NUL
      after them, and nothing else changed. */
  ghost predicate Prints(before: string, after: string, size: nat, text: string, result: nat)
    requires size <= |before|
  {
    result == |text| && after == Printed(before, 0, size, text)
  }

  /** `bacapp_snprintf_octet_string` */
  method PrintOctetString(buffer: array?<char>, size: nat, bytes: Bytes) returns (result: nat)
    requires if buffer == null then size == 0 else size <= buffer.Length
    modifies buffer
    ensures result == |OctetStringText(bytes)|
    ensures buffer != null ==> Prints(old(buffer[..]), buffer[..], size, OctetStringText(bytes), result)
  {
    hide Printed, Hex;
    var out := new Cursor(buffer, 0, size);
    result := out.Piece("X'");
    for i := 0 to |bytes|
      invariant out.Valid() && out.buffer == buffer && out.base == 0 && out.capacity == size && fresh(out)
      invariant buffer != null ==> out.before == old(buffer[..])
      invariant out.pieces > 0 && out.text == "X'" + HexAll(bytes[..i])
      invariant result == |out.text|
    {
      var len := out.Piece(Hex(bytes[i]));
      result := result + len;
      assert bytes[..i + 1][..i] == bytes[..i];
      assert "X'" + HexAll(bytes[..i]) + Hex(bytes[i]) == "X'" + (HexAll(bytes[..i]) + Hex(bytes[i]));
    }
    assert bytes[..|bytes|] == bytes;
    var len := out.Piece("'");
    result := result + len;
  }

  function BitText(bit: bool): string {
    if bit then "true" else "false"
  }

  /** The first `n` of the bits, separated by commas. */
  function BitsText(bits: seq<bool>, n: nat): string
    requires n <= |bits|
  {
    if n == 0 then ""
    else BitsText(bits, n - 1) + BitText(bits[n - 1]) + if n < |bits| then "," else ""
  }

  function BitStringText(bits: seq<bool>): string {
    "{" + BitsText(bits, |bits|) + "}"
  }

  lemma {:induction false} LongerBits(bits: seq<bool>, bit: bool, n: nat)
    requires n <= |bits|
    ensures BitsText(bits + [bit], n) == BitsText(bits, n) + if 0 < n == |bits| then "," else ""
  {
    hide BitText;
    if n == 0 {
    } else {
      LongerBits(bits, bit, n - 1);
      assert (bits + [bit])[n - 1] == bits[n - 1];
    }
  }

  /** A bit string's text: true and false in braces, separated by commas. */
  lemma BitStringReads(bits: seq<bool>, bit: bool)
    ensures BitStringText([]) == "{}" && BitStringText([true]) == "{true}" && BitStringText([false]) == "{false}"
    ensures bits != [] ==>
              var text := BitStringText(bits);
              BitStringText(bits + [bit]) == text[..|text| - 1] + (if bit then ",true}" else ",false}")
  {
    FirstBit(true);
    FirstBit(false);
    if bits != [] {
      MoreBits(bits, bit);
    }
  }

  lemma FirstBit(bit: bool)
    ensures BitStringText([bit]) == if bit then "{true}" else "{false}"
  {
    assert BitsText([bit], 1) == BitsText([bit], 0) + BitText(bit);
  }

  lemma MoreBits(bits: seq<bool>, bit: bool)
    requires bits != []
    ensures var text := BitStringText(bits);
      BitStringText(bits + [bit]) == text[..|text| - 1] + (if bit then ",true}" else ",false}")
  {
    hide BitsText;
    LongerBits(bits, bit, |bits|);
    LastBit(bits + [bit]);
    Glue(BitsText(bits, |bits|), BitText(bit));
    WordEnds(bit);
  }

  lemma Glue(text: string, word: string)
    ensures ("{" + ((text + ",") + word)) + "}" == ("{" + text) + ("," + word + "}")
    ensures ("{" + text + "}")[..|"{" + text + "}"| - 1] == "{" + text
  {
  }

  lemma WordEnds(bit: bool)
    ensures "," + BitText(bit) + "}" == if bit then ",true}" else ",false}"
  {
  }

  lemma LastBit(bits: seq<bool>)
    requires bits != []
    ensures BitsText(bits, |bits|) == BitsText(bits, |bits| - 1) + BitText(bits[|bits| - 1])
  {
  }

  /** `bacapp_snprintf_bit_string` */
  method PrintBitString(buffer: array?<char>, size: nat, bits: seq<bool>) returns (result: nat)
    requires if buffer == null then size == 0 else size <= buffer.Length
    modifies buffer
    ensures result == |BitStringText(bits)|
    ensures buffer != null ==> Prints(old(buffer[..]), buffer[..], size, BitStringText(bits), result)
  {
    hide Printed, BitText;
    var out := new Cursor(buffer, 0, size);
    result := out.Piece("{");
    for i := 0 to |bits|
      invariant out.Valid() && out.buffer == buffer && out.base == 0 && out.capacity == size && fresh(out)
      invariant buffer != null ==> out.before == old(buffer[..])
      invariant out.pieces > 0 && out.text == "{" + BitsText(bits, i)
      invariant result == |out.text|
    {
      var len := out.Piece(BitText(bits[i]));
      result := result + len;
      assert out.text == "{" + (BitsText(bits, i) + BitText(bits[i]));
      if i < |bits| - 1 {
        len := out.Piece(",");
        result := result + len;
      }
      assert out.text == "{" + BitsText(bits, i + 1);
    }
    var len := out.Piece("}");
    result := result + len;
  }

  function Shown(c: Octet): char {
    if 32 <= c < 127 then c as char else '.'
  }

  function ShownAll(bytes: Bytes): string {
    if bytes == [] then "" else ShownAll(bytes[..|bytes| - 1]) + [Shown(bytes[|bytes| - 1])]
  }

  function CharacterStringText(bytes: Bytes): string {
    "\"" + ShownAll(bytes) + "\""
  }

  lemma {:induction false} ShownAllReads(bytes: Bytes)
    ensures |ShownAll(bytes)| == |bytes|
    ensures forall k :: 0 <= k < |bytes| ==>
              ShownAll(bytes)[k] == if 32 <= bytes[k] <= 126 then bytes[k] as char else '.'
  {
    if bytes == [] {
    } else {
      ShownAllReads(bytes[..|bytes| - 1]);
    }
  }

  /** A character string's text: the printable octets, and dots for the others, in double quotes. */
  lemma CharacterStringReads(bytes: Bytes)
    ensures var text := CharacterStringText(bytes);
      && |text| == |bytes| + 2 && text[0] == '"' == text[|bytes| + 1]
      && forall k :: 0 <= k < |bytes| ==>
           text[k + 1] == if 32 <= bytes[k] <= 126 then bytes[k] as char else '.'
  {
    ShownAllReads(bytes);
  }

  /** `bacapp_snprintf_character_string`, octet by octet: every encoding in a build without wide characters, and all
      but UTF-8 in one with them. */
  method PrintCharacterString(buffer: array?<char>, size: nat, bytes: Bytes) returns (result: nat)
    requires if buffer == null then size == 0 else size <= buffer.Length
    modifies buffer
    ensures result == |CharacterStringText(bytes)|
    ensures buffer != null ==> Prints(old(buffer[..]), buffer[..], size, CharacterStringText(bytes), result)
  {
    hide Printed, Shown;
    var out := new Cursor(buffer, 0, size);
    result := out.Piece("\"");
    for i := 0 to |bytes|
      invariant out.Valid() && out.buffer == buffer && out.base == 0 && out.capacity == size && fresh(out)
      invariant buffer != null ==> out.before == old(buffer[..])
      invariant out.pieces > 0 && out.text == "\"" + ShownAll(bytes[..i])
      invariant result == |out.text|
    {
      var len := out.Piece([Shown(bytes[i])]);
      result := result + len;
      assert bytes[..i + 1][..i] == bytes[..i];
      assert "\"" + ShownAll(bytes[..i]) + [Shown(bytes[i])] == "\"" + (ShownAll(bytes[..i]) + [Shown(bytes[i])]);
    }
    assert bytes[..|bytes|] == bytes;
    var len := out.Piece("\"");
    result := result + len;
  }

  /** What `mbtowc` and the print of its result make of the octets at some offset: how many octets were consumed, at
      least one, and the text printed. */
  datatype Wide = Wide(consumed: nat, shown: string)

  /** The text from offset `at` on, of a string as long as `decoded`. */
  function WideText(decoded: seq<Wide>, at: nat): string
    requires forall w <- decoded :: w.consumed > 0
    decreases |decoded| - at
  {
    if at >= |decoded| then "" else decoded[at].shown + WideText(decoded, at + decoded[at].consumed)
  }

  function Utf8StringText(decoded: seq<Wide>): string
    requires forall w <- decoded :: w.consumed > 0
  {
    "\"" + WideText(decoded, 0) + "\""
  }

  /** A UTF-8 string's text begins with the first character and goes on behind the octets it took. */
  lemma Utf8StringReads(decoded: seq<Wide>)
    requires forall w <- decoded :: w.consumed > 0
    ensures decoded == [] ==> Utf8StringText(decoded) == "\"\""
    ensures decoded != [] ==>
              Utf8StringText(decoded) == "\"" + decoded[0].shown + WideText(decoded, decoded[0].consumed) + "\""
  {
  }

  /** `bacapp_snprintf_character_string` for UTF-8 in a build with wide characters; `decoded` is what the library
      makes of the octets from each offset on. */
  method PrintUtf8String(buffer: array?<char>, size: nat, decoded: seq<Wide>) returns (result: nat)
    requires if buffer == null then size == 0 else size <= buffer.Length
    requires forall w <- decoded :: w.consumed > 0
    modifies buffer
    ensures result == |Utf8StringText(decoded)|
    ensures buffer != null ==> Prints(old(buffer[..]), buffer[..], size, Utf8StringText(decoded), result)
  {
    hide Printed;
    var out := new Cursor(buffer, 0, size);
    result := out.Piece("\"");
    var len := |decoded|;
    ghost var at: nat := 0;
    while len > 0
      invariant out.Valid() && out.buffer == buffer && out.base == 0 && out.capacity == size && fresh(out)
      invariant buffer != null ==> out.before == old(buffer[..])
      invariant out.pieces > 0 && out.text + WideText(decoded, at) == "\"" + WideText(decoded, 0)
      invariant result == |out.text|
      invariant len == if at <= |decoded| then |decoded| - at else 0
    {
      var w := decoded[|decoded| - len];
      Regroup(out.text, w.shown, WideText(decoded, at + w.consumed));
      var n := out.Piece(w.shown);
      result := result + n;
      at := at + w.consumed;
      if len > w.consumed {
        len := len - w.consumed;
      } else {
        len := 0;
      }
    }
    assert out.text == out.text + WideText(decoded, at);
    var n := out.Piece("\"");
    result := result + n;
  }
}
