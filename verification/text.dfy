/**
 * Text output of the shader disassembler: the bounded appender `append`
 * (a cursor into a caller buffer with its remaining size) and the bits of
 * `printf` formatting it uses: unsigned decimal and hexadecimal numbers,
 * field widths and the `#` flag.
 */
module Text {

  function Min(a: nat, b: nat): nat
  {
    if a <= b then a else b
  }

  // ---------------------------------------------------------------------
  // The bounded appender
  // ---------------------------------------------------------------------

  /** What a buffer of `capacity` bytes holds after `written` was appended to it: at most `capacity - 1` characters and the terminator; nothing fits in a buffer of size 0 or 1. */
  function Fit(written: seq<char>, capacity: nat): seq<char>
  {
    if capacity <= 1 then [] else written[..Min(|written|, capacity - 1)]
  }

  /** The buffer holds a prefix of what was written, with room for the terminator, and all of it when it fits. */
  lemma FitBounds(written: seq<char>, capacity: nat)
    ensures var r := Fit(written, capacity);
            (capacity >= 1 ==> |r| <= capacity - 1) && r <= written &&
            (capacity >= 2 && |written| < capacity ==> r == written)
  {
  }

  /** Appending in pieces fills the buffer exactly as appending everything at once. */
  lemma FitAppend(a: seq<char>, b: seq<char>, capacity: nat)
    requires capacity >= 1
    ensures Fit(a + b, capacity) == Fit(Fit(a, capacity) + b, capacity)
  {
    if capacity > 1 {
      var k := Min(|a|, capacity - 1);
      if |a| >= capacity - 1 {
        assert (a + b)[..capacity - 1] == a[..capacity - 1];
        assert (a[..k] + b)[..capacity - 1] == a[..capacity - 1];
      } else {
        assert a[..k] == a;
      }
    }
  }

  /** Appending b and then c writes b + c. */
  lemma AppendAssoc(a: seq<char>, b: seq<char>, c: seq<char>)
    ensures a + b + c == a + (b + c)
  {
  }

  /**
   * `char *buffer` and `size_t buffer_size` passed by reference: the
   * characters written so far (up to the terminator) and the room left.
   * `written` is everything `append` was asked to write.
   */
  class TextBuffer {
    var text: seq<char>
    var room: nat
    ghost var written: seq<char>
    ghost const capacity: nat

    ghost predicate Valid()
      reads this
    {
      text == Fit(written, capacity) && room == (if capacity == 0 then 0 else capacity - |text|)
    }

    /** An empty buffer of `size` bytes. */
    constructor (size: nat)
      ensures Valid() && capacity == size && written == [] && text == []
    {
      text := [];
      room := size;
      written := [];
      capacity := size;
    }

    /**
     * `append`: with one byte of room or less, nothing; otherwise write as
     * much of `s` as leaves room for the terminator and advance the cursor
     * by that much.
     */
    method Append(s: seq<char>)
      requires Valid()
      modifies this
      ensures Valid() && written == old(written) + s
      ensures old(room) >= 1 ==> room >= 1
    {
      written := written + s;
      if room <= 1 {
        return;
      }
      var len := |s|;
      if len >= room {
        len := room - 1;
      }
      assert text == old(written);
      text := text + s[..len];
      room := room - len;
      assert text == written[..|text|];
    }
  }

  // ---------------------------------------------------------------------
  // Numbers
  // ---------------------------------------------------------------------

  const HexDigits: seq<char> := "0123456789abcdef"

  /** The digits of n in base 10 or 16, most significant first, without leading zeros (`%u`, `%x`). */
  function Digits(n: nat, base: nat): (s: seq<char>)
    requires base == 10 || base == 16
    ensures |s| >= 1
    decreases n
  {
    if n < base then [HexDigits[n]] else Digits(n / base, base) + [HexDigits[n % base]]
  }

  /** The value of a digit character, 16 for a non-digit. */
  function DigitValue(c: char): (d: nat)
    ensures d <= 16
  {
    if '0' <= c <= '9' then c as nat - '0' as nat
    else if 'a' <= c <= 'f' then c as nat - 'a' as nat + 10
    else 16
  }

  /** The number a string of digits denotes. */
  function Value(s: seq<char>, base: nat): nat
  {
    if |s| == 0 then 0 else Value(s[..|s| - 1], base) * base + DigitValue(s[|s| - 1])
  }

  lemma DigitRoundTrip(d: nat)
    requires d < 16
    ensures DigitValue(HexDigits[d]) == d
  {
  }

  /** Reading the printed digits back gives the number. */
  lemma {:induction false} DigitsRoundTrip(n: nat, base: nat)
    requires base == 10 || base == 16
    ensures Value(Digits(n, base), base) == n
    decreases n
  {
    if n < base {
      DigitRoundTrip(n);
    } else {
      DigitsRoundTrip(n / base, base);
      DigitsStep(n, base);
    }
  }

  /** Reading back the digits of n gives n once reading back those of n / base gives n / base. */
  lemma DigitsStep(n: nat, base: nat)
    requires (base == 10 || base == 16) && n >= base
    requires Value(Digits(n / base, base), base) == n / base
    ensures Value(Digits(n, base), base) == n
  {
    DigitRoundTrip(n % base);
    LastDigit(n, base);
  }

  /** Above the base, the digits are those of the quotient followed by the remainder's. */
  lemma LastDigit(n: nat, base: nat)
    requires (base == 10 || base == 16) && n >= base
    ensures var s := Digits(n, base);
            s[..|s| - 1] == Digits(n / base, base) && s[|s| - 1] == HexDigits[n % base] &&
            Value(s, base) == Value(Digits(n / base, base), base) * base + DigitValue(HexDigits[n % base])
  {
  }

  /** Every printed digit is below the base, and the first is not 0 unless n is. */
  lemma {:induction false} DigitsWellFormed(n: nat, base: nat)
    requires base == 10 || base == 16
    ensures forall i :: 0 <= i < |Digits(n, base)| ==> DigitValue(Digits(n, base)[i]) < base
    ensures n > 0 ==> Digits(n, base)[0] != '0'
    decreases n
  {
    if n < base {
      DigitRoundTrip(n);
    } else {
      DigitsWellFormed(n / base, base);
      DigitRoundTrip(n % base);
      LastDigit(n, base);
      var s := Digits(n, base);
      assert s == s[..|s| - 1] + [s[|s| - 1]];
    }
  }

  /** `%u`. */
  function Dec(n: nat): string
  {
    Digits(n, 10)
  }

  function Spaces(k: nat): (s: string)
    ensures |s| == k && forall i :: 0 <= i < k ==> s[i] == ' '
  {
    if k == 0 then [] else Spaces(k - 1) + [' ']
  }

  /** A field of the given width, right-aligned with spaces (`%<width>...`). */
  function PadLeft(s: string, width: nat): (r: string)
    ensures |r| == if |s| < width then width else |s|
    ensures r[|r| - |s|..] == s && forall i :: 0 <= i < |r| - |s| ==> r[i] == ' '
  {
    if |s| < width then Spaces(width - |s|) + s else s
  }

  /** A string padded on the right with spaces to at least `width` characters. */
  function PadRight(s: string, width: nat): (r: string)
    ensures |r| == if |s| < width then width else |s|
    ensures r[..|s|] == s && forall i :: |s| <= i < |r| ==> r[i] == ' '
  {
    if |s| < width then s + Spaces(width - |s|) else s
  }

  /** `%#<width>x`: 0 prints as `0`, anything else with a `0x` prefix; then right-aligned. */
  function AltHex(n: nat, width: nat): string
  {
    PadLeft(if n == 0 then "0" else "0x" + Digits(n, 16), width)
  }

  /** The alternative form reads back: after the padding, `0` or `0x` and the hex digits of n. */
  lemma AltHexRoundTrip(n: nat, width: nat)
    ensures var body := if n == 0 then "0" else "0x" + Digits(n, 16);
            AltHex(n, width)[|AltHex(n, width)| - |body|..] == body &&
            (n > 0 ==> Value(body[2..], 16) == n)
  {
    if n > 0 {
      DigitsRoundTrip(n, 16);
      var body := "0x" + Digits(n, 16);
      assert body[2..] == Digits(n, 16);
    }
  }
}
