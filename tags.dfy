/**
  Tag resolution: the standard data dictionary as the codec consults it,
  and the canonical hexadecimal rendering of a tag.
 */
module Tags {

  /** A tag as `pydicom.tag.Tag` yields it: a 32-bit unsigned integer, group in the high half. */
  newtype Tag = t: int | 0 <= t < 0x1_0000_0000

  function Group(t: Tag): nat { t as int / 0x1_0000 }

  function Elem(t: Tag): nat { t as int % 0x1_0000 }

  /**
    The parts of pydicom's data dictionary the codec uses, given as data:
    `keywordFor(k)` is what `keyword_for_tag(k)` returns for a JSON-model key
    (the empty string for a tag without a keyword), and `resolves(k)` holds
    when `Tag(k)` accepts a document key without raising `KeyError`.
   */
  datatype Dictionary = Dictionary(keywordFor: string -> string, resolves: string -> bool)

  /** The document name of a JSON-model key: its keyword, or "0x" and the key. */
  function NameOf(d: Dictionary, key: string): (name: string)
    ensures d.keywordFor(key) != "" ==> name == d.keywordFor(key)
    ensures d.keywordFor(key) == "" ==> name == "0x" + key
  {
    var keyword := d.keywordFor(key);
    if keyword != "" then keyword else "0x" + key
  }

  const HexDigits: string := "0123456789abcdef"

  function HexDigit(n: nat): (c: char)
    requires n < 16
    ensures c in HexDigits
  {
    HexDigits[n]
  }

  /** `"%0*x" % (width, n)` for an `n` that fits in `width` digits. */
  function Hex(n: nat, width: nat): (s: string)
    ensures |s| == width
    ensures forall i :: 0 <= i < |s| ==> s[i] in HexDigits
  {
    if width == 0 then [] else Hex(n / 16, width - 1) + [HexDigit(n % 16)]
  }

  /** `"%04x" % n`. */
  function Hex4(n: nat): (s: string)
    requires n < 0x1_0000
    ensures |s| == 4
  {
    Hex(n, 4)
  }

  /**
    `_tag_to_str`: "0x", then the group and the element as four lower-case
    hexadecimal digits each.
   */
  function TagToStr(t: Tag): (s: string)
    ensures |s| == 10 && s[..2] == "0x"
    ensures forall i :: 2 <= i < 10 ==> s[i] in HexDigits
    ensures s[2..6] == Hex4(Group(t)) && s[6..] == Hex4(Elem(t))
  {
    "0x" + Hex4(Group(t)) + Hex4(Elem(t))
  }

  /** The value of one hexadecimal digit (either case), used to read a rendering back. */
  function DigitValue(c: char): (v: nat)
    ensures v < 16
    ensures forall n :: 0 <= n < 16 && HexDigits[n] == c ==> v == n
  {
    if '0' <= c <= '9' then c as int - '0' as int
    else if 'a' <= c <= 'f' then c as int - 'a' as int + 10
    else if 'A' <= c <= 'F' then c as int - 'A' as int + 10
    else 0
  }

  /** The number a string of hexadecimal digits denotes, most significant first. */
  function ParseHex(s: string): nat {
    if s == [] then 0 else ParseHex(s[..|s| - 1]) * 16 + DigitValue(s[|s| - 1])
  }

  lemma {:induction false} HexValue(n: nat, width: nat)
    requires n < Power16(width)
    ensures ParseHex(Hex(n, width)) == n
  {
    if width > 0 {
      var s := Hex(n, width);
      assert s[..|s| - 1] == Hex(n / 16, width - 1);
      HexValue(n / 16, width - 1);
      assert DigitValue(s[|s| - 1]) == n % 16;
    }
  }

  lemma {:induction false} ParseHexConcat(a: string, b: string)
    ensures ParseHex(a + b) == ParseHex(a) * Power16(|b|) + ParseHex(b)
    decreases |b|
  {
    if b == [] {
      assert a + b == a;
    } else {
      var b' := b[..|b| - 1];
      assert (a + b)[..|a + b| - 1] == a + b';
      assert (a + b)[|a + b| - 1] == b[|b| - 1];
      ParseHexConcat(a, b');
      ShiftDigit(ParseHex(a), Power16(|b'|), ParseHex(b'), DigitValue(b[|b| - 1]));
    }
  }

  /** Appending a digit to `x * p + y` shifts both terms by one place. */
  lemma ShiftDigit(x: nat, p: nat, y: nat, v: nat)
    ensures (x * p + y) * 16 + v == x * (16 * p) + (y * 16 + v)
  {
  }

  function Power16(n: nat): nat {
    if n == 0 then 1 else 16 * Power16(n - 1)
  }

  /** The rendering is lossless: reading its eight digits back gives the tag. */
  lemma TagToStrRoundTrip(t: Tag)
    ensures ParseHex(TagToStr(t)[2..]) == t as int
  {
    var g, e := Hex4(Group(t)), Hex4(Elem(t));
    assert TagToStr(t)[2..] == g + e;
    assert Power16(4) == 0x1_0000 by {
      assert Power16(2) == 256;
    }
    ParseHexConcat(g, e);
    HexValue(Group(t), 4);
    HexValue(Elem(t), 4);
    assert ParseHex(g + e) == Group(t) * 0x1_0000 + Elem(t);
  }

  /** Distinct tags get distinct renderings. */
  lemma TagToStrInjective(t: Tag, u: Tag)
    requires TagToStr(t) == TagToStr(u)
    ensures t == u
  {
    TagToStrRoundTrip(t);
    TagToStrRoundTrip(u);
  }

  lemma HexZeros()
    ensures Hex(0, 2) == "00"
  {
    assert Hex(0, 1) == "0";
  }

  lemma Hex4Eight()
    ensures Hex4(8) == "0008"
  {
    HexZeros();
    assert Hex(0, 3) == "000";
  }

  lemma Hex4Sixty()
    ensures Hex4(0x60) == "0060"
  {
    HexZeros();
    assert Hex(6, 3) == "006";
  }

  /** The rendering of the Modality tag (0008,0060), the example the dump's info text gives. */
  lemma TagToStrModality()
    ensures TagToStr(0x0008_0060) == "0x00080060"
  {
    Hex4Eight();
    Hex4Sixty();
    assert Group(0x0008_0060) == 8 && Elem(0x0008_0060) == 0x60;
  }
}
