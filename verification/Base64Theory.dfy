/** The encoding against RFC 4648: its table, the bits of each group, and exactly which texts the strict decoder takes. */
module Base64Theory {
  import opened SequenceFacts
  import opened Results
  import opened Base64

  // ----- The table -----

  const CAPITALS := "ABCDEFGHIJKLMNOPQRSTUVWXYZ"
  const SMALL_LETTERS := "abcdefghijklmnopqrstuvwxyz"
  const DIGITS := "0123456789"

  /** Table 1 of RFC 4648, without the last two characters and with them. */
  const LETTERS_AND_DIGITS: string := CAPITALS + SMALL_LETTERS + DIGITS
  const ALPHABET: string := LETTERS_AND_DIGITS + "+/"

  lemma CapitalsAre(v: nat)
    requires v < 26
    ensures CAPITALS[v] == 'A' + v as char
  {
  }

  lemma SmallLettersAre(v: nat)
    requires v < 26
    ensures SMALL_LETTERS[v] == 'a' + v as char
  {
  }

  lemma DigitsAre(v: nat)
    requires v < 10
    ensures DIGITS[v] == '0' + v as char
  {
  }

  lemma Joined(a: string, b: string, c: string, d: string, v: nat)
    requires v < |a| + |b| + |c| + |d|
    ensures (a + b + c + d)[v] ==
      if v < |a| then a[v]
      else if v < |a| + |b| then b[v - |a|]
      else if v < |a| + |b| + |c| then c[v - |a| - |b|]
      else d[v - |a| - |b| - |c|]
  {
  }

  lemma Sizes()
    ensures |CAPITALS| == 26 && |SMALL_LETTERS| == 26 && |DIGITS| == 10 && |ALPHABET| == 64
  {
  }

  /** Each value has the character that the table gives it. */
  lemma TableIs(v: Sextet)
    ensures |ALPHABET| == 64 && CharOf(v) == ALPHABET[v]
  {
    Sizes();
    Joined(CAPITALS, SMALL_LETTERS, DIGITS, "+/", v);
    if v < 26 {
      CapitalsAre(v);
    } else if v < 52 {
      SmallLettersAre(v - 26);
    } else if v < 62 {
      DigitsAre(v - 52);
    }
  }

  lemma AlphabetIs(c: char)
    ensures InAlphabet(c) <==> c in ALPHABET
    ensures InAlphabet(c) ==> |ALPHABET| == 64 && ALPHABET[ValueOf(c)] == c
  {
    Sizes();
    if InAlphabet(c) {
      TableIs(ValueOf(c));
      assert CharOf(ValueOf(c)) == c;
    }
    if c in ALPHABET {
      var v :| 0 <= v < |ALPHABET| && ALPHABET[v] == c;
      TableIs(v);
    }
  }

  // ----- The bits -----

  /** Four characters of the table that spell the 24 bits of three bytes, most significant first. */
  ghost predicate SpellsGroup(text: string, x: Byte, y: Byte, z: Byte) {
    exists a: Sextet, b: Sextet, c: Sextet, d: Sextet ::
      && |ALPHABET| == 64 && text == [ALPHABET[a], ALPHABET[b], ALPHABET[c], ALPHABET[d]]
      && ((a * 64 + b) * 64 + c) * 64 + d == Bits(Bits(x, y), z)
  }

  lemma SextetsOf(x: int, y: int, z: int)
    requires 0 <= x && 0 <= y && 0 <= z
    ensures ((x / 4 * 64 + (x % 4 * 16 + y / 16)) * 64 + (y % 16 * 4 + z / 64)) * 64 + z % 64 == Bits(Bits(x, y), z)
  {
    assert x == x / 4 * 4 + x % 4 && y == y / 16 * 16 + y % 16 && z == z / 64 * 64 + z % 64;
  }

  lemma GroupSpells(x: Byte, y: Byte, z: Byte)
    ensures SpellsGroup(Group(x, y, z), x, y, z)
  {
    TableIs(x / 4);
    TableIs(x % 4 * 16 + y / 16);
    TableIs(y % 16 * 4 + z / 64);
    TableIs(z % 64);
    SextetsOf(x, y, z);
    var a: Sextet, b: Sextet, c: Sextet, d: Sextet := x / 4, x % 4 * 16 + y / 16, y % 16 * 4 + z / 64, z % 64;
    assert Group(x, y, z) == [ALPHABET[a], ALPHABET[b], ALPHABET[c], ALPHABET[d]];
  }

  /** Two characters, or three, spell a number of 12 or 18 bits. */
  ghost predicate SpellsTwo(text: string, bits: int) {
    exists a: Sextet, b: Sextet :: |ALPHABET| == 64 && a * 64 + b == bits && text == [ALPHABET[a], ALPHABET[b]]
  }

  ghost predicate SpellsThree(text: string, bits: int) {
    exists a: Sextet, b: Sextet, c: Sextet ::
      |ALPHABET| == 64 && (a * 64 + b) * 64 + c == bits && text == [ALPHABET[a], ALPHABET[b], ALPHABET[c]]
  }

  /** The end of a text whose bytes are no multiple of three: the missing bits are zero, and padding fills the group. */
  ghost predicate SpellsRest(text: string, rest: Bytes) {
    && |rest| < 3
    && (|rest| == 0 ==> text == "")
    && (|rest| == 1 ==> |text| == 4 && SpellsTwo(text[..2], Bits(rest[0], 0) / 16) && text[2..] == "==")
    && (|rest| == 2 ==> |text| == 4 && SpellsThree(text[..3], Bits(rest[0], rest[1]) * 4) && text[3..] == "=")
  }

  function Bits(x: int, y: int): int { x * 256 + y }

  lemma RestSpells(rest: Bytes)
    requires |rest| < 3
    ensures SpellsRest(Encode(rest), rest)
  {
    if |rest| == 1 {
      assert rest == [rest[0]];
      OneByte(rest[0]);
    } else if |rest| == 2 {
      assert rest == [rest[0], rest[1]];
      TwoBytes(rest[0], rest[1]);
    }
  }

  lemma OneByte(x: Byte)
    ensures SpellsTwo(Encode([x])[..2], Bits(x, 0) / 16) && Encode([x])[2..] == "=="
  {
    TableIs(x / 4);
    TableIs(x % 4 * 16);
    var a: Sextet, b: Sextet := x / 4, x % 4 * 16;
    assert Encode([x])[..2] == [ALPHABET[a], ALPHABET[b]];
    TwelveBits(x, a, b);
  }

  lemma TwelveBits(x: int, a: int, b: int)
    requires 0 <= x && a == x / 4 && b == x % 4 * 16
    ensures a * 64 + b == Bits(x, 0) / 16
  {
    assert x == a * 4 + x % 4;
  }

  lemma TwoBytes(x: Byte, y: Byte)
    ensures SpellsThree(Encode([x, y])[..3], Bits(x, y) * 4) && Encode([x, y])[3..] == "="
  {
    TableIs(x / 4);
    TableIs(x % 4 * 16 + y / 16);
    TableIs(y % 16 * 4);
    var a: Sextet, b: Sextet, c: Sextet := x / 4, x % 4 * 16 + y / 16, y % 16 * 4;
    assert Encode([x, y])[..3] == [ALPHABET[a], ALPHABET[b], ALPHABET[c]];
    EighteenBits(x, y, a, b, c);
  }

  lemma EighteenBits(x: int, y: int, a: int, b: int, c: int)
    requires 0 <= x && 0 <= y && a == x / 4 && b == x % 4 * 16 + y / 16 && c == y % 16 * 4
    ensures (a * 64 + b) * 64 + c == Bits(x, y) * 4
  {
    assert x == a * 4 + x % 4 && y == y / 16 * 16 + y % 16;
  }

  /** The text spells the bytes, group after group, and the rest last. */
  ghost predicate Spells(text: string, data: Bytes)
    decreases |data|
  {
    if |data| < 3 then SpellsRest(text, data)
    else |text| >= 4 && SpellsGroup(text[..4], data[0], data[1], data[2]) && Spells(text[4..], data[3..])
  }

  /** The encoding of any bytes spells them out. */
  lemma {:induction false} EncodingSpells(data: Bytes)
    ensures Spells(Encode(data), data)
  {
    if |data| < 3 {
      RestSpells(data);
    } else {
      var group, rest := Group(data[0], data[1], data[2]), Encode(data[3..]);
      EncodingSpells(data[3..]);
      GroupSpells(data[0], data[1], data[2]);
      assert (group + rest)[..4] == group && (group + rest)[4..] == rest;
    }
  }

  // ----- Which texts are decoded -----

  /** Table characters, then at most two pads. */
  ghost predicate Padded(text: string, pads: nat) {
    && pads <= 2 && pads <= |text|
    && (forall i :: 0 <= i < |text| - pads ==> text[i] in ALPHABET)
    && (forall i :: |text| - pads <= i < |text| ==> text[i] == '=')
  }

  ghost predicate Strict(text: string) {
    |text| % 4 == 0 && exists pads: nat :: Padded(text, pads)
  }

  lemma NoPadInAlphabet()
    ensures '=' !in ALPHABET
  {
    AlphabetIs('=');
  }

  /** The decoder takes a text if and only if it consists of full groups of table characters, the last one padded at
      most twice. */
  lemma {:induction false} DecodesIffStrict(text: string)
    ensures Decode(text).Some? <==> Strict(text)
    decreases |text|
  {
    if |text| == 4 {
      LastGroup(text);
    } else if |text| > 4 {
      DecodesIffStrict(text[4..]);
      GroupInFront(text);
    } else {
      ShortText(text);
    }
  }

  lemma ShortText(text: string)
    requires |text| < 4
    ensures Decode(text).Some? <==> Strict(text)
  {
    if text == "" {
      assert Padded(text, 0);
    }
  }

  lemma GroupInFront(text: string)
    requires |text| > 4
    requires Decode(text[4..]).Some? <==> Strict(text[4..])
    ensures Decode(text).Some? <==> Strict(text)
  {
    MoreThanOneGroup(text);
    RestIsPadded(text);
    forall i | 0 <= i < 4 ensures InAlphabet(text[i]) <==> text[i] in ALPHABET {
      AlphabetIs(text[i]);
    }
  }

  ghost predicate InTable(text: string, n: nat) { n <= |text| && forall i :: 0 <= i < n ==> InAlphabet(text[i]) }

  lemma MoreThanOneGroup(text: string)
    requires |text| > 4
    ensures Decode(text).Some? <==> InTable(text, 4) && Decode(text[4..]).Some?
  {
    assert !InAlphabet('=');
    if InTable(text, 4) {
      assert text[2] != '=' && text[3] != '=';
    }
  }

  lemma FullGroupValue(text: string)
    requires |text| >= 4 && InTable(text, 4) && Decode(text[4..]).Some?
    ensures Decode(text).Some?
    ensures var (x, y, z) := BytesOf(ValueOf(text[0]), ValueOf(text[1]), ValueOf(text[2]), ValueOf(text[3]));
            0 <= x < 256 && 0 <= y < 256 && 0 <= z < 256 && Decode(text).value == [x, y, z] + Decode(text[4..]).value
  {
    assert !InAlphabet('=');
    assert text[2] != '=' && text[3] != '=';
    SextetsBack(ValueOf(text[0]), ValueOf(text[1]), ValueOf(text[2]), ValueOf(text[3]));
  }

  lemma LastGroup(text: string)
    requires |text| == 4
    ensures Decode(text).Some? <==> Strict(text)
  {
    NoPadInAlphabet();
    forall i | 0 <= i < 4 ensures InAlphabet(text[i]) <==> text[i] in ALPHABET {
      AlphabetIs(text[i]);
    }
    FourCharacters(text);
    FourPadded(text);
  }

  lemma FourCharacters(text: string)
    requires |text| == 4
    ensures Decode(text).Some? <==>
      InTable(text, 4) || (InTable(text, 3) && text[3] == '=') || (InTable(text, 2) && text[2] == text[3] == '=')
  {
    assert text[4..] == "";
  }

  lemma FourPadded(text: string)
    requires |text| == 4 && forall i :: 0 <= i < 4 ==> (InAlphabet(text[i]) <==> text[i] in ALPHABET)
    ensures Strict(text) <==>
      InTable(text, 4) || (InTable(text, 3) && text[3] == '=') || (InTable(text, 2) && text[2] == text[3] == '=')
  {
    assert Padded(text, 0) <==> InTable(text, 4);
    assert Padded(text, 1) <==> InTable(text, 3) && text[3] == '=';
    assert Padded(text, 2) <==> InTable(text, 2) && text[2] == text[3] == '=';
  }

  ghost predicate TableFirst(text: string) { |text| >= 4 && forall i :: 0 <= i < 4 ==> text[i] in ALPHABET }

  lemma PaddedFront(text: string, pads: nat)
    requires |text| >= 8
    ensures Padded(text, pads) <==> Padded(text[4..], pads) && TableFirst(text)
  {
    var rest := text[4..];
    assert forall i :: 0 <= i < |rest| ==> rest[i] == text[i + 4];
    assert forall i :: 4 <= i < |text| ==> text[i] == rest[i - 4];
  }

  lemma RestIsPadded(text: string)
    requires |text| > 4
    ensures Strict(text) <==> Strict(text[4..]) && TableFirst(text)
  {
    if |text| >= 8 {
      forall pads: nat ensures Padded(text, pads) <==> Padded(text[4..], pads) && TableFirst(text) {
        PaddedFront(text, pads);
      }
    }
  }

  /** What a text without padding stands for is the one list of bytes that it encodes. */
  lemma {:induction false} UnpaddedIsItsEncoding(text: string)
    requires |text| % 4 == 0 && Padded(text, 0)
    ensures Decode(text).Some? && Encode(Decode(text).value) == text
    decreases |text|
  {
    if text != "" {
      var rest := text[4..];
      assert Padded(rest, 0);
      UnpaddedIsItsEncoding(rest);
      NoPadInAlphabet();
      forall i | 0 <= i < 4 ensures BackAndForth(text[i]) {
        AlphabetIs(text[i]);
        TableIs(ValueOf(text[i]));
      }
      Regrouped(text);
    }
  }

  function BytesOf(a: int, b: int, c: int, d: int): (int, int, int) {
    (a * 4 + b / 16, b % 16 * 16 + c / 4, c % 4 * 64 + d)
  }

  lemma SextetsBack(a: int, b: int, c: int, d: int)
    requires 0 <= a < 64 && 0 <= b < 64 && 0 <= c < 64 && 0 <= d < 64
    ensures var (x, y, z) := BytesOf(a, b, c, d);
            && 0 <= x < 256 && 0 <= y < 256 && 0 <= z < 256
            && x / 4 == a && x % 4 * 16 + y / 16 == b && y % 16 * 4 + z / 64 == c && z % 64 == d
  {
  }

  ghost predicate BackAndForth(c: char) { InAlphabet(c) && CharOf(ValueOf(c)) == c }

  lemma CharactersBack(p: char, q: char, r: char, t: char)
    requires BackAndForth(p) && BackAndForth(q) && BackAndForth(r) && BackAndForth(t)
    ensures var (x, y, z) := BytesOf(ValueOf(p), ValueOf(q), ValueOf(r), ValueOf(t));
            0 <= x < 256 && 0 <= y < 256 && 0 <= z < 256 && Group(x, y, z) == [p, q, r, t]
  {
    SextetsBack(ValueOf(p), ValueOf(q), ValueOf(r), ValueOf(t));
  }

  lemma Regrouped(text: string)
    requires |text| >= 4 && Decode(text[4..]).Some? && Encode(Decode(text[4..]).value) == text[4..]
    requires forall i :: 0 <= i < 4 ==> BackAndForth(text[i])
    ensures Decode(text).Some? && Encode(Decode(text).value) == text
  {
    FullGroupValue(text);
    CharactersBack(text[0], text[1], text[2], text[3]);
    var bytes := BytesOf(ValueOf(text[0]), ValueOf(text[1]), ValueOf(text[2]), ValueOf(text[3]));
    EncodeGroup(bytes.0, bytes.1, bytes.2, Decode(text[4..]).value);
    assert text == [text[0], text[1], text[2], text[3]] + text[4..];
  }
}
