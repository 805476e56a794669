/** Base64 as section 4 of RFC 4648 defines it: the encoder, and the strict decoder of Python's
    b64decode(validate=True). */
module Base64 {
  import opened SequenceFacts
  import opened Results

  type Byte = b: int | 0 <= b < 256
  type Sextet = v: int | 0 <= v < 64
  type Bytes = seq<Byte>

  function CharOf(v: Sextet): char {
    if v < 26 then 'A' + v as char
    else if v < 52 then 'a' + (v - 26) as char
    else if v < 62 then '0' + (v - 52) as char
    else if v == 62 then '+' else '/'
  }

  predicate InAlphabet(c: char) {
    'A' <= c <= 'Z' || 'a' <= c <= 'z' || '0' <= c <= '9' || c == '+' || c == '/'
  }

  function ValueOf(c: char): Sextet
    requires InAlphabet(c)
  {
    if 'A' <= c <= 'Z' then c as int - 'A' as int
    else if 'a' <= c <= 'z' then c as int - 'a' as int + 26
    else if '0' <= c <= '9' then c as int - '0' as int + 52
    else if c == '+' then 62 else 63
  }

  lemma CharRoundTrip(v: Sextet)
    ensures InAlphabet(CharOf(v)) && CharOf(v) != '=' && ValueOf(CharOf(v)) == v
  {
  }

  function Group(a: Byte, b: Byte, c: Byte): string {
    [CharOf(a / 4), CharOf(a % 4 * 16 + b / 16), CharOf(b % 16 * 4 + c / 64), CharOf(c % 64)]
  }

  function Encode(data: Bytes): string {
    if |data| == 0 then ""
    else if |data| == 1 then [CharOf(data[0] / 4), CharOf(data[0] % 4 * 16), '=', '=']
    else if |data| == 2 then
      [CharOf(data[0] / 4), CharOf(data[0] % 4 * 16 + data[1] / 16), CharOf(data[1] % 16 * 4), '=']
    else Group(data[0], data[1], data[2]) + Encode(data[3..])
  }

  /** Data characters come first; a last group of two takes two pads, of three takes one.  Bits that do not fill
      a byte are dropped, whatever they are. */
  function Decode(text: string): Option<Bytes>
    decreases |text|
  {
    if text == "" then Some([])
    else if |text| < 4 || !InAlphabet(text[0]) || !InAlphabet(text[1]) then None
    else
      var a, b := ValueOf(text[0]), ValueOf(text[1]);
      if text[2] == '=' then
        if |text| == 4 && text[3] == '=' then Some([a * 4 + b / 16]) else None
      else if !InAlphabet(text[2]) then None
      else
        var c := ValueOf(text[2]);
        if text[3] == '=' then
          if |text| == 4 then Some([a * 4 + b / 16, b % 16 * 16 + c / 4]) else None
        else if !InAlphabet(text[3]) then None
        else
          var d := ValueOf(text[3]);
          var rest := Decode(text[4..]);
          if rest.None? then None
          else Some([a * 4 + b / 16, b % 16 * 16 + c / 4, c % 4 * 64 + d] + rest.value)
  }

  /** Two neighbouring sextets give back the byte they share. */
  lemma SplitByte(x: int, y: int, n: int)
    requires n in {4, 16} && 0 <= y < n && 0 <= x
    ensures (x * n + y) / n == x && (x * n + y) % n == y
  {
  }

  lemma SplitGroup(a: Byte, b: Byte, c: Byte)
    ensures a / 4 * 4 + (a % 4 * 16 + b / 16) / 16 == a
    ensures (a % 4 * 16 + b / 16) % 16 * 16 + (b % 16 * 4 + c / 64) / 4 == b
    ensures (b % 16 * 4 + c / 64) % 4 * 64 + c % 64 == c
  {
    SplitByte(a % 4, b / 16, 16);
    SplitByte(b % 16, c / 64, 4);
  }

  lemma DecodeGroup(a: Byte, b: Byte, c: Byte, rest: string)
    requires Decode(rest).Some?
    ensures Decode(Group(a, b, c) + rest) == Some([a, b, c] + Decode(rest).value)
  {
    CharRoundTrip(a / 4);
    CharRoundTrip(a % 4 * 16 + b / 16);
    CharRoundTrip(b % 16 * 4 + c / 64);
    CharRoundTrip(c % 64);
    SplitGroup(a, b, c);
    var text := Group(a, b, c) + rest;
    assert text[4..] == rest;
  }

  lemma DecodeOne(a: Byte)
    ensures Decode(Encode([a])) == Some([a])
  {
    CharRoundTrip(a / 4);
    CharRoundTrip(a % 4 * 16);
    SplitGroup(a, 0, 0);
  }

  lemma DecodeTwo(a: Byte, b: Byte)
    ensures Decode(Encode([a, b])) == Some([a, b])
  {
    CharRoundTrip(a / 4);
    CharRoundTrip(a % 4 * 16 + b / 16);
    CharRoundTrip(b % 16 * 4);
    SplitGroup(a, b, 0);
  }

  lemma EncodeGroup(a: Byte, b: Byte, c: Byte, rest: Bytes)
    ensures Encode([a, b, c] + rest) == Group(a, b, c) + Encode(rest)
  {
    assert ([a, b, c] + rest)[3..] == rest;
  }

  lemma CutGroup(data: Bytes)
    requires |data| >= 3
    ensures data == [data[0], data[1], data[2]] + data[3..]
  {
  }

  lemma {:induction false} EncodedLength(data: Bytes)
    ensures |Encode(data)| == 4 * ((|data| + 2) / 3)
  {
    if |data| > 2 {
      var rest := data[3..];
      EncodedLength(rest);
      CutGroup(data);
      EncodeGroup(data[0], data[1], data[2], rest);
    }
  }

  lemma {:induction false} DecodeEncode(data: Bytes)
    ensures Decode(Encode(data)) == Some(data)
  {
    if |data| == 1 {
      DecodeOne(data[0]);
      assert data == [data[0]];
    } else if |data| == 2 {
      DecodeTwo(data[0], data[1]);
      assert data == [data[0], data[1]];
    } else if |data| > 2 {
      DecodeEncode(data[3..]);
      DecodeGroup(data[0], data[1], data[2], Encode(data[3..]));
      assert data == [data[0], data[1], data[2]] + data[3..];
    }
  }

  /** Encoding may be cut after any multiple of three bytes. */
  lemma {:induction false} EncodeSplits(a: Bytes, b: Bytes)
    requires |a| % 3 == 0
    ensures Encode(a + b) == Encode(a) + Encode(b)
  {
    if a == [] {
      assert a + b == b;
    } else {
      var rest := a[3..];
      EncodeSplits(rest, b);
      CutGroup(a);
      EncodeGroup(a[0], a[1], a[2], rest);
      EncodeGroup(a[0], a[1], a[2], rest + b);
      Regroup([a[0], a[1], a[2]], rest, b);
      Regroup(Group(a[0], a[1], a[2]), Encode(rest), Encode(b));
    }
  }
}
