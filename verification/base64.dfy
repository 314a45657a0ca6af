/** The standard base64 encoding of section 4 of RFC 4648 (Go's
    `base64.StdEncoding`): the 64-character alphabet `A-Z a-z 0-9 + /`, with `=`
    padding the last group to four characters. */
module Base64 {
  import opened Wrappers
  import opened Bytes

  /** A six-bit value: an index into the alphabet. */
  type sextet = i: int | 0 <= i < 64

  const Pad: char := '='

  /** The alphabet character for a six-bit value. */
  function Char(i: sextet): (c: char)
    ensures IsAlphabet(c) && Index(c) == i
  {
    if i < 26 then ('A' as int + i) as char
    else if i < 52 then ('a' as int + (i - 26)) as char
    else if i < 62 then ('0' as int + (i - 52)) as char
    else if i == 62 then '+'
    else '/'
  }

  predicate IsAlphabet(c: char) {
    ('A' <= c <= 'Z') || ('a' <= c <= 'z') || ('0' <= c <= '9') || c == '+' || c == '/'
  }

  /** The six-bit value an alphabet character stands for. */
  function Index(c: char): sextet
    requires IsAlphabet(c)
  {
    if 'A' <= c <= 'Z' then c as int - 'A' as int
    else if 'a' <= c <= 'z' then c as int - 'a' as int + 26
    else if '0' <= c <= '9' then c as int - '0' as int + 52
    else if c == '+' then 62
    else 63
  }

  /** Three bytes as four characters: the 24 bits cut into four six-bit groups. */
  function EncodeGroup(b0: byte, b1: byte, b2: byte): string {
    [Char(b0 / 4), Char((b0 % 4) * 16 + b1 / 16), Char((b1 % 16) * 4 + b2 / 64), Char(b2 % 64)]
  }

  /** The encoding of a whole byte sequence. A final group of one byte becomes two
      characters and `==`; a final group of two bytes becomes three characters and `=`. */
  function Encode(data: seq<byte>): (s: string)
    ensures |s| % 4 == 0 && (s == [] <==> data == [])
    decreases |data|
  {
    if |data| >= 3 then
      var group, rest := EncodeGroup(data[0], data[1], data[2]), Encode(data[3..]);
      assert |group + rest| == |rest| + 4;
      group + rest
    else if |data| == 2 then [Char(data[0] / 4), Char((data[0] % 4) * 16 + data[1] / 16), Char((data[1] % 16) * 4), Pad]
    else if |data| == 1 then [Char(data[0] / 4), Char((data[0] % 4) * 16), Pad, Pad]
    else ""
  }

  /** Decoding, as Go's non-strict decoder does it for input without line breaks:
      groups of four alphabet characters, padding only in the last group, and the
      unused low bits of a padded group ignored. `None` for anything else. */
  function Decode(s: string): (r: Option<seq<byte>>)
    decreases |s|
  {
    if |s| == 0 then Some([])
    else if |s| < 4 || !IsAlphabet(s[0]) || !IsAlphabet(s[1]) then None
    else
      var i0, i1 := Index(s[0]), Index(s[1]);
      var b0: byte := i0 * 4 + i1 / 16;
      if s[2] == Pad && s[3] == Pad then
        if |s| == 4 then Some([b0]) else None
      else if !IsAlphabet(s[2]) then None
      else
        var i2 := Index(s[2]);
        var b1: byte := (i1 % 16) * 16 + i2 / 4;
        if s[3] == Pad then
          if |s| == 4 then Some([b0, b1]) else None
        else if !IsAlphabet(s[3]) then None
        else
          var b2: byte := (i2 % 4) * 64 + Index(s[3]);
          match Decode(s[4..])
          case None => None
          case Some(rest) => Some([b0, b1, b2] + rest)
  }

  /** The encoding of n bytes has 4 * ceil(n / 3) characters. */
  lemma {:induction false} EncodeLength(data: seq<byte>)
    ensures |Encode(data)| == 4 * ((|data| + 2) / 3)
    decreases |data|
  {
    if |data| >= 3 {
      EncodeLength(data[3..]);
      assert (|data| + 2) / 3 == (|data[3..]| + 2) / 3 + 1;
    }
  }

  /** The bits of a padded final group that no byte fills are zero, as section 3.5 of
      RFC 4648 requires of a canonical encoding: the last alphabet character before
      `==` has its low four bits clear, and the one before `=` its low two bits. */
  lemma {:induction false} EncodePadBits(data: seq<byte>)
    ensures var s := Encode(data);
            && (|data| % 3 == 1 ==> |s| >= 4 && IsAlphabet(s[|s| - 3]) && Index(s[|s| - 3]) % 16 == 0)
            && (|data| % 3 == 2 ==> |s| >= 4 && IsAlphabet(s[|s| - 2]) && Index(s[|s| - 2]) % 4 == 0)
    decreases |data|
  {
    if |data| >= 3 {
      EncodePadBits(data[3..]);
      EncodeStep(data);
      LessThree(|data|);
      if |data| % 3 != 0 {
        AfterGroupEnds(EncodeGroup(data[0], data[1], data[2]), Encode(data[3..]));
      }
    } else if |data| == 2 {
      PadBitsTwo(data[0], data[1]);
      assert [data[0], data[1]] == data;
    } else if |data| == 1 {
      PadBitsOne(data[0]);
      assert [data[0]] == data;
    }
  }

  /** Dropping a group of three leaves the remainder modulo three unchanged. */
  lemma LessThree(n: int)
    requires n >= 3
    ensures (n - 3) % 3 == n % 3
  {
  }

  /** A full leading group is encoded ahead of the rest. */
  lemma EncodeStep(data: seq<byte>)
    requires |data| >= 3
    ensures Encode(data) == EncodeGroup(data[0], data[1], data[2]) + Encode(data[3..])
  {
  }

  /** A leading group leaves the last characters of the rest where they were. */
  lemma AfterGroupEnds(g: string, rest: string)
    requires |g| == 4 && |rest| >= 4
    ensures var s := g + rest; s[|s| - 3] == rest[|rest| - 3] && s[|s| - 2] == rest[|rest| - 2]
  {
  }

  /** A final single byte leaves four zero bits in the second character. */
  lemma PadBitsOne(b0: byte)
    ensures Index(Encode([b0])[1]) % 16 == 0
  {
    var k := b0 % 4;
    assert k * 16 == 0 || k * 16 == 16 || k * 16 == 32 || k * 16 == 48;
  }

  /** Two final bytes leave two zero bits in the third character. */
  lemma PadBitsTwo(b0: byte, b1: byte)
    ensures Index(Encode([b0, b1])[2]) % 4 == 0
  {
    var k := b1 % 16;
    assert (k * 4) % 4 == 0;
  }

  /** Decoding an encoding gives back the bytes. */
  lemma {:induction false} DecodeEncode(data: seq<byte>)
    ensures Decode(Encode(data)) == Some(data)
    decreases |data|
  {
    if |data| >= 3 {
      DecodeEncode(data[3..]);
      DecodeEncodeGroup(data, Encode(data[3..]));
    } else if |data| == 2 {
      DecodeTwo(data[0], data[1]);
      assert [data[0], data[1]] == data;
    } else if |data| == 1 {
      DecodeOne(data[0]);
      assert [data[0]] == data;
    }
  }

  /** One round-trip step: a leading full group comes back ahead of the rest. */
  lemma DecodeEncodeGroup(data: seq<byte>, rest: string)
    requires |data| >= 3 && Decode(rest) == Some(data[3..])
    ensures Decode(EncodeGroup(data[0], data[1], data[2]) + rest) == Some(data)
  {
    DecodeGroup(data[0], data[1], data[2], rest);
    assert [data[0], data[1], data[2]] + data[3..] == data;
  }

  /** A final group of one byte decodes to that byte. */
  lemma DecodeOne(b0: byte)
    ensures Decode([Char(b0 / 4), Char((b0 % 4) * 16), Pad, Pad]) == Some([b0])
  {
    GroupRoundTrip(b0, 0, 0);
  }

  /** A final group of two bytes decodes to those bytes. */
  lemma DecodeTwo(b0: byte, b1: byte)
    ensures Decode([Char(b0 / 4), Char((b0 % 4) * 16 + b1 / 16), Char((b1 % 16) * 4), Pad]) == Some([b0, b1])
  {
    GroupRoundTrip(b0, b1, 0);
  }

  /** A full group decodes to its three bytes, ahead of whatever the rest decodes to. */
  lemma DecodeGroup(b0: byte, b1: byte, b2: byte, rest: string)
    ensures Decode(EncodeGroup(b0, b1, b2) + rest) ==
              match Decode(rest)
              case None => None
              case Some(tail) => Some([b0, b1, b2] + tail)
  {
    var i0, i1, i2, i3 := b0 / 4, (b0 % 4) * 16 + b1 / 16, (b1 % 16) * 4 + b2 / 64, b2 % 64;
    var c0, c1, c2, c3 := Char(i0), Char(i1), Char(i2), Char(i3);
    assert EncodeGroup(b0, b1, b2) == [c0, c1, c2, c3];
    assert Index(c0) == i0 && Index(c1) == i1 && Index(c2) == i2 && Index(c3) == i3;
    GroupRoundTrip(b0, b1, b2);
    DecodeFour(c0, c1, c2, c3, rest);
  }

  /** Four alphabet characters decode to the three bytes their 24 bits hold. */
  lemma DecodeFour(c0: char, c1: char, c2: char, c3: char, rest: string)
    requires IsAlphabet(c0) && IsAlphabet(c1) && IsAlphabet(c2) && IsAlphabet(c3)
    ensures var i0, i1, i2, i3 := Index(c0), Index(c1), Index(c2), Index(c3);
            Decode([c0, c1, c2, c3] + rest) ==
              match Decode(rest)
              case None => None
              case Some(tail) => Some([i0 * 4 + i1 / 16, (i1 % 16) * 16 + i2 / 4, (i2 % 4) * 64 + i3] + tail)
  {
    var s := [c0, c1, c2, c3] + rest;
    assert s[0] == c0 && s[1] == c1 && s[2] == c2 && s[3] == c3;
    assert s[4..] == rest;
  }

  lemma GroupRoundTrip(b0: byte, b1: byte, b2: byte)
    ensures var i0, i1, i2, i3 := b0 / 4, (b0 % 4) * 16 + b1 / 16, (b1 % 16) * 4 + b2 / 64, b2 % 64;
            && i0 * 4 + i1 / 16 == b0
            && (i1 % 16) * 16 + i2 / 4 == b1
            && (i2 % 4) * 64 + i3 == b2
  {
  }

  /** Every character of an encoding is an alphabet character or padding. */
  lemma {:induction false} EncodeAlphabet(data: seq<byte>)
    ensures forall k :: 0 <= k < |Encode(data)| ==> IsAlphabet(Encode(data)[k]) || Encode(data)[k] == Pad
    decreases |data|
  {
    if |data| >= 3 {
      EncodeAlphabet(data[3..]);
      var g, rest := EncodeGroup(data[0], data[1], data[2]), Encode(data[3..]);
      assert Encode(data) == g + rest;
      forall k | 0 <= k < |Encode(data)| ensures IsAlphabet(Encode(data)[k]) || Encode(data)[k] == Pad {
        if k >= 4 { assert Encode(data)[k] == rest[k - 4]; }
      }
    }
  }

  /** The test vectors of section 10 of RFC 4648: "", "f", "fo", "foo", "foob",
      "fooba" and "foobar". */
  lemma Rfc4648Vectors()
    ensures Encode([]) == ""
    ensures Encode([102]) == "Zg=="
    ensures Encode([102, 111]) == "Zm8="
    ensures Encode([102, 111, 111]) == "Zm9v"
    ensures Encode([102, 111, 111, 98]) == "Zm9vYg=="
    ensures Encode([102, 111, 111, 98, 97]) == "Zm9vYmE="
    ensures Encode([102, 111, 111, 98, 97, 114]) == "Zm9vYmFy"
  {
    ShortVectors();
    Foob();
    Fooba();
    Foobar();
  }

  /** The vectors of at most one group. */
  lemma ShortVectors()
    ensures Encode([]) == ""
    ensures Encode([102]) == "Zg=="
    ensures Encode([102, 111]) == "Zm8="
    ensures Encode([102, 111, 111]) == "Zm9v"
  {
  }

  /** The group "foo", which leads the longer vectors. */
  lemma Foo()
    ensures EncodeGroup(102, 111, 111) == "Zm9v"
  {
    assert 102 / 4 == 25 && (102 % 4) * 16 + 111 / 16 == 38 && (111 % 16) * 4 + 111 / 64 == 61 && 111 % 64 == 47;
    assert EncodeGroup(102, 111, 111) == [Char(25), Char(38), Char(61), Char(47)];
    assert Char(25) == 'Z' && Char(38) == 'm' && Char(61) == '9' && Char(47) == 'v';
  }

  /** "foob": a full group, then one byte padded with `==`. */
  lemma Foob()
    ensures Encode([102, 111, 111, 98]) == "Zm9vYg=="
  {
    Foo();
    assert Encode([98]) == "Yg==";
    EncodeAfterGroup([102, 111, 111], [98]);
  }

  /** "fooba": a full group, then two bytes padded with `=`. */
  lemma Fooba()
    ensures Encode([102, 111, 111, 98, 97]) == "Zm9vYmE="
  {
    Foo();
    assert Encode([98, 97]) == "YmE=";
    EncodeAfterGroup([102, 111, 111], [98, 97]);
  }

  /** "foobar": two full groups. */
  lemma Foobar()
    ensures Encode([102, 111, 111, 98, 97, 114]) == "Zm9vYmFy"
  {
    Foo();
    assert EncodeGroup(98, 97, 114) == "YmFy";
    EncodeAfterGroup([98, 97, 114], []);
    EncodeAfterGroup([102, 111, 111], [98, 97, 114]);
  }

  /** A leading group of three bytes is encoded on its own, ahead of the rest. */
  lemma EncodeAfterGroup(group: seq<byte>, rest: seq<byte>)
    requires |group| == 3
    ensures Encode(group + rest) == EncodeGroup(group[0], group[1], group[2]) + Encode(rest)
  {
    var data := group + rest;
    assert data[0] == group[0] && data[1] == group[1] && data[2] == group[2];
    assert data[3..] == rest;
  }
}
