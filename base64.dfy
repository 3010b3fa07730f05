/** base64.RawStdEncoding: the standard alphabet of section 4 of RFC 4648 without padding, as Go's
    encoding/base64 implements it (decoding skips CR and LF, ignores the unused low bits of a final
    partial group, and rejects any other character, including '='). */
module Base64 {
  import opened Common

  /** The character for a 6-bit value: A-Z, a-z, 0-9, '+', '/' in that order. */
  function Char(v: int): (c: char)
    requires 0 <= v < 64
    ensures Value(c) == Some(v)
  {
    if v < 26 then ('A' as int + v) as char
    else if v < 52 then ('a' as int + v - 26) as char
    else if v < 62 then ('0' as int + v - 52) as char
    else if v == 62 then '+'
    else '/'
  }

  /** The 6-bit value of an alphabet character, or None for any other character. */
  function Value(c: char): (v: Option<int>)
  {
    if 'A' <= c <= 'Z' then Some(c as int - 'A' as int)
    else if 'a' <= c <= 'z' then Some(c as int - 'a' as int + 26)
    else if '0' <= c <= '9' then Some(c as int - '0' as int + 52)
    else if c == '+' then Some(62)
    else if c == '/' then Some(63)
    else None
  }

  predicate InAlphabet(c: char) { Value(c).Some? }

  /** `EncodeToString`: each group of three bytes becomes four characters; a final group of one or two
      bytes becomes two or three characters, with no '=' padding. */
  function Encode(bs: seq<byte>): (s: string)
    decreases |bs|
  {
    if |bs| == 0 then []
    else if |bs| == 1 then [Char(bs[0] / 4), Char((bs[0] % 4) * 16)]
    else if |bs| == 2 then
      [Char(bs[0] / 4), Char((bs[0] % 4) * 16 + bs[1] / 16), Char((bs[1] % 16) * 4)]
    else Group(bs[0], bs[1], bs[2]) + Encode(bs[3..])
  }

  /** The four characters of one complete three-byte group. */
  function Group(b0: byte, b1: byte, b2: byte): (s: string)
    ensures |s| == 4
  {
    [Char(b0 / 4), Char((b0 % 4) * 16 + b1 / 16), Char((b1 % 16) * 4 + b2 / 64), Char(b2 % 64)]
  }

  /** RawStdEncoding.EncodedLen: ceil(8n / 6) characters for n bytes (22 for a 16-byte salt, 43 for a
      32-byte digest). */
  lemma {:induction false} EncodeLength(bs: seq<byte>)
    ensures |Encode(bs)| == (8 * |bs| + 5) / 6
    decreases |bs|
  {
    if |bs| >= 3 {
      EncodeLength(bs[3..]);
    }
  }

  /** The decoder skips carriage returns and line feeds wherever they occur. */
  function WithoutNewlines(s: string): (r: string)
    ensures forall c :: c in r ==> c in s && c != '\r' && c != '\n'
  {
    if s == [] then []
    else if s[0] == '\r' || s[0] == '\n' then WithoutNewlines(s[1..])
    else [s[0]] + WithoutNewlines(s[1..])
  }

  /** Decoding once newlines are gone: a lone final character, or any character outside the alphabet,
      is a CorruptInputError. */
  function DecodeGroups(s: string): (r: Result<seq<byte>>)
    ensures r.Err? ==> r.error == CorruptBase64
    decreases |s|
  {
    if |s| == 0 then Ok([])
    else if |s| == 1 then Err(CorruptBase64)
    else
      match (Value(s[0]), Value(s[1]))
      case (Some(v0), Some(v1)) =>
        if |s| == 2 then Ok([v0 * 4 + v1 / 16])
        else
          (match Value(s[2])
           case None => Err(CorruptBase64)
           case Some(v2) =>
             if |s| == 3 then Ok([v0 * 4 + v1 / 16, (v1 % 16) * 16 + v2 / 4])
             else
               match Value(s[3])
               case None => Err(CorruptBase64)
               case Some(v3) =>
                 match DecodeGroups(s[4..])
                 case Ok(rest) => Ok([v0 * 4 + v1 / 16, (v1 % 16) * 16 + v2 / 4, (v2 % 4) * 64 + v3] + rest)
                 case Err(e) => Err(e))
      case _ => Err(CorruptBase64)
  }

  /** `DecodeString`. */
  function Decode(s: string): Result<seq<byte>>
  {
    DecodeGroups(WithoutNewlines(s))
  }

  /** Every character of an encoding is in the alphabet (so it never contains '$', CR or LF). */
  lemma {:induction false} EncodeInAlphabet(bs: seq<byte>)
    ensures forall c :: c in Encode(bs) ==> InAlphabet(c)
    decreases |bs|
  {
    if |bs| >= 3 {
      EncodeInAlphabet(bs[3..]);
    }
  }

  lemma {:induction false} NoNewlines(s: string)
    requires forall c :: c in s ==> InAlphabet(c)
    ensures WithoutNewlines(s) == s
  {
    if s != [] {
      assert s[0] in s;
      assert forall c :: c in s[1..] ==> c in s;
      NoNewlines(s[1..]);
    }
  }

  /** Decoding an encoding gives back the bytes: RawStdEncoding is a faithful carrier for salts and digests. */
  lemma DecodeEncode(bs: seq<byte>)
    ensures Decode(Encode(bs)) == Ok(bs)
  {
    EncodeInAlphabet(bs);
    NoNewlines(Encode(bs));
    GroupsRoundTrip(bs);
  }

  lemma {:induction false} GroupsRoundTrip(bs: seq<byte>)
    ensures DecodeGroups(Encode(bs)) == Ok(bs)
    decreases |bs|
  {
    if |bs| == 1 {
      LastOne(bs[0]);
      assert bs == [bs[0]];
    } else if |bs| == 2 {
      LastTwo(bs[0], bs[1]);
      assert bs == [bs[0], bs[1]];
    } else if |bs| >= 3 {
      GroupsRoundTrip(bs[3..]);
      FullGroup(bs);
    }
  }

  lemma LastOne(b0: byte)
    ensures DecodeGroups(Encode([b0])) == Ok([b0])
  {
    var s := Encode([b0]);
    assert Value(s[0]) == Some(b0 / 4) && Value(s[1]) == Some((b0 % 4) * 16);
  }

  lemma LastTwo(b0: byte, b1: byte)
    ensures DecodeGroups(Encode([b0, b1])) == Ok([b0, b1])
  {
    var s := Encode([b0, b1]);
    var c1 := (b0 % 4) * 16 + b1 / 16;
    assert Value(s[0]) == Some(b0 / 4) && Value(s[1]) == Some(c1) && Value(s[2]) == Some((b1 % 16) * 4);
    assert (b0 / 4) * 4 + c1 / 16 == b0;
    assert (c1 % 16) * 16 + ((b1 % 16) * 4) / 4 == b1;
  }

  lemma GroupDecodes(b0: byte, b1: byte, b2: byte, t: string)
    requires DecodeGroups(t).Ok?
    ensures DecodeGroups(Group(b0, b1, b2) + t) == Ok([b0, b1, b2] + DecodeGroups(t).value)
  {
    var c0, c1, c2, c3 := b0 / 4, (b0 % 4) * 16 + b1 / 16, (b1 % 16) * 4 + b2 / 64, b2 % 64;
    var g := Group(b0, b1, b2);
    var s := g + t;
    assert s[4..] == t;
    assert s[0] == g[0] && s[1] == g[1] && s[2] == g[2] && s[3] == g[3];
    GroupArith(b0, b1, b2);
    GroupStep(s, c0, c1, c2, c3);
  }

  /** The arithmetic that undoes the split of three bytes into four 6-bit values. */
  lemma GroupArith(b0: byte, b1: byte, b2: byte)
    ensures (b0 / 4) * 4 + ((b0 % 4) * 16 + b1 / 16) / 16 == b0
    ensures (((b0 % 4) * 16 + b1 / 16) % 16) * 16 + ((b1 % 16) * 4 + b2 / 64) / 4 == b1
    ensures (((b1 % 16) * 4 + b2 / 64) % 4) * 64 + b2 % 64 == b2
  {
    assert ((b0 % 4) * 16 + b1 / 16) / 16 == b0 % 4 && ((b0 % 4) * 16 + b1 / 16) % 16 == b1 / 16;
    assert ((b1 % 16) * 4 + b2 / 64) / 4 == b1 % 16 && ((b1 % 16) * 4 + b2 / 64) % 4 == b2 / 64;
  }

  /** One step of DecodeGroups over four alphabet characters. */
  lemma GroupStep(s: string, c0: int, c1: int, c2: int, c3: int)
    requires |s| >= 4 && DecodeGroups(s[4..]).Ok?
    requires Value(s[0]) == Some(c0) && Value(s[1]) == Some(c1) && Value(s[2]) == Some(c2) && Value(s[3]) == Some(c3)
    ensures DecodeGroups(s) == Ok([c0 * 4 + c1 / 16, (c1 % 16) * 16 + c2 / 4, (c2 % 4) * 64 + c3] + DecodeGroups(s[4..]).value)
  {
  }

  lemma FullGroup(bs: seq<byte>)
    requires |bs| >= 3
    requires DecodeGroups(Encode(bs[3..])) == Ok(bs[3..])
    ensures DecodeGroups(Encode(bs)) == Ok(bs)
  {
    EncodeStep(bs);
    GroupDecodes(bs[0], bs[1], bs[2], Encode(bs[3..]));
    HeadAndTail(bs);
  }

  lemma EncodeStep(bs: seq<byte>)
    requires |bs| >= 3
    ensures Encode(bs) == Group(bs[0], bs[1], bs[2]) + Encode(bs[3..])
  {
  }

  lemma HeadAndTail(bs: seq<byte>)
    requires |bs| >= 3
    ensures [bs[0], bs[1], bs[2]] + bs[3..] == bs
  {
  }

  /** Two strings produced by `Encode` are equal exactly when the bytes are. */
  lemma EncodeInjective(a: seq<byte>, b: seq<byte>)
    ensures Encode(a) == Encode(b) <==> a == b
  {
    if Encode(a) == Encode(b) {
      DecodeEncode(a);
      DecodeEncode(b);
    }
  }
}
