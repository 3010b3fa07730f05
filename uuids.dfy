/** The parts of github.com/google/uuid the core relies on: a UUID is 16 bytes, `String` is the
    canonical lower-case 8-4-4-4-12 form, and `Parse` accepts the four layouts the library accepts. */
module Uuids {
  import opened Common

  type Uuid = b: seq<byte> | |b| == 16 witness seq(16, _ => 0)

  /** The lower-case hexadecimal digit of a nibble, as the library's "0123456789abcdef" table gives it. */
  function HexDigit(d: int): (c: char)
    requires 0 <= d < 16
    ensures HexValue(c) == Some(d)
  {
    if d < 10 then ('0' as int + d) as char else ('a' as int + d - 10) as char
  }

  /** The value of one hexadecimal digit, either case (the library's `xvalues` table). */
  function HexValue(c: char): Option<byte>
  {
    if '0' <= c <= '9' then Some(c as int - '0' as int)
    else if 'a' <= c <= 'f' then Some(c as int - 'a' as int + 10)
    else if 'A' <= c <= 'F' then Some(c as int - 'A' as int + 10)
    else None
  }

  /** Two hexadecimal digits per byte, high nibble first. */
  function Hex(bs: seq<byte>): (s: string)
    ensures |s| == 2 * |bs|
  {
    if bs == [] then [] else [HexDigit(bs[0] / 16), HexDigit(bs[0] % 16)] + Hex(bs[1..])
  }

  /** Decodes an even-length run of hexadecimal digits (`xtob` applied pair by pair). */
  function Unhex(s: string): (r: Option<seq<byte>>)
    requires |s| % 2 == 0
    ensures r.Some? ==> 2 * |r.value| == |s|
  {
    if s == [] then Some([])
    else
      match (HexValue(s[0]), HexValue(s[1]), Unhex(s[2..]))
      case (Some(hi), Some(lo), Some(rest)) => Some([hi * 16 + lo] + rest)
      case _ => None
  }

  /** Inserts the four dashes of the 8-4-4-4-12 layout into 32 hexadecimal digits. */
  function Dashed(h: string): (s: string)
    requires |h| == 32
    ensures |s| == 36
  {
    h[..8] + "-" + h[8..12] + "-" + h[12..16] + "-" + h[16..20] + "-" + h[20..]
  }

  /** `UUID.String()`: xxxxxxxx-xxxx-xxxx-xxxx-xxxxxxxxxxxx in lower case. */
  function ToString(u: Uuid): (s: string)
    ensures |s| == 36
  {
    Dashed(Hex(u))
  }

  /** The 36-character dashed layout. */
  function ParseDashed(s: string): Option<Uuid>
    requires |s| >= 36
  {
    if s[8] != '-' || s[13] != '-' || s[18] != '-' || s[23] != '-' then None
    else
      match Unhex(s[..8] + s[9..13] + s[14..18] + s[19..23] + s[24..36])
      case Some(b) => Some(b)
      case None => None
  }

  function Lower(c: char): char
  {
    if 'A' <= c <= 'Z' then (c as int - 'A' as int + 'a' as int) as char else c
  }

  /** `uuid.Parse`: 36 characters dashed; 45 with a case-insensitive "urn:uuid:" prefix; 38, whose first
      character is dropped unchecked and whose last is ignored; or 32 bare hexadecimal digits. */
  function Parse(s: string): (r: Result<Uuid>)
    ensures r.Ok? ==> |s| in {32, 36, 38, 45}
  {
    if |s| == 36 then
      match ParseDashed(s) case Some(u) => Ok(u) case None => Err(InvalidUuid)
    else if |s| == 45 then
      if (forall i :: 0 <= i < 9 ==> Lower(s[i]) == "urn:uuid:"[i]) then
        match ParseDashed(s[9..]) case Some(u) => Ok(u) case None => Err(InvalidUuid)
      else Err(InvalidUuid)
    else if |s| == 38 then
      match ParseDashed(s[1..]) case Some(u) => Ok(u) case None => Err(InvalidUuid)
    else if |s| == 32 then
      match Unhex(s) case Some(b) => Ok(b) case None => Err(InvalidUuid)
    else Err(InvalidUuid)
  }

  /** `uuid.MustParse` succeeds exactly on the strings `Parse` accepts. */
  predicate WellFormed(s: string) { Parse(s).Ok? }

  lemma {:induction false} UnhexHex(bs: seq<byte>)
    ensures Unhex(Hex(bs)) == Some(bs)
  {
    if bs != [] {
      var b := bs[0];
      var h := Hex(bs);
      assert h[0] == HexDigit(b / 16) && h[1] == HexDigit(b % 16);
      assert h[2..] == Hex(bs[1..]);
      assert (b / 16) * 16 + b % 16 == b;
      UnhexHex(bs[1..]);
      assert [b] + bs[1..] == bs;
    }
  }

  lemma UndashDashed(h: string)
    requires |h| == 32
    ensures var s := Dashed(h);
      s[8] == '-' && s[13] == '-' && s[18] == '-' && s[23] == '-' &&
      s[..8] + s[9..13] + s[14..18] + s[19..23] + s[24..36] == h
  {
    var s := Dashed(h);
    assert s[..8] == h[..8];
    assert s[9..13] == h[8..12];
    assert s[14..18] == h[12..16];
    assert s[19..23] == h[16..20];
    assert s[24..36] == h[20..];
    assert h[..8] + h[8..12] + h[12..16] + h[16..20] + h[20..] == h;
  }

  /** Printing a UUID and parsing it back gives the same UUID. */
  lemma ParseToString(u: Uuid)
    ensures Parse(ToString(u)) == Ok(u)
  {
    UndashDashed(Hex(u));
    UnhexHex(u);
  }

  /** Distinct UUIDs print differently, so the token value `uuid.New().String()` inherits the uniqueness of the draw. */
  lemma ToStringInjective(u: Uuid, v: Uuid)
    ensures ToString(u) == ToString(v) <==> u == v
  {
    if ToString(u) == ToString(v) {
      ParseToString(u);
      ParseToString(v);
    }
  }
}
