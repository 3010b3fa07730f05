/** The Argon2id password-hash string of authentication.go: `hashPassword` writes
    `$argon2id$v=<version>$m=<memory>,t=<iterations>,p=<parallelism>$<salt>$<digest>` with unpadded
    base64 fields, `decodeHash` parses it back, and `verifyPassword` re-derives and compares.
    Argon2id itself (RFC 9106) is the foreign function `Kdf`. */
module PasswordHash {
  import opened Common
  import Text
  import Base64

  /** argon2.IDKey(password, salt, time, memory, threads, keyLen): the derived key. Its library contract is
      to return exactly keyLen bytes for a positive keyLen; see KdfReturnsKeyLength. */
  type Kdf = (string, seq<byte>, int, int, int, int) -> seq<byte>

  ghost predicate KdfReturnsKeyLength(kdf: Kdf)
  {
    forall pw, salt, t, m, p, k {:trigger kdf(pw, salt, t, m, p, k)} :: k >= 1 ==> |kdf(pw, salt, t, m, p, k)| == k
  }

  /** IDKey at keyLen 0 returns the empty key. Argon2 (RFC 9106, section 3.1) only defines tags of at
      least 4 bytes, so what the library does at 0 is outside its contract: the as-written lemmas below
      state both outcomes, the empty key under this predicate and a non-empty key without it. */
  ghost predicate EmptyKeyAtZero(kdf: Kdf)
  {
    forall pw, salt, t, m, p {:trigger kdf(pw, salt, t, m, p, 0)} :: kdf(pw, salt, t, m, p, 0) == []
  }

  /** The argon2Params record. */
  datatype Argon2Params = Argon2Params(memory: int, iterations: int, parallelism: int, saltLength: int, keyLength: int)

  /** The package-level `params`: 64 MiB, 3 passes, 4 lanes, a 16-byte salt and a 32-byte key. */
  const Params: Argon2Params := Argon2Params(64 * 1024, 3, 4, 16, 32)

  /** argon2.Version (0x13). */
  const Argon2Version: int := 0x13

  /** What `decodeHash` returns on success: the parameters, the salt and the digest. */
  datatype Decoded = Decoded(params: Argon2Params, salt: seq<byte>, digest: seq<byte>)

  /** The '$'-separated fields hashPassword writes for parameters, a salt and a digest. */
  function Fields(p: Argon2Params, salt: seq<byte>, digest: seq<byte>): seq<string>
    requires p.memory >= 0 && p.iterations >= 0 && p.parallelism >= 0
  {
    ["", "argon2id", "v=" + Text.Decimal(Argon2Version),
     ParamsField(p.memory, p.iterations, p.parallelism),
     Base64.Encode(salt), Base64.Encode(digest)]
  }

  /** The `m=%d,t=%d,p=%d` field. */
  function ParamsField(m: nat, t: nat, p: nat): string
  {
    "m=" + Text.Decimal(m) + (",t=" + Text.Decimal(t) + (",p=" + Text.Decimal(p)))
  }

  /** The encoded string for a salt and a digest under `Params`. */
  function Encoded(salt: seq<byte>, digest: seq<byte>): string
  {
    Text.Join(Fields(Params, salt, digest), '$')
  }

  /** `hashPassword`: `salt` is what crypto/rand produced for the 16-byte salt, None when rand.Read failed. */
  function HashPassword(password: string, salt: Option<seq<byte>>, kdf: Kdf): (r: Result<string>)
    requires salt.Some? ==> |salt.value| == Params.saltLength
    ensures r.Err? <==> salt.None?
    ensures r.Err? ==> r.error == RandomnessFailure
  {
    match salt
    case None => Err(RandomnessFailure)
    case Some(s) =>
      var digest := kdf(password, s, Params.iterations, Params.memory, Params.parallelism, Params.keyLength);
      Ok(Encoded(s, digest))
  }

  /** The `v=%d` scan of field 2 (into a Go `int`, 64 bits). */
  function ScanVersion(field: string): Option<int>
  {
    match Text.ScanLiteral("v=", field)
    case None => None
    case Some(rest) =>
      match Text.ScanInt(rest, true, 64)
      case None => None
      case Some(v) => Some(v.value)
  }

  /** The `m=%d,t=%d,p=%d` scan of field 3 into two uint32 operands and a uint8 operand. */
  function ScanParams(field: string): Option<(int, int, int)>
  {
    match Text.ScanLiteral("m=", field)
    case None => None
    case Some(r0) =>
      match Text.ScanInt(r0, false, 32)
      case None => None
      case Some(m) =>
        match Text.ScanLiteral(",t=", m.rest)
        case None => None
        case Some(r1) =>
          match Text.ScanInt(r1, false, 32)
          case None => None
          case Some(t) =>
            match Text.ScanLiteral(",p=", t.rest)
            case None => None
            case Some(r2) =>
              match Text.ScanInt(r2, false, 8)
              case None => None
              case Some(p) => Some((m.value, t.value, p.value))
  }

  /** The checks `decodeHash` makes on the '$'-separated fields, up to and including the salt; shared by
      both decoders below. */
  function DecodePrefix(vals: seq<string>): Result<(Argon2Params, seq<byte>)>
  {
    if |vals| != 6 then Err(InvalidHashFormat)
    else
      match ScanVersion(vals[2])
      case None => Err(ScanFailure)
      case Some(version) =>
        if version != Argon2Version then Err(IncompatibleVersion)
        else
          match ScanParams(vals[3])
          case None => Err(ScanFailure)
          case Some((m, t, p)) =>
            match Base64.Decode(vals[4])
            case Err(e) => Err(e)
            case Ok(salt) => Ok((Argon2Params(m, t, p, 0, 0), salt))
  }

  /** `decodeHash` AS WRITTEN: field 5 is never decoded, so the digest it returns is nil and the key
      length it sets, `uint32(len(hash))`, is 0. */
  function DecodeHashAsWritten(encoded: string): (r: Result<Decoded>)
    ensures |Text.Split(encoded, '$')| != 6 ==> r == Err(InvalidHashFormat)
    ensures r.Ok? ==> ScanVersion(Text.Split(encoded, '$')[2]) == Some(Argon2Version)
    ensures r.Ok? ==> r.value.digest == [] && r.value.params.keyLength == 0
  {
    match DecodePrefix(Text.Split(encoded, '$'))
    case Err(e) => Err(e)
    case Ok((p, salt)) => Ok(Decoded(p, salt, []))
  }

  /** `verifyPassword` AS WRITTEN: re-derives with the decoded parameters and compares base64 texts. */
  function VerifyPasswordAsWritten(encoded: string, password: string, kdf: Kdf): Result<bool>
  {
    match DecodeHashAsWritten(encoded)
    case Err(e) => Err(e)
    case Ok(d) => Ok(Base64.Encode(d.digest) == Base64.Encode(Derive(password, d, kdf)))
  }

  /** The key IDKey derives from a password under decoded parameters. */
  function Derive(password: string, d: Decoded, kdf: Kdf): seq<byte>
  {
    kdf(password, d.salt, d.params.iterations, d.params.memory, d.params.parallelism, d.params.keyLength)
  }

  /** Which verifier a login uses: `AsWritten` is verifyPassword over decodeHash as the code has it,
      `Corrected` the same comparison over the corrected decoder. */
  datatype Codec = AsWritten | Corrected

  function CheckPassword(codec: Codec, encoded: string, password: string, kdf: Kdf): Result<bool>
  {
    match codec
    case AsWritten => VerifyPasswordAsWritten(encoded, password, kdf)
    case Corrected => VerifyPassword(encoded, password, kdf)
  }

  /** The corrected decoder on the fields: field 5 is decoded as the digest and sets the key length. */
  function DecodeFields(vals: seq<string>): (r: Result<Decoded>)
    ensures r.Ok? ==> |vals| == 6 && ScanVersion(vals[2]) == Some(Argon2Version)
    ensures r.Ok? ==> r.value.params.keyLength == |r.value.digest|
  {
    match DecodePrefix(vals)
    case Err(e) => Err(e)
    case Ok((p, salt)) =>
      match Base64.Decode(vals[5])
      case Err(e) => Err(e)
      case Ok(digest) => Ok(Decoded(p.(keyLength := |digest|), salt, digest))
  }

  /** `decodeHash` as evidently intended. */
  function DecodeHash(encoded: string): (r: Result<Decoded>)
    ensures |Text.Split(encoded, '$')| != 6 ==> r == Err(InvalidHashFormat)
    ensures r.Ok? ==> ScanVersion(Text.Split(encoded, '$')[2]) == Some(Argon2Version)
    ensures r.Ok? ==> r.value.params.keyLength == |r.value.digest|
  {
    DecodeFields(Text.Split(encoded, '$'))
  }

  /** `verifyPassword` over the corrected decoder; the rest of the model verifies passwords with this. */
  function VerifyPassword(encoded: string, password: string, kdf: Kdf): Result<bool>
  {
    match DecodeHash(encoded)
    case Err(e) => Err(e)
    case Ok(d) => Ok(Base64.Encode(d.digest) == Base64.Encode(Derive(password, d, kdf)))
  }

  // ---------------------------------------------------------------------------------------------
  // The format hashPassword writes

  lemma Decimal19()
    ensures Text.Decimal(19) == "19"
  {
    assert Text.Decimal(19) == Text.Decimal(1) + ['9'];
  }

  lemma Decimal65536()
    ensures Text.Decimal(65536) == "65536"
  {
    assert Text.Decimal(65) == "65" by {
      assert Text.Decimal(65) == Text.Decimal(6) + ['5'];
    }
    assert Text.Decimal(655) == "655" by {
      assert Text.Decimal(655) == Text.Decimal(65) + ['5'];
    }
    assert Text.Decimal(6553) == "6553" by {
      assert Text.Decimal(6553) == Text.Decimal(655) + ['3'];
    }
    assert Text.Decimal(65536) == Text.Decimal(6553) + ['6'];
  }

  /** hashPassword writes exactly the fields `$argon2id$v=19$m=65536,t=3,p=4$<salt>$<digest>`, the salt
      and digest in unpadded base64: 22 characters for the 16-byte salt and, for a 32-byte key, 43 for the
      digest. */
  lemma HashPasswordFormat(password: string, salt: seq<byte>, kdf: Kdf)
    requires |salt| == Params.saltLength
    ensures var digest := kdf(password, salt, 3, 65536, 4, 32);
      HashPassword(password, Some(salt), kdf)
        == Ok(Text.Join(["", "argon2id", "v=19", "m=65536,t=3,p=4", Base64.Encode(salt), Base64.Encode(digest)], '$'))
      && |Base64.Encode(salt)| == 22
      && (|digest| == 32 ==> |Base64.Encode(digest)| == 43)
  {
    var digest := kdf(password, salt, 3, 65536, 4, 32);
    Base64.EncodeLength(salt);
    Base64.EncodeLength(digest);
    WrittenParams();
  }

  /** The text of the two parameter fields under `Params`. */
  lemma WrittenParams()
    ensures "v=" + Text.Decimal(Argon2Version) == "v=19"
    ensures ParamsField(Params.memory, Params.iterations, Params.parallelism) == "m=65536,t=3,p=4"
  {
    Decimal19();
    Decimal65536();
  }

  // ---------------------------------------------------------------------------------------------
  // Round trip

  /** A field of decimal text and fixed punctuation has no '$'. */
  lemma DecimalNoDollar(n: nat)
    ensures '$' !in Text.Decimal(n)
  {
    var d := Text.Decimal(n);
    assert forall i :: 0 <= i < |d| ==> d[i] != '$';
  }

  /** Splitting what hashPassword's format holds gives back its six fields. */
  lemma SplitFields(p: Argon2Params, salt: seq<byte>, digest: seq<byte>)
    requires p.memory >= 0 && p.iterations >= 0 && p.parallelism >= 0
    ensures Text.Split(Text.Join(Fields(p, salt, digest), '$'), '$') == Fields(p, salt, digest)
  {
    var f := Fields(p, salt, digest);
    Base64.EncodeInAlphabet(salt);
    Base64.EncodeInAlphabet(digest);
    DecimalNoDollar(Argon2Version);
    DecimalNoDollar(p.memory);
    DecimalNoDollar(p.iterations);
    DecimalNoDollar(p.parallelism);
    assert '$' !in f[2] && '$' !in f[3];
    Text.SplitJoin(f, '$');
  }

  lemma ScanLiteralPrefix(lit: string, rest: string)
    ensures Text.ScanLiteral(lit, lit + rest) == Some(rest)
  {
    assert (lit + rest)[..|lit|] == lit;
    assert (lit + rest)[|lit|..] == rest;
  }

  /** The version field reads back as the version written. */
  lemma ScanVersionWritten()
    ensures ScanVersion("v=" + Text.Decimal(Argon2Version)) == Some(Argon2Version)
  {
    ScanLiteralPrefix("v=", Text.Decimal(Argon2Version));
    assert Text.InRange(Argon2Version, true, 64) by {
      Text.Pow2Of8();
      Text.InRangeBelow(Argon2Version, 8, true, 64);
    }
    assert Text.Decimal(Argon2Version) + "" == Text.Decimal(Argon2Version);
    Text.ScanDecimal(Argon2Version, "", true, 64);
  }

  /** The parameter field reads back as any memory, iterations and parallelism the operand types hold. */
  lemma ScanParamsWritten(m: nat, t: nat, p: nat)
    requires Text.InRange(m, false, 32) && Text.InRange(t, false, 32) && Text.InRange(p, false, 8)
    ensures ScanParams(ParamsField(m, t, p)) == Some((m, t, p))
  {
    var dm, dt, dp := Text.Decimal(m), Text.Decimal(t), Text.Decimal(p);
    var pf := ",p=" + dp;
    var tf := ",t=" + dt + pf;
    ScanVerb("m=", m, tf, 32);
    ScanVerb(",t=", t, pf, 32);
    ScanLastVerb(",p=", p, 8);
    ScanParamsSteps("m=" + dm + tf, dm + tf, tf, dt + pf, pf, dp, m, t, p);
  }

  /** A literal followed by the decimal text of an unsigned value reads back as that value. */
  lemma ScanVerb(lit: string, n: nat, after: string, bits: nat)
    requires 1 <= bits && Text.InRange(n, false, bits)
    requires after == [] || after[0] == ','
    ensures Text.ScanLiteral(lit, lit + Text.Decimal(n) + after) == Some(Text.Decimal(n) + after)
    ensures Text.ScanInt(Text.Decimal(n) + after, false, bits) == Some(Text.Scanned(n, after))
  {
    ScanLiteralBefore(lit, Text.Decimal(n), after);
    ScanBeforeComma(n, after, bits);
  }

  lemma ScanLiteralBefore(lit: string, d: string, after: string)
    ensures Text.ScanLiteral(lit, lit + d + after) == Some(d + after)
  {
    assert lit + d + after == lit + (d + after);
    ScanLiteralPrefix(lit, d + after);
  }

  lemma ScanBeforeComma(n: nat, after: string, bits: nat)
    requires 1 <= bits && Text.InRange(n, false, bits)
    requires after == [] || after[0] == ','
    ensures Text.ScanInt(Text.Decimal(n) + after, false, bits) == Some(Text.Scanned(n, after))
  {
    assert after == [] || !Text.IsDigit(after[0]);
    Text.ScanDecimal(n, after, false, bits);
  }

  lemma ScanLastVerb(lit: string, n: nat, bits: nat)
    requires 1 <= bits && Text.InRange(n, false, bits)
    ensures Text.ScanLiteral(lit, lit + Text.Decimal(n)) == Some(Text.Decimal(n))
    ensures Text.ScanInt(Text.Decimal(n), false, bits) == Some(Text.Scanned(n, ""))
  {
    ScanLiteralPrefix(lit, Text.Decimal(n));
    assert Text.Decimal(n) + "" == Text.Decimal(n);
    Text.ScanDecimal(n, "", false, bits);
  }

  /** ScanParams, one verb at a time. */
  lemma ScanParamsSteps(field: string, r0: string, f1: string, r1: string, f2: string, r2: string, m: int, t: int, p: int)
    requires Text.ScanLiteral("m=", field) == Some(r0)
    requires Text.ScanInt(r0, false, 32) == Some(Text.Scanned(m, f1))
    requires Text.ScanLiteral(",t=", f1) == Some(r1)
    requires Text.ScanInt(r1, false, 32) == Some(Text.Scanned(t, f2))
    requires Text.ScanLiteral(",p=", f2) == Some(r2)
    requires Text.ScanInt(r2, false, 8) == Some(Text.Scanned(p, ""))
    ensures ScanParams(field) == Some((m, t, p))
  {
  }

  /** The checks before the digest pass on what hashPassword's format holds, for parameters in range. */
  lemma PrefixOfFields(p: Argon2Params, salt: seq<byte>, digest: seq<byte>)
    requires p.memory >= 0 && p.iterations >= 0 && p.parallelism >= 0
    requires Text.InRange(p.memory, false, 32) && Text.InRange(p.iterations, false, 32) && Text.InRange(p.parallelism, false, 8)
    ensures DecodePrefix(Fields(p, salt, digest)) == Ok((Argon2Params(p.memory, p.iterations, p.parallelism, 0, 0), salt))
  {
    FieldsRead(p, salt, digest);
    PrefixSteps(Fields(p, salt, digest), p.memory, p.iterations, p.parallelism, salt);
  }

  /** Fields 2 to 4 of hashPassword's format read back one by one. */
  lemma FieldsRead(p: Argon2Params, salt: seq<byte>, digest: seq<byte>)
    requires p.memory >= 0 && p.iterations >= 0 && p.parallelism >= 0
    requires Text.InRange(p.memory, false, 32) && Text.InRange(p.iterations, false, 32) && Text.InRange(p.parallelism, false, 8)
    ensures |Fields(p, salt, digest)| == 6
    ensures ScanVersion(Fields(p, salt, digest)[2]) == Some(Argon2Version)
    ensures ScanParams(Fields(p, salt, digest)[3]) == Some((p.memory, p.iterations, p.parallelism))
    ensures Base64.Decode(Fields(p, salt, digest)[4]) == Ok(salt)
  {
    var f := Fields(p, salt, digest);
    FieldsAt(p, salt, digest, f[2], f[3], f[4]);
    ScanVersionWritten();
    ScanParamsWritten(p.memory, p.iterations, p.parallelism);
    Base64.DecodeEncode(salt);
  }

  lemma FieldsAt(p: Argon2Params, salt: seq<byte>, digest: seq<byte>, v: string, pf: string, s: string)
    requires p.memory >= 0 && p.iterations >= 0 && p.parallelism >= 0
    requires v == Fields(p, salt, digest)[2] && pf == Fields(p, salt, digest)[3] && s == Fields(p, salt, digest)[4]
    ensures |Fields(p, salt, digest)| == 6
    ensures v == "v=" + Text.Decimal(Argon2Version)
    ensures pf == ParamsField(p.memory, p.iterations, p.parallelism)
    ensures s == Base64.Encode(salt)
  {
  }

  /** DecodePrefix, one field at a time. */
  lemma PrefixSteps(vals: seq<string>, m: int, t: int, p: int, salt: seq<byte>)
    requires |vals| == 6
    requires ScanVersion(vals[2]) == Some(Argon2Version)
    requires ScanParams(vals[3]) == Some((m, t, p))
    requires Base64.Decode(vals[4]) == Ok(salt)
    ensures DecodePrefix(vals) == Ok((Argon2Params(m, t, p, 0, 0), salt))
  {
  }

  lemma ParamsInRange()
    ensures Text.InRange(Params.memory, false, 32) && Text.InRange(Params.iterations, false, 32)
    ensures Text.InRange(Params.parallelism, false, 8)
  {
    Text.Pow2Of8();
    Text.Pow2Of17();
    Text.InRangeBelow(Params.memory, 17, false, 32);
    Text.InRangeBelow(Params.iterations, 8, false, 32);
    Text.InRangeBelow(Params.parallelism, 8, false, 8);
  }

  /** Round trip of the codec as written: decodeHash recovers memory, iterations, parallelism and salt of
      what hashPassword wrote, but not the digest. */
  lemma DecodeHashAsWrittenRoundTrip(password: string, salt: seq<byte>, kdf: Kdf)
    requires |salt| == Params.saltLength
    ensures DecodeHashAsWritten(HashPassword(password, Some(salt), kdf).value)
         == Ok(Decoded(Argon2Params(Params.memory, Params.iterations, Params.parallelism, 0, 0), salt, []))
  {
    var digest := kdf(password, salt, Params.iterations, Params.memory, Params.parallelism, Params.keyLength);
    SplitFields(Params, salt, digest);
    ParamsInRange();
    PrefixOfFields(Params, salt, digest);
  }

  /** The corrected decoder reads back every field of hashPassword's format, for parameters in range. */
  lemma DecodeFieldsRoundTrip(p: Argon2Params, salt: seq<byte>, digest: seq<byte>)
    requires p.memory >= 0 && p.iterations >= 0 && p.parallelism >= 0
    requires Text.InRange(p.memory, false, 32) && Text.InRange(p.iterations, false, 32) && Text.InRange(p.parallelism, false, 8)
    ensures DecodeHash(Text.Join(Fields(p, salt, digest), '$'))
         == Ok(Decoded(Argon2Params(p.memory, p.iterations, p.parallelism, 0, |digest|), salt, digest))
  {
    SplitFields(p, salt, digest);
    PrefixOfFields(p, salt, digest);
    Base64.DecodeEncode(digest);
  }

  lemma DecodeWritten(salt: seq<byte>, digest: seq<byte>)
    ensures DecodeHash(Encoded(salt, digest))
         == Ok(Decoded(Argon2Params(Params.memory, Params.iterations, Params.parallelism, 0, |digest|), salt, digest))
  {
    ParamsInRange();
    DecodeFieldsRoundTrip(Params, salt, digest);
  }

  /** Round trip of the corrected codec: every field, the digest included, comes back. */
  lemma DecodeHashRoundTrip(password: string, salt: seq<byte>, kdf: Kdf)
    requires |salt| == Params.saltLength
    ensures var digest := kdf(password, salt, Params.iterations, Params.memory, Params.parallelism, Params.keyLength);
      DecodeHash(HashPassword(password, Some(salt), kdf).value)
        == Ok(Decoded(Argon2Params(Params.memory, Params.iterations, Params.parallelism, 0, |digest|), salt, digest))
  {
    DecodeWritten(salt, kdf(password, salt, Params.iterations, Params.memory, Params.parallelism, Params.keyLength));
  }

  // ---------------------------------------------------------------------------------------------
  // What verification depends on

  /** The algorithm tag (field 1) is never checked: any tag without '$' decodes the same. */
  lemma DecodeIgnoresTag(fields: seq<string>, tag: string)
    requires |fields| == 6 && forall i :: 0 <= i < 6 ==> '$' !in fields[i]
    requires '$' !in tag
    ensures DecodeHash(Text.Join(fields[1 := tag], '$')) == DecodeHash(Text.Join(fields, '$'))
    ensures DecodeHashAsWritten(Text.Join(fields[1 := tag], '$')) == DecodeHashAsWritten(Text.Join(fields, '$'))
  {
    Text.SplitJoin(fields, '$');
    Text.SplitJoin(fields[1 := tag], '$');
    SameFieldsSamePrefix(fields, fields[1 := tag]);
    assert fields[1 := tag][5] == fields[5];
  }

  /** DecodePrefix reads only the field count and fields 2 to 4. */
  lemma SameFieldsSamePrefix(a: seq<string>, b: seq<string>)
    requires |a| == |b| == 6 && a[2] == b[2] && a[3] == b[3] && a[4] == b[4]
    ensures DecodePrefix(a) == DecodePrefix(b)
  {
  }

  /** As written, the digest field of a six-field hash never reaches the result: replacing it by any
      other '$'-free text changes neither decodeHash nor verifyPassword. */
  lemma AsWrittenIgnoresDigest(fields: seq<string>, other: string, password: string, kdf: Kdf)
    requires |fields| == 6 && forall i :: 0 <= i < 6 ==> '$' !in fields[i]
    requires '$' !in other
    ensures DecodeHashAsWritten(Text.Join(fields[5 := other], '$')) == DecodeHashAsWritten(Text.Join(fields, '$'))
    ensures VerifyPasswordAsWritten(Text.Join(fields[5 := other], '$'), password, kdf)
         == VerifyPasswordAsWritten(Text.Join(fields, '$'), password, kdf)
  {
    Text.SplitJoin(fields, '$');
    Text.SplitJoin(fields[5 := other], '$');
    SameFieldsSamePrefix(fields, fields[5 := other]);
  }

  /** The consequence as written when IDKey returns the empty key at keyLen 0: every password is
      accepted against every hash that decodes, the stored digest notwithstanding. */
  lemma AsWrittenAcceptsAnyPassword(encoded: string, password: string, kdf: Kdf)
    requires EmptyKeyAtZero(kdf)
    requires DecodeHashAsWritten(encoded).Ok?
    ensures VerifyPasswordAsWritten(encoded, password, kdf) == Ok(true)
  {
    var d := DecodeHashAsWritten(encoded).value;
    assert kdf(password, d.salt, d.params.iterations, d.params.memory, d.params.parallelism, 0) == [];
  }

  /** The other outcome as written: when IDKey returns a non-empty key at keyLen 0, it never equals the
      empty digest the decoder produced, so every password is refused against every hash that decodes. */
  lemma AsWrittenRefusesWhenKeyNotEmpty(encoded: string, password: string, kdf: Kdf)
    requires DecodeHashAsWritten(encoded).Ok?
    requires Derive(password, DecodeHashAsWritten(encoded).value, kdf) != []
    ensures VerifyPasswordAsWritten(encoded, password, kdf) == Ok(false)
  {
    var d := DecodeHashAsWritten(encoded).value;
    Base64.EncodeInjective(d.digest, Derive(password, d, kdf));
  }

  /** A concrete wrong password accepted as written, when IDKey returns the empty key at keyLen 0: the
      hash of "correcthorsebattery" under salt 0^16 verifies "wrong". */
  lemma AsWrittenWrongPasswordAccepted(kdf: Kdf)
    requires EmptyKeyAtZero(kdf)
    ensures var h := HashPassword("correcthorsebattery", Some(seq(16, _ => 0)), kdf).value;
      VerifyPasswordAsWritten(h, "wrong", kdf) == Ok(true)
  {
    var salt: seq<byte> := seq(16, _ => 0);
    DecodeHashAsWrittenRoundTrip("correcthorsebattery", salt, kdf);
    AsWrittenAcceptsAnyPassword(HashPassword("correcthorsebattery", Some(salt), kdf).value, "wrong", kdf);
  }

  /** The corrected verifier accepts a password against the hash of that password. */
  lemma VerifyHashedPassword(password: string, salt: seq<byte>, kdf: Kdf)
    requires |salt| == Params.saltLength
    requires KdfReturnsKeyLength(kdf)
    ensures VerifyPassword(HashPassword(password, Some(salt), kdf).value, password, kdf) == Ok(true)
  {
    DecodeHashRoundTrip(password, salt, kdf);
  }

  /** The corrected verifier accepts another password exactly when Argon2id derives the same key for it
      from the stored salt and parameters; so with a collision-free IDKey a wrong password is refused. */
  lemma VerifyOtherPassword(password: string, other: string, salt: seq<byte>, kdf: Kdf)
    requires |salt| == Params.saltLength
    requires KdfReturnsKeyLength(kdf)
    ensures VerifyPassword(HashPassword(password, Some(salt), kdf).value, other, kdf)
         == Ok(kdf(other, salt, 3, 65536, 4, 32) == kdf(password, salt, 3, 65536, 4, 32))
  {
    DecodeHashRoundTrip(password, salt, kdf);
    Base64.EncodeInjective(kdf(password, salt, 3, 65536, 4, 32), kdf(other, salt, 3, 65536, 4, 32));
  }

  /** The corrected verifier does read the digest: a hash whose digest field is the base64 of other bytes
      refuses the password it used to accept. */
  lemma VerifyDependsOnDigest(password: string, salt: seq<byte>, forged: seq<byte>, kdf: Kdf)
    requires |salt| == Params.saltLength
    requires KdfReturnsKeyLength(kdf)
    requires |forged| == 32 && forged != kdf(password, salt, 3, 65536, 4, 32)
    ensures VerifyPassword(Encoded(salt, forged), password, kdf) == Ok(false)
  {
    DecodeWritten(salt, forged);
    Base64.EncodeInjective(forged, kdf(password, salt, 3, 65536, 4, 32));
  }
}
