/**
 * The parts of the JSON Web Token library (RFC 7519, compact JWS
 * serialisation of RFC 7515) that requests/requests.go relies on: signing
 * a token with HS256 (`SignedString`) and parsing one back (`jwt.Parse`),
 * including the order in which the parser reports its validation errors.
 *
 * Base64url, JSON and HMAC-SHA256 are not modelled: a `Codec` supplies
 * them as functions, and `Sound` states what is assumed of them.
 */
module Jwt {
  import opened Wrappers

  /**
   * The header segment written for a token created with the HS256 method:
   * base64url, without padding, of {"alg":"HS256","typ":"JWT"}.
   */
  const HeaderSegment: string := "eyJhbGciOiJIUzI1NiIsInR5cCI6IkpXVCJ9"

  /** The claims the parser reads; any other claim is carried along unread. */
  datatype Claims = Claims(id: Option<string>, exp: Option<int>, nbf: Option<int>)

  /** The encodings and the message authentication code, left abstract. */
  datatype Codec = Codec(
    // decode a header segment and read its "alg"; None when undecodable
    headerAlg: string -> Option<string>,
    // base64url of the JSON claim set, and its inverse
    encodeClaims: Claims -> string,
    decodeClaims: string -> Option<Claims>,
    // the signature segment for (algorithm, signing input, key); None when
    // the algorithm is unknown or cannot be used with a byte-string key
    sign: (string, string, string) -> Option<string>)

  /**
   * What the model assumes of the encodings: the HS256 header decodes to
   * HS256, claims survive encoding, HS256 signing succeeds, and no encoded
   * segment contains the separator '.' (base64url has no '.').
   */
  ghost predicate Sound(codec: Codec)
  {
    && codec.headerAlg(HeaderSegment) == Some("HS256")
    && (forall c :: codec.decodeClaims(codec.encodeClaims(c)) == Some(c))
    && (forall c :: '.' !in codec.encodeClaims(c))
    && (forall m, k :: codec.sign("HS256", m, k).Some? && '.' !in codec.sign("HS256", m, k).value)
  }

  // ---------------------------------------------------------------------
  // Splitting on the separator

  /** `strings.Split(s, sep)` for a one-character separator. */
  function Split(s: string, sep: char): (parts: seq<string>)
    ensures |parts| >= 1
    ensures forall i :: 0 <= i < |parts| ==> sep !in parts[i]
    decreases |s|
  {
    if |s| == 0 then [""]
    else
      var rest := Split(s[1..], sep);
      if s[0] == sep then [""] + rest
      else [[s[0]] + rest[0]] + rest[1..]
  }

  /** A string without the separator is one part. */
  lemma {:induction false} SplitWhole(a: string, sep: char)
    requires sep !in a
    ensures Split(a, sep) == [a]
    decreases |a|
  {
    if |a| > 0 {
      SplitWhole(a[1..], sep);
      assert [a[0]] + a[1..] == a;
    }
  }

  /** A separator-free prefix followed by the separator becomes the first part. */
  lemma {:induction false} SplitFirst(a: string, sep: char, b: string)
    requires sep !in a
    ensures Split(a + [sep] + b, sep) == [a] + Split(b, sep)
    decreases |a|
  {
    var s := a + [sep] + b;
    if |a| == 0 {
      assert s[1..] == b;
    } else {
      assert s[1..] == a[1..] + [sep] + b;
      SplitFirst(a[1..], sep, b);
      assert [a[0]] + a[1..] == a;
    }
  }

  /** A string that contains the separator splits into at least two parts. */
  lemma {:induction false} SplitAtSeparator(s: string, sep: char)
    requires sep in s
    ensures |Split(s, sep)| >= 2
    decreases |s|
  {
    if s[0] != sep {
      assert sep in s[1..];
      SplitAtSeparator(s[1..], sep);
    }
  }

  /** Two separator-free segments in front of `z` become the first two parts. */
  lemma SplitTwoBefore(x: string, y: string, z: string)
    requires '.' !in x && '.' !in y
    ensures Split(x + "." + y + "." + z, '.') == [x, y] + Split(z, '.')
  {
    assert x + "." + y + "." + z == x + ['.'] + (y + ['.'] + z);
    SplitFirst(x, '.', y + ['.'] + z);
    SplitFirst(y, '.', z);
  }

  /** Three separator-free segments joined by the separator split back into themselves. */
  lemma SplitThree(x: string, y: string, z: string)
    requires '.' !in x && '.' !in y && '.' !in z
    ensures Split(x + "." + y + "." + z, '.') == [x, y, z]
  {
    SplitTwoBefore(x, y, z);
    SplitWhole(z, '.');
  }

  // ---------------------------------------------------------------------
  // Signing

  /** The part of a token the signature covers: header and claims segments. */
  function SigningInput(codec: Codec, claims: Claims): string
  {
    HeaderSegment + "." + codec.encodeClaims(claims)
  }

  /**
   * `SignedString` of a token created with the HS256 method: signing input,
   * '.', signature segment. It fails only when signing fails.
   */
  function SignedString(codec: Codec, claims: Claims, key: string): (r: Result<string, string>)
    ensures r.Ok? <==> codec.sign("HS256", SigningInput(codec, claims), key).Some?
    ensures r.Ok? ==> |r.value| > |HeaderSegment| + 1 && r.value[..|HeaderSegment|] == HeaderSegment
  {
    var input := SigningInput(codec, claims);
    match codec.sign("HS256", input, key)
    case None => Err("signing failed")
    case Some(sig) => Ok(input + "." + sig)
  }

  // ---------------------------------------------------------------------
  // Parsing

  /** The bits of a validation error. */
  datatype Flag = Malformed | Unverifiable | SignatureInvalid | Expired | NotValidYet

  /**
   * What `jwt.Parse` hands back: a token and no error, a validation error
   * with its set of flags, or an error of another kind.
   */
  datatype Outcome = Parsed(claims: Claims, valid: bool) | ValidationError(errors: set<Flag>) | OtherError

  /** The time checks: `exp` in the past, `nbf` in the future. */
  function TimeFlags(claims: Claims, now: int): (flags: set<Flag>)
    ensures Expired in flags <==> claims.exp.Some? && now > claims.exp.value
    ensures NotValidYet in flags <==> claims.nbf.Some? && now < claims.nbf.value
    ensures flags <= {Expired, NotValidYet}
  {
    (if claims.exp.Some? && now > claims.exp.value then {Expired} else {})
    + (if claims.nbf.Some? && now < claims.nbf.value then {NotValidYet} else {})
  }

  /**
   * `jwt.Parse` with a key function that always returns `key`. Structural
   * failures stop at once; otherwise the time checks and the signature
   * check are all made and their failures accumulate in one error.
   */
  function Parse(codec: Codec, token: string, key: string, now: int): (o: Outcome)
    ensures o.Parsed? ==> o.valid
    ensures o.ValidationError? ==> o.errors != {}
    ensures !o.OtherError?
    ensures o.Parsed? <==>
              var parts := Split(token, '.');
              && |parts| == 3
              && codec.headerAlg(parts[0]).Some?
              && codec.decodeClaims(parts[1]).Some?
              && codec.sign(codec.headerAlg(parts[0]).value, parts[0] + "." + parts[1], key) == Some(parts[2])
              && TimeFlags(codec.decodeClaims(parts[1]).value, now) == {}
    ensures o.Parsed? ==> o.claims == codec.decodeClaims(Split(token, '.')[1]).value
  {
    var parts := Split(token, '.');
    if |parts| != 3 then ValidationError({Malformed})
    else
      match codec.headerAlg(parts[0])
      case None => ValidationError({Malformed})
      case Some(alg) =>
        match codec.decodeClaims(parts[1])
        case None => ValidationError({Malformed})
        case Some(claims) =>
          match codec.sign(alg, parts[0] + "." + parts[1], key)
          case None => ValidationError({Unverifiable})
          case Some(expected) =>
            var errors := TimeFlags(claims, now)
                          + (if expected == parts[2] then {} else {SignatureInvalid});
            if errors == {} then Parsed(claims, true) else ValidationError(errors)
  }

  /**
   * A token signed with a key parses back, under that key, to its own
   * claims; the only errors it can draw are the time checks.
   */
  lemma ParseSignedString(codec: Codec, claims: Claims, key: string, now: int)
    requires Sound(codec)
    ensures SignedString(codec, claims, key).Ok?
    ensures Parse(codec, SignedString(codec, claims, key).value, key, now)
            == if TimeFlags(claims, now) == {} then Parsed(claims, true)
               else ValidationError(TimeFlags(claims, now))
  {
    var enc := codec.encodeClaims(claims);
    var sig := codec.sign("HS256", SigningInput(codec, claims), key).value;
    assert SignedString(codec, claims, key).value == HeaderSegment + "." + enc + "." + sig;
    SplitThree(HeaderSegment, enc, sig);
  }

  /**
   * A token whose signature segment is replaced by anything other than the
   * signature of its first two segments is refused, whatever the time: with
   * a signature error when the replacement is one segment, and as malformed
   * when it contains the separator. Either way expiry is never the only
   * error.
   */
  lemma ParseForgedSignature(codec: Codec, claims: Claims, key: string, forged: string, now: int)
    requires Sound(codec)
    requires Some(forged) != codec.sign("HS256", SigningInput(codec, claims), key)
    ensures Parse(codec, SigningInput(codec, claims) + "." + forged, key, now).ValidationError?
    ensures '.' !in forged ==>
              SignatureInvalid in Parse(codec, SigningInput(codec, claims) + "." + forged, key, now).errors
    ensures '.' in forged ==>
              Parse(codec, SigningInput(codec, claims) + "." + forged, key, now).errors == {Malformed}
    ensures Parse(codec, SigningInput(codec, claims) + "." + forged, key, now).errors != {Expired}
  {
    var enc := codec.encodeClaims(claims);
    assert SigningInput(codec, claims) + "." + forged == HeaderSegment + "." + enc + "." + forged;
    SplitTwoBefore(HeaderSegment, enc, forged);
    if '.' in forged {
      SplitAtSeparator(forged, '.');
    } else {
      SplitWhole(forged, '.');
    }
  }
}
