/**
 `validate_init_data` (api/index.py:40-80): the Telegram Mini App init-data check.
 HMAC-SHA-256 (section 2 of RFC 2104 over the SHA-256 of FIPS 180-4), the percent
 decoding of `parse_qs` and `json.loads` are the opaque `Primitives`.
 */
module InitData {
  import opened Wrappers
  import opened Bytes
  import Utf8
  import opened Query
  import opened CheckString
  import Json

  /**
   The collaborators the validator calls but this model does not define: HMAC-SHA-256
   (key first, message second), the `+`/percent decoding `parse_qs` applies to each raw
   name and value, and `json.loads` (None where it raises).
   */
  datatype Primitives = Primitives(
    hmacSha256: (seq<byte>, seq<byte>) -> seq<byte>,
    unquote: string -> string,
    loads: string -> Option<Json.Value>)

  /** SHA-256 digests, and so HMAC-SHA-256 tags, are 32 bytes long. */
  const DigestSize: nat := 32

  /** The HMAC primitive returns full-length tags. */
  ghost predicate WellFormed(prim: Primitives)
  {
    forall key, msg :: |prim.hmacSha256(key, msg)| == DigestSize
  }

  /** The bytes literal `b'WebAppData'` (ASCII codes) that keys the secret-key derivation. */
  const KeyLabel: seq<byte> := [0x57, 0x65, 0x62, 0x41, 0x70, 0x70, 0x44, 0x61, 0x74, 0x61]

  /** The label's ten bytes are the character codes of `WebAppData`, in order. */
  lemma KeyLabelSpelling()
    ensures |KeyLabel| == |"WebAppData"|
    ensures forall i :: 0 <= i < |KeyLabel| ==> KeyLabel[i] == "WebAppData"[i] as int
  {
  }

  /**
   `hmac.new(b'WebAppData', BOT_TOKEN.encode(), sha256).digest()`: the label is the HMAC
   key and the bot token is the message.
   */
  function SecretKey(prim: Primitives, token: string): (k: seq<byte>)
    ensures WellFormed(prim) ==> |k| == DigestSize
  {
    prim.hmacSha256(KeyLabel, Utf8.Encode(token))
  }

  /**
   The hash a genuine payload with this check-string carries: the lowercase hexdigest of
   the HMAC of its UTF-8 bytes under the secret key, which reads back as that tag.
   */
  function Signature(prim: Primitives, token: string, checkString: string): (h: string)
    ensures IsLowerHex(h)
    ensures Unhex(h) == Some(prim.hmacSha256(SecretKey(prim, token), Utf8.Encode(checkString)))
  {
    var tag := prim.hmacSha256(SecretKey(prim, token), Utf8.Encode(checkString));
    UnhexHex(tag);
    Hex(tag)
  }

  /** With full-length tags the hexdigest is 64 characters. */
  lemma SignatureLength(prim: Primitives, token: string, checkString: string)
    requires WellFormed(prim)
    ensures |Signature(prim, token, checkString)| == 2 * DigestSize
  {
  }

  /** The hash the payload supplies: the first `hash` value, or "" when there is none. */
  function SuppliedHash(pairs: seq<Pair>): string
  {
    FirstValue(pairs, "hash").GetOr("")
  }

  /** The text handed to `json.loads`: the first `user` value, or "{}" when there is none. */
  function UserField(pairs: seq<Pair>): string
  {
    FirstValue(pairs, "user").GetOr("{}")
  }

  /** The check-string the payload is signed over. */
  function CheckStringOf(pairs: seq<Pair>): string
  {
    DataCheckString(Group(pairs))
  }

  /** The payload carries a non-empty hash equal to the signature of its check-string under `token`. */
  predicate Authentic(prim: Primitives, token: string, pairs: seq<Pair>)
  {
    SuppliedHash(pairs) != "" && Signature(prim, token, CheckStringOf(pairs)) == SuppliedHash(pairs)
  }

  /**
   `validate_init_data` after `parse_qsl`: a claim comes back exactly when the bot token is
   set and the payload is authentic, and it is whatever `json.loads` makes of the first
   `user` value (of "{}" without one). A missing or empty hash, an unset token (whose
   `.encode()` raises), a mismatch and a `json.loads` failure all give None.
   */
  function ValidatePairs(prim: Primitives, botToken: Option<string>, pairs: seq<Pair>): (r: Option<Json.Value>)
    ensures r == (if botToken.Some? && Authentic(prim, botToken.value, pairs)
                  then prim.loads(UserField(pairs)) else None)
  {
    var parsed := Group(pairs);
    var hashValue := GetFirst(parsed, "hash", "");
    assert hashValue == SuppliedHash(pairs) by {
      GroupFirstOr(pairs, "hash", "");
    }
    if hashValue == "" then None
    else
      match botToken
      case None => None
      case Some(token) =>
        var dataCheckString := DataCheckString(parsed);
        if Signature(prim, token, dataCheckString) == hashValue then
          var userData := GetFirst(parsed, "user", "{}");
          assert userData == UserField(pairs) by {
            GroupFirstOr(pairs, "user", "{}");
          }
          prim.loads(userData)
        else None
  }

  /**
   `validate_init_data(init_data)` on the raw query string: the claim is the decoded `user`
   field exactly when the token is set and the decoded fields carry their own signature.
   */
  function ValidateInitData(prim: Primitives, botToken: Option<string>, initData: string): (r: Option<Json.Value>)
    ensures var pairs := ParseQsl(initData, prim.unquote);
            r == (if botToken.Some? && Authentic(prim, botToken.value, pairs)
                  then prim.loads(UserField(pairs)) else None)
  {
    ValidatePairs(prim, botToken, ParseQsl(initData, prim.unquote))
  }

  // ---------------------------------------------------------------------------
  // Properties

  /** Without a hash the payload is rejected, whatever the MAC and JSON primitives do. */
  lemma MissingHashRejected(prim: Primitives, botToken: Option<string>, pairs: seq<Pair>)
    requires forall i :: 0 <= i < |pairs| ==> pairs[i].0 != "hash"
    ensures ValidatePairs(prim, botToken, pairs) == None
  {
    ValuesOfAbsent(pairs, "hash");
  }

  /**
   The comparison is plain equality with a lowercase hexdigest, so a hash of the wrong
   length or with any character outside `0-9a-f` (an upper-case rendering, say) never matches.
   */
  lemma NonCanonicalHashRejected(prim: Primitives, botToken: Option<string>, pairs: seq<Pair>)
    requires WellFormed(prim)
    requires !IsLowerHex(SuppliedHash(pairs)) || |SuppliedHash(pairs)| != 2 * DigestSize
    ensures ValidatePairs(prim, botToken, pairs) == None
  {
    if botToken.Some? {
      SignatureLength(prim, botToken.value, CheckStringOf(pairs));
    }
  }

  /**
   A genuine payload without a `user` field yields whatever `json.loads("{}")` gives
   (api/index.py:74 falls back to "{}").
   */
  lemma UserlessClaim(prim: Primitives, token: string, pairs: seq<Pair>)
    requires Authentic(prim, token, pairs)
    requires forall i :: 0 <= i < |pairs| ==> pairs[i].0 != "user"
    ensures ValidatePairs(prim, Some(token), pairs) == prim.loads("{}")
  {
    ValuesOfAbsent(pairs, "user");
  }

  /** Payloads that agree on every key's first value validate alike. */
  lemma FirstValuesDecide(prim: Primitives, botToken: Option<string>, p1: seq<Pair>, p2: seq<Pair>)
    requires forall k :: FirstValue(p1, k) == FirstValue(p2, k)
    ensures ValidatePairs(prim, botToken, p1) == ValidatePairs(prim, botToken, p2)
  {
    assert SuppliedHash(p1) == SuppliedHash(p2) by {
      assert FirstValue(p1, "hash") == FirstValue(p2, "hash");
    }
    assert UserField(p1) == UserField(p2) by {
      assert FirstValue(p1, "user") == FirstValue(p2, "user");
    }
    assert CheckStringOf(p1) == CheckStringOf(p2) by {
      CheckStringFirstValues(p1, p2);
    }
  }

  /** When all keys are distinct, reordering the pairs leaves the outcome unchanged. */
  lemma PermutedPairsValidateAlike(prim: Primitives, botToken: Option<string>, p1: seq<Pair>, p2: seq<Pair>)
    requires DistinctKeys(p1)
    requires multiset(p1) == multiset(p2)
    ensures ValidatePairs(prim, botToken, p1) == ValidatePairs(prim, botToken, p2)
  {
    PermutationValues(p1, p2);
    FirstValuesDecide(prim, botToken, p1, p2);
  }

  /**
   Reordering the `&`-separated fields of the raw init-data leaves the outcome unchanged,
   when the decoded keys are distinct.
   */
  lemma PermutedFieldsValidateAlike(prim: Primitives, botToken: Option<string>, q1: string, q2: string)
    requires multiset(Strings.Split(q1, '&')) == multiset(Strings.Split(q2, '&'))
    requires DistinctKeys(ParseQsl(q1, prim.unquote))
    ensures ValidateInitData(prim, botToken, q1) == ValidateInitData(prim, botToken, q2)
  {
    FieldPairsPermutation(Strings.Split(q1, '&'), Strings.Split(q2, '&'), prim.unquote);
    PermutedPairsValidateAlike(prim, botToken, ParseQsl(q1, prim.unquote), ParseQsl(q2, prim.unquote));
  }

  /** A payload signed the way the client signs it: the data pairs followed by their `hash`. */
  function Sign(prim: Primitives, token: string, data: seq<Pair>): seq<Pair>
  {
    data + [("hash", Signature(prim, token, CheckStringOf(data)))]
  }

  /** The appended hash is the supplied one and leaves the check-string and the `user` field alone. */
  lemma SignedParts(prim: Primitives, token: string, data: seq<Pair>)
    requires forall i :: 0 <= i < |data| ==> data[i].0 != "hash"
    ensures var signed := Sign(prim, token, data);
            && CheckStringOf(signed) == CheckStringOf(data)
            && SuppliedHash(signed) == Signature(prim, token, CheckStringOf(data))
            && UserField(signed) == UserField(data)
  {
    var h := Signature(prim, token, CheckStringOf(data));
    var signed := data + [("hash", h)];
    forall k | k != "hash"
      ensures ValuesOf(signed, k) == ValuesOf(data, k)
    {
      ValuesOfAppend(data, ("hash", h), k);
    }
    assert forall k :: k != "hash" ==> FirstValue(signed, k) == FirstValue(data, k);
    CheckStringFirstValues(signed, data);
    ValuesOfAbsent(data, "hash");
    assert signed[..|data|] == data;
    assert ValuesOf(signed, "hash") == [] + [h];
  }

  /**
   A correctly signed payload validates under the same token, and the claim is the decoded
   `user` field: the hash does not enter its own check-string.
   */
  lemma SignedPayloadAccepted(prim: Primitives, token: string, data: seq<Pair>)
    requires WellFormed(prim)
    requires forall i :: 0 <= i < |data| ==> data[i].0 != "hash"
    ensures ValidatePairs(prim, Some(token), Sign(prim, token, data)) == prim.loads(UserField(data))
  {
    SignedParts(prim, token, data);
    var signed := Sign(prim, token, data);
    SignatureLength(prim, token, CheckStringOf(data));
    assert |SuppliedHash(signed)| == 2 * DigestSize;
    assert Authentic(prim, token, signed);
  }
}
