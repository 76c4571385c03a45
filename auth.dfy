/** The authentication helpers: the normalisation of the login answer to
    `{ data: { token } }`, and the client-side profile read out of the
    stored JSON Web Token without checking its signature. */
module Auth {
  import opened JsValue
  import opened JsString

  datatype TokenData = TokenData(token: Value)

  /** `{ data: { token } }` */
  datatype LoginResult = LoginResult(data: TokenData)

  /** `apiLogin` once the request has answered with body `body`: a string
      body is the token itself, otherwise the token is
      `(body && body.token) || null`. */
  function Login(body: Value): (r: LoginResult)
    ensures body.Str? ==> r.data.token == body
    ensures !body.Str? && Truthy(body) && Truthy(Get(body, "token")) ==> r.data.token == Get(body, "token")
    ensures !body.Str? && !(Truthy(body) && Truthy(Get(body, "token"))) ==> r.data.token == Null
  {
    var token := if body.Str? then body else Or(if Truthy(body) then Get(body, "token") else body, Null);
    LoginResult(TokenData(token))
  }

  /** A non-string body never yields a falsy token other than null: a
      missing, empty or false token field is normalised to null. */
  lemma LoginTokenTruthyOrNull(body: Value)
    requires !body.Str?
    ensures Truthy(Login(body).data.token) || Login(body).data.token == Null
  {
  }

  /** Both answer shapes the server may use carry the same token, except the
      empty one: an empty string body stays "" while `{ token: "" }` becomes
      null. */
  lemma LoginShapesAgree(t: string)
    ensures Login(Str(t)) == Login(Obj(map["token" := Str(t)])) <==> t != ""
  {
    var o := Obj(map["token" := Str(t)]);
    assert Get(o, "token") == Str(t);
    if t == "" {
      assert Login(o).data.token == Null;
    }
  }

  /** Why the profile promise rejects: no token is stored (`Error('no
      token')`), the token has no second segment (reading `replace` of
      undefined throws a TypeError), the segment does not decode to JSON
      (atob, decodeURIComponent or JSON.parse throws), or it decodes to null
      (reading `sub` of null throws a TypeError). */
  datatype ProfileError = NoToken | NoPayload | DecodeFailed | NullClaims

  datatype ProfileData = ProfileData(username: Value)

  /** `{ data: { username } }` */
  datatype Profile = Profile(data: ProfileData)

  /** `token.split('.')[1]`, `None` where that is undefined. */
  function PayloadSegment(token: string): (r: Option<string>)
    ensures r.Some? <==> '.' in token
    ensures r.Some? ==> '.' !in r.value
  {
    var parts := Split(token, '.');
    assert '.' in token ==> |parts| >= 2;
    if |parts| >= 2 then Some(parts[1]) else None
  }

  /** The payload of a token `header.payload.signature` is its middle
      segment, whatever the signature holds. */
  lemma PayloadOfJwt(header: string, payload: string, signature: string)
    requires '.' !in header && '.' !in payload
    ensures PayloadSegment(header + "." + payload + "." + signature) == Some(payload)
  {
    var token := header + "." + payload + "." + signature;
    assert token == header + ['.'] + (payload + ['.'] + signature);
    IndexOfAfterPrefix(header, '.', payload + ['.'] + signature);
    assert token[..|header|] == header;
    var rest := token[|header| + 1..];
    assert rest == payload + ['.'] + signature;
    IndexOfAfterPrefix(payload, '.', signature);
    assert rest[..|payload|] == payload;
    assert rest[|payload| + 1..] == signature;
    assert Split(rest, '.') == [payload] + Split(signature, '.');
    assert Split(token, '.') == [header] + Split(rest, '.');
  }

  /** A token with a single dot, `header.payload`, has its second part as
      payload. */
  lemma PayloadOfTwoSegments(header: string, payload: string)
    requires '.' !in header && '.' !in payload
    ensures PayloadSegment(header + "." + payload) == Some(payload)
  {
    var token := header + "." + payload;
    assert token == header + ['.'] + payload;
    IndexOfAfterPrefix(header, '.', payload);
    assert token[..|header|] == header;
    assert token[|header| + 1..] == payload;
    assert Split(token, '.') == [header] + Split(payload, '.');
  }

  /** `s.replace(/-/g,'+').replace(/_/g,'/')`: the URL-safe base64
      alphabet back to the standard one. */
  function ToStandardBase64(s: string): (r: string)
    ensures |r| == |s| && '-' !in r && '_' !in r
    ensures forall i :: 0 <= i < |s| ==>
      r[i] == (if s[i] == '-' then '+' else if s[i] == '_' then '/' else s[i])
  {
    ReplaceAll(ReplaceAll(s, '-', '+'), '_', '/')
  }

  /** The issuer's side, which no client code performs: the standard
      alphabet to the URL-safe one. It is the reference the client's
      conversion is checked against. */
  function ToUrlSafeBase64(s: string): (r: string)
    ensures |r| == |s| && '+' !in r && '/' !in r
    ensures forall i :: 0 <= i < |s| ==>
      r[i] == (if s[i] == '+' then '-' else if s[i] == '/' then '_' else s[i])
  {
    ReplaceAll(ReplaceAll(s, '+', '-'), '/', '_')
  }

  /** A URL-safe segment, which has no `+` or `/`, comes back unchanged from
      the conversion to the standard alphabet and back. */
  lemma UrlSafeRoundTrip(s: string)
    requires '+' !in s && '/' !in s
    ensures ToUrlSafeBase64(ToStandardBase64(s)) == s
  {
    var r := ToUrlSafeBase64(ToStandardBase64(s));
    forall i | 0 <= i < |s| ensures r[i] == s[i] {
      assert s[i] != '+' && s[i] != '/';
    }
  }

  /** Standard base64 text, which has no `-` or `_`, comes back unchanged
      from the encoder's conversion and this one. */
  lemma StandardRoundTrip(s: string)
    requires '-' !in s && '_' !in s
    ensures ToStandardBase64(ToUrlSafeBase64(s)) == s
  {
    var r := ToStandardBase64(ToUrlSafeBase64(s));
    forall i | 0 <= i < |s| ensures r[i] == s[i] {
      assert s[i] != '-' && s[i] != '_';
    }
  }

  /** The claim keys tried, in order. */
  const ClaimKeys: seq<string> := ["sub", "user", "username", "name"]

  /** `json.sub || json.user || json.username || json.name`: one of the four
      claims, truthy exactly when one of them is, and the `name` claim when
      it is not. */
  function Username(claims: Value): (r: Value)
    requires !IsNullish(claims)
    ensures r == Get(claims, "sub") || r == Get(claims, "user") ||
      r == Get(claims, "username") || r == Get(claims, "name")
    ensures Truthy(r) <==> (Truthy(Get(claims, "sub")) || Truthy(Get(claims, "user")) ||
      Truthy(Get(claims, "username")) || Truthy(Get(claims, "name")))
    ensures !Truthy(r) ==> r == Get(claims, "name")
  {
    var vs := [Get(claims, "sub"), Get(claims, "user"), Get(claims, "username"), Get(claims, "name")];
    assert vs[..1] == [vs[0]] && OrChain(vs[..1]) == vs[0];
    assert vs[..2][..1] == vs[..1] && OrChain(vs[..2]) == Or(vs[0], vs[1]);
    assert vs[..3][..2] == vs[..2] && OrChain(vs[..3]) == Or(Or(vs[0], vs[1]), vs[2]);
    assert vs[..4][..3] == vs[..3] && vs[..4] == vs;
    assert OrChain(vs) == Or(Or(Or(vs[0], vs[1]), vs[2]), vs[3]);
    OrChain(vs)
  }

  /** The username is the first truthy claim among sub, user, username and
      name; when none is truthy it is whatever `name` holds (possibly
      undefined), not a fixed default. */
  lemma UsernameIsFirstTruthyClaim(claims: Value)
    requires !IsNullish(claims)
    ensures forall k :: (0 <= k < 4 && Truthy(Get(claims, ClaimKeys[k])) &&
      (forall j :: 0 <= j < k ==> !Truthy(Get(claims, ClaimKeys[j])))) ==>
      Username(claims) == Get(claims, ClaimKeys[k])
    ensures (forall j :: 0 <= j < 4 ==> !Truthy(Get(claims, ClaimKeys[j]))) ==>
      Username(claims) == Get(claims, "name") && !Truthy(Username(claims))
  {
    var vs := [Get(claims, "sub"), Get(claims, "user"), Get(claims, "username"), Get(claims, "name")];
    assert forall j :: 0 <= j < 4 ==> vs[j] == Get(claims, ClaimKeys[j]);
    forall k | 0 <= k < 4 && Truthy(Get(claims, ClaimKeys[k])) &&
      (forall j :: 0 <= j < k ==> !Truthy(Get(claims, ClaimKeys[j])))
      ensures Username(claims) == Get(claims, ClaimKeys[k])
    {
      OrChainFirstTruthy(vs, k);
    }
    if forall j :: 0 <= j < 4 ==> !Truthy(Get(claims, ClaimKeys[j])) {
      OrChainNoneTruthy(vs);
    }
  }

  /** `apiProfile` for the stored token `stored` (`None` when nothing is
      stored). `decode` is `JSON.parse(decodeURIComponent(escape(atob(x))))`:
      base64 to bytes, the bytes read as UTF-8, the text parsed as JSON,
      `None` where any of the three throws. */
  function ApiProfile(stored: Option<string>, decode: string -> Option<Value>): (r: Result<Profile, ProfileError>)
    ensures r == Err(NoToken) <==> stored.None? || stored.value == ""
    ensures r == Err(NoPayload) <==> stored.Some? && stored.value != "" && '.' !in stored.value
    ensures r == Err(DecodeFailed) <==>
      stored.Some? && PayloadSegment(stored.value).Some? &&
      decode(ToStandardBase64(PayloadSegment(stored.value).value)).None?
    ensures r == Err(NullClaims) <==>
      stored.Some? && PayloadSegment(stored.value).Some? &&
      decode(ToStandardBase64(PayloadSegment(stored.value).value)).Some? &&
      IsNullish(decode(ToStandardBase64(PayloadSegment(stored.value).value)).value)
    ensures r.Ok? ==>
      stored.Some? && PayloadSegment(stored.value).Some? &&
      var json := decode(ToStandardBase64(PayloadSegment(stored.value).value));
      json.Some? && !IsNullish(json.value) && r.value.data.username == Username(json.value)
  {
    match stored
    case None => Err(NoToken)
    case Some(token) =>
      if token == "" then Err(NoToken)
      else match PayloadSegment(token)
        case None => Err(NoPayload)
        case Some(payload) =>
          match decode(ToStandardBase64(payload))
          case None => Err(DecodeFailed)
          case Some(json) =>
            if IsNullish(json) then Err(NullClaims)
            else Ok(Profile(ProfileData(Username(json))))
  }

  /** For a well-formed token whose payload decodes to claims, the profile
      is the first truthy of its sub, user, username and name claims. */
  lemma ProfileOfJwt(header: string, payload: string, signature: string,
                     decode: string -> Option<Value>)
    requires '.' !in header && '.' !in payload
    requires decode(ToStandardBase64(payload)).Some? && !IsNullish(decode(ToStandardBase64(payload)).value)
    ensures ApiProfile(Some(header + "." + payload + "." + signature), decode) ==
      Ok(Profile(ProfileData(Username(decode(ToStandardBase64(payload)).value))))
  {
    PayloadOfJwt(header, payload, signature);
  }
}
