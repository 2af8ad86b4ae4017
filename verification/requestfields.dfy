/** How the route handlers read their JSON request bodies: an alias chain
    `(a || b || c || '')`, coerced to a string and trimmed, and the checks that turn an
    empty result into a 400 reply before any store access or sign-in call. The
    sign-up route first compares the `x-admin-secret` header with the configured
    secret. */
module RequestFields {
  import opened Wrappers
  import opened JsText

  /** The JSON values a request body can hold; a missing field reads as `Undefined`.
      Numbers are integral. */
  datatype JsValue =
    | Undefined
    | Null
    | Bool(b: bool)
    | Num(n: int)
    | Str(s: string)
    | Arr(items: seq<JsValue>)
    | Obj

  /** A parsed request body: its own fields. */
  type Body = map<string, JsValue>

  /** `body[key]`. */
  function Field(body: Body, key: string): JsValue
  {
    if key in body then body[key] else Undefined
  }

  /** ECMAScript truthiness: `undefined`, `null`, `false`, `0` and `''` are falsy;
      every array and object is truthy. */
  predicate Truthy(v: JsValue) {
    match v
    case Undefined => false
    case Null => false
    case Bool(b) => b
    case Num(n) => n != 0
    case Str(s) => s != ""
    case Arr(_) => true
    case Obj => true
  }

  /** `a || b || ... || ''`: the first truthy alternative, or `''` when none is. */
  function FirstTruthy(alternatives: seq<JsValue>): (v: JsValue)
    ensures Truthy(v) ==> v in alternatives
    ensures !Truthy(v) <==> forall i :: 0 <= i < |alternatives| ==> !Truthy(alternatives[i])
    ensures !Truthy(v) ==> v == Str("")
  {
    if alternatives == [] then Str("")
    else if Truthy(alternatives[0]) then alternatives[0]
    else FirstTruthy(alternatives[1..])
  }

  /** `String(v)`, which is also what `v + ''` and `v.toString()` give: an array is its
      elements joined with `,`, where `null` and `undefined` elements are empty. */
  function ToJsString(v: JsValue): string
    decreases v, 1
  {
    match v
    case Undefined => "undefined"
    case Null => "null"
    case Bool(b) => if b then "true" else "false"
    case Num(n) => IntToDecimal(n)
    case Str(s) => s
    case Arr(items) => JoinItems(v, items)
    case Obj => "[object Object]"
  }

  /** `Array.prototype.join(',')` over the elements of `whole`. */
  function JoinItems(ghost whole: JsValue, items: seq<JsValue>): string
    requires forall i :: 0 <= i < |items| ==> items[i] < whole
    decreases whole, 0, |items|
  {
    if items == [] then ""
    else
      var first := if items[0].Undefined? || items[0].Null? then "" else ToJsString(items[0]);
      if |items| == 1 then first else first + "," + JoinItems(whole, items[1..])
  }

  /** `(a || b || c || '') + ''` trimmed: the text of the first truthy alias. */
  function AliasText(body: Body, aliases: seq<string>): (text: string)
    ensures Trim(text) == text
  {
    var raw := ToJsString(FirstTruthy(Fields(body, aliases)));
    TrimIdempotent(raw);
    Trim(raw)
  }

  /** The aliases' values, in order. */
  function Fields(body: Body, keys: seq<string>): (vs: seq<JsValue>)
    ensures |vs| == |keys|
    ensures forall i :: 0 <= i < |keys| ==> vs[i] == Field(body, keys[i])
  {
    seq(|keys|, i requires 0 <= i < |keys| => Field(body, keys[i]))
  }

  /** The phone number the table handlers key on: `phoneNumber`, else `phone`, else
      `phone_no`. */
  function PhoneText(body: Body): (t: string)
    ensures Trim(t) == t
  {
    AliasText(body, ["phoneNumber", "phone", "phone_no"])
  }

  /** The table number the upsert stores: `tableNumber`, else `table`, else
      `table_no`. */
  function TableText(body: Body): (t: string)
    ensures Trim(t) == t
  {
    AliasText(body, ["tableNumber", "table", "table_no"])
  }

  /** The lookup handler's check: the trimmed phone number, or 400. */
  function LookupRequest(body: Body): (r: Result<string, Reply>)
    ensures r.Err? <==> PhoneText(body) == ""
    ensures r.Err? ==> r.error == Reply(400, "phoneNumber is required")
    ensures r.Ok? ==> r.value == PhoneText(body) && r.value != "" && Trim(r.value) == r.value
  {
    var phone := PhoneText(body);
    assert Trim(phone) == phone;
    if phone == "" then Err(Reply(400, "phoneNumber is required"))
    else Ok(phone)
  }

  /** The upsert handler's check: the trimmed phone and table numbers, or 400 when
      either is empty. */
  function UpsertRequest(body: Body): (r: Result<(string, string), Reply>)
    ensures r.Err? <==> PhoneText(body) == "" || TableText(body) == ""
    ensures r.Err? ==> r.error == Reply(400, "phoneNumber and tableNumber are required")
    ensures r.Ok? ==> r.value == (PhoneText(body), TableText(body))
    ensures r.Ok? ==> r.value.0 != "" && r.value.1 != ""
    ensures r.Ok? ==> Trim(r.value.0) == r.value.0 && Trim(r.value.1) == r.value.1
  {
    var phone := PhoneText(body);
    var table := TableText(body);
    assert Trim(phone) == phone && Trim(table) == table;
    if phone == "" || table == "" then Err(Reply(400, "phoneNumber and tableNumber are required"))
    else Ok((phone, table))
  }

  /** The e-mail address sign-in and sign-up use: `(email || '').toString().trim()`. */
  function EmailText(body: Body): (t: string)
    ensures Trim(t) == t
  {
    AliasText(body, ["email"])
  }

  /** The password sign-in and sign-up use: `(password || '').toString()`, not
      trimmed. */
  function PasswordText(body: Body): (t: string)
    ensures Truthy(Field(body, "password")) ==> t == ToJsString(Field(body, "password"))
    ensures !Truthy(Field(body, "password")) ==> t == ""
  {
    ToJsString(FirstTruthy([Field(body, "password")]))
  }

  /** The sign-in check: the e-mail address and the password, or 400 when either is
      empty. */
  function Credentials(body: Body): (r: Result<(string, string), Reply>)
    ensures r.Err? <==> EmailText(body) == "" || PasswordText(body) == ""
    ensures r.Err? ==> r.error == Reply(400, "email and password are required")
    ensures r.Ok? ==> r.value == (EmailText(body), PasswordText(body))
  {
    var email := EmailText(body);
    var password := PasswordText(body);
    if email == "" || password == "" then Err(Reply(400, "email and password are required"))
    else Ok((email, password))
  }

  /** The sign-up check: with an admin secret configured (a non-empty one), a request
      whose `x-admin-secret` header differs is refused with 403 before its body is
      read; then the sign-in check. */
  function SignupRequest(adminSecret: Option<string>, secretHeader: Option<string>, body: Body)
    : (r: Result<(string, string), Reply>)
    ensures r == Err(Reply(403, "Forbidden")) <==>
      adminSecret.Some? && adminSecret.value != "" && secretHeader != Some(adminSecret.value)
  {
    if adminSecret.Some? && adminSecret.value != "" && secretHeader != Some(adminSecret.value) then
      Err(Reply(403, "Forbidden"))
    else Credentials(body)
  }

  // ---- Properties of the field checks ----------------------------------------------

  /** The chain yields the first truthy alternative: the ones before it are skipped
      and the ones after it are never looked at. */
  lemma {:induction false} FirstTruthyAt(alternatives: seq<JsValue>, k: nat)
    requires k < |alternatives| && Truthy(alternatives[k])
    requires forall i :: 0 <= i < k ==> !Truthy(alternatives[i])
    ensures FirstTruthy(alternatives) == alternatives[k]
  {
    if k > 0 {
      FirstTruthyAt(alternatives[1..], k - 1);
    }
  }

  /** Any alias chain: when alias `k` is the first truthy one, the text is that field,
      converted and trimmed, whatever the later aliases hold. */
  lemma AliasChosen(body: Body, aliases: seq<string>, k: nat)
    requires k < |aliases| && Truthy(Field(body, aliases[k]))
    requires forall i :: 0 <= i < k ==> !Truthy(Field(body, aliases[i]))
    ensures AliasText(body, aliases) == Trim(ToJsString(Field(body, aliases[k])))
  {
    FirstTruthyAt(Fields(body, aliases), k);
  }

  /** Any alias chain: with no truthy alias the text is empty. */
  lemma AliasNoneEmpty(body: Body, aliases: seq<string>)
    requires forall i :: 0 <= i < |aliases| ==> !Truthy(Field(body, aliases[i]))
    ensures AliasText(body, aliases) == ""
  {
    var vs := Fields(body, aliases);
    assert forall i :: 0 <= i < |vs| ==> !Truthy(vs[i]);
    TrimOfEmpty();
  }

  /** A chain of three aliases `a || b || c || ''`, case by case. */
  lemma ThreeAliases(body: Body, a: string, b: string, c: string)
    ensures Truthy(Field(body, a)) ==>
      AliasText(body, [a, b, c]) == Trim(ToJsString(Field(body, a)))
    ensures !Truthy(Field(body, a)) && Truthy(Field(body, b)) ==>
      AliasText(body, [a, b, c]) == Trim(ToJsString(Field(body, b)))
    ensures !Truthy(Field(body, a)) && !Truthy(Field(body, b)) && Truthy(Field(body, c)) ==>
      AliasText(body, [a, b, c]) == Trim(ToJsString(Field(body, c)))
    ensures !Truthy(Field(body, a)) && !Truthy(Field(body, b)) && !Truthy(Field(body, c)) ==>
      AliasText(body, [a, b, c]) == ""
  {
    var aliases := [a, b, c];
    if Truthy(Field(body, a)) {
      AliasChosen(body, aliases, 0);
    } else if Truthy(Field(body, b)) {
      AliasChosen(body, aliases, 1);
    } else if Truthy(Field(body, c)) {
      AliasChosen(body, aliases, 2);
    } else {
      AliasNoneEmpty(body, aliases);
    }
  }

  /** A truthy `phoneNumber` is the phone number, trimmed, whatever `phone` and
      `phone_no` hold. */
  lemma PhoneNumberPreferred(body: Body)
    requires Truthy(Field(body, "phoneNumber"))
    ensures PhoneText(body) == Trim(ToJsString(body["phoneNumber"]))
  {
    ThreeAliases(body, "phoneNumber", "phone", "phone_no");
  }

  /** With `phoneNumber` falsy (absent, `''`, `0`, `null` or `false`), `phone` is used
      when truthy. */
  lemma PhoneFallback(body: Body)
    requires !Truthy(Field(body, "phoneNumber")) && Truthy(Field(body, "phone"))
    ensures PhoneText(body) == Trim(ToJsString(body["phone"]))
  {
    ThreeAliases(body, "phoneNumber", "phone", "phone_no");
  }

  /** Then `phone_no`. */
  lemma PhoneLastFallback(body: Body)
    requires !Truthy(Field(body, "phoneNumber")) && !Truthy(Field(body, "phone"))
    requires Truthy(Field(body, "phone_no"))
    ensures PhoneText(body) == Trim(ToJsString(body["phone_no"]))
  {
    ThreeAliases(body, "phoneNumber", "phone", "phone_no");
  }

  /** With no truthy alias there is no phone number, and the lookup is refused. */
  lemma NoPhoneRefused(body: Body)
    requires !Truthy(Field(body, "phoneNumber")) && !Truthy(Field(body, "phone"))
    requires !Truthy(Field(body, "phone_no"))
    ensures LookupRequest(body) == Err(Reply(400, "phoneNumber is required"))
  {
    assert PhoneText(body) == "" by {
      ThreeAliases(body, "phoneNumber", "phone", "phone_no");
    }
  }

  /** The table number comes from `tableNumber`, else `table`, else `table_no`: the
      first truthy one, converted and trimmed; with none truthy it is empty and the
      upsert is refused. */
  lemma TableChain(body: Body)
    ensures Truthy(Field(body, "tableNumber")) ==>
      TableText(body) == Trim(ToJsString(Field(body, "tableNumber")))
    ensures !Truthy(Field(body, "tableNumber")) && Truthy(Field(body, "table")) ==>
      TableText(body) == Trim(ToJsString(Field(body, "table")))
    ensures !Truthy(Field(body, "tableNumber")) && !Truthy(Field(body, "table")) && Truthy(Field(body, "table_no")) ==>
      TableText(body) == Trim(ToJsString(Field(body, "table_no")))
    ensures !Truthy(Field(body, "tableNumber")) && !Truthy(Field(body, "table")) && !Truthy(Field(body, "table_no")) ==>
      UpsertRequest(body) == Err(Reply(400, "phoneNumber and tableNumber are required"))
  {
    if Truthy(Field(body, "tableNumber")) {
      assert TableText(body) == Trim(ToJsString(Field(body, "tableNumber"))) by {
        ThreeAliases(body, "tableNumber", "table", "table_no");
      }
    } else if Truthy(Field(body, "table")) {
      assert TableText(body) == Trim(ToJsString(Field(body, "table"))) by {
        ThreeAliases(body, "tableNumber", "table", "table_no");
      }
    } else if Truthy(Field(body, "table_no")) {
      assert TableText(body) == Trim(ToJsString(Field(body, "table_no"))) by {
        ThreeAliases(body, "tableNumber", "table", "table_no");
      }
    } else {
      assert TableText(body) == "" by {
        ThreeAliases(body, "tableNumber", "table", "table_no");
      }
      NoTableRefused(body);
    }
  }

  lemma NoTableRefused(body: Body)
    requires TableText(body) == ""
    ensures UpsertRequest(body) == Err(Reply(400, "phoneNumber and tableNumber are required"))
  {
  }

  /** A `phoneNumber` made only of white space is truthy, so it shadows a usable
      `phone`, and the request is refused. */
  lemma BlankPhoneNumberShadows(body: Body, blank: string)
    requires Field(body, "phoneNumber") == Str(blank)
    requires blank != [] && AllTrimmable(blank)
    ensures LookupRequest(body) == Err(Reply(400, "phoneNumber is required"))
  {
    PhoneNumberPreferred(body);
    BlankTrims(blank);
  }

  /** A numeric phone number is used as its decimal digits. `String(n)` writes the
      exact digits only up to 2^53 in magnitude, where every integer is a Number. */
  lemma NumericPhone(body: Body, n: int)
    requires Field(body, "phoneNumber") == Num(n) && n != 0
    requires -0x20000000000000 <= n <= 0x20000000000000
    ensures LookupRequest(body) == Ok(IntToDecimal(n))
  {
    DecimalIsSolid(n);
    PhoneNumberPreferred(body);
    assert ToJsString(Num(n)) == IntToDecimal(n);
  }

  /** The upsert is refused exactly when the lookup would be, or the table number is
      empty. */
  lemma UpsertNeedsLookup(body: Body)
    ensures UpsertRequest(body).Err? <==> LookupRequest(body).Err? || TableText(body) == ""
    ensures UpsertRequest(body).Ok? ==> UpsertRequest(body).value.0 == LookupRequest(body).value
  {
  }

  /** The e-mail address is trimmed but the password is kept as sent, surrounding
      white space included; a password of spaces is accepted. */
  lemma {:induction false} PasswordKeptAsSent(body: Body, email: string, password: string)
    requires Field(body, "email") == Str(email) && Trim(email) != ""
    requires Field(body, "password") == Str(password) && password != ""
    ensures Credentials(body) == Ok((Trim(email), password))
  {
    StringEmail(body, email);
    StringPassword(body, password);
  }

  lemma StringPassword(body: Body, password: string)
    requires Field(body, "password") == Str(password) && password != ""
    ensures PasswordText(body) == password
  {
  }

  lemma StringEmail(body: Body, email: string)
    requires Field(body, "email") == Str(email) && email != ""
    ensures EmailText(body) == Trim(email)
  {
    AliasChosen(body, ["email"], 0);
  }

  /** An e-mail address of white space, or a missing or falsy password, is refused,
      whatever the other field holds. */
  lemma MissingCredentialRefused(body: Body)
    requires !Truthy(Field(body, "password")) ||
      (Field(body, "email").Str? && AllTrimmable(Field(body, "email").s))
    ensures Credentials(body) == Err(Reply(400, "email and password are required"))
  {
    if Field(body, "email").Str? && AllTrimmable(Field(body, "email").s) {
      var e := Field(body, "email").s;
      if e == "" {
        AliasNoneEmpty(body, ["email"]);
      } else {
        AliasChosen(body, ["email"], 0);
        BlankTrims(e);
      }
    }
  }

  lemma TrimOfEmpty()
    ensures Trim("") == ""
  {
  }

  /** Without a configured secret, or with the matching header, sign-up checks the body
      exactly as sign-in does. */
  lemma SignupAsSignin(adminSecret: Option<string>, secretHeader: Option<string>, body: Body)
    requires adminSecret.None? || adminSecret.value == "" || secretHeader == adminSecret
    ensures SignupRequest(adminSecret, secretHeader, body) == Credentials(body)
  {
  }

  /** A wrong or missing secret is refused whatever the body holds. */
  lemma ForbiddenWhateverBody(secret: string, secretHeader: Option<string>, body1: Body, body2: Body)
    requires secret != "" && secretHeader != Some(secret)
    ensures SignupRequest(Some(secret), secretHeader, body1) == SignupRequest(Some(secret), secretHeader, body2)
  {
  }
}
