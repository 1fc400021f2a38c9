/**
 The sign-in broker handshake: a random state travels from the opener's URL through the
 broker page's request check into the result message, and back to the waiting opener.
 */
module AuthBroker {
  import opened Base
  import opened Text
  import opened Base64Url
  import QueryString

  const BROKER_ORIGIN := "https://auth.staybids.in"
  const OPENER_ORIGIN := "https://staybids.in"
  const MESSAGE_TYPE := "staybid:auth-broker-result"
  const TTL_MS := 2 * 60 * 1000

  datatype Number = NaN | Infinite | Finite(value: int)

  /** An untyped JavaScript value, as far as the checks look. */
  datatype Value = Undefined | Null | Bool(b: bool) | Num(n: Number) | Str(s: string) | Obj(fields: map<string, Value>)
  {
    function Field(name: string): Value {
      if Obj? && name in fields then fields[name] else Undefined
    }
  }

  datatype Credential = Credential(idToken: Value, user: Value)

  datatype Pending = Pending(state: string, provider: string, createdAt: Number)

  datatype Request = Request(state: string, openerOrigin: string, provider: string)

  // ----- states -----

  /** STATE_RE: 43 characters of the URL-safe alphabet. */
  predicate IsValidState(s: string) {
    |s| == 43 && AllUrl(s)
  }

  /** The 32 bytes stand for what getRandomValues filled in. */
  method CreateBrokerState(bytes: seq<Byte>) returns (state: string)
    requires |bytes| == 32
    ensures state == Encode(bytes)
  {
    var binary := "";
    for i := 0 to |bytes|
      invariant |binary| == i && forall k :: 0 <= k < i ==> binary[k] == bytes[k] as char
    {
      binary := binary + [bytes[i] as char];
    }
    state := StripPadding(Replace(Replace(Btoa(binary), '+', '-'), '/', '_'));
    PipelineIsEncode(bytes, binary);
  }

  /** Every 32 bytes give a state the validator accepts. */
  lemma CreatedStateIsValid(bytes: seq<Byte>)
    requires |bytes| == 32
    ensures IsValidState(Encode(bytes))
  {
    DecodeEncode(bytes);
    BytesOfSextets(bytes);
  }

  /** Different bytes give different states. */
  lemma CreatedStatesDiffer(a: seq<Byte>, b: seq<Byte>)
    ensures Encode(a) == Encode(b) <==> a == b
  {
    DecodeEncode(a);
    DecodeEncode(b);
  }

  /** Of the accepted states, exactly those whose last character has two zero low bits come from 32 bytes. */
  lemma StatesThatCanArise(s: string)
    requires IsValidState(s)
    ensures (exists bytes: seq<Byte> :: |bytes| == 32 && Encode(bytes) == s) <==> SextetOf(s[42]) % 4 == 0
  {
    if bytes: seq<Byte> :| |bytes| == 32 && Encode(bytes) == s {
      LastSextet(bytes);
    }
    if SextetOf(s[42]) % 4 == 0 {
      EncodeDecode(s);
      SextetsOfBytes(ToSextets(s));
      assert |Decode(s)| == 32;
    }
  }

  lemma {:induction false} LastSextet(b: seq<Byte>)
    requires |b| % 3 == 2
    ensures Sextets(b) != [] && Sextets(b)[|Sextets(b)| - 1] % 4 == 0
  {
    if |b| > 2 {
      LastSextet(b[3..]);
      assert Sextets(b)[4..] == Sextets(b[3..]);
    }
  }

  // ----- URL and request -----

  /** configuredBrokerOrigin: of all values only the exact origin text parses to itself. */
  function ConfiguredOrigin(raw: Value): Option<string> {
    if raw == Str(BROKER_ORIGIN) then Some(BROKER_ORIGIN) else None
  }

  function BrokerParams(state: string, provider: string): seq<QueryString.Param> {
    [QueryString.Param("state", state), QueryString.Param("openerOrigin", OPENER_ORIGIN),
     QueryString.Param("provider", provider)]
  }

  lemma AsciiBrokerParams(state: string)
    requires IsValidState(state)
    ensures forall p :: p in BrokerParams(state, "google") ==> QueryString.AsciiParam(p)
  {
    assert forall i :: 0 <= i < |state| ==> IsUrlChar(state[i]);
  }

  function BuildBrokerUrl(configured: Value, state: string, provider: string): Option<string> {
    if ConfiguredOrigin(configured).None? || !IsValidState(state) || provider != "google" then None
    else
      AsciiBrokerParams(state);
      Some(ConfiguredOrigin(configured).value + "/auth/broker?" + QueryString.Serialize(BrokerParams(state, provider)))
  }

  /** The parameters a page reads from its address. */
  function ParamsOf(url: string): seq<QueryString.Param> {
    QueryString.Parse(After(url, '?'))
  }

  function ToValue(param: Option<string>): Value {
    match param case None => Null case Some(s) => Str(s)
  }

  function ValidateBrokerRequest(
      currentOrigin: Value, state: Value, openerOrigin: Value, provider: Value): Option<Request>
  {
    if currentOrigin != Str(BROKER_ORIGIN) || openerOrigin != Str(OPENER_ORIGIN) || provider != Str("google")
       || !(state.Str? && IsValidState(state.s))
    then None
    else Some(Request(state.s, openerOrigin.s, provider.s))
  }

  /** The check the broker page makes on its own address. */
  function RequestFromUrl(currentOrigin: Value, url: string): Option<Request> {
    var ps := ParamsOf(url);
    ValidateBrokerRequest(currentOrigin, ToValue(QueryString.Get(ps, "state")),
                          ToValue(QueryString.Get(ps, "openerOrigin")), ToValue(QueryString.Get(ps, "provider")))
  }

  /** The built address, percent-encoding included, validates back to exactly its state. */
  lemma UrlCarriesState(state: string)
    requires IsValidState(state)
    ensures BuildBrokerUrl(Str(BROKER_ORIGIN), state, "google").Some?
    ensures RequestFromUrl(Str(BROKER_ORIGIN), BuildBrokerUrl(Str(BROKER_ORIGIN), state, "google").value)
         == Some(Request(state, OPENER_ORIGIN, "google"))
  {
    hide QueryString.Serialize, QueryString.Parse, QueryString.AsciiParam, After, IsValidState;
    var ps := BrokerParams(state, "google");
    AsciiBrokerParams(state);
    NoQueryBefore();
    var head := BROKER_ORIGIN + "/auth/broker";
    var url := BuildBrokerUrl(Str(BROKER_ORIGIN), state, "google").value;
    assert url == head + ['?'] + QueryString.Serialize(ps) by {
      assert "/auth/broker?" == "/auth/broker" + ['?'];
    }
    CutAt(head, '?', QueryString.Serialize(ps));
    QueryString.ParseSerialize(ps);
    ParamsFound(state);
  }

  lemma NoQueryBefore()
    ensures '?' !in BROKER_ORIGIN + "/auth/broker"
  {
    assert '?' !in BROKER_ORIGIN && '?' !in "/auth/broker";
  }

  lemma ParamsFound(state: string)
    ensures var ps := BrokerParams(state, "google");
      && QueryString.Get(ps, "state") == Some(state)
      && QueryString.Get(ps, "openerOrigin") == Some(OPENER_ORIGIN)
      && QueryString.Get(ps, "provider") == Some("google")
  {
    var ps := BrokerParams(state, "google");
    assert ps[1..][0] == ps[1] && ps[1..][1..][0] == ps[2];
    assert QueryString.Get(ps[1..][1..], "provider") == Some("google");
    assert |"state"| == 5 && |"openerOrigin"| == 12 && |"provider"| == 8;
  }

  // ----- result message -----

  predicate ShortString(v: Value, max: nat) { v.Str? && |v.s| <= max }

  predicate IsIdentity(v: Value) {
    v.Obj? && ShortString(v.Field("uid"), 256) && |v.Field("uid").s| > 0 && ShortString(v.Field("email"), 320)
    && ShortString(v.Field("name"), 256) && ShortString(v.Field("phone"), 64)
  }

  predicate IsToken(v: Value) { v.Str? && 100 <= |v.s| <= 20000 }

  function BrokerResultMessage(state: string, credential: Credential): Option<Value> {
    if !IsValidState(state) || !IsToken(credential.idToken) || !IsIdentity(credential.user) then None
    else
      Some(Obj(map["type" := Str(MESSAGE_TYPE), "state" := Str(state),
                   "idToken" := credential.idToken, "user" := credential.user]))
  }

  /** `eventSource` and `expectedSource` are window handles; None is a null handle. */
  function ValidateBrokerMessage(
      eventOrigin: Value, eventSource: Option<nat>, expectedSource: Option<nat>,
      data: Value, pending: Pending, now: int): Option<Credential> {
    if eventOrigin != Str(BROKER_ORIGIN) || eventSource.None? || eventSource != expectedSource
       || !IsValidState(pending.state) || pending.provider != "google" || !pending.createdAt.Finite?
       || now < pending.createdAt.value || now - pending.createdAt.value > TTL_MS || !data.Obj?
    then None
    else if data.Field("type") != Str(MESSAGE_TYPE) || data.Field("state") != Str(pending.state)
            || !IsToken(data.Field("idToken")) || !IsIdentity(data.Field("user"))
    then None
    else Some(Credential(data.Field("idToken"), data.Field("user")))
  }

  /** The limits both sides keep: a token of 100 to 20000 characters and four short texts, the first not empty. */
  predicate WithinLimits(c: Credential) {
    && c.idToken.Str? && 100 <= |c.idToken.s| && |c.idToken.s| <= 20000
    && c.user.Obj?
    && (var uid := c.user.Field("uid"); uid.Str? && 1 <= |uid.s| && |uid.s| <= 256)
    && (var email := c.user.Field("email"); email.Str? && |email.s| <= 320)
    && (var name := c.user.Field("name"); name.Str? && |name.s| <= 256)
    && (var phone := c.user.Field("phone"); phone.Str? && |phone.s| <= 64)
  }

  /** From createdAt to two minutes later, both included. */
  predicate InTime(createdAt: Number, now: int) {
    createdAt.Finite? && createdAt.value <= now && now <= createdAt.value + 120000
  }

  lemma LimitsChecked(c: Credential)
    ensures IsToken(c.idToken) && IsIdentity(c.user) <==> WithinLimits(c)
  {
  }

  /**
   Whatever arrives, a credential is accepted exactly from the broker's origin and the expected window, in
   time, for a Google sign-in with a possible state, as a message of the right type and state whose
   credential keeps the limits; and then it is what a result message for that state carries.
   */
  lemma AcceptedExactly(
      eventOrigin: Value, eventSource: Option<nat>, expectedSource: Option<nat>,
      data: Value, pending: Pending, now: int)
    ensures var c := Credential(data.Field("idToken"), data.Field("user"));
      var got := ValidateBrokerMessage(eventOrigin, eventSource, expectedSource, data, pending, now);
      && (got.Some? <==>
            && eventOrigin == Str("https://auth.staybids.in") && eventSource.Some? && eventSource == expectedSource
            && InTime(pending.createdAt, now) && pending.provider == "google" && IsValidState(pending.state)
            && data.Field("type") == Str("staybid:auth-broker-result") && data.Field("state") == Str(pending.state)
            && WithinLimits(c))
      && (got.Some? ==>
            && got == Some(c) && BrokerResultMessage(pending.state, c).Some?
            && ValidateBrokerMessage(eventOrigin, eventSource, expectedSource,
                                     BrokerResultMessage(pending.state, c).value, pending, now) == got)
  {
    hide IsValidState, IsToken, IsIdentity, WithinLimits;
    LimitsChecked(Credential(data.Field("idToken"), data.Field("user")));
  }

  /**
   Whatever arrives, a credential is accepted only from the broker's origin and the expected window, in
   time, and only if it is what a result message for the pending state carries.
   */
  lemma AcceptedMeansSent(
      eventOrigin: Value, eventSource: Option<nat>, expectedSource: Option<nat>,
      data: Value, pending: Pending, now: int)
    requires ValidateBrokerMessage(eventOrigin, eventSource, expectedSource, data, pending, now).Some?
    ensures var c := ValidateBrokerMessage(eventOrigin, eventSource, expectedSource, data, pending, now).value;
      && BrokerResultMessage(pending.state, c).Some?
      && ValidateBrokerMessage(eventOrigin, eventSource, expectedSource,
                               BrokerResultMessage(pending.state, c).value, pending, now) == Some(c)
      && InTime(pending.createdAt, now) && pending.provider == "google" && WithinLimits(c)
      && eventOrigin == Str("https://auth.staybids.in") && eventSource.Some? && eventSource == expectedSource
  {
    AcceptedExactly(eventOrigin, eventSource, expectedSource, data, pending, now);
  }

  /**
   The whole handshake, for every credential. The opener keeps the state made from `mine`; the broker
   page was opened on a URL built from `theirs` and answers with `credential`. The opener gets exactly
   that credential if and only if the bytes are the same, the clock is inside the two minutes and the
   credential keeps the limits; else it gets nothing.
   */
  lemma HandshakeExact(
      mine: seq<Byte>, theirs: seq<Byte>, credential: Credential, createdAt: Number, window: nat, now: int)
    requires |mine| == 32 && |theirs| == 32
    ensures var broker := Str("https://auth.staybids.in");
      BuildBrokerUrl(broker, Encode(theirs), "google").Some?
      && var request := RequestFromUrl(broker, BuildBrokerUrl(broker, Encode(theirs), "google").value);
      && request.Some?
      && var message := BrokerResultMessage(request.value.state, credential);
      && (message.Some? <==> WithinLimits(credential))
      && (if message.None? then None
          else ValidateBrokerMessage(broker, Some(window), Some(window), message.value,
                                     Pending(Encode(mine), "google", createdAt), now))
         == if mine == theirs && InTime(createdAt, now) && WithinLimits(credential) then Some(credential) else None
  {
    hide RequestFromUrl, BuildBrokerUrl, IsValidState, IsToken, IsIdentity, WithinLimits;
    LimitsChecked(credential);
    CreatedStateIsValid(mine);
    CreatedStateIsValid(theirs);
    CreatedStatesDiffer(mine, theirs);
    UrlCarriesState(Encode(theirs));
  }

  /** The address names the broker page and the opener, whatever the constants are called. */
  lemma AddressWrittenOut(state: string)
    requires IsValidState(state)
    ensures forall p :: p in BrokerParams(state, "google") ==> QueryString.AsciiParam(p)
    ensures BuildBrokerUrl(Str("https://auth.staybids.in"), state, "google")
         == Some("https://auth.staybids.in/auth/broker?" + QueryString.Serialize([
                   QueryString.Param("state", state), QueryString.Param("openerOrigin", "https://staybids.in"),
                   QueryString.Param("provider", "google")]))
  {
    hide QueryString.Serialize, QueryString.AsciiParam;
    AsciiBrokerParams(state);
    assert "https://auth.staybids.in" + "/auth/broker?" == "https://auth.staybids.in/auth/broker?";
  }

  /** Nothing else makes an address, and only the right page with the right parameters makes a request. */
  lemma RefusedElse(configured: Value, state: string, provider: string, openerOrigin: Value)
    ensures configured != Str("https://auth.staybids.in") || provider != "google" || |state| != 43
            ==> BuildBrokerUrl(configured, state, provider).None?
    ensures configured != Str("https://auth.staybids.in") || openerOrigin != Str("https://staybids.in")
            || provider != "google" || |state| != 43
            ==> ValidateBrokerRequest(configured, Str(state), openerOrigin, Str(provider)).None?
    ensures |state| != 43 ==> forall credential :: BrokerResultMessage(state, credential).None?
  {
  }
}
