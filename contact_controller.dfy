/** `ContactController.sendContactForm` of the NestJS site: the required fields, then the
    e-mail shape, then the hCaptcha check (with the client address taken from the proxy
    headers), then the mail. The captcha and mail services are oracles; the handler returns
    the reply together with the calls it made, in order. */
module ContactController {
  import opened Js
  import opened EmailFormat

  /** The request body; a field is None when it is absent. */
  datatype ContactDto = ContactDto(
    name: Option<string>, email: Option<string>, message: Option<string>,
    captchaToken: Option<string>)

  /** The headers and socket address `remoteIp` is chosen from. */
  datatype ClientInfo = ClientInfo(
    forwardedFor: Option<string>, realIp: Option<string>, remoteAddress: Option<string>)

  datatype HttpError = HttpError(status: int, message: string)

  datatype Reply = Sent(message: string) | Failed(error: HttpError)

  /** A call the handler makes to a service. */
  datatype Effect =
    | VerifyCaptcha(token: Option<string>, remoteIp: Option<string>)
    | SendMail(name: string, email: string, message: string)

  datatype Outcome = Outcome(reply: Reply, effects: seq<Effect>)

  const BadRequest := 400
  const InternalServerError := 500
  const MissingFieldsMessage := "Missing required fields"
  const InvalidEmailMessage := "Invalid email format"
  const SentMessage := "Message sent successfully!"
  const SendFailedMessage := "Failed to send message. Please try again later."

  /** `xff?.split(',')[0]?.trim()`: the first hop of `X-Forwarded-For`, trimmed. */
  function FirstForwarded(forwardedFor: Option<string>): (first: Option<string>)
    ensures first.Some? <==> forwardedFor.Some?
  {
    if forwardedFor.Some? then Some(Trim(BeforeFirst(forwardedFor.value, ','))) else None
  }

  /** `FirstForwarded(...) || realIp || remoteAddress`: the first truthy source, in that
      priority, or the socket address when neither header gives one. */
  function RemoteIp(client: ClientInfo): (ip: Option<string>)
    ensures Filled(FirstForwarded(client.forwardedFor)) ==> ip == FirstForwarded(client.forwardedFor)
    ensures !Filled(FirstForwarded(client.forwardedFor)) && Filled(client.realIp) ==> ip == client.realIp
    ensures !Filled(FirstForwarded(client.forwardedFor)) && !Filled(client.realIp) ==> ip == client.remoteAddress
  {
    var first := FirstForwarded(client.forwardedFor);
    if Filled(first) then first
    else if Filled(client.realIp) then client.realIp
    else client.remoteAddress
  }

  /** A slice of a prefix is the same slice of the whole. */
  lemma {:induction false} SliceOfPrefix(s: string, n: nat, i: nat, j: nat)
    requires i <= j <= n <= |s|
    ensures s[..n][i..j] == s[i..j]
  {
  }

  /** A character missing from a string is missing from each of its slices. */
  lemma {:induction false} NotInSlice(s: string, i: nat, j: nat, c: char)
    requires i <= j <= |s| && c !in s
    ensures c !in s[i..j]
  {
    forall k | 0 <= k < j - i ensures s[i..j][k] != c {
      assert s[i..j][k] == s[i + k];
    }
  }

  /** The trimmed first entry of a comma-separated list holds no comma and is a piece of the
      list. */
  lemma {:induction false} FirstEntryIsPiece(xff: string)
    ensures var ip := Trim(BeforeFirst(xff, ','));
      ',' !in ip && exists i, j :: 0 <= i <= j <= |xff| && ip == xff[i..j]
  {
    var before := BeforeFirst(xff, ',');
    var i := TrimStartIndex(before);
    var j := TrimEndIndex(before, i);
    assert Trim(before) == before[i..j];
    assert before == xff[..|before|];
    SliceOfPrefix(xff, |before|, i, j);
    NotInSlice(before, i, j, ',');
  }

  /** The address taken from `X-Forwarded-For` is one hop, not a list: it holds no comma, it
      carries no surrounding whitespace, and it is a piece of the header. */
  lemma {:induction false} ForwardedAddressIsOneHop(client: ClientInfo)
    requires Filled(FirstForwarded(client.forwardedFor))
    ensures var ip := RemoteIp(client).value;
      && ',' !in ip && !IsWhitespace(ip[0]) && !IsWhitespace(ip[|ip| - 1])
      && exists i, j :: 0 <= i <= j <= |client.forwardedFor.value| && ip == client.forwardedFor.value[i..j]
  {
    FirstEntryIsPiece(client.forwardedFor.value);
  }

  /** `sendContactForm(body, request)` with the captcha verdict (None when it passes, the
      HttpException it throws otherwise) and the mail result as oracles. */
  function SendContactForm(body: ContactDto, client: ClientInfo,
                           captcha: (Option<string>, Option<string>) -> Option<HttpError>,
                           mail: (string, string, string) -> bool): (o: Outcome)
    ensures !(Filled(body.name) && Filled(body.email) && Filled(body.message)) ==>
      o == Outcome(Failed(HttpError(BadRequest, MissingFieldsMessage)), [])
    ensures Filled(body.name) && Filled(body.email) && Filled(body.message) && !IsValidEmail(body.email.value) ==>
      o == Outcome(Failed(HttpError(BadRequest, InvalidEmailMessage)), [])
    ensures o.effects != [] ==> o.effects[0] == VerifyCaptcha(body.captchaToken, RemoteIp(client))
    ensures |o.effects| <= 2
    ensures |o.effects| == 2 ==>
      captcha(body.captchaToken, RemoteIp(client)).None? &&
      o.effects[1] == SendMail(body.name.value, body.email.value, body.message.value)
    ensures o.reply.Sent? ==> o.reply.message == SentMessage && |o.effects| == 2
    ensures Filled(body.name) && Filled(body.email) && Filled(body.message) && IsValidEmail(body.email.value) ==>
      && |o.effects| >= 1
      && (captcha(body.captchaToken, RemoteIp(client)).None? ==>
            |o.effects| == 2 && (o.reply.Sent? <==> mail(body.name.value, body.email.value, body.message.value)))
  {
    if !(Filled(body.name) && Filled(body.email) && Filled(body.message)) then
      Outcome(Failed(HttpError(BadRequest, MissingFieldsMessage)), [])
    else if !IsValidEmail(body.email.value) then
      Outcome(Failed(HttpError(BadRequest, InvalidEmailMessage)), [])
    else
      var ip := RemoteIp(client);
      var verify := VerifyCaptcha(body.captchaToken, ip);
      match captcha(body.captchaToken, ip)
      case Some(err) => Outcome(Failed(err), [verify])
      case None =>
        var name, email, message := body.name.value, body.email.value, body.message.value;
        var send := SendMail(name, email, message);
        if mail(name, email, message) then Outcome(Sent(SentMessage), [verify, send])
        else Outcome(Failed(HttpError(InternalServerError, SendFailedMessage)), [verify, send])
  }

  /** The request is accepted exactly when every step passes, and a mail is sent only for a
      request with all fields, a well-formed address and a passed captcha. */
  lemma {:induction false} SentIffAllChecksPass(body: ContactDto, client: ClientInfo,
                                                captcha: (Option<string>, Option<string>) -> Option<HttpError>,
                                                mail: (string, string, string) -> bool)
    ensures var o := SendContactForm(body, client, captcha, mail);
      var valid := Filled(body.name) && Filled(body.email) && Filled(body.message) &&
        MatchesEmailRegex(body.email.value);
      && (o.reply.Sent? <==>
          valid && captcha(body.captchaToken, RemoteIp(client)).None? &&
          mail(body.name.value, body.email.value, body.message.value))
      && ((exists k :: 0 <= k < |o.effects| && o.effects[k].SendMail?) ==>
          valid && captcha(body.captchaToken, RemoteIp(client)).None?)
  {
    if body.email.Some? {
      IsValidEmailMatchesRegex(body.email.value);
    }
  }

  /** A captcha refusal is passed on unchanged and no mail is sent; a passed captcha is
      always followed by the mail call, and a mail failure is a 500. */
  lemma CaptchaAndMailFailures(body: ContactDto, client: ClientInfo,
                               captcha: (Option<string>, Option<string>) -> Option<HttpError>,
                               mail: (string, string, string) -> bool)
    requires Filled(body.name) && Filled(body.email) && Filled(body.message) && IsValidEmail(body.email.value)
    ensures var o := SendContactForm(body, client, captcha, mail);
      var verdict := captcha(body.captchaToken, RemoteIp(client));
      && (verdict.Some? ==> o.reply == Failed(verdict.value) && |o.effects| == 1)
      && (verdict.None? ==> |o.effects| == 2)
      && (verdict.None? && !mail(body.name.value, body.email.value, body.message.value) ==>
          o.reply == Failed(HttpError(InternalServerError, SendFailedMessage)))
  {
  }
}
