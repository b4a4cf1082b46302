/** `ContactController.sendContactForm` of the second version of the site: the same field and
    e-mail checks as the first, no captcha, then the mail. */
module ContactControllerV2 {
  import opened Js
  import opened EmailFormat
  import V1 = ContactController

  datatype ContactDto = ContactDto(name: Option<string>, email: Option<string>, message: Option<string>)

  datatype Outcome = Outcome(reply: V1.Reply, sent: Option<V1.Effect>)

  /** `sendContactForm(body)` with the mail service's result as an oracle. */
  function SendContactForm(body: ContactDto, mail: (string, string, string) -> bool): (o: Outcome)
    ensures !(Filled(body.name) && Filled(body.email) && Filled(body.message)) ==>
      o == Outcome(V1.Failed(V1.HttpError(V1.BadRequest, V1.MissingFieldsMessage)), None)
    ensures Filled(body.name) && Filled(body.email) && Filled(body.message) && !IsValidEmail(body.email.value) ==>
      o == Outcome(V1.Failed(V1.HttpError(V1.BadRequest, V1.InvalidEmailMessage)), None)
    ensures o.sent.Some? ==>
      Filled(body.name) && Filled(body.email) && Filled(body.message) && IsValidEmail(body.email.value) &&
      o.sent.value == V1.SendMail(body.name.value, body.email.value, body.message.value)
    ensures o.reply.Sent? ==> o.reply.message == V1.SentMessage && o.sent.Some?
    ensures Filled(body.name) && Filled(body.email) && Filled(body.message) && IsValidEmail(body.email.value) ==>
      && o.sent == Some(V1.SendMail(body.name.value, body.email.value, body.message.value))
      && (o.reply.Sent? <==> mail(body.name.value, body.email.value, body.message.value))
    ensures o.sent.Some? && o.reply.Failed? ==>
      o.reply.error == V1.HttpError(V1.InternalServerError, V1.SendFailedMessage)
  {
    if !(Filled(body.name) && Filled(body.email) && Filled(body.message)) then
      Outcome(V1.Failed(V1.HttpError(V1.BadRequest, V1.MissingFieldsMessage)), None)
    else if !IsValidEmail(body.email.value) then
      Outcome(V1.Failed(V1.HttpError(V1.BadRequest, V1.InvalidEmailMessage)), None)
    else
      var name, email, message := body.name.value, body.email.value, body.message.value;
      var send := V1.SendMail(name, email, message);
      if mail(name, email, message) then Outcome(V1.Sent(V1.SentMessage), Some(send))
      else Outcome(V1.Failed(V1.HttpError(V1.InternalServerError, V1.SendFailedMessage)), Some(send))
  }

  /** The second version is the first with the captcha step removed: when the captcha passes,
      both reply the same to the same fields and send the same mail. */
  lemma {:induction false} SameAsFirstVersionWithoutCaptcha(body: ContactDto, token: Option<string>,
                                                            client: V1.ClientInfo,
                                                            captcha: (Option<string>, Option<string>) -> Option<V1.HttpError>,
                                                            mail: (string, string, string) -> bool)
    requires captcha(token, V1.RemoteIp(client)).None?
    ensures var first := V1.SendContactForm(V1.ContactDto(body.name, body.email, body.message, token), client, captcha, mail);
      var second := SendContactForm(body, mail);
      && first.reply == second.reply
      && (second.sent.Some? <==> |first.effects| == 2)
      && (second.sent.Some? ==> first.effects[1] == second.sent.value)
  {
  }
}
