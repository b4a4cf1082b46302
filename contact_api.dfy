/** The Next.js API route `/api/contact`: only POST is served; the three fields are required;
    the mail sent is built from them with the sender address normalised. */
module ContactApi {
  import opened Js

  /** The request: `verb` is `req.method`, the others are the body's fields. */
  datatype ContactRequest = ContactRequest(
    verb: Option<string>, name: Option<string>, email: Option<string>, message: Option<string>)

  /** The message handed to Mailgun. */
  datatype MailData = MailData(from: string, to: string, subject: string, text: string)

  datatype Body = Text(text: string) | Error(error: string) | Message(message: string)

  /** The response: status, the `Allow` header when one is set, and the body. */
  datatype Response = Response(status: int, allow: seq<string>, body: Body)

  /** The response and the mail sent, if any. */
  datatype Outcome = Outcome(response: Response, sent: Option<MailData>)

  const Recipient := "hi@jordancolehunt.com"
  const MissingFieldsError := "Please provide name, email, and message."
  const ReceivedMessage := "Your contact information has been received."
  const SendError := "An error occurred while sending your message."

  /** The text of `${req.method}`: "undefined" when the method is missing. */
  function MethodText(verb: Option<string>): string
  {
    if verb.Some? then verb.value else "undefined"
  }

  /** `email.toLowerCase().replaceAll(' ', '')` */
  function NormalizeSender(email: string): (from: string)
    ensures ' ' !in from
    ensures forall c :: c in from ==> LowerChar(c) == c
  {
    var lower := AsciiLower(email);
    assert forall c :: c in lower ==> LowerChar(c) == c by {
      forall c | c in lower ensures LowerChar(c) == c {
        var i :| 0 <= i < |lower| && lower[i] == c;
      }
    }
    RemoveAll(lower, ' ')
  }

  /** The `data` object built from the fields. */
  function MailFor(name: string, email: string, message: string): (data: MailData)
    ensures data.to == Recipient && data.text == message
    ensures data.subject == "Hello from " + name + "!"
    ensures data.from == NormalizeSender(email)
  {
    MailData(NormalizeSender(email), Recipient, "Hello from " + name + "!", message)
  }

  /** `handler(req, res)`, with Mailgun's result as an oracle. */
  function Handle(req: ContactRequest, send: MailData -> bool): (o: Outcome)
    ensures req.verb != Some("POST") ==>
      o == Outcome(Response(405, ["POST"], Text("Method " + MethodText(req.verb) + " Not Allowed")), None)
    ensures req.verb == Some("POST") && !(Filled(req.name) && Filled(req.email) && Filled(req.message)) ==>
      o == Outcome(Response(400, [], Error(MissingFieldsError)), None)
    ensures o.sent.Some? ==>
      req.verb == Some("POST") && Filled(req.name) && Filled(req.email) && Filled(req.message) &&
      o.sent.value == MailFor(req.name.value, req.email.value, req.message.value)
    ensures req.verb == Some("POST") && Filled(req.name) && Filled(req.email) && Filled(req.message) ==>
      o.sent == Some(MailFor(req.name.value, req.email.value, req.message.value))
    ensures o.response.status == 200 <==> o.sent.Some? && send(o.sent.value)
    ensures o.response.status == 200 ==> o.response.body == Message(ReceivedMessage)
    ensures o.sent.Some? && !send(o.sent.value) ==> o.response == Response(500, [], Error(SendError))
  {
    if req.verb != Some("POST") then
      Outcome(Response(405, ["POST"], Text("Method " + MethodText(req.verb) + " Not Allowed")), None)
    else if !(Filled(req.name) && Filled(req.email) && Filled(req.message)) then
      Outcome(Response(400, [], Error(MissingFieldsError)), None)
    else
      var data := MailFor(req.name.value, req.email.value, req.message.value);
      if send(data) then Outcome(Response(200, [], Message(ReceivedMessage)), Some(data))
      else Outcome(Response(500, [], Error(SendError)), Some(data))
  }

  /** Lowercasing a string whose letters are already lower case changes nothing. */
  lemma {:induction false} LowerFixed(s: string)
    requires forall c :: c in s ==> LowerChar(c) == c
    ensures AsciiLower(s) == s
  {
    forall i | 0 <= i < |s| ensures AsciiLower(s)[i] == s[i] {
      assert s[i] in s;
    }
  }

  /** Normalising a sender address twice gives what normalising once gives. */
  lemma {:induction false} NormalizeSenderIdempotent(email: string)
    ensures NormalizeSender(NormalizeSender(email)) == NormalizeSender(email)
  {
    var from := NormalizeSender(email);
    LowerFixed(from);
  }

  /** ASCII lowercasing keeps every character that is already lower case, and turns each
      upper-case letter into its lower-case form. */
  lemma {:induction false} LowerKeeps(email: string, c: char)
    requires LowerChar(c) == c && c !in "ABCDEFGHIJKLMNOPQRSTUVWXYZ"
    ensures c in AsciiLower(email) <==> c in email || (('a' <= c <= 'z') && (c as int - 32) as char in email)
  {
    var lower := AsciiLower(email);
    if c in lower {
      var i :| 0 <= i < |lower| && lower[i] == c;
      assert email[i] in email;
    }
    if c in email {
      var i :| 0 <= i < |email| && email[i] == c;
      assert lower[i] == c;
    }
    if 'a' <= c <= 'z' && (c as int - 32) as char in email {
      var i :| 0 <= i < |email| && email[i] == (c as int - 32) as char;
      assert lower[i] == c;
    }
  }

  /** Normalisation only lowercases letters and drops spaces: every other character of the
      address survives. */
  lemma {:induction false} NormalizeSenderKeeps(email: string, c: char)
    requires c != ' ' && LowerChar(c) == c && c !in "ABCDEFGHIJKLMNOPQRSTUVWXYZ"
    ensures c in NormalizeSender(email) <==> c in email || (('a' <= c <= 'z') && (c as int - 32) as char in email)
  {
    LowerKeeps(email, c);
  }
}
