/** The per-connection mail handler of handler.go: the closure returned by
    `MailHandler`, as a pure decision from one delivery to its outcome. */
module Handler {
  import opened Wrappers
  import opened Regex
  import opened Matcher
  import opened Seqs
  import opened Bytes
  import Base64

  /** One call of the send API: `Users.Messages.Send(userId, &Message{Raw: raw})`. */
  datatype SendRequest = SendRequest(userId: string, raw: string)

  /** The send API's answer to a request. */
  datatype SendStatus = Sent | SendFailed(cause: string)

  /** Why a delivery was dropped without an error. */
  datatype DropReason = Unparseable | SenderRejected(sender: string) | RecipientRejected(recipient: string)

  /** What one invocation of a handler did: dropped the delivery, or made one send
      request, saw the API's answer, and returned `returned` (Go's `error`, `None` for nil). */
  datatype Outcome =
    | Dropped(reason: DropReason)
    | Forwarded(request: SendRequest, status: SendStatus, returned: Option<string>)
  {
    /** The send requests made, in order. */
    function Sends(): seq<SendRequest> {
      if Dropped? then [] else [request]
    }

    /** The value the handler returns to the SMTP server. */
    function Error(): Option<string> {
      if Dropped? then None else returned
    }
  }

  /** The user id the send is made for: the account the token authorizes. */
  const Me: string := "me"

  /** The request that forwards `data`: its raw bytes, headers included, in standard base64. */
  function ForwardRequest(data: seq<byte>): (req: SendRequest)
    ensures req.userId == Me
    ensures req.raw == Base64.Encode(data) && Base64.Decode(req.raw) == Some(data)
  {
    Base64.DecodeEncode(data);
    SendRequest(Me, Base64.Encode(data))
  }

  /** The sender and recipient allow lists the closure captures. */
  datatype Filters = Filters(engine: Engine, senders: seq<Regexp>, recipients: seq<Regexp>) {
    predicate Valid() {
      AllCompiled(senders) && AllCompiled(recipients)
    }
  }

  /** The first recipient the recipient list refuses, if any. */
  function FirstRejected(f: Filters, to: seq<string>): (k: Option<nat>)
    requires f.Valid()
    ensures k.None? <==> forall i :: 0 <= i < |to| ==> Allowed(f.engine, f.recipients, to[i])
    ensures k.Some? ==> k.value < |to| && !Allowed(f.engine, f.recipients, to[k.value])
    ensures k.Some? ==> forall i :: 0 <= i < k.value ==> Allowed(f.engine, f.recipients, to[i])
  {
    FirstWhere(to, (address: string) => !Allowed(f.engine, f.recipients, address))
  }

  /** The closure `MailHandler(srv, senders, recipients)` applied to a delivery from
      `from` to `to` carrying `data`. `parses` says whether the mail parser accepts
      the data; `status` is what the send API answers if it is called. */
  function Handle(f: Filters, parses: seq<byte> -> bool, from: string, to: seq<string>,
                  data: seq<byte>, status: SendStatus): (o: Outcome)
    requires f.Valid()
    // parse gate, then sender gate (recipients are not looked at)
    ensures !parses(data) ==> o == Dropped(Unparseable)
    ensures parses(data) && !Allowed(f.engine, f.senders, from) ==> o == Dropped(SenderRejected(from))
    // all-or-nothing over recipients
    ensures o.Forwarded? <==>
              parses(data) && Allowed(f.engine, f.senders, from) &&
              forall i :: 0 <= i < |to| ==> Allowed(f.engine, f.recipients, to[i])
    ensures parses(data) && Allowed(f.engine, f.senders, from) && o.Dropped? ==> o.reason.RecipientRejected?
    ensures o.Dropped? && o.reason.RecipientRejected? ==>
              exists k :: 0 <= k < |to| && to[k] == o.reason.recipient &&
                          !Allowed(f.engine, f.recipients, to[k]) &&
                          forall i :: 0 <= i < k ==> Allowed(f.engine, f.recipients, to[i])
    // exactly one send, to "me", of the whole message
    ensures o.Forwarded? ==> o.Sends() == [o.request] && o.status == status
    ensures o.Forwarded? ==> o.request.userId == Me && Base64.Decode(o.request.raw) == Some(data)
    ensures o.Forwarded? ==> o.request.raw == Base64.Encode(data)
    // an error is returned exactly when the send fails, and it is the send's error
    ensures o.Error().Some? <==> o.Forwarded? && status.SendFailed?
    ensures o.Error().Some? ==> o.Error().value == status.cause
  {
    if !parses(data) then Dropped(Unparseable)
    else if !Allowed(f.engine, f.senders, from) then Dropped(SenderRejected(from))
    else match FirstRejected(f, to)
      case Some(k) => Dropped(RecipientRejected(to[k]))
      case None =>
        var req := ForwardRequest(data);
        match status
        case Sent => Forwarded(req, status, None)
        case SendFailed(cause) => Forwarded(req, status, Some(cause))
  }
}
