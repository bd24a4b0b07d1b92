/** The bulk-send endpoint `POST` of src/app/api/send-email/route.ts.

    After the authentication checks, one message per recipient is handed to
    the mail transport; `Promise.allSettled` waits for all of them and keeps
    their order. The transport is not modelled: its report for the `i`-th
    attempt is the input `outcomes[i]`. The response counts fulfilled and
    rejected attempts and lists the rejected ones. */
module SendEmail {
  import opened Wrappers
  import opened Strings
  import opened Types
  import opened Personalize

  const NotAuthenticatedMessage := "Not authenticated or missing access token. Please sign in again."
  const MissingUserEmailMessage := "User email not available in session"
  const ServerErrorFallback := "Failed to send emails"
  const UnknownError := "Unknown error"
  const UnknownRecipient := "Unknown recipient"
  const AttachmentEncoding := "base64"

  /** The parts of the signed-in session the endpoint reads. */
  datatype Session = Session(accessToken: Option<string>, userEmail: Option<string>)

  /** An attachment as handed to the transport. */
  datatype MailAttachment = MailAttachment(filename: string, content: string, encoding: string, contentType: string)

  /** The `mailOptions` of one message. */
  datatype MailOptions = MailOptions(
    from: string,
    to: string,
    subject: string,
    html: string,
    attachments: Option<seq<MailAttachment>>)

  /** What the transport reports for one message: delivered, or an error
      whose `message` and `code` may each be missing. */
  datatype TransportOutcome = Delivered | TransportError(message: Option<string>, code: Option<string>)

  /** How one attempt settled: fulfilled, or rejected with the object thrown
      at route.ts lines 109-113. */
  datatype Settled =
    | Fulfilled(recipient: Recipient)
    | Rejected(email: string, error: string, code: Option<string>)

  /** One entry of the response's `errors` list. */
  datatype ErrorEntry = ErrorEntry(recipient: string, error: string, code: Option<string>)

  /** The JSON body of a response. */
  datatype Body =
    | ErrorBody(error: string)
    | Summary(message: string, successful: nat, failed: nat, errors: seq<ErrorEntry>)

  /** A response together with the messages handed to the transport. */
  datatype Response = Response(status: nat, body: Body, attempts: seq<MailOptions>)

  /** route.ts lines 72-83: no attachment list unless the request has a
      non-empty one; otherwise each attachment, marked base64. */
  function AttachmentsForEmail(atts: Option<seq<Attachment>>): (r: Option<seq<MailAttachment>>)
    ensures r.Some? <==> atts.Some? && |atts.value| > 0
    ensures r.Some? ==> |r.value| == |atts.value| && forall i :: 0 <= i < |r.value| ==>
      var a := atts.value[i];
      r.value[i] == MailAttachment(a.filename, a.content, AttachmentEncoding, a.contentType)
  {
    if atts.None? || |atts.value| == 0 then None
    else
      var a := atts.value;
      Some(seq(|a|, i requires 0 <= i < |a| =>
        MailAttachment(a[i].filename, a[i].content, AttachmentEncoding, a[i].contentType)))
  }

  /** The message for one recipient (route.ts lines 69-93). */
  function MessageFor(from: string, r: Recipient, data: EmailData): (m: MailOptions)
    ensures m.from == from && m.to == r.email && m.subject == data.subject
    // a name without `$` stands in for every placeholder of the content
    ensures '$' !in r.name ==> m.html == Join(SplitOn(data.content, Placeholder), r.name)
    ensures !HasInfix(data.content, Placeholder) ==> m.html == data.content
    ensures m.attachments.Some? <==> data.attachments.Some? && |data.attachments.value| > 0
  {
    MailOptions(from, r.email, data.subject, PersonalizeContent(data.content, r.name),
      AttachmentsForEmail(data.attachments))
  }

  /** How one attempt settles given the transport's report. */
  function Settle(r: Recipient, outcome: TransportOutcome): (s: Settled)
    ensures s.Fulfilled? <==> outcome.Delivered?
    ensures s.Fulfilled? ==> s.recipient == r
    // a rejection always carries a message, so the "Unknown error" fallback
    // of the response only ever sees this one
    ensures s.Rejected? ==> s.email == r.email && s.code == outcome.code && s.error != ""
    ensures s.Rejected? && Truthy(outcome.message) ==> s.error == outcome.message.value
    ensures s.Rejected? && !Truthy(outcome.message) ==> s.error == UnknownError
  {
    match outcome
    case Delivered => Fulfilled(r)
    case TransportError(msg, code) => Rejected(r.email, if Truthy(msg) then msg.value else UnknownError, code)
  }

  /** `Promise.allSettled` over all recipients, in recipient order. */
  function SettleAll(rs: seq<Recipient>, outcomes: seq<TransportOutcome>): (results: seq<Settled>)
    requires |outcomes| == |rs|
    ensures |results| == |rs|
    ensures forall i :: 0 <= i < |rs| ==> results[i] == Settle(rs[i], outcomes[i])
  {
    seq(|rs|, i requires 0 <= i < |rs| => Settle(rs[i], outcomes[i]))
  }

  /** `results.filter(r => r.status === 'fulfilled').length`. */
  function CountFulfilled(results: seq<Settled>): nat {
    if results == [] then 0
    else (if results[0].Fulfilled? then 1 else 0) + CountFulfilled(results[1..])
  }

  /** `results.filter(r => r.status === 'rejected').length`. */
  function CountRejected(results: seq<Settled>): nat {
    if results == [] then 0
    else (if results[0].Rejected? then 1 else 0) + CountRejected(results[1..])
  }

  /** The `errors` list of route.ts lines 137-141: one entry per rejected
      attempt, in order, with the fallbacks for a missing address or message. */
  function ErrorEntries(results: seq<Settled>): seq<ErrorEntry> {
    if results == [] then []
    else
      var head := match results[0]
        case Fulfilled(_) => []
        case Rejected(email, error, code) =>
          [ErrorEntry(if email != "" then email else UnknownRecipient,
                      if error != "" then error else UnknownError, code)];
      head + ErrorEntries(results[1..])
  }

  /** "Emails sent: S successful, F failed". */
  function SummaryMessage(successful: nat, failed: nat): string {
    "Emails sent: " + NatToString(successful) + " successful, " + NatToString(failed) + " failed"
  }

  /** The 200 body built from the settled attempts. */
  function Aggregate(results: seq<Settled>): (b: Body)
    ensures b.Summary?
    ensures b.successful + b.failed == |results|
    ensures |b.errors| == b.failed
    ensures b.message == SummaryMessage(b.successful, b.failed)
    ensures b.successful == CountFulfilled(results) && b.failed == CountRejected(results)
    ensures b.errors == ErrorEntries(results)
  {
    CountsPartition(results);
    ErrorEntriesLength(results);
    var s := CountFulfilled(results);
    var f := CountRejected(results);
    Summary(SummaryMessage(s, f), s, f, ErrorEntries(results))
  }

  /** Every attempt is either fulfilled or rejected. */
  lemma {:induction false} CountsPartition(results: seq<Settled>)
    ensures CountFulfilled(results) + CountRejected(results) == |results|
  {
    if results != [] {
      CountsPartition(results[1..]);
    }
  }

  /** There is one error entry per rejected attempt. */
  lemma {:induction false} ErrorEntriesLength(results: seq<Settled>)
    ensures |ErrorEntries(results)| == CountRejected(results)
  {
    if results != [] {
      ErrorEntriesLength(results[1..]);
    }
  }

  /** `POST`: the authentication check, the request body, the sender check,
      then one attempt per recipient and the summary. `request` is the parsed
      JSON body, or the message of the error parsing it threw. */
  function Post(session: Option<Session>, request: Result<EmailData, string>,
                outcomes: seq<TransportOutcome>): (resp: Response)
    requires request.Success? ==> |outcomes| == |request.value.recipients|
    ensures resp.status in {200, 400, 401, 500}
    ensures (session.None? || !Truthy(session.value.accessToken)) <==> resp.status == 401
    ensures resp.status == 401 ==> resp.body == ErrorBody(NotAuthenticatedMessage)
    ensures resp.status != 200 ==> resp.attempts == [] && resp.body.ErrorBody?
    ensures resp.status == 500 <==>
      session.Some? && Truthy(session.value.accessToken) && request.Failure?
    ensures resp.status == 500 ==>
      resp.body == ErrorBody(if request.error != "" then request.error else ServerErrorFallback)
    ensures resp.status == 400 <==>
      && session.Some? && Truthy(session.value.accessToken)
      && request.Success? && !Truthy(session.value.userEmail)
    ensures resp.status == 400 ==> resp.body == ErrorBody(MissingUserEmailMessage)
    ensures resp.status == 200 <==>
      && session.Some? && Truthy(session.value.accessToken)
      && request.Success? && Truthy(session.value.userEmail)
    ensures resp.status == 200 ==>
      resp.body == Aggregate(SettleAll(request.value.recipients, outcomes))
    ensures resp.status == 200 ==>
      && request.Success? && session.Some? && Truthy(session.value.userEmail)
      && var rs := request.value.recipients;
      && |resp.attempts| == |rs|
      && (forall i :: 0 <= i < |rs| ==>
            && resp.attempts[i].from == session.value.userEmail.value
            && resp.attempts[i].to == rs[i].email
            && resp.attempts[i].subject == request.value.subject
            && resp.attempts[i].html == PersonalizeContent(request.value.content, rs[i].name)
            && resp.attempts[i].attachments == AttachmentsForEmail(request.value.attachments))
      && resp.body.Summary?
      && resp.body.successful + resp.body.failed == |rs|
      && |resp.body.errors| == resp.body.failed
  {
    if session.None? || !Truthy(session.value.accessToken) then
      Response(401, ErrorBody(NotAuthenticatedMessage), [])
    else
      match request
      case Failure(msg) =>
        Response(500, ErrorBody(if msg != "" then msg else ServerErrorFallback), [])
      case Success(data) =>
        var userEmail := session.value.userEmail.GetOr("");
        if userEmail == "" then
          Response(400, ErrorBody(MissingUserEmailMessage), [])
        else
          var rs := data.recipients;
          var attempts := seq(|rs|, i requires 0 <= i < |rs| => MessageFor(userEmail, rs[i], data));
          Response(200, Aggregate(SettleAll(rs, outcomes)), attempts)
  }

  /* ---------------------------------------------------------------------- */
  /* Properties of the aggregation                                          */
  /* ---------------------------------------------------------------------- */

  /** The counts and the error list of a concatenation are the sums and the
      concatenation of the parts: errors keep recipient order. */
  lemma AggregateAppend(a: seq<Settled>, b: seq<Settled>)
    ensures CountFulfilled(a + b) == CountFulfilled(a) + CountFulfilled(b)
    ensures CountRejected(a + b) == CountRejected(a) + CountRejected(b)
    ensures ErrorEntries(a + b) == ErrorEntries(a) + ErrorEntries(b)
  {
    CountFulfilledAppend(a, b);
    CountRejectedAppend(a, b);
    ErrorEntriesAppend(a, b);
  }

  lemma {:induction false} CountFulfilledAppend(a: seq<Settled>, b: seq<Settled>)
    ensures CountFulfilled(a + b) == CountFulfilled(a) + CountFulfilled(b)
  {
    if a == [] {
      assert a + b == b;
    } else {
      assert (a + b)[0] == a[0];
      assert (a + b)[1..] == a[1..] + b;
      CountFulfilledAppend(a[1..], b);
    }
  }

  lemma {:induction false} CountRejectedAppend(a: seq<Settled>, b: seq<Settled>)
    ensures CountRejected(a + b) == CountRejected(a) + CountRejected(b)
  {
    if a == [] {
      assert a + b == b;
    } else {
      assert (a + b)[0] == a[0];
      assert (a + b)[1..] == a[1..] + b;
      CountRejectedAppend(a[1..], b);
    }
  }

  lemma {:induction false} ErrorEntriesAppend(a: seq<Settled>, b: seq<Settled>)
    ensures ErrorEntries(a + b) == ErrorEntries(a) + ErrorEntries(b)
  {
    if a == [] {
      assert a + b == b;
    } else {
      assert (a + b)[0] == a[0];
      assert (a + b)[1..] == a[1..] + b;
      ErrorEntriesAppend(a[1..], b);
    }
  }

  /** The error entry a single failed attempt contributes. */
  function FailureEntry(r: Recipient, msg: Option<string>, code: Option<string>): ErrorEntry {
    ErrorEntry(if r.email != "" then r.email else UnknownRecipient,
               if Truthy(msg) then msg.value else UnknownError, code)
  }

  /** A single attempt counts once, on the side its outcome says, and a
      failure contributes its recipient's address, the error message (or
      "Unknown error") and the code passed through. */
  lemma SettleOne(r: Recipient, o: TransportOutcome)
    ensures CountFulfilled([Settle(r, o)]) == if o.Delivered? then 1 else 0
    ensures CountRejected([Settle(r, o)]) == if o.Delivered? then 0 else 1
    ensures ErrorEntries([Settle(r, o)]) ==
      if o.Delivered? then [] else [FailureEntry(r, o.message, o.code)]
  {
  }

  /** Counts do not depend on the order in which attempts are listed. */
  lemma {:induction false} CountsPermutationInvariant(a: seq<Settled>, b: seq<Settled>)
    requires multiset(a) == multiset(b)
    ensures CountFulfilled(a) == CountFulfilled(b)
    ensures CountRejected(a) == CountRejected(b)
    decreases |a|
  {
    if a != [] {
      assert a[0] in multiset(b);
      var k :| 0 <= k < |b| && b[k] == a[0];
      var rest := b[..k] + b[k + 1..];
      RemoveAtCounts(b, k);
      RemoveAtMultiset(b, k);
      assert a == [a[0]] + a[1..];
      assert multiset(a) == multiset{a[0]} + multiset(a[1..]);
      assert multiset(a[1..]) == multiset(a) - multiset{a[0]};
      assert multiset(rest) == multiset(b) - multiset{b[k]};
      CountsPermutationInvariant(a[1..], rest);
    }
  }

  /** Taking out the `k`-th attempt removes exactly its own contribution. */
  lemma RemoveAtCounts(b: seq<Settled>, k: nat)
    requires k < |b|
    ensures CountFulfilled(b) == CountFulfilled(b[..k] + b[k + 1..]) + (if b[k].Fulfilled? then 1 else 0)
    ensures CountRejected(b) == CountRejected(b[..k] + b[k + 1..]) + (if b[k].Rejected? then 1 else 0)
  {
    assert b == b[..k] + ([b[k]] + b[k + 1..]);
    AggregateAppend(b[..k], [b[k]] + b[k + 1..]);
    AggregateAppend([b[k]], b[k + 1..]);
    AggregateAppend(b[..k], b[k + 1..]);
  }

  /** Taking out the `k`-th element removes one copy of it from the multiset. */
  lemma RemoveAtMultiset<T>(b: seq<T>, k: nat)
    requires k < |b|
    ensures multiset(b) == multiset{b[k]} + multiset(b[..k] + b[k + 1..])
  {
    assert b == b[..k] + [b[k]] + b[k + 1..];
  }

  /** When every attempt is delivered: all successful, none failed, no errors. */
  lemma {:induction false} AllDelivered(rs: seq<Recipient>, outcomes: seq<TransportOutcome>)
    requires |outcomes| == |rs|
    requires forall i :: 0 <= i < |outcomes| ==> outcomes[i].Delivered?
    ensures var b := Aggregate(SettleAll(rs, outcomes));
      b.successful == |rs| && b.failed == 0 && b.errors == []
    decreases |rs|
  {
    if rs != [] {
      var results := SettleAll(rs, outcomes);
      AllDelivered(rs[1..], outcomes[1..]);
      assert results[1..] == SettleAll(rs[1..], outcomes[1..]);
    }
  }

  /** One failure among `n` attempts: `n - 1` successes, one failure, and a
      single error entry naming that recipient. Every other recipient is
      still attempted. */
  lemma ExactlyOneFailure(rs: seq<Recipient>, outcomes: seq<TransportOutcome>, k: nat)
    requires |outcomes| == |rs| && k < |rs|
    requires outcomes[k].TransportError?
    requires forall i :: 0 <= i < |outcomes| && i != k ==> outcomes[i].Delivered?
    ensures var b := Aggregate(SettleAll(rs, outcomes));
      && b.successful == |rs| - 1 && b.failed == 1
      && b.errors == [FailureEntry(rs[k], outcomes[k].message, outcomes[k].code)]
  {
    var results := SettleAll(rs, outcomes);
    assert results == results[..k] + ([results[k]] + results[k + 1..]);
    assert results[..k] == SettleAll(rs[..k], outcomes[..k]);
    assert results[k + 1..] == SettleAll(rs[k + 1..], outcomes[k + 1..]);
    AllDelivered(rs[..k], outcomes[..k]);
    AllDelivered(rs[k + 1..], outcomes[k + 1..]);
    AggregateAppend(results[..k], [results[k]] + results[k + 1..]);
    AggregateAppend([results[k]], results[k + 1..]);
    SettleOne(rs[k], outcomes[k]);
    CountsPartition(results[..k]);
    CountsPartition(results[k + 1..]);
  }

  /** The indices of the fulfilled attempts. */
  function FulfilledAt(results: seq<Settled>): set<nat> {
    set i: nat | i < |results| && results[i].Fulfilled?
  }

  /** The indices of the rejected attempts. */
  function RejectedAt(results: seq<Settled>): set<nat> {
    set i: nat | i < |results| && results[i].Rejected?
  }

  /** The counts are the sizes of the two filters. */
  lemma {:induction false} CountsAreFilterSizes(results: seq<Settled>)
    ensures CountFulfilled(results) == |FulfilledAt(results)|
    ensures CountRejected(results) == |RejectedAt(results)|
    decreases |results|
  {
    if results != [] {
      var n := |results| - 1;
      var p := results[..n];
      CountsAreFilterSizes(p);
      assert results == p + [results[n]];
      AggregateAppend(p, [results[n]]);
      assert n !in FulfilledAt(p) && n !in RejectedAt(p);
      if results[n].Fulfilled? {
        assert FulfilledAt(results) == FulfilledAt(p) + {n};
        assert RejectedAt(results) == RejectedAt(p);
      } else {
        assert FulfilledAt(results) == FulfilledAt(p);
        assert RejectedAt(results) == RejectedAt(p) + {n};
      }
    }
  }

  /** A 200 response counts as successful exactly the recipients whose
      message the transport delivered, and as failed all the others. */
  lemma PostCountsOutcomes(session: Option<Session>, request: Result<EmailData, string>,
                           outcomes: seq<TransportOutcome>)
    requires request.Success? ==> |outcomes| == |request.value.recipients|
    ensures var resp := Post(session, request, outcomes);
      resp.status == 200 ==>
        && resp.body.successful == |set i: nat | i < |outcomes| && outcomes[i].Delivered?|
        && resp.body.failed == |set i: nat | i < |outcomes| && outcomes[i].TransportError?|
  {
    if request.Success? {
      var results := SettleAll(request.value.recipients, outcomes);
      CountsAreFilterSizes(results);
      assert FulfilledAt(results) == set i: nat | i < |outcomes| && outcomes[i].Delivered?;
      assert RejectedAt(results) == set i: nat | i < |outcomes| && outcomes[i].TransportError?;
    }
  }

  /** An authenticated request with no recipients is answered 200 with 0/0,
      no error and no attempt: an empty list is not rejected. */
  lemma EmptyBatch(session: Session, data: EmailData)
    requires Truthy(session.accessToken) && Truthy(session.userEmail)
    requires data.recipients == []
    ensures var resp := Post(Some(session), Success(data), []);
      && resp.status == 200 && resp.attempts == []
      && resp.body == Summary(SummaryMessage(0, 0), 0, 0, [])
  {
  }

  /** The messages sent do not depend on what the transport reports: one
      failure never skips or changes another recipient's attempt. */
  lemma AttemptsIndependentOfOutcomes(session: Option<Session>, request: Result<EmailData, string>,
                                      o1: seq<TransportOutcome>, o2: seq<TransportOutcome>)
    requires request.Success? ==> |o1| == |request.value.recipients| && |o2| == |o1|
    ensures Post(session, request, o1).attempts == Post(session, request, o2).attempts
    ensures Post(session, request, o1).status == Post(session, request, o2).status
  {
  }
}
