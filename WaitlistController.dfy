/** The `POST /api/waitlist/add` endpoint (controller/WaitlistController.java):
    refuse a malformed address with 400, otherwise run the workflow and
    answer 200. The duplicate check that would answer 409 is commented out
    in the controller, so there is no such path here. */
module WaitlistController {

  import opened Wrappers
  import opened Model
  import EmailValidation
  import opened Repository
  import opened Mail
  import opened WaitlistService

  datatype Response = Response(status: nat, body: map<string, string>)

  /** What the handler produces: a response it built itself, or an exception
      that escaped from the service and is left to the framework. */
  datatype HttpOutcome = Responded(response: Response) | Threw(failure: Failure)

  const BadRequest: Response := Response(400, map[
    "Status" := "400",
    "Message" := "Invalid email format. Please provide a valid email address."])

  const Added: Response := Response(200, map[
    "Status" := "200",
    "Message" := "Added to waitlist successfully!"])

  datatype HandleResult = HandleResult(store: Store, entity: Entry, outcome: HttpOutcome)

  /** The handler as a function of the collaborators' state: validate first,
      then call the service once and answer 200 if it returns normally. */
  function Handle(st: Store, e: Entry, now: Timestamp, saveFails: bool, fault: Option<MailFailure>)
    : HandleResult
  {
    if !EmailValidation.IsValidEmail(e.email) then
      HandleResult(st, e, Responded(BadRequest))
    else
      var r := Add(st, e, now, saveFails, fault);
      HandleResult(r.store, r.entity, if r.thrown.None? then Responded(Added) else Threw(r.thrown.value))
  }

  /** A malformed or missing address gets 400 and the service is not called:
      rows, counter, outbox and entity are unchanged. */
  lemma HandleInvalid(
    st: Store, e: Entry, now: Timestamp, saveFails: bool, fault: Option<MailFailure>)
    requires !EmailValidation.IsValidEmail(e.email)
    ensures var h := Handle(st, e, now, saveFails, fault);
      && h == HandleResult(st, e, Responded(BadRequest))
      && h.outcome.response.status == 400
      && h.outcome.response.body["Message"] == "Invalid email format. Please provide a valid email address."
  {
  }

  /** A well-formed address runs the workflow exactly once: the state is the
      service's, and the answer is 200 exactly when the service returned. */
  lemma HandleValid(
    st: Store, e: Entry, now: Timestamp, saveFails: bool, fault: Option<MailFailure>)
    requires EmailValidation.IsValidEmail(e.email)
    ensures var h := Handle(st, e, now, saveFails, fault);
      var r := Add(st, e, now, saveFails, fault);
      && h.store == r.store && h.entity == r.entity
      && (h.outcome == Responded(Added) <==> r.thrown.None?)
      && (r.thrown.Some? ==> h.outcome == Threw(r.thrown.value))
  {
  }

  /** The handler's own answers are 400 and 200 only; the service's
      `IllegalArgumentException` cannot reach it, because the handler
      checks the address first, and the caught kind never escapes. A
      persistence failure escapes with nothing stored or sent; a mail
      failure escapes only after the row is stored. */
  lemma HandleOutcomes(
    st: Store, e: Entry, now: Timestamp, saveFails: bool, fault: Option<MailFailure>)
    ensures var h := Handle(st, e, now, saveFails, fault);
      && (h.outcome.Responded? ==> h.outcome.response in {BadRequest, Added})
      && (h.outcome.Responded? ==> h.outcome.response.status in {200, 400})
      && (h.outcome.Threw? ==> h.outcome.failure != IllegalArgumentException
                               && h.outcome.failure != MessagingException
                               && EmailValidation.IsValidEmail(e.email))
      && (h.outcome == Threw(DataAccessException) <==>
            EmailValidation.IsValidEmail(e.email) && saveFails)
      && (h.outcome == Threw(DataAccessException) ==> h.store == st)
      && (h.outcome == Threw(RuntimeException) ==> |h.store.rows| == |st.rows| + 1)
  {
  }

  /** There is no conflict answer: the same address sent twice is answered
      200 both times, and both submissions are stored. */
  lemma RepeatedEmailAccepted(
    st: Store, e1: Entry, e2: Entry, t1: Timestamp, t2: Timestamp)
    requires EmailValidation.IsValidEmail(e1.email) && e2.email == e1.email
    ensures var h1 := Handle(st, e1, t1, false, None);
      var h2 := Handle(h1.store, e2, t2, false, None);
      && h1.outcome == Responded(Added) && h2.outcome == Responded(Added)
      && |h2.store.rows| == |st.rows| + 2
      && h2.store.rows[|st.rows|].email == e1.email
      && h2.store.rows[|st.rows| + 1].email == e1.email
      && h2.store.rows[|st.rows|].id != h2.store.rows[|st.rows| + 1].id
  {
  }

  /** With the real mail client a failed exchange surfaces as an escaping
      `RuntimeException` after the row is stored; otherwise the answer is 200. */
  lemma HandleWithRealClient(st: Store, e: Entry, now: Timestamp, exchangeFailed: bool)
    requires EmailValidation.IsValidEmail(e.email)
    ensures var h := Handle(st, e, now, false, ResendFault(exchangeFailed));
      && h.outcome == (if exchangeFailed then Threw(RuntimeException) else Responded(Added))
      && |h.store.rows| == |st.rows| + 1
  {
  }

  class WaitlistController {
    const waitlistService: WaitlistServiceImpl

    constructor (waitlistService: WaitlistServiceImpl)
      ensures this.waitlistService == waitlistService
    {
      this.waitlistService := waitlistService;
    }

    /** `addToWaitlist`: the request body bound to `waitlist`, the clock at
        `now`, `saveFails` whether the store refuses the insert, and `fault`
        what the mail client raises. */
    method AddToWaitlist(waitlist: Waitlist, now: Timestamp, saveFails: bool, fault: Option<MailFailure>)
      returns (outcome: HttpOutcome)
      requires waitlistService.Valid()
      modifies waitlist, waitlistService.repository, waitlistService.emailService
      ensures waitlistService.Valid()
      ensures var h := Handle(old(waitlistService.State()), old(waitlist.Row()), now, saveFails, fault);
        waitlistService.State() == h.store && waitlist.Row() == h.entity && outcome == h.outcome
    {
      var valid := waitlistService.IsValidEmail(waitlist.email);
      if !valid {
        return Responded(BadRequest);
      }
      var thrown := waitlistService.AddToWaitlist(waitlist, now, saveFails, fault);
      if thrown.Some? {
        return Threw(thrown.value);
      }
      outcome := Responded(Added);
    }
  }
}
