/** The add-to-waitlist workflow of service/WaitlistServiceImpl.java:
    validate the address, stamp the join date, save, send the confirmation.
    `Add` is the workflow as a function of the collaborators' state; the
    class below runs it step by step over the collaborator objects. */
module WaitlistService {

  import opened Wrappers
  import opened Model
  import EmailValidation
  import opened Repository
  import opened Mail

  /** The state the workflow touches: the repository and the outbox. */
  datatype Store = Store(rows: seq<Entry>, nextId: nat, outbox: seq<Mail>)

  const Subject: string := "Welcome to Our Waitlist!"

  /** The placeholder the first copy of the template never fills in. */
  const Placeholder: string := "{{fullName}}"

  // The confirmation page is two copies of one HTML document written one
  // after the other. Only where text is inserted matters here, so the fixed
  // markup is kept as three abbreviated constants ("..." marks what is left
  // out): the first document up to its greeting, from that greeting through
  // the second document's greeting, and the rest of the second document.
  const TemplateLead: string := "<!DOCTYPE html>\n<html lang=\"en\">\n...Dear "
  const TemplateMiddle: string := ",</p>\n...</html>\n<!DOCTYPE html>\n<html lang=\"en\">\n...Dear "
  const TemplateTail: string := ",</p>\n...</html>\n"

  /** `part` occurs in `text` starting at index `k`. */
  predicate OccursAt(text: string, part: string, k: int) {
    0 <= k <= |text| - |part| && text[k..k + |part|] == part
  }

  /** `part` occurs in `text` as a contiguous block. */
  ghost predicate Contains(text: string, part: string) {
    exists k :: OccursAt(text, part, k)
  }

  /** Java's string concatenation writes a null name as `null`. */
  function NameText(fullName: Option<string>): string {
    if fullName.Some? then fullName.value else "null"
  }

  /** The confirmation body: the first copy keeps the literal placeholder,
      the second has the name spliced into its greeting. */
  function ConfirmationBody(fullName: Option<string>): string {
    TemplateLead + Placeholder + TemplateMiddle + NameText(fullName) + TemplateTail
  }

  /** The body greets the signer by name, and also still shows the
      unfilled placeholder: the first copy's greeting holds the placeholder,
      the second copy's greeting, further on, holds the name. */
  lemma {:induction false} ConfirmationBodyMentions(fullName: Option<string>)
    ensures OccursAt(ConfirmationBody(fullName), Placeholder, |TemplateLead|)
    ensures OccursAt(ConfirmationBody(fullName), NameText(fullName),
                     |TemplateLead + Placeholder + TemplateMiddle|)
    ensures Contains(ConfirmationBody(fullName), NameText(fullName))
    ensures Contains(ConfirmationBody(fullName), Placeholder)
    ensures fullName.None? ==> Contains(ConfirmationBody(fullName), "null")
  {
    var body := ConfirmationBody(fullName);
    var name := NameText(fullName);
    var p := |TemplateLead|;
    var q := |TemplateLead + Placeholder + TemplateMiddle|;
    assert body == TemplateLead + Placeholder + TemplateMiddle + name + TemplateTail;
    assert OccursAt(body, Placeholder, p);
    assert OccursAt(body, name, q);
  }

  /** The result of one call: the new state, the entity object's fields
      afterwards, and the exception that escapes, if any. */
  datatype AddResult = AddResult(store: Store, entity: Entry, thrown: Option<Failure>)

  /** The mail step: send the confirmation; a `MessagingException` is caught
      and dropped, any other failure escapes. */
  function SendConfirmation(st: Store, to: string, fullName: Option<string>, fault: Option<MailFailure>)
    : (Store, Option<Failure>)
  {
    var mail := Mail(to, Subject, ConfirmationBody(fullName));
    if fault.None? then (st.(outbox := st.outbox + [mail]), None)
    else if fault == Some(MessagingException) then (st, None)
    else (st, fault)
  }

  /** `addToWaitlist(e)` at clock value `now`, when the repository refuses
      the insert (`saveFails`) or the mail client raises `fault`. */
  function Add(st: Store, e: Entry, now: Timestamp, saveFails: bool, fault: Option<MailFailure>)
    : AddResult
  {
    if !EmailValidation.IsValidEmail(e.email) then
      AddResult(st, e, Some(IllegalArgumentException))
    else if saveFails then
      AddResult(st, e.(joinDate := Some(now)), Some(DataAccessException))
    else
      var saved := e.(joinDate := Some(now), id := Some(st.nextId));
      var st1 := st.(rows := st.rows + [saved], nextId := st.nextId + 1);
      var (st2, thrown) := SendConfirmation(st1, e.email.value, e.fullName, fault);
      AddResult(st2, saved, thrown)
  }

  /** An invalid address is refused before anything changes: the rows, the
      counter, the outbox and the entity's join date are all as they were. */
  lemma AddInvalidChangesNothing(
    st: Store, e: Entry, now: Timestamp, saveFails: bool, fault: Option<MailFailure>)
    requires !EmailValidation.IsValidEmail(e.email)
    ensures Add(st, e, now, saveFails, fault) == AddResult(st, e, Some(IllegalArgumentException))
  {
  }

  /** A refused insert escapes as `DataAccessException` after the join date
      is stamped on the entity: no row is stored and no mail is sent. */
  lemma AddSaveFailure(st: Store, e: Entry, now: Timestamp, fault: Option<MailFailure>)
    requires EmailValidation.IsValidEmail(e.email)
    ensures var r := Add(st, e, now, true, fault);
      && r.store == st
      && r.entity == e.(joinDate := Some(now))
      && r.thrown == Some(DataAccessException)
  {
  }

  /** A valid address is saved whatever the mail step does afterwards: the
      entity gets the clock value and the next identifier, exactly one row is
      appended with its name and address, earlier rows are untouched. */
  lemma AddValidSaves(st: Store, e: Entry, now: Timestamp, fault: Option<MailFailure>)
    requires EmailValidation.IsValidEmail(e.email)
    ensures var r := Add(st, e, now, false, fault);
      && r.entity.joinDate == Some(now)
      && r.entity.id == Some(st.nextId)
      && r.entity.fullName == e.fullName && r.entity.email == e.email
      && r.store.rows == st.rows + [r.entity]
      && r.store.nextId == st.nextId + 1
  {
  }

  /** A delivered confirmation appends exactly one message: to the entity's
      address, with the fixed subject, greeting the signer by name and still
      carrying the literal placeholder. */
  lemma AddDelivered(st: Store, e: Entry, now: Timestamp)
    requires EmailValidation.IsValidEmail(e.email)
    ensures var r := Add(st, e, now, false, None);
      && r.thrown == None
      && |r.store.outbox| == |st.outbox| + 1
      && r.store.outbox[..|st.outbox|] == st.outbox
      && var m := r.store.outbox[|st.outbox|];
         && m.to == e.email.value && m.subject == "Welcome to Our Waitlist!"
         && Contains(m.html, NameText(e.fullName))
         && Contains(m.html, "{{fullName}}")
  {
    ConfirmationBodyMentions(e.fullName);
    var r := Add(st, e, now, false, None);
    assert r.store.outbox == st.outbox + [Mail(e.email.value, Subject, ConfirmationBody(e.fullName))];
  }

  /** A failed delivery adds nothing to the outbox; only the caught kind is
      swallowed, every other exception escapes after the row is saved. */
  lemma AddSendFailure(st: Store, e: Entry, now: Timestamp, f: MailFailure)
    requires EmailValidation.IsValidEmail(e.email)
    ensures var r := Add(st, e, now, false, Some(f));
      && r.store.outbox == st.outbox
      && |r.store.rows| == |st.rows| + 1
      && (r.thrown == None <==> f == MessagingException)
      && (f != MessagingException ==> r.thrown == Some(f))
  {
  }

  /** With the real mail client nothing is ever swallowed: a failed exchange
      always escapes as a `RuntimeException`, with the row already saved. */
  lemma RealClientFailureEscapes(st: Store, e: Entry, now: Timestamp, exchangeFailed: bool)
    requires EmailValidation.IsValidEmail(e.email)
    ensures var r := Add(st, e, now, false, ResendFault(exchangeFailed));
      && (r.thrown == if exchangeFailed then Some(RuntimeException) else None)
      && |r.store.rows| == |st.rows| + 1
  {
  }

  /** The workflow keeps the repository's identifiers fresh. */
  lemma AddKeepsIdsFresh(
    st: Store, e: Entry, now: Timestamp, saveFails: bool, fault: Option<MailFailure>)
    requires IdsFresh(st.rows, st.nextId)
    ensures var r := Add(st, e, now, saveFails, fault); IdsFresh(r.store.rows, r.store.nextId)
  {
  }

  /** Nothing is deduplicated: adding the same address twice stores two
      rows with that address, under different identifiers. */
  lemma AddTwiceStoresTwo(
    st: Store, e1: Entry, e2: Entry, t1: Timestamp, t2: Timestamp,
    f1: Option<MailFailure>, f2: Option<MailFailure>)
    requires EmailValidation.IsValidEmail(e1.email) && e2.email == e1.email
    ensures var r1 := Add(st, e1, t1, false, f1);
      var r2 := Add(r1.store, e2, t2, false, f2);
      && |r2.store.rows| == |st.rows| + 2
      && r2.store.rows[..|st.rows|] == st.rows
      && r2.store.rows[|st.rows|].email == e1.email
      && r2.store.rows[|st.rows| + 1].email == e1.email
      && r2.store.rows[|st.rows|].id != r2.store.rows[|st.rows| + 1].id
  {
  }

  class WaitlistServiceImpl {
    const repository: WaitlistRepository
    const emailService: MailClient

    constructor (repository: WaitlistRepository, emailService: MailClient)
      ensures this.repository == repository && this.emailService == emailService
    {
      this.repository := repository;
      this.emailService := emailService;
    }

    ghost predicate Valid()
      reads this, repository
    {
      repository.Valid()
    }

    /** The collaborators' state as one value. */
    function State(): Store
      reads this, repository, emailService
    {
      Store(repository.rows, repository.nextId, emailService.outbox)
    }

    /** `isValidEmail`: null is refused, anything else must match the
        pattern as a whole. */
    method IsValidEmail(email: Option<string>) returns (ok: bool)
      ensures ok <==> email.Some? && EmailValidation.Matches(email.value)
    {
      if email.None? {
        return false;
      }
      ok := EmailValidation.MatchesPattern(email.value);
    }

    /** `addToWaitlist`: each step in the order the service takes it, over the objects. */
    method AddToWaitlist(w: Waitlist, now: Timestamp, saveFails: bool, fault: Option<MailFailure>)
      returns (thrown: Option<Failure>)
      requires Valid()
      modifies w, repository, emailService
      ensures Valid()
      ensures var r := Add(old(State()), old(w.Row()), now, saveFails, fault);
        State() == r.store && w.Row() == r.entity && thrown == r.thrown
    {
      var ok := IsValidEmail(w.email);
      if !ok {
        return Some(IllegalArgumentException);
      }
      w.SetJoinDate(now);
      thrown := repository.Save(w, saveFails);
      if thrown.Some? {
        return;
      }
      thrown := SendWaitlistConfirmationEmail(w.email.value, w.fullName, fault);
    }

    /** `sendWaitlistConfirmationEmail`: render, send, drop a
        `MessagingException`. */
    method SendWaitlistConfirmationEmail(email: string, fullName: Option<string>, fault: Option<MailFailure>)
      returns (thrown: Option<Failure>)
      modifies emailService
      ensures (State(), thrown) == SendConfirmation(old(State()), email, fullName, fault)
    {
      var htmlContent := ConfirmationBody(fullName);
      var raised := emailService.SendHtmlEmail(email, Subject, htmlContent, fault);
      if raised == Some(MessagingException) {
        thrown := None;
      } else {
        thrown := raised;
      }
    }
  }
}
