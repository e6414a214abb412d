/** The repository behind the service (repository/WaitlistRepository.java):
    a growing sequence of stored rows and an identity counter. */
module Repository {

  import opened Wrappers
  import opened Model

  /** Every stored row carries an identifier below the counter, and no two
      rows share one. */
  predicate IdsFresh(rows: seq<Entry>, nextId: nat) {
    (forall k :: 0 <= k < |rows| ==> rows[k].id.Some? && rows[k].id.value < nextId)
    && (forall k, m :: 0 <= k < m < |rows| ==> rows[k].id != rows[m].id)
  }

  /** Appending a row stamped with the counter keeps identifiers fresh. */
  lemma SaveKeepsIdsFresh(rows: seq<Entry>, nextId: nat, e: Entry)
    requires IdsFresh(rows, nextId)
    ensures IdsFresh(rows + [e.(id := Some(nextId))], nextId + 1)
  {
  }

  class WaitlistRepository {
    var rows: seq<Entry>
    var nextId: nat

    ghost predicate Valid()
      reads this
    {
      IdsFresh(rows, nextId)
    }

    constructor ()
      ensures Valid() && rows == []
    {
      rows, nextId := [], 0;
    }

    /** `save` of a new entity: the identity column gives it the next
        identifier, written back into the entity, and the row is appended.
        When the store refuses the insert (`fails`), a `DataAccessException`
        escapes and neither the rows, the counter nor the entity change. */
    method Save(w: Waitlist, fails: bool) returns (thrown: Option<Failure>)
      requires Valid()
      modifies this, w
      ensures Valid()
      ensures thrown == if fails then Some(DataAccessException) else None
      ensures fails ==> w.Row() == old(w.Row()) && rows == old(rows) && nextId == old(nextId)
      ensures !fails ==> w.Row() == old(w.Row()).(id := Some(old(nextId)))
      ensures !fails ==> rows == old(rows) + [w.Row()] && nextId == old(nextId) + 1
    {
      if fails {
        return Some(DataAccessException);
      }
      SaveKeepsIdsFresh(rows, nextId, w.Row());
      w.SetId(nextId);
      rows := rows + [w.Row()];
      nextId := nextId + 1;
      thrown := None;
    }
  }
}

/** The mail collaborator: an outbox of accepted messages. The real client
    (service/EmailService.java) posts to an external mail API. */
module Mail {

  import opened Wrappers
  import opened Model

  datatype Mail = Mail(to: string, subject: string, html: string)

  /** What service/EmailService.java lets escape `sendHtmlEmail`: every
      failure of the HTTP exchange is rethrown as a `RuntimeException`. */
  function ResendFault(exchangeFailed: bool): Option<MailFailure> {
    if exchangeFailed then Some(RuntimeException) else None
  }

  class MailClient {
    var outbox: seq<Mail>

    constructor ()
      ensures outbox == []
    {
      outbox := [];
    }

    /** Sends one HTML message. `fault` is the exception the delivery raises,
        if any: a raised exception leaves the outbox as it was and is passed
        on to the caller; otherwise the message is appended. */
    method SendHtmlEmail(to: string, subject: string, html: string, fault: Option<MailFailure>)
      returns (thrown: Option<Failure>)
      modifies this
      ensures thrown == fault
      ensures outbox == if fault.None? then old(outbox) + [Mail(to, subject, html)] else old(outbox)
    {
      thrown := fault;
      if fault.None? {
        outbox := outbox + [Mail(to, subject, html)];
      }
    }
  }
}
