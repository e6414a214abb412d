/** The waitlist entity (model/Waitlist.java) and the exceptions that cross
    the service boundary. */
module Model {

  import opened Wrappers

  /** `LocalDateTime`, taken as an opaque instant supplied by the clock. */
  type Timestamp = int

  /** The entity's four fields as one value: what the repository stores. */
  datatype Entry = Entry(
    id: Option<nat>,
    fullName: Option<string>,
    email: Option<string>,
    joinDate: Option<Timestamp>)

  /** The exception kinds that matter to the workflow: the service's own
      rejection, the repository's unchecked persistence failure, the kind its
      mail step catches, and the unchecked kind the mail client really throws. */
  datatype Failure =
    | IllegalArgumentException
    | DataAccessException
    | MessagingException
    | RuntimeException

  /** What the mail step can raise: the checked `MessagingException`, or an
      unchecked exception, which `RuntimeException` stands for. */
  type MailFailure = f: Failure | f == MessagingException || f == RuntimeException
    witness RuntimeException

  /** The entity object: the request body is bound to one, the service
      stamps its join date in place, and saving assigns its identifier. */
  class Waitlist {
    var id: Option<nat>
    var fullName: Option<string>
    var email: Option<string>
    var joinDate: Option<Timestamp>

    /** The object's current field values. */
    function Row(): Entry
      reads this
    {
      Entry(id, fullName, email, joinDate)
    }

    /** Binds a request body: every field as the client sent it. */
    constructor (body: Entry)
      ensures Row() == body
    {
      id, fullName, email, joinDate := body.id, body.fullName, body.email, body.joinDate;
    }

    method SetJoinDate(t: Timestamp)
      modifies this
      ensures Row() == old(Row()).(joinDate := Some(t))
    {
      joinDate := Some(t);
    }

    method SetId(n: nat)
      modifies this
      ensures Row() == old(Row()).(id := Some(n))
    {
      id := Some(n);
    }
  }
}
