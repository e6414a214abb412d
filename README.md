# Waitlist signup: a verified model of the add-to-waitlist path

This project models the core of a small waitlist-signup backend: the email
check, the add-to-waitlist workflow (validate, stamp the join date, save,
send a confirmation email) and the HTTP decision of the `POST
/api/waitlist/add` endpoint. The model is in Dafny and everything in it is
proved by the verifier.

Layout, one module per part of the program:

- `Wrappers.dfy` — `Option`, standing for Java's nullable references.
- `Model.dfy` — the `Waitlist` entity as a class whose fields the service
  updates in place, its value `Entry` (what a repository row holds), the
  exception kinds, and `MailFailure` (what the mail step can raise).
- `EmailValidation.dfy` — the pattern `^[A-Za-z0-9+_.-]+@[A-Za-z0-9.-]+$`
  as a declarative predicate (`Matches`: some index `i` holds the `@`, with
  a non-empty local part before it and a non-empty domain after it, each
  from its class), a scanning method proved equal to it, and what the
  pattern means (exactly one `@`; no normalisation).
- `Collaborators.dfy` — module `Repository`: the repository as a growing
  sequence of rows and an identity counter; module `Mail`: the mail client
  as an outbox of `(to, subject, html)` records and a fault parameter, and
  `ResendFault`, what the real mail client lets escape.
- `WaitlistService.dfy` — `Add`, the workflow as a function of the state,
  the confirmation body, the lemmas about both, and the class
  `WaitlistServiceImpl` whose methods run the workflow step by step over
  the collaborator objects and are proved equal to `Add`.
- `WaitlistController.dfy` — `Handle`, the endpoint as a function, its
  lemmas, and the class `WaitlistController` proved equal to it.

The clock is a parameter (`now`), and so are the two collaborator
failures: whether the repository refuses the insert (`saveFails`, which
raises an unchecked `DataAccessException`), and the exception the mail
client raises (`fault`: none, the checked `MessagingException`, or an
unchecked exception). The confirmation body is two copies of one HTML
document: the first keeps the literal `{{fullName}}` placeholder and the second has the
name spliced in. It is modelled as `lead + "{{fullName}}" + middle + name +
tail`, where lead, middle and tail are abbreviated constant strings. A
`null` name is rendered as `null`, as Java's string concatenation does.

How failures travel through the code:

- Persistence failures are not caught. An exception from `save`
  (service/WaitlistServiceImpl.java:36) leaves `addToWaitlist` with the
  join date stamped on the entity, no row stored and no mail sent.
- Mail failures are not swallowed. The workflow catches only
  `MessagingException` (service/WaitlistServiceImpl.java:359), and the real
  client wraps every failure in a `RuntimeException`
  (service/EmailService.java:49-52). So a failed send escapes from
  `addToWaitlist` after the row is saved, and the endpoint builds no
  response (controller/WaitlistController.java:41).
- `jakarta.mail.MessagingException` is a checked exception, and
  `sendHtmlEmail` (service/EmailService.java:31) declares none. Java refuses
  a `catch` of a checked exception that its `try` block cannot throw
  (section 11.2.3 of the Java Language Specification). By that rule, the
  `try`/`catch` at service/WaitlistServiceImpl.java:357-361 does not
  compile against that client. The model keeps the branch for an
  abstract mail client. `RealClientFailureEscapes` and
  `HandleWithRealClient` prove that the real client's failures never take it.
- There is no record-sync step in the code: the workflow is validate,
  stamp, save, send.

## Model

| member | source | states |
|---|---|---|
| EmailValidation.MatchesPattern | src/main/java/com/tride/tridewaitlist/service/WaitlistServiceImpl.java:23 | one left-to-right scan accepts a string exactly when the whole string matches the email pattern (the declarative split predicate) |
| WaitlistService.WaitlistServiceImpl.IsValidEmail | src/main/java/com/tride/tridewaitlist/service/WaitlistServiceImpl.java:40-42 | null is rejected; any other string is accepted exactly when the whole of it matches the pattern |
| EmailValidation.MatchesIffExactlyOneAt | src/main/java/com/tride/tridewaitlist/service/WaitlistServiceImpl.java:23 | a string matches iff it has exactly one `@`, that `@` is neither first nor last, every character before it is in `[A-Za-z0-9+_.-]` and every one after it in `[A-Za-z0-9.-]` (both directions) |
| EmailValidation.MatchHasOneAt | src/main/java/com/tride/tridewaitlist/service/WaitlistServiceImpl.java:23 | in a match, the split point is the first `@` and the string holds no other `@` |
| EmailValidation.SplitIsUnique | src/main/java/com/tride/tridewaitlist/service/WaitlistServiceImpl.java:23 | neither class contains `@`, so a string can match at only one split index |
| EmailValidation.RejectsNullAndEmpty | src/main/java/com/tride/tridewaitlist/service/WaitlistServiceImpl.java:40-42 | null and the empty string are rejected, because both `+` quantifiers need a character |
| EmailValidation.RejectsForeignChar | src/main/java/com/tride/tridewaitlist/service/WaitlistServiceImpl.java:23 | no trimming or normalisation: any character outside both classes and other than `@` (a space, a tab, a leading or trailing blank) rejects the string |
| EmailValidation.RejectsPlusOrUnderscoreInDomain | src/main/java/com/tride/tridewaitlist/service/WaitlistServiceImpl.java:23 | `+` and `_` are allowed only before the `@`: one after an `@` rejects the string |
| EmailValidation.AcceptsShortAddress | src/main/java/com/tride/tridewaitlist/service/WaitlistServiceImpl.java:23 | the pattern is permissive: `a@b`, with no dot in the domain, is accepted |
| Model.Waitlist.SetJoinDate | src/main/java/com/tride/tridewaitlist/model/Waitlist.java:29-31 | the entity's join date becomes the given instant and its other fields are unchanged |
| Repository.SaveKeepsIdsFresh | src/main/java/com/tride/tridewaitlist/model/Waitlist.java:16-18 | giving each new row the identity counter's value keeps every stored id below the counter and no two ids equal |
| Repository.WaitlistRepository.Save | src/main/java/com/tride/tridewaitlist/service/WaitlistServiceImpl.java:36 | save assigns the next id to the entity itself, appends exactly that row and nothing else, and keeps ids fresh; a refused insert raises `DataAccessException` and changes neither the rows, the counter nor the entity |
| Mail.MailClient.SendHtmlEmail | src/main/java/com/tride/tridewaitlist/service/EmailService.java:31-52 | a delivered message is appended to the outbox as `(to, subject, html)`; a raised exception leaves the outbox unchanged and reaches the caller |
| WaitlistService.ConfirmationBodyMentions | src/main/java/com/tride/tridewaitlist/service/WaitlistServiceImpl.java:46-355 | the first copy's greeting holds the literal `{{fullName}}` placeholder and the second copy's greeting, further on, holds the signer's name (or `null` for a null name) |
| WaitlistService.AddInvalidChangesNothing | src/main/java/com/tride/tridewaitlist/service/WaitlistServiceImpl.java:32-34 | an invalid email throws `IllegalArgumentException` before any change: rows, counter, outbox and the entity's join date are all as before |
| WaitlistService.AddSaveFailure | src/main/java/com/tride/tridewaitlist/service/WaitlistServiceImpl.java:35-37 | when `save` throws, the exception escapes `addToWaitlist` with the join date stamped on the entity, no row stored and no mail sent |
| WaitlistService.AddValidSaves | src/main/java/com/tride/tridewaitlist/service/WaitlistServiceImpl.java:35-36 | for a valid email and a successful save, whatever the mail step does afterwards, the join date is the clock value and exactly one row is appended with the same name and email; earlier rows are unchanged |
| WaitlistService.AddDelivered | src/main/java/com/tride/tridewaitlist/service/WaitlistServiceImpl.java:44-358 | a delivered confirmation returns normally and appends exactly one message, to the entity's email, with subject `Welcome to Our Waitlist!` and a body containing the name and the literal placeholder |
| WaitlistService.AddSendFailure | src/main/java/com/tride/tridewaitlist/service/WaitlistServiceImpl.java:357-361 | a failed send adds no message and does not undo the saved row; only `MessagingException` is swallowed, and any other exception escapes unchanged |
| WaitlistService.RealClientFailureEscapes | src/main/java/com/tride/tridewaitlist/service/EmailService.java:46-52 | with the real mail client, a failed exchange always escapes `addToWaitlist` as a `RuntimeException` after the row is saved; nothing is swallowed |
| WaitlistService.AddKeepsIdsFresh | src/main/java/com/tride/tridewaitlist/service/WaitlistServiceImpl.java:36 | the workflow keeps every stored id below the counter and no two ids equal |
| WaitlistService.AddTwiceStoresTwo | src/main/java/com/tride/tridewaitlist/service/WaitlistServiceImpl.java:31-38 | nothing is deduplicated: adding the same email twice keeps the earlier rows and appends two rows with that email and different ids |
| WaitlistService.WaitlistServiceImpl.AddToWaitlist | src/main/java/com/tride/tridewaitlist/service/WaitlistServiceImpl.java:31-38 | running validate, stamp, save and send over the objects, stopping at the first exception, yields the state, entity fields and escaping exception that `Add` gives, and keeps the repository valid |
| WaitlistService.WaitlistServiceImpl.SendWaitlistConfirmationEmail | src/main/java/com/tride/tridewaitlist/service/WaitlistServiceImpl.java:44-362 | rendering and sending changes only the outbox, as the mail step's specification says, and drops a `MessagingException` |
| WaitlistController.HandleInvalid | src/main/java/com/tride/tridewaitlist/controller/WaitlistController.java:35-39 | an invalid or null email gets status 400 with the fixed invalid-format message, and the service is not called: state and entity are unchanged |
| WaitlistController.HandleValid | src/main/java/com/tride/tridewaitlist/controller/WaitlistController.java:41-44 | a valid email runs the workflow once; the answer is 200 exactly when the workflow returns normally, and otherwise its exception escapes with no response |
| WaitlistController.HandleOutcomes | src/main/java/com/tride/tridewaitlist/controller/WaitlistController.java:35-44 | the endpoint itself answers only 400 or 200 with their fixed bodies; an escaping exception is never the service's `IllegalArgumentException` nor the swallowed kind; a persistence failure escapes exactly when the email is valid and the insert is refused, with nothing stored; an escaping mail failure comes only after a row is saved |
| WaitlistController.RepeatedEmailAccepted | src/main/java/com/tride/tridewaitlist/controller/WaitlistController.java:28-45 | with the conflict check commented out, the same email sent twice gets 200 both times and is stored twice under different ids |
| WaitlistController.HandleWithRealClient | src/main/java/com/tride/tridewaitlist/controller/WaitlistController.java:41-44 | with the real mail client, a failed exchange gives an escaping `RuntimeException` after the row is stored; otherwise the answer is 200 |
| WaitlistController.WaitlistController.AddToWaitlist | src/main/java/com/tride/tridewaitlist/controller/WaitlistController.java:27-45 | the handler's effect on the objects and its outcome are those of `Handle` |

## Left out

- The HTTP exchange with the mail API (URL, bearer key, sender address, JSON body, logging) in service/EmailService.java is I/O. Only its observable contract is kept: append to the outbox, or raise.
- Console output: the only effect of the `MessagingException` handler is `System.out.println()` (service/WaitlistServiceImpl.java:360), which the model drops with the rest of the logging.
- Repository.WaitlistRepository.Save: a persistence failure is one kind, `DataAccessException`, raised before anything is written; a store that fails after a partial write is not modelled.
- The keep-alive ping in TrideApplication.java is scheduled, asynchronous network I/O.
- `emailExists` (service/WaitlistServiceImpl.java:26-28) calls a repository query that is commented out at repository/WaitlistRepository.java:9. It has no behaviour to model, and the endpoint's use of it is commented out too.
- `LocalDateTime.now()` is replaced by the `now` parameter. The JSON date format on the join date is not modelled.
- The HTML and CSS of the confirmation template are abbreviated to three constant strings. Only where the placeholder and the name sit is kept.
- Repository.WaitlistRepository.Save: always assigns a fresh identifier. A request body that carries its own `id` would make the framework merge instead of insert, and that case is not modelled.
- Mail.MailClient.SendHtmlEmail: a delivery fails or succeeds as a whole. A message accepted by the mail API whose response then fails is not modelled.
- Model.Waitlist: the stored row is a copy of the entity's fields when it is saved. Later changes to the same object are not reflected in the row, and `addToWaitlist` (service/WaitlistServiceImpl.java:36-37) makes none after `save`: it only reads the email and name to send the confirmation.
- The framework's mapping of an escaping exception to a server error is outside the program and is left as `Threw`.
- No record-sync step is modelled, because none exists in the code.
