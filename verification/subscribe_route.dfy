/** The `POST /api/subscribe` handler of ledgerly/app/api/subscribe/route.ts.

    The handler runs over one `DataStore`.  The outcomes of everything it
    asks of the outside world (the store's reads and write, the mail
    transport, the clock) are fixed in advance by a `World` value.
 */
module SubscribeRoute {
  import opened Storage
  import opened EmailSyntax

  /** What `await request.json()` and `const { email } = ...` produce. */
  datatype Request =
    | Unparseable                  // the body is not JSON, or destructuring it throws
    | Body(email: Option<string>)  // `email` is absent or null: None

  /** The JSON object sent back. */
  datatype Payload =
    | Success                      // { success: true }
    | Message(message: string)     // { message: ... }
    | Error(error: string)         // { error: ... }

  datatype Response = Response(status: int, payload: Payload)

  const Subscribed := Response(200, Success)
  const AlreadySubscribed := Response(200, Message("You are already subscribed!"))
  const InvalidEmail := Response(400, Error("Invalid email address."))
  const SaveFailed := Response(500, Error("Failed to save subscription."))
  const InternalError := Response(500, Error("Internal server error."))

  /** The envelope of the welcome mail (its HTML body is not modelled). */
  datatype Mail = Mail(from: string, to: string, subject: string)

  function WelcomeMail(email: string): (m: Mail) {
    Mail("\"Ledgerly Team\" <ledgerlysass@gmail.com>", email, "Welcome to Ledgerly Early Access")
  }

  /** The outcomes of the handler's calls to the outside world. */
  datatype World = World(
    existsRead: bool,      // the file read inside `DataStore.exists`
    addRead: bool,         // the file read inside `DataStore.addSubscriber`
    write: bool,           // the file write inside `DataStore.addSubscriber`
    mailDelivered: bool,   // whether `transporter.sendMail` resolves; never read, on purpose:
                           // route.ts only logs the transport's outcome
    signupDate: string,    // the first `new Date().toISOString()`
    lastEmailedAt: string) // the second one

  /** The guard of the validation step, negated: `email` is present,
      non-empty and matches the pattern. */
  predicate AcceptsEmail(email: Option<string>) {
    email.Some? && email.value != "" && IsValidEmail(email.value)
  }

  /** The `newSubscriber` literal. */
  function NewSubscriber(email: string, w: World): (s: Subscriber) {
    Subscriber(email, w.signupDate, "marketing-site", true, false, true, Some(w.lastEmailedAt))
  }

  /** `POST`: validate, look for a duplicate, store, mail, answer.  `mail`
      is the welcome message attempted, if any. */
  method Post(store: DataStore, req: Request, w: World) returns (resp: Response, mail: Option<Mail>)
    requires store.Valid()
    modifies store
    ensures store.Valid()
    // the order of the checks, and the five answers
    ensures req.Unparseable? ==> resp == InternalError
    ensures req.Body? && !AcceptsEmail(req.email) ==> resp == InvalidEmail
    ensures req.Body? && AcceptsEmail(req.email) && w.existsRead && HasEmail(old(store.file), req.email.value)
      ==> resp == AlreadySubscribed
    ensures req.Body? && AcceptsEmail(req.email) && !(w.existsRead && HasEmail(old(store.file), req.email.value))
      ==> resp == if w.addRead && w.write && !HasEmail(old(store.file), req.email.value) then Subscribed else SaveFailed
    // a failed save is only ever caused by a storage fault
    ensures resp == SaveFailed ==> !w.existsRead || !w.addRead || !w.write
    // every answer but success leaves the table alone and sends nothing
    ensures resp != Subscribed ==> store.file == old(store.file) && mail == None
    // success stores exactly one record for the email, at the end, and mails it once
    ensures resp == Subscribed ==>
      && req.Body? && req.email.Some?
      && store.file == old(store.file) + [NewSubscriber(req.email.value, w)]
      && CountEmail(store.file, req.email.value) == 1
      && mail == Some(WelcomeMail(req.email.value))
    // the fixed fields of the created record
    ensures resp == Subscribed ==>
      var r := store.file[|store.file| - 1];
      && r.source == "marketing-site" && r.surveySent && !r.surveyCompleted && r.rewardEligible
      && r.signupDate == w.signupDate && r.lastEmailedAt == Some(w.lastEmailedAt)
  {
    if req.Unparseable? {
      return InternalError, None;
    }
    if !AcceptsEmail(req.email) {
      return InvalidEmail, None;
    }
    var email := req.email.value;
    var known := store.Exists(email, w.existsRead);
    if known {
      return AlreadySubscribed, None;
    }
    var subscriber := NewSubscriber(email, w);
    var stored := store.AddSubscriber(subscriber, w.addRead, w.write);
    if !stored {
      return SaveFailed, None;
    }
    AddToFileThenVisible(old(store.file), subscriber, w.addRead, w.write);
    // one delivery attempt; whether `w.mailDelivered` holds or the transport
    // throws, the outcome is only logged and the answer is the same
    return Subscribed, Some(WelcomeMail(email));
  }

  /** The same address posted twice: after a first success the second post
      is never a 400, it is "already subscribed" whenever its duplicate
      check can read the file, and the email stays stored exactly once. */
  method PostTwice(store: DataStore, email: string, w1: World, w2: World) returns (first: Response, second: Response)
    requires store.Valid()
    modifies store
    ensures store.Valid()
    ensures first == Subscribed ==>
      && second != InvalidEmail && second != Subscribed
      && CountEmail(store.file, email) == 1
      && store.file == old(store.file) + [NewSubscriber(email, w1)]
    ensures first == Subscribed && w2.existsRead ==> second == AlreadySubscribed
  {
    var mail1, mail2;
    first, mail1 := Post(store, Body(Some(email)), w1);
    ghost var afterFirst := store.file;
    second, mail2 := Post(store, Body(Some(email)), w2);
    if first == Subscribed {
      CountEmailPositive(afterFirst, email);
    }
  }

  /** The mail transport's outcome never changes the answer or the table:
      the same post against the same table, once with a working transport
      and once with a failing one. */
  method MailOutcomeIgnored(file: seq<Subscriber>, req: Request, w: World)
    returns (delivered: Response, failed: Response, fileDelivered: seq<Subscriber>, fileFailed: seq<Subscriber>)
    requires UniqueEmails(file)
    ensures delivered == failed && fileDelivered == fileFailed
  {
    var a := new DataStore();
    a.file := file;
    var mailA;
    delivered, mailA := Post(a, req, w.(mailDelivered := true));
    var b := new DataStore();
    b.file := file;
    var mailB;
    failed, mailB := Post(b, req, w.(mailDelivered := false));
    fileDelivered, fileFailed := a.file, b.file;
  }

  /** The addresses used by `Scenarios`. */
  lemma SampleAddresses()
    ensures IsValidEmail("a@b.com") && IsValidEmail("c@d.org") && !IsValidEmail("not-an-email")
  {
    AcceptsDottedAddress("a", "b", "com");
    assert "a" + "@" + "b" + "." + "com" == "a@b.com";
    AcceptsDottedAddress("c", "d", "org");
    assert "c" + "@" + "d" + "." + "org" == "c@d.org";
    RejectsWithoutAt("not-an-email");
  }

  /** Four requests against a new table: a first signup, the same signup
      again, a malformed address, and a signup whose write fails. */
  method Scenarios(w: World) returns (r1: Response, r2: Response, r3: Response, r4: Response, rows: seq<Subscriber>)
    ensures r1 == Subscribed && r2 == AlreadySubscribed && r3 == InvalidEmail && r4 == SaveFailed
    ensures var ok := w.(existsRead := true, addRead := true, write := true);
      rows == [NewSubscriber("a@b.com", ok)]
  {
    var ok := w.(existsRead := true, addRead := true, write := true);
    var store := new DataStore();
    SampleAddresses();
    var first, bad, second := "a@b.com", "not-an-email", "c@d.org";
    assert AcceptsEmail(Some(first)) && !AcceptsEmail(Some(bad)) && AcceptsEmail(Some(second));
    var m;
    r1, m := Post(store, Body(Some(first)), ok);
    assert store.file == [NewSubscriber(first, ok)];
    assert HasEmail(store.file, first);
    r2, m := Post(store, Body(Some(first)), ok);
    r3, m := Post(store, Body(Some(bad)), ok);
    assert first != second;
    assert !HasEmail(store.file, second);
    r4, m := Post(store, Body(Some(second)), ok.(write := false));
    rows := store.file;
  }
}
