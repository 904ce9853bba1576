/**
 * The Express server's copy of the admission handler: the same steps as the
 * serverless function with a flat 30-day estimate, a process-wide cached
 * database handle, and a confirmation email requested after a successful
 * insert and never awaited.
 */
module Server {
  import opened Common
  import opened Validation
  import opened Records
  import opened Admission
  import opened Store

  /** A confirmation message: recipient, displayed handle and position. */
  datatype Mail = Mail(to: string, username: string, position: nat)

  class ExpressApp {
    /** The cached db and client of connectToDatabase; a handle is an opaque number. */
    var db: Option<nat>
    var client: Option<nat>
    /** Whether creating the Nodemailer transporter succeeded at start-up. */
    const transporterConfigured: bool
    /** How many times MongoClient.connect was called. */
    ghost var connectAttempts: nat
    /** The calls of sendConfirmationEmail, in order. */
    ghost var mailRequests: seq<Mail>
    /** The messages handed to transporter.sendMail, in order; whether delivery succeeds is not modelled. */
    ghost var mailHandedOver: seq<Mail>

    constructor (transporterConfigured: bool)
      ensures this.transporterConfigured == transporterConfigured
      ensures db.None? && client.None? && connectAttempts == 0
      ensures mailRequests == [] && mailHandedOver == []
    {
      this.transporterConfigured := transporterConfigured;
      db, client := None, None;
      connectAttempts := 0;
      mailRequests, mailHandedOver := [], [];
    }

    /**
     * connectToDatabase: a cached handle is returned without reconnecting.
     * Otherwise one connection is attempted; reachable says whether it
     * succeeds and handle is what it yields. None stands for the thrown error.
     */
    method ConnectToDatabase(reachable: bool, handle: nat) returns (r: Option<nat>)
      modifies this`db, this`client, this`connectAttempts
      ensures old(db).Some? ==>
        r == old(db) && db == old(db) && client == old(client) && connectAttempts == old(connectAttempts)
      ensures old(db).None? ==> connectAttempts == old(connectAttempts) + 1
      ensures old(db).None? && reachable ==> r == Some(handle) && db == r && client == Some(handle)
      ensures old(db).None? && !reachable ==> r.None? && db.None? && client == old(client)
      ensures r.Some? <==> old(db).Some? || reachable
    {
      if db.Some? {
        return db;
      }
      connectAttempts := connectAttempts + 1;
      if !reachable {
        return None;
      }
      client := Some(handle);
      db := Some(handle);
      r := db;
    }

    /** sendConfirmationEmail: without a transporter it returns without sending. */
    method SendConfirmationEmail(toEmail: string, username: string, position: nat)
      modifies this`mailRequests, this`mailHandedOver
      ensures mailRequests == old(mailRequests) + [Mail(toEmail, username, position)]
      ensures mailHandedOver ==
        if transporterConfigured then old(mailHandedOver) + [Mail(toEmail, username, position)]
        else old(mailHandedOver)
    {
      mailRequests := mailRequests + [Mail(toEmail, username, position)];
      if !transporterConfigured {
        return;
      }
      mailHandedOver := mailHandedOver + [Mail(toEmail, username, position)];
    }

    /**
     * app.post('/api/waitlist'). The response is that of the admission
     * protocol with the 30-day estimate; it is fixed before, and independent
     * of, the confirmation email, which is requested only after an insert.
     */
    method PostWaitlist(store: Waitlist, email: Option<string>, username: Option<string>,
                        referer: Option<string>, now: int, reachable: bool, handle: nat)
      returns (resp: Response)
      requires store.Valid()
      modifies this, store
      ensures store.Valid()
      ensures AdmitResult(resp, store.entries)
        == Admit(old(store.entries), old(store.nextId), email, username, referer, now, ExpressServer,
                 old(db).Some? || reachable)
      ensures resp.code == 200 ==>
        && email.Some? && username.Some? && resp.body.Joined?
        && mailRequests == old(mailRequests) + [Mail(email.value, username.value, resp.body.data.position)]
      ensures resp.code == 200 ==>
        mailHandedOver == if transporterConfigured
          then old(mailHandedOver) + [Mail(email.value, username.value, resp.body.data.position)]
          else old(mailHandedOver)
      ensures resp.code != 200 ==> mailRequests == old(mailRequests) && mailHandedOver == old(mailHandedOver)
      ensures store.nextId == if resp.code == 200 then old(store.nextId) + 1 else old(store.nextId)
      ensures Validate(email, username).Some? ==>
        db == old(db) && client == old(client) && connectAttempts == old(connectAttempts)
      ensures Validate(email, username).None? ==>
        && connectAttempts == (if old(db).Some? then old(connectAttempts) else old(connectAttempts) + 1)
        && db == (if old(db).Some? then old(db) else if reachable then Some(handle) else None)
        && client == (if old(db).None? && reachable then Some(handle) else old(client))
    {
      var rejection := Validate(email, username);
      if rejection.Some? {
        return rejection.value;
      }
      var twitterHandle := StripAt(username.value);
      StripAtIsIdentityOnValid(username.value);
      var database := ConnectToDatabase(reachable, handle);
      if database.None? {
        return JoinFailedResponse;
      }
      resp := store.InsertIfNew(email.value, twitterHandle, referer, now, ExpressServer);
      if resp.code == 200 {
        SendConfirmationEmail(email.value, twitterHandle, |store.entries|);
      }
    }
  }
}
