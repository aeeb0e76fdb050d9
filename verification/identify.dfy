/** The `/identify` handler as a pure state transition: given the store, the
    request and the set of store calls that fail, it returns the new store
    and the response body.

    The handler looks up a primary contact (by email or phone when the email
    is truthy, by phone when only the phone is truthy, not at all otherwise),
    creates a primary holding the request's fields when none was found, and
    answers with that primary's id, the ids of its secondaries, and the
    de-duplicated non-empty emails and phone numbers of the primary followed
    by those of the request. It never creates secondaries and never merges
    or demotes primaries.
 */
module Identify {
  import opened Optional
  import opened Lists
  import opened ContactStore

  datatype IdentifyRequest = IdentifyRequest(email: Option<string>, phoneNumber: Option<string>)

  datatype ContactView = ContactView(
    primaryContactId: int,
    emails: seq<string>,
    phoneNumbers: seq<string>,
    secondaryContactIds: seq<int>)

  datatype IdentifyResponse = IdentifyResponse(contact: ContactView, error: Option<string>)

  /** The store calls the handler can make; any of them can throw. */
  datatype StoreCall = FindPrimary | Create | FindSecondaries

  datatype Outcome = Outcome(store: Store, response: IdentifyResponse)

  const ServerErrorMessage: string := "Internal server error"

  /** The body sent with status 500 whenever a store call throws. */
  const ServerErrorResponse: IdentifyResponse :=
    IdentifyResponse(ContactView(0, [], [], []), Some(ServerErrorMessage))

  /** Which `findFirst` filter the request leads to, if any. */
  function LookupFilter(req: IdentifyRequest): Option<Filter> {
    if Truthy(req.email) then Some(EmailOrPhone(req.email.value, req.phoneNumber))
    else if Truthy(req.phoneNumber) then Some(PhoneOnly(req.phoneNumber.value))
    else None
  }

  /** Reference statement of the rows the lookup may return, in terms of the
      request's fields only. */
  predicate Wanted(c: Contact, req: IdentifyRequest) {
    && c.linkPrecedence == Primary
    && if Truthy(req.email) then
         c.email == req.email || (req.phoneNumber.Some? && c.phoneNumber == req.phoneNumber)
       else
         Truthy(req.phoneNumber) && c.phoneNumber == req.phoneNumber
  }

  /** The primary lookup: some wanted row, or none exactly when no row is
      wanted (in particular, always none for a request with neither a truthy
      email nor a truthy phone). */
  function Lookup(s: Store, req: IdentifyRequest): (r: Option<Contact>)
    ensures r.Some? ==> r.value in s.contacts && Wanted(r.value, req)
    ensures r.None? <==> forall c :: c in s.contacts ==> !Wanted(c, req)
  {
    match LookupFilter(req)
    case None => None
    case Some(f) =>
      assert forall c :: IsPrimaryMatch(c, f) <==> Wanted(c, req);
      FindFirstPrimary(s.contacts, f)
  }

  /** Lookup, then create-if-absent: the store and the primary the response
      is built around. A found primary leaves the store untouched; otherwise
      exactly one primary holding the request's fields is appended. */
  function Resolve(s: Store, req: IdentifyRequest): (r: (Store, Contact))
    ensures r.1 in r.0.contacts && r.1.linkPrecedence == Primary
    ensures (exists c :: c in s.contacts && Wanted(c, req)) ==> r.0 == s && Wanted(r.1, req)
    ensures (forall c :: c in s.contacts ==> !Wanted(c, req)) ==>
              && r.0.contacts == s.contacts + [r.1]
              && r.1.email == req.email && r.1.phoneNumber == req.phoneNumber
              && r.1.linkedId == None
    ensures Valid(s) ==> Valid(r.0) && r.1.id >= 1
    ensures Valid(s) && r.0 != s ==> forall c :: c in s.contacts ==> c.id != r.1.id
  {
    match Lookup(s, req)
    case Some(p) => (s, p)
    case None => CreatePrimary(s, req.email, req.phoneNumber)
  }

  /** One of the response's value lists: the primary's value, then the
      requested value when it is truthy, without falsy entries or repeats. */
  function UniqueValues(own: Option<string>, requested: Option<string>): (r: seq<string>)
    ensures NoDuplicates(r) && |r| <= 2
    ensures forall x :: x in r ==> x != ""
    ensures Truthy(own) ==> |r| > 0 && r[0] == own.value
    ensures Truthy(requested) ==> requested.value in r
    ensures forall x :: x in r ==> (Truthy(own) && x == own.value) || (Truthy(requested) && x == requested.value)
  {
    Dedup(Compact([own] + (if Truthy(requested) then [requested] else [])))
  }

  /** The success body for primary `p` over the final rows. */
  function Assemble(contacts: seq<Contact>, p: Contact, req: IdentifyRequest): (v: ContactView)
    ensures v.primaryContactId == p.id
    ensures forall id :: id in v.secondaryContactIds <==>
              exists c :: c in contacts && IsSecondaryOf(c, p.id) && c.id == id
    ensures NoDuplicates(v.emails) && |v.emails| <= 2 && forall e :: e in v.emails ==> e != ""
    ensures NoDuplicates(v.phoneNumbers) && |v.phoneNumbers| <= 2 && forall n :: n in v.phoneNumbers ==> n != ""
    ensures Truthy(p.email) ==> |v.emails| > 0 && v.emails[0] == p.email.value
    ensures Truthy(p.phoneNumber) ==> |v.phoneNumbers| > 0 && v.phoneNumbers[0] == p.phoneNumber.value
    ensures Truthy(req.email) ==> req.email.value in v.emails
    ensures Truthy(req.phoneNumber) ==> req.phoneNumber.value in v.phoneNumbers
    ensures forall e :: e in v.emails ==>
              (Truthy(p.email) && e == p.email.value) || (Truthy(req.email) && e == req.email.value)
    ensures forall n :: n in v.phoneNumbers ==>
              (Truthy(p.phoneNumber) && n == p.phoneNumber.value) || (Truthy(req.phoneNumber) && n == req.phoneNumber.value)
  {
    ContactView(
      p.id,
      UniqueValues(p.email, req.email),
      UniqueValues(p.phoneNumber, req.phoneNumber),
      SecondaryIds(contacts, p.id))
  }

  /** True when the lookup or the create throws, i.e. before anything is
      written. */
  predicate FailsBeforeWrite(s: Store, req: IdentifyRequest, faults: set<StoreCall>) {
    || (LookupFilter(req).Some? && FindPrimary in faults)
    || (Lookup(s, req).None? && Create in faults)
  }

  /** The handler. Each store call it makes throws exactly when it is in
      `faults`; a throw yields the zeroed error body and keeps whatever was
      already written, since the calls do not share a transaction. */
  function Handle(s: Store, req: IdentifyRequest, faults: set<StoreCall>): (r: Outcome)
    ensures r.response.error.Some? ==>
              r.response.error == Some("Internal server error") &&
              r.response.contact == ContactView(0, [], [], [])
    ensures r.response.error.Some? <==>
              || ((Truthy(req.email) || Truthy(req.phoneNumber)) && FindPrimary in faults)
              || (Lookup(s, req).None? && Create in faults)
              || FindSecondaries in faults
    ensures r.response.error.None? ==>
              r.store == Resolve(s, req).0 &&
              r.response.contact.primaryContactId == Resolve(s, req).1.id &&
              r.response.contact == Assemble(r.store.contacts, Resolve(s, req).1, req)
    ensures r.store == s || r.store == Resolve(s, req).0
    ensures Valid(s) ==> Valid(r.store)
    ensures Valid(s) && r.response.error.None? ==> r.response.contact.primaryContactId >= 1
  {
    if FailsBeforeWrite(s, req, faults) then Outcome(s, ServerErrorResponse)
    else
      var (s', p) := Resolve(s, req);
      if FindSecondaries in faults then Outcome(s', ServerErrorResponse)
      else Outcome(s', IdentifyResponse(Assemble(s'.contacts, p, req), None))
  }
}
