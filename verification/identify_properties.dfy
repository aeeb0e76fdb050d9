/** Properties of the `/identify` handler that relate several calls, or that
    pin down its behaviour on concrete requests: a first request, an email
    seen before with a new phone, an empty request, and failing store calls.
 */
module IdentifyProperties {
  import opened Optional
  import opened Lists
  import opened ContactStore
  import opened Identify

  /** Independent statement of a response value list: the primary's value if
      truthy, then the requested value if truthy and different. */
  function ExpectedValues(own: Option<string>, requested: Option<string>): seq<string> {
    (if Truthy(own) then [own.value] else [])
    + (if Truthy(requested) && !(Truthy(own) && requested.value == own.value) then [requested.value] else [])
  }

  lemma UniqueValuesMatchesExpected(own: Option<string>, requested: Option<string>)
    ensures UniqueValues(own, requested) == ExpectedValues(own, requested)
  {
  }

  /** A request with a truthy email or phone is idempotent: sending it again
      to the store it produced writes nothing and yields the same body. */
  lemma HandleIdempotent(s: Store, req: IdentifyRequest)
    requires Truthy(req.email) || Truthy(req.phoneNumber)
    ensures Handle(Handle(s, req, {}).store, req, {}) == Handle(s, req, {})
  {
  }

  /** A request with neither a truthy email nor a truthy phone is never
      looked up and so always appends a new primary: repeating it is not
      idempotent. */
  lemma EmptyRequestAlwaysCreates(s: Store, req: IdentifyRequest)
    requires !Truthy(req.email) && !Truthy(req.phoneNumber)
    ensures var r := Handle(s, req, {});
      && |r.store.contacts| == |s.contacts| + 1
      && r.store.contacts[|s.contacts|].linkPrecedence == Primary
      && r.store.contacts[|s.contacts|].email == req.email
      && r.store.contacts[|s.contacts|].phoneNumber == req.phoneNumber
      && r.response.contact.primaryContactId == r.store.contacts[|s.contacts|].id
      && r.response.contact.emails == []
      && r.response.contact.phoneNumbers == []
  {
  }

  /** The store calls share no transaction: when the lookup and the create
      (if reached) succeed and the secondary query then throws, the caller
      receives the error body but whatever was resolved stays written; in
      particular a newly created primary is kept. */
  lemma LateFailureKeepsCreatedPrimary(s: Store, req: IdentifyRequest, faults: set<StoreCall>)
    requires !FailsBeforeWrite(s, req, faults) && FindSecondaries in faults
    ensures Handle(s, req, faults) == Outcome(Resolve(s, req).0, ServerErrorResponse)
    ensures Lookup(s, req).None? ==>
              var r := Handle(s, req, faults);
              && |r.store.contacts| == |s.contacts| + 1
              && r.store.contacts[..|s.contacts|] == s.contacts
  {
  }

  /** A store call the handler never reaches cannot throw: with the calls it
      does make all succeeding, faults elsewhere (a `create` after a found
      primary, a lookup of an empty request) change nothing. */
  lemma UnreachedCallsCannotFail(s: Store, req: IdentifyRequest, faults: set<StoreCall>)
    requires !FailsBeforeWrite(s, req, faults) && FindSecondaries !in faults
    ensures Handle(s, req, faults) == Handle(s, req, {})
  {
  }

  /** A throw from the lookup or the create leaves the store as it was. */
  lemma EarlyFailureWritesNothing(s: Store, req: IdentifyRequest, faults: set<StoreCall>)
    requires || ((Truthy(req.email) || Truthy(req.phoneNumber)) && FindPrimary in faults)
             || (Lookup(s, req).None? && Create in faults)
    ensures Handle(s, req, faults) == Outcome(s, ServerErrorResponse)
  {
  }

  /** In a valid store the secondary ids of a successful response are
      distinct. */
  lemma SecondaryIdsReportedOnce(s: Store, req: IdentifyRequest, faults: set<StoreCall>)
    requires Valid(s)
    ensures NoDuplicates(Handle(s, req, faults).response.contact.secondaryContactIds)
  {
    var r := Handle(s, req, faults);
    if r.response.error.None? {
      var (s1, p) := Resolve(s, req);
      assert Valid(s1);
      SecondaryIdsDistinct(s1.contacts, p.id);
    }
  }

  /** First request against an empty table: one primary with id 1 whose
      email and phone make up the whole body. */
  lemma FirstRequestCreatesPrimary()
    ensures var r := Handle(Store([], 1), IdentifyRequest(Some("a@x"), Some("1")), {});
      && r.store.contacts == [Contact(1, Some("a@x"), Some("1"), None, Primary)]
      && r.response == IdentifyResponse(ContactView(1, ["a@x"], ["1"], []), None)
  {
  }

  /** A request whose email matches an existing primary writes nothing: no
      secondary is created, whatever the phone. Each value list is the
      primary's value followed by the request's, when truthy and different;
      in particular a new phone is reported after the primary's own phone. */
  lemma KnownEmailWritesNothing(s: Store, req: IdentifyRequest)
    requires Truthy(req.email)
    requires exists c :: c in s.contacts && c.linkPrecedence == Primary && c.email == req.email
    ensures Handle(s, req, {}).store == s
    ensures var p := Resolve(s, req).1;
      var v := Handle(s, req, {}).response.contact;
      && v.emails == ExpectedValues(p.email, req.email)
      && v.phoneNumbers == ExpectedValues(p.phoneNumber, req.phoneNumber)
    ensures var p := Resolve(s, req).1;
      Truthy(p.phoneNumber) && Truthy(req.phoneNumber) && p.phoneNumber != req.phoneNumber ==>
        Handle(s, req, {}).response.contact.phoneNumbers == [p.phoneNumber.value, req.phoneNumber.value]
  {
    var p := Resolve(s, req).1;
    UniqueValuesMatchesExpected(p.email, req.email);
    UniqueValuesMatchesExpected(p.phoneNumber, req.phoneNumber);
  }

  /** Example: on a table holding only primary 1 (a@x, 1), the request
      a@x/2 writes nothing and answers {1, [a@x], [1, 2], []}. */
  lemma NewPhoneForKnownEmailWritesNothing()
    ensures var s := Store([Contact(1, Some("a@x"), Some("1"), None, Primary)], 2);
      var r := Handle(s, IdentifyRequest(Some("a@x"), Some("2")), {});
      && r.store == s
      && r.response == IdentifyResponse(ContactView(1, ["a@x"], ["1", "2"], []), None)
  {
  }
}
