/** The `Contact` table and the three store operations the identify handler
    uses (`findFirst`, `create`, `findMany`), over an in-memory sequence of
    rows kept in insertion order.
 */
module ContactStore {
  import opened Optional
  import opened Lists

  datatype LinkPrecedence = Primary | Secondary

  /** One row of the table. Timestamps and soft deletion are not read by the
      handler and are not part of the model. */
  datatype Contact = Contact(
    id: int,
    email: Option<string>,
    phoneNumber: Option<string>,
    linkedId: Option<int>,
    linkPrecedence: LinkPrecedence)

  /** The rows and the next value of the autoincrement id sequence. */
  datatype Store = Store(contacts: seq<Contact>, nextId: int)

  /** What the autoincrement id column guarantees: ids are positive,
      distinct and below the next id to be issued. */
  predicate Valid(s: Store) {
    && s.nextId >= 1
    && (forall i :: 0 <= i < |s.contacts| ==> 1 <= s.contacts[i].id < s.nextId)
    && (forall i, j :: 0 <= i < j < |s.contacts| ==> s.contacts[i].id != s.contacts[j].id)
  }

  /** The `where` filters the handler passes to `findFirst`, besides
      `linkPrecedence: primary`. */
  datatype Filter =
    | EmailOrPhone(email: string, phoneNumber: Option<string>)
    | PhoneOnly(phone: string)

  /** Exact string equality on the filtered columns. An absent phone in
      `EmailOrPhone` contributes no disjunct; a present empty phone matches
      rows whose phone is the empty string. */
  predicate Satisfies(c: Contact, f: Filter) {
    match f
    case EmailOrPhone(e, p) => c.email == Some(e) || (p.Some? && c.phoneNumber == p)
    case PhoneOnly(p) => c.phoneNumber == Some(p)
  }

  predicate IsPrimaryMatch(c: Contact, f: Filter) {
    c.linkPrecedence == Primary && Satisfies(c, f)
  }

  /** `findFirst` restricted to primaries. The model returns the earliest
      matching row; callers may rely only on getting some matching primary,
      and on getting none exactly when no primary matches. */
  function FindFirstPrimary(contacts: seq<Contact>, f: Filter): (r: Option<Contact>)
    ensures r.Some? ==> r.value in contacts && IsPrimaryMatch(r.value, f)
    ensures r.None? <==> forall c :: c in contacts ==> !IsPrimaryMatch(c, f)
  {
    if |contacts| == 0 then None
    else if IsPrimaryMatch(contacts[0], f) then Some(contacts[0])
    else
      assert contacts == [contacts[0]] + contacts[1..];
      FindFirstPrimary(contacts[1..], f)
  }

  /** `create` of a primary row holding exactly the given email and phone. */
  function CreatePrimary(s: Store, email: Option<string>, phoneNumber: Option<string>): (r: (Store, Contact))
    ensures r.0.contacts == s.contacts + [r.1]
    ensures r.1.linkPrecedence == Primary && r.1.linkedId == None
    ensures r.1.email == email && r.1.phoneNumber == phoneNumber
    ensures Valid(s) ==> Valid(r.0) && r.1.id >= 1
    ensures Valid(s) ==> forall c :: c in s.contacts ==> c.id != r.1.id
  {
    var c := Contact(s.nextId, email, phoneNumber, None, Primary);
    (Store(s.contacts + [c], s.nextId + 1), c)
  }

  predicate IsSecondaryOf(c: Contact, primaryId: int) {
    c.linkPrecedence == Secondary && c.linkedId == Some(primaryId)
  }

  /** `findMany` of the secondaries linked to `primaryId`, mapped to their ids.
      The model lists them in store order; callers may rely only on the set. */
  function SecondaryIds(contacts: seq<Contact>, primaryId: int): (r: seq<int>)
    ensures forall id :: id in r <==> exists c :: c in contacts && IsSecondaryOf(c, primaryId) && c.id == id
    ensures |r| <= |contacts|
  {
    if |contacts| == 0 then []
    else
      assert contacts == [contacts[0]] + contacts[1..];
      var rest := SecondaryIds(contacts[1..], primaryId);
      if IsSecondaryOf(contacts[0], primaryId) then [contacts[0].id] + rest else rest
  }

  /** In a valid store no id is reported twice. */
  lemma {:induction false} SecondaryIdsDistinct(contacts: seq<Contact>, primaryId: int)
    requires forall i, j :: 0 <= i < j < |contacts| ==> contacts[i].id != contacts[j].id
    ensures NoDuplicates(SecondaryIds(contacts, primaryId))
  {
    if |contacts| > 0 {
      var tail := contacts[1..];
      assert forall i, j :: 0 <= i < j < |tail| ==> tail[i].id != tail[j].id by {
        forall i, j | 0 <= i < j < |tail| ensures tail[i].id != tail[j].id {
          assert tail[i] == contacts[i + 1] && tail[j] == contacts[j + 1];
        }
      }
      SecondaryIdsDistinct(tail, primaryId);
      if IsSecondaryOf(contacts[0], primaryId) {
        assert contacts[0].id !in SecondaryIds(tail, primaryId) by {
          forall c | c in tail ensures c.id != contacts[0].id {
            var k :| 0 <= k < |tail| && tail[k] == c;
            assert c == contacts[k + 1];
          }
        }
      }
    }
  }
}
