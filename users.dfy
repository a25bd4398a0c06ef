/** The `users` collection the authentication service reads and writes: one
    document per account, with a unique index on the `email` field
    (utils/database.py, `create_indexes`). The database server itself is not
    part of this model; only what the service relies on is. */
module Users {
  import opened Wrappers

  /** A stored user document. Every field but `email` is read with
      `dict.get`, so each may be absent in a document written by other code. */
  datatype UserDoc = UserDoc(
    name: Option<string>,
    email: string,
    passwordHash: Option<string>,
    role: Option<string>,
    createdAt: Option<real>)

  /** A document with the identifier the database gave it on insertion. */
  datatype StoredUser = StoredUser(id: nat, doc: UserDoc)

  /** The collection's contents: the documents by their unique `email`, and
      the identifier the next insertion receives. */
  datatype Collection = Collection(byEmail: map<string, StoredUser>, nextId: nat)

  /** Each document sits under its own address, and identifiers are distinct
      and already handed out. */
  ghost predicate Valid(c: Collection) {
    && (forall e :: e in c.byEmail ==> c.byEmail[e].doc.email == e && c.byEmail[e].id < c.nextId)
    && (forall e, f :: e in c.byEmail && f in c.byEmail && e != f ==> c.byEmail[e].id != c.byEmail[f].id)
  }

  datatype InsertOutcome = Inserted(id: nat) | DuplicateKey

  /** `users.insert_one(doc)` under the unique email index: refused when the
      address is taken, otherwise stored under a fresh identifier. */
  function Insert(c: Collection, doc: UserDoc): (r: (Collection, InsertOutcome))
    ensures doc.email in c.byEmail ==> r.0 == c && r.1 == DuplicateKey
    ensures doc.email !in c.byEmail ==>
      && r.1 == Inserted(c.nextId)
      && r.0.byEmail == c.byEmail[doc.email := StoredUser(c.nextId, doc)]
      && r.0.nextId == c.nextId + 1
  {
    if doc.email in c.byEmail then (c, DuplicateKey)
    else (Collection(c.byEmail[doc.email := StoredUser(c.nextId, doc)], c.nextId + 1), Inserted(c.nextId))
  }

  /** `users.find_one({"email": email})` */
  function Find(c: Collection, email: string): (found: Option<StoredUser>)
    ensures found.Some? <==> email in c.byEmail
    ensures found.Some? ==> found.value == c.byEmail[email]
  {
    if email in c.byEmail then Some(c.byEmail[email]) else None
  }

  /** Insertion keeps the collection valid. */
  lemma InsertKeepsValid(c: Collection, doc: UserDoc)
    requires Valid(c)
    ensures Valid(Insert(c, doc).0)
  {
  }

  /** A document just inserted is found under its address with its new
      identifier, and every other address finds what it found before. */
  lemma FindAfterInsert(c: Collection, doc: UserDoc, email: string)
    requires doc.email !in c.byEmail
    ensures Find(Insert(c, doc).0, doc.email) == Some(StoredUser(c.nextId, doc))
    ensures email != doc.email ==> Find(Insert(c, doc).0, email) == Find(c, email)
  {
  }

  /** A second insertion with the same address is refused and changes nothing. */
  lemma SecondInsertIsDuplicate(c: Collection, doc: UserDoc, other: UserDoc)
    requires doc.email !in c.byEmail && other.email == doc.email
    ensures Insert(Insert(c, doc).0, other) == (Insert(c, doc).0, DuplicateKey)
  {
  }

  /** The live collection. */
  class UserStore {
    var byEmail: map<string, StoredUser>
    var nextId: nat

    function Contents(): Collection
      reads this
    {
      Collection(byEmail, nextId)
    }

    constructor()
      ensures Contents() == Collection(map[], 0)
    {
      byEmail := map[];
      nextId := 0;
    }

    /** `insert_one` */
    method InsertOne(doc: UserDoc) returns (outcome: InsertOutcome)
      modifies this
      ensures (Contents(), outcome) == Insert(old(Contents()), doc)
    {
      if doc.email in byEmail {
        outcome := DuplicateKey;
      } else {
        byEmail := byEmail[doc.email := StoredUser(nextId, doc)];
        outcome := Inserted(nextId);
        nextId := nextId + 1;
      }
    }

    /** `find_one` by address */
    method FindOne(email: string) returns (found: Option<StoredUser>)
      ensures found == Find(Contents(), email)
    {
      if email in byEmail {
        found := Some(byEmail[email]);
      } else {
        found := None;
      }
    }
  }
}
