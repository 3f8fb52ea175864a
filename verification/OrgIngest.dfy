/** Organization ingest: insert a new name, or fill the empty contacts of the row it already has. */
module OrgIngest {
  import opened Common
  import opened OrgNames

  /** An empty contact stands for NULL as well as for the empty string. */
  datatype Org = Org(name: string, email: string, phone: string, website: string)

  /** A request after trimming; `phone` is what the verifier made of the given
      number: normalized, or empty. */
  datatype Request = Request(name: string, email: string, phone: string, website: string)

  /** How names are compared: the database's case folding, and the fuzzy key. */
  datatype Naming = Naming(lower: string -> string, key: string -> string)

  const NAMING: Naming := Naming(Lower, NameKey)

  type Rows = map<nat, Org>

  function Fill(existing: string, given: string): string {
    if existing != "" then existing else given
  }

  function Filled(o: Org, q: Request): Org {
    o.(email := Fill(o.email, q.email), phone := Fill(o.phone, q.phone), website := Fill(o.website, q.website))
  }

  predicate ExactHit(rows: Rows, c: Naming, name: string, id: nat) {
    id in rows && c.lower(rows[id].name) == c.lower(name)
  }

  predicate FuzzyHit(rows: Rows, c: Naming, name: string, id: nat) {
    id in rows && c.key(name) != "" && c.key(rows[id].name) == c.key(name)
  }

  /** What the two lookups may find: an exact match first, then a match of keys. */
  ghost predicate Finds(rows: Rows, c: Naming, name: string, hit: Option<nat>) {
    match hit
    case Some(id) =>
      ExactHit(rows, c, name, id) || (FuzzyHit(rows, c, name, id) && forall k :: !ExactHit(rows, c, name, k))
    case None => forall k :: !ExactHit(rows, c, name, k) && !FuzzyHit(rows, c, name, k)
  }

  function Ingested(rows: Rows, q: Request, hit: Option<nat>, newID: nat): Rows {
    if q.name == "" then rows
    else match hit
      case Some(id) => if id in rows then rows[id := Filled(rows[id], q)] else rows
      case None => rows[newID := Org(q.name, q.email, q.phone, q.website)]
  }

  datatype Ingest = Ingest(request: Request, hit: Option<nat>, newID: nat)

  function After(h: seq<Ingest>): Rows {
    if h == [] then map[]
    else var i := h[|h| - 1]; Ingested(After(h[..|h| - 1]), i.request, i.hit, i.newID)
  }

  /** Each ingest in turn answers its lookups from the table it meets, and inserts under a new id. */
  ghost predicate Sequential(h: seq<Ingest>, c: Naming) {
    forall n :: 0 <= n < |h| ==> Finds(After(h[..n]), c, h[n].request.name, h[n].hit) && h[n].newID !in After(h[..n])
  }

  ghost predicate NoDuplicates(rows: Rows, c: Naming) {
    && (forall i, j :: i in rows && j in rows && c.lower(rows[i].name) == c.lower(rows[j].name) ==> i == j)
    && (forall i, j :: i in rows && j in rows && c.key(rows[i].name) == c.key(rows[j].name) != "" ==> i == j)
  }

  lemma {:induction false} IngestKeepsDistinct(rows: Rows, c: Naming, q: Request, hit: Option<nat>, newID: nat)
    requires NoDuplicates(rows, c) && Finds(rows, c, q.name, hit) && newID !in rows
    ensures NoDuplicates(Ingested(rows, q, hit, newID), c)
  {
    if q.name != "" && hit.None? {
      forall k | k in rows
        ensures c.lower(rows[k].name) != c.lower(q.name)
        ensures c.key(q.name) != "" ==> c.key(rows[k].name) != c.key(q.name)
      {
        assert !ExactHit(rows, c, q.name, k) && !FuzzyHit(rows, c, q.name, k);
      }
    }
  }

  /** Over any run of ingests from an empty table, names are distinct whatever
      their case, and so are the non-empty keys. */
  lemma {:induction false} RunsStayDistinct(h: seq<Ingest>, c: Naming)
    requires Sequential(h, c)
    ensures NoDuplicates(After(h), c)
  {
    if h != [] {
      var n := |h| - 1;
      SequentialPrefix(h, c, n);
      RunsStayDistinct(h[..n], c);
      IngestKeepsDistinct(After(h[..n]), c, h[n].request, h[n].hit, h[n].newID);
    }
  }

  ghost predicate KeepsContacts(before: Org, after: Org) {
    && after.name == before.name
    && (before.email != "" ==> after.email == before.email)
    && (before.phone != "" ==> after.phone == before.phone)
    && (before.website != "" ==> after.website == before.website)
  }

  lemma {:induction false} IngestKeepsRow(o: Org, rows: Rows, i: Ingest, id: nat)
    requires id in rows && i.newID !in rows && KeepsContacts(o, rows[id])
    ensures var rows' := Ingested(rows, i.request, i.hit, i.newID);
      id in rows' && KeepsContacts(o, rows'[id])
  {
  }

  lemma {:induction false} SequentialPrefix(h: seq<Ingest>, c: Naming, m: nat)
    requires Sequential(h, c) && m <= |h|
    ensures Sequential(h[..m], c)
  {
    forall n | 0 <= n < m ensures h[..m][..n] == h[..n] {}
  }

  lemma {:induction false} SequentialSnoc(h: seq<Ingest>, c: Naming, i: Ingest)
    requires Sequential(h + [i], c)
    ensures Sequential(h, c) && i.newID !in After(h)
    ensures After(h + [i]) == Ingested(After(h), i.request, i.hit, i.newID)
  {
    assert (h + [i])[..|h|] == h && (h + [i])[|h|] == i;
    SequentialPrefix(h + [i], c, |h|);
  }

  /** A row, its name and its non-empty contacts survive every later ingest. */
  lemma {:induction false} ContactsNeverChange(h: seq<Ingest>, c: Naming, more: seq<Ingest>, id: nat)
    requires Sequential(h + more, c) && id in After(h)
    ensures id in After(h + more) && KeepsContacts(After(h)[id], After(h + more)[id])
  {
    if more == [] {
      assert h + more == h;
    } else {
      var m := |more| - 1;
      var before := h + more[..m];
      assert h + more == before + [more[m]];
      SequentialSnoc(before, c, more[m]);
      ContactsNeverChange(h, c, more[..m], id);
      IngestKeepsRow(After(h)[id], After(before), more[m], id);
    }
  }

  /** Of a table without duplicates the lookups can answer only one way. */
  lemma {:induction false} FindsIsDetermined(rows: Rows, c: Naming, name: string, a: Option<nat>, b: Option<nat>)
    requires NoDuplicates(rows, c) && Finds(rows, c, name, a) && Finds(rows, c, name, b)
    ensures a == b
  {
    if a.Some? { assert ExactHit(rows, c, name, a.value) || FuzzyHit(rows, c, name, a.value); }
    if b.Some? { assert ExactHit(rows, c, name, b.value) || FuzzyHit(rows, c, name, b.value); }
  }

  /** After an ingest the lookups find the row it filled or inserted. */
  lemma {:induction false} FindsAfterIngest(rows: Rows, c: Naming, q: Request, hit: Option<nat>, newID: nat)
    requires newID !in rows && q.name != "" && Finds(rows, c, q.name, hit)
    ensures Finds(Ingested(rows, q, hit, newID), c, q.name, if hit.Some? then hit else Some(newID))
  {
    var rows' := Ingested(rows, q, hit, newID);
    if hit.Some? {
      assert forall k :: k in rows <==> k in rows';
      assert forall k :: k in rows ==> rows'[k].name == rows[k].name;
      assert forall k :: ExactHit(rows', c, q.name, k) <==> ExactHit(rows, c, q.name, k);
      assert FuzzyHit(rows', c, q.name, hit.value) <==> FuzzyHit(rows, c, q.name, hit.value);
    } else {
      assert ExactHit(rows', c, q.name, newID);
    }
  }

  /** Ingesting the same request again inserts nothing and changes nothing. */
  lemma {:induction false} ReingestIsIdempotent(rows: Rows, c: Naming, q: Request, hit: Option<nat>,
                                                newID: nat, again: Option<nat>, id: nat)
    requires NoDuplicates(rows, c) && newID !in rows && Finds(rows, c, q.name, hit)
    requires Finds(Ingested(rows, q, hit, newID), c, q.name, again)
    ensures Ingested(Ingested(rows, q, hit, newID), q, again, id) == Ingested(rows, q, hit, newID)
  {
    if q.name != "" {
      var rows' := Ingested(rows, q, hit, newID);
      IngestKeepsDistinct(rows, c, q, hit, newID);
      FindsAfterIngest(rows, c, q, hit, newID);
      FindsIsDetermined(rows', c, q.name, again, if hit.Some? then hit else Some(newID));
      assert Filled(rows'[again.value], q) == rows'[again.value];
    }
  }

  // ---------------------------------------------------------------- where contacts come from

  /** The ingest inserted the row, or found it. */
  predicate Concerns(i: Ingest, id: nat) {
    i.request.name != "" && (i.hit == Some(id) || (i.hit.None? && i.newID == id))
  }

  /** The requests of the ingests that concerned a row, in order. */
  function Brought(h: seq<Ingest>, id: nat): seq<Request> {
    if h == [] then []
    else Brought(h[..|h| - 1], id) + if Concerns(h[|h| - 1], id) then [h[|h| - 1].request] else []
  }

  /** The first contact given, if any was. */
  function FirstGiven(given: seq<string>): string {
    if given == [] then "" else if given[0] != "" then given[0] else FirstGiven(given[1..])
  }

  function Emails(qs: seq<Request>): seq<string> { seq(|qs|, i requires 0 <= i < |qs| => qs[i].email) }

  function Phones(qs: seq<Request>): seq<string> { seq(|qs|, i requires 0 <= i < |qs| => qs[i].phone) }

  function Websites(qs: seq<Request>): seq<string> { seq(|qs|, i requires 0 <= i < |qs| => qs[i].website) }

  lemma {:induction false} FirstGivenSnoc(given: seq<string>, last: string)
    ensures FirstGiven(given + [last]) == if FirstGiven(given) != "" then FirstGiven(given) else last
  {
    if given != [] {
      assert (given + [last])[1..] == given[1..] + [last];
      FirstGivenSnoc(given[1..], last);
    }
  }

  lemma {:induction false} BroughtSnoc(qs: seq<Request>, q: Request)
    ensures Emails(qs + [q]) == Emails(qs) + [q.email]
    ensures Phones(qs + [q]) == Phones(qs) + [q.phone]
    ensures Websites(qs + [q]) == Websites(qs) + [q.website]
  {
  }

  /** The first contacts that the ingests of a row have brought. */
  ghost predicate HasFirstGiven(o: Org, qs: seq<Request>) {
    o.email == FirstGiven(Emails(qs)) && o.phone == FirstGiven(Phones(qs)) && o.website == FirstGiven(Websites(qs))
  }

  lemma {:induction false} ContactsNext(o: Org, qs: seq<Request>, q: Request)
    requires HasFirstGiven(o, qs)
    ensures HasFirstGiven(Filled(o, q), qs + [q])
  {
    BroughtSnoc(qs, q);
    FirstGivenSnoc(Emails(qs), q.email);
    FirstGivenSnoc(Phones(qs), q.phone);
    FirstGivenSnoc(Websites(qs), q.website);
  }

  lemma {:induction false} StillMissing(rows: Rows, i: Ingest, id: nat)
    requires i.hit.Some? ==> i.hit.value in rows
    requires id !in Ingested(rows, i.request, i.hit, i.newID)
    ensures id !in rows && !Concerns(i, id)
  {
  }

  lemma {:induction false} NothingBroughtYet(h: seq<Ingest>, c: Naming, id: nat)
    requires Sequential(h, c) && id !in After(h)
    ensures Brought(h, id) == []
  {
    if h != [] {
      var before := h[..|h| - 1];
      SequentialPrefix(h, c, |h| - 1);
      FoundRowsExist(h, c);
      StillMissing(After(before), h[|h| - 1], id);
      NothingBroughtYet(before, c, id);
      assert Brought(h, id) == Brought(before, id);
    }
  }

  lemma {:induction false} FoundRowsExist(h: seq<Ingest>, c: Naming)
    requires Sequential(h, c) && h != []
    ensures h[|h| - 1].hit.Some? ==> h[|h| - 1].hit.value in After(h[..|h| - 1])
    ensures h[|h| - 1].newID !in After(h[..|h| - 1])
  {
    var i := h[|h| - 1];
    assert Finds(After(h[..|h| - 1]), c, i.request.name, i.hit);
  }

  lemma {:induction false} FirstBrought(q: Request)
    ensures HasFirstGiven(Org(q.name, q.email, q.phone, q.website), [q])
  {
    assert Emails([q]) == [q.email] && Phones([q]) == [q.phone] && Websites([q]) == [q.website];
    assert forall x: string :: [x][1..] == [];
  }

  lemma {:induction false} RowAfterIngest(rows: Rows, i: Ingest, id: nat)
    requires id in rows && i.newID !in rows
    ensures id in Ingested(rows, i.request, i.hit, i.newID)
    ensures Ingested(rows, i.request, i.hit, i.newID)[id]
         == if Concerns(i, id) then Filled(rows[id], i.request) else rows[id]
  {
  }

  /** Over every run, each contact of a row is the first one that any ingest of
      that organization brought, and empty only if none did. */
  lemma {:induction false} ContactsAreFirstBrought(h: seq<Ingest>, c: Naming, id: nat)
    requires Sequential(h, c) && id in After(h)
    ensures HasFirstGiven(After(h)[id], Brought(h, id))
  {
    var n := |h| - 1;
    var i := h[n];
    SequentialPrefix(h, c, n);
    FoundRowsExist(h, c);
    if id in After(h[..n]) {
      ContactsAreFirstBrought(h[..n], c, id);
      RowAfterIngest(After(h[..n]), i, id);
      if Concerns(i, id) {
        ContactsNext(After(h[..n])[id], Brought(h[..n], id), i.request);
      } else {
        assert Brought(h, id) == Brought(h[..n], id);
      }
    } else {
      NothingBroughtYet(h[..n], c, id);
      FirstBrought(i.request);
      assert Brought(h, id) == [i.request];
    }
  }

  /** The lookups prefer the same name in other case to a similar one, and find
      nothing only when there is neither. */
  lemma {:induction false} ExactMatchWins(rows: Rows, c: Naming, name: string, hit: Option<nat>, k: nat)
    requires Finds(rows, c, name, hit) && k in rows
    ensures c.lower(rows[k].name) == c.lower(name) ==>
      hit.Some? && hit.value in rows && c.lower(rows[hit.value].name) == c.lower(name)
    ensures c.key(name) != "" && c.key(rows[k].name) == c.key(name) ==> hit.Some?
  {
    assert ExactHit(rows, c, name, k) <==> c.lower(rows[k].name) == c.lower(name);
    assert FuzzyHit(rows, c, name, k) <==> c.key(name) != "" && c.key(rows[k].name) == c.key(name);
  }

  // ---------------------------------------------------------------- the handler

  function Trimmed(q: Request): Request {
    Request(Trim(q.name), Trim(q.email), q.phone, Trim(q.website))
  }

  datatype Outcome = BadRequest | InsertedAs(id: nat) | FilledExisting(id: nat)

  class OrganizationStore {
    var rows: Rows

    constructor ()
      ensures rows == map[]
    {
      rows := map[];
    }

    /** Compares the key with every row's key. */
    method FindExistingOrgByFuzzyName(name: string) returns (hit: Option<nat>)
      ensures hit.Some? ==> FuzzyHit(rows, NAMING, name, hit.value)
      ensures hit.None? ==> forall id :: !FuzzyHit(rows, NAMING, name, id)
      ensures hit.Some? ==> hit.value in rows && NameKey(rows[hit.value].name) == NameKey(name) != ""
    {
      var key := OrgNameKey(name);
      if key == "" {
        return None;
      }
      var todo := rows.Keys;
      while todo != {}
        invariant todo <= rows.Keys
        invariant forall id :: id in rows && id !in todo ==> NameKey(rows[id].name) != key
        decreases |todo|
      {
        var id :| id in todo;
        todo := todo - {id};
        var existing := OrgNameKey(rows[id].name);
        if existing == key {
          return Some(id);
        }
      }
      hit := None;
    }

    method IngestOrganization(given: Request, newID: nat) returns (r: Outcome, hit: Option<nat>)
      requires newID !in rows
      modifies this
      ensures r.BadRequest? <==> Trim(given.name) == ""
      ensures !r.BadRequest? ==> Finds(old(rows), NAMING, Trim(given.name), hit)
      ensures rows == Ingested(old(rows), Trimmed(given), hit, newID)
      ensures hit.Some? ==>
        && hit.value in old(rows)
        && (Lower(old(rows)[hit.value].name) == Lower(Trim(given.name))
            || NameKey(old(rows)[hit.value].name) == NameKey(Trim(given.name)) != "")
      ensures r.InsertedAs? ==> hit.None? && r.id == newID
      ensures r.InsertedAs? ==>
        newID in rows && rows[newID] == Org(Trim(given.name), Trim(given.email), given.phone, Trim(given.website))
      ensures r.FilledExisting? ==> hit == Some(r.id) && r.id in old(rows) && r.id in rows
      ensures r.FilledExisting? ==>
        && rows[r.id].email == (if old(rows)[r.id].email != "" then old(rows)[r.id].email else Trim(given.email))
        && rows[r.id].phone == (if old(rows)[r.id].phone != "" then old(rows)[r.id].phone else given.phone)
        && rows[r.id].website
           == (if old(rows)[r.id].website != "" then old(rows)[r.id].website else Trim(given.website))
    {
      var q := Trimmed(given);
      if q.name == "" {
        return BadRequest, None;
      }
      if id :| id in rows && Lower(rows[id].name) == Lower(q.name) {
        assert ExactHit(rows, NAMING, q.name, id);
        hit := Some(id);
      } else {
        assert forall k :: !ExactHit(rows, NAMING, q.name, k);
        hit := FindExistingOrgByFuzzyName(q.name);
      }
      if hit.None? {
        rows := rows[newID := Org(q.name, q.email, q.phone, q.website)];
        return InsertedAs(newID), hit;
      }
      var o := rows[hit.value];
      rows := rows[hit.value := o.(
        email := if o.email != "" then o.email else q.email,
        phone := if o.phone != "" then o.phone else q.phone,
        website := if o.website != "" then o.website else q.website)];
      r := FilledExisting(hit.value);
    }
  }
}
