/** The abstract document store that replaces the Firestore "users"
    collection: a sequence of documents kept newest first (by `createdAt`),
    with the capabilities the repository uses — get by id, set (create or
    overwrite), merge update, delete, equality lookup on `email` with limit 1,
    and the ordered, role-filtered query resumed after a cursor document. */
module DocumentStore {
  import opened Outcomes
  import opened UserEntities

  /** A stored document. `isActive` may be missing from documents that this
      service did not write. */
  datatype Doc = Doc(
    id: string,
    name: string,
    email: string,
    role: Role,
    isActive: Option<bool>,
    createdAt: int,
    updatedAt: int)

  ghost predicate UniqueIds(docs: seq<Doc>) {
    forall i, j :: 0 <= i < j < |docs| ==> docs[i].id != docs[j].id
  }

  /** The order of `orderBy('createdAt', 'desc')`; timestamps are distinct. */
  ghost predicate NewestFirst(docs: seq<Doc>) {
    forall i, j :: 0 <= i < j < |docs| ==> docs[i].createdAt > docs[j].createdAt
  }

  /** The application-level invariant: no two documents share an email. */
  ghost predicate UniqueEmails(docs: seq<Doc>) {
    forall i, j :: 0 <= i < j < |docs| ==> docs[i].email != docs[j].email
  }

  /** Store-assigned ids are never empty. */
  ghost predicate NonEmptyIds(docs: seq<Doc>) {
    forall d :: d in docs ==> d.id != ""
  }

  ghost predicate HasEmail(docs: seq<Doc>, email: string) {
    exists k :: 0 <= k < |docs| && docs[k].email == email
  }

  /** `HasEmail` stated on membership. */
  lemma HasEmailMember(docs: seq<Doc>, email: string)
    ensures HasEmail(docs, email) <==> exists d :: d in docs && d.email == email
  {
    if exists d :: d in docs && d.email == email {
      var d :| d in docs && d.email == email;
      var k :| 0 <= k < |docs| && docs[k] == d;
      assert docs[k].email == email;
    }
  }

  /** Position of the document with this id. */
  function IndexOf(docs: seq<Doc>, id: string): (r: Option<nat>)
    ensures r.Some? ==> r.value < |docs| && docs[r.value].id == id
    ensures r.None? <==> forall k :: 0 <= k < |docs| ==> docs[k].id != id
  {
    if docs == [] then None
    else if docs[0].id == id then Some(0)
    else match IndexOf(docs[1..], id)
      case None => None
      case Some(k) => Some(k + 1)
  }

  /** `doc(id).get()`: the snapshot exists exactly when some document has
      that id. */
  function Get(docs: seq<Doc>, id: string): (r: Option<Doc>)
    ensures r.None? <==> forall k :: 0 <= k < |docs| ==> docs[k].id != id
    ensures r.Some? ==> r.value in docs && r.value.id == id
  {
    match IndexOf(docs, id)
    case None => None
    case Some(i) => Some(docs[i])
  }

  lemma GetMember(docs: seq<Doc>, d: Doc)
    requires UniqueIds(docs) && d in docs
    ensures Get(docs, d.id) == Some(d)
  {
    var k :| 0 <= k < |docs| && docs[k] == d;
    assert forall j :: 0 <= j < |docs| && docs[j].id == d.id ==> j == k;
  }

  /** The collection without position `i`. */
  function RemoveAt(docs: seq<Doc>, i: nat): (r: seq<Doc>)
    requires i < |docs|
    ensures |r| == |docs| - 1
    ensures forall k :: 0 <= k < |r| ==> r[k] == docs[if k < i then k else k + 1]
  {
    docs[..i] + docs[i + 1..]
  }

  /** `doc(id).delete()`: the collection without the document of that id. */
  function Delete(docs: seq<Doc>, id: string): (r: seq<Doc>)
    ensures (forall k :: 0 <= k < |docs| ==> docs[k].id != id) ==> r == docs
    ensures forall d :: d in r ==> d in docs
    ensures forall d :: d in docs && d.id != id ==> d in r
    ensures UniqueIds(docs) ==> forall k :: 0 <= k < |r| ==> r[k].id != id
  {
    match IndexOf(docs, id)
    case None => docs
    case Some(i) =>
      var r := RemoveAt(docs, i);
      assert forall d :: d in r ==> d in docs by {
        forall d | d in r ensures d in docs {
          var k :| 0 <= k < |r| && r[k] == d;
          assert docs[if k < i then k else k + 1] == d;
        }
      }
      assert forall d :: d in docs && d.id != id ==> d in r by {
        forall d | d in docs && d.id != id ensures d in r {
          var j :| 0 <= j < |docs| && docs[j] == d;
          assert r[if j < i then j else j - 1] == d;
        }
      }
      assert UniqueIds(docs) ==> forall k :: 0 <= k < |r| ==> r[k].id != id by {
        if UniqueIds(docs) {
          forall k | 0 <= k < |r| ensures r[k].id != id {
            assert r[k] == docs[if k < i then k else k + 1];
          }
        }
      }
      r
  }

  /** The document positions that survive a deletion at `i`, in order. */
  lemma DeleteAt(docs: seq<Doc>, id: string, i: nat)
    requires IndexOf(docs, id) == Some(i)
    ensures |Delete(docs, id)| == |docs| - 1
    ensures forall k :: 0 <= k < |docs| - 1 ==> Delete(docs, id)[k] == docs[if k < i then k else k + 1]
  {
    assert Delete(docs, id) == RemoveAt(docs, i);
  }

  /** Removing one document keeps every pairwise property of the rest. */
  lemma DeletePreserves(docs: seq<Doc>, id: string)
    ensures UniqueIds(docs) ==> UniqueIds(Delete(docs, id))
    ensures NewestFirst(docs) ==> NewestFirst(Delete(docs, id))
    ensures UniqueEmails(docs) ==> UniqueEmails(Delete(docs, id))
  {
    match IndexOf(docs, id)
    case None =>
    case Some(i) =>
      assert Delete(docs, id) == RemoveAt(docs, i);
      RemoveAtPreserves(docs, i);
  }

  /** Dropping one position keeps the others in their order. */
  lemma RemoveAtPreserves(docs: seq<Doc>, i: nat)
    requires i < |docs|
    ensures UniqueIds(docs) ==> UniqueIds(RemoveAt(docs, i))
    ensures NewestFirst(docs) ==> NewestFirst(RemoveAt(docs, i))
    ensures UniqueEmails(docs) ==> UniqueEmails(RemoveAt(docs, i))
  {
    var r := RemoveAt(docs, i);
    forall a, b | 0 <= a < b < |r|
      ensures r[a] == docs[if a < i then a else a + 1] && r[b] == docs[if b < i then b else b + 1]
      ensures (if a < i then a else a + 1) < (if b < i then b else b + 1) < |docs|
    {
    }
  }

  /** Overwriting the document at position `i` with one of the same id and
      creation time (a merge update) keeps ids unique and the order. */
  lemma ReplacePreserves(docs: seq<Doc>, i: nat, d: Doc)
    requires i < |docs| && d.id == docs[i].id && d.createdAt == docs[i].createdAt
    ensures UniqueIds(docs) ==> UniqueIds(docs[i := d])
    ensures NewestFirst(docs) ==> NewestFirst(docs[i := d])
    ensures NonEmptyIds(docs) ==> NonEmptyIds(docs[i := d])
    ensures forall e :: e in docs[i := d] ==> e == d || e in docs
  {
    var r := docs[i := d];
    assert forall k :: 0 <= k < |r| ==> r[k].id == docs[k].id && r[k].createdAt == docs[k].createdAt;
    forall e | e in r ensures e == d || e in docs {
      var k :| 0 <= k < |r| && r[k] == e;
      if k != i {
        assert docs[k] == e;
      }
    }
  }

  /** The same update keeps emails unique when no other document holds the
      new email. */
  lemma ReplaceKeepsEmailsUnique(docs: seq<Doc>, i: nat, d: Doc)
    requires i < |docs| && UniqueEmails(docs)
    requires forall k :: 0 <= k < |docs| && k != i ==> docs[k].email != d.email
    ensures UniqueEmails(docs[i := d])
  {
  }

  /** Putting a document in front of a collection whose documents are all
      older and carry other ids keeps ids unique and the order. */
  lemma PrependPreserves(docs: seq<Doc>, d: Doc)
    requires forall e :: e in docs ==> e.createdAt < d.createdAt && e.id != d.id
    ensures UniqueIds(docs) ==> UniqueIds([d] + docs)
    ensures NewestFirst(docs) ==> NewestFirst([d] + docs)
    ensures NonEmptyIds(docs) && d.id != "" ==> NonEmptyIds([d] + docs)
  {
    var r := [d] + docs;
    assert forall k :: 1 <= k < |r| ==> r[k] == docs[k - 1] && docs[k - 1] in docs;
  }

  /** The tail of a newest-first collection is newest first. */
  lemma NewestTail(docs: seq<Doc>)
    requires NewestFirst(docs) && docs != []
    ensures NewestFirst(docs[1..])
  {
    assert forall k :: 0 <= k < |docs| - 1 ==> docs[1..][k] == docs[k + 1];
  }

  /** Everything after the head of a newest-first collection is older. */
  lemma OlderThanHead(docs: seq<Doc>)
    requires NewestFirst(docs) && docs != []
    ensures forall d :: d in docs[1..] ==> d.createdAt < docs[0].createdAt
  {
    forall d | d in docs[1..] ensures d.createdAt < docs[0].createdAt {
      var k :| 0 <= k < |docs| - 1 && docs[1..][k] == d;
      assert docs[k + 1] == d;
    }
  }

  /** A document newer than every other stays newest first in front. */
  lemma PrependNewest(x: Doc, rest: seq<Doc>)
    requires NewestFirst(rest) && forall d :: d in rest ==> x.createdAt > d.createdAt
    ensures NewestFirst([x] + rest)
  {
    var r := [x] + rest;
    assert forall k :: 1 <= k < |r| ==> r[k] == rest[k - 1] && rest[k - 1] in rest;
  }

  /** Putting a document with an unused email in front keeps emails
      unique. */
  lemma PrependEmail(docs: seq<Doc>, d: Doc)
    requires UniqueEmails(docs) && !HasEmail(docs, d.email)
    ensures UniqueEmails([d] + docs)
  {
    var r := [d] + docs;
    assert forall k :: 1 <= k < |r| ==> r[k] == docs[k - 1];
  }

  /** The first document whose email equals `email`:
      `where('email', '==', email).limit(1)`. */
  function FirstWithEmail(docs: seq<Doc>, email: string): (r: Option<Doc>)
    ensures r.None? <==> !HasEmail(docs, email)
    ensures r.Some? ==> r.value in docs && r.value.email == email
  {
    if docs == [] then None
    else if docs[0].email == email then Some(docs[0])
    else
      var r := FirstWithEmail(docs[1..], email);
      assert HasEmail(docs[1..], email) ==> HasEmail(docs, email) by {
        if HasEmail(docs[1..], email) {
          var k :| 0 <= k < |docs| - 1 && docs[1..][k].email == email;
          assert docs[k + 1].email == email;
        }
      }
      assert HasEmail(docs, email) ==> HasEmail(docs[1..], email) by {
        if HasEmail(docs, email) {
          var k :| 0 <= k < |docs| && docs[k].email == email;
          assert docs[1..][k - 1].email == email;
        }
      }
      r
  }

  /** What the query keeps of a document: the role filter, when one is
      given, and `startAfter` of a cursor whose `createdAt` is `startAfter`,
      which in descending order means strictly older. */
  predicate Selected(d: Doc, role: Option<Role>, startAfter: Option<int>) {
    && (role.Some? ==> d.role == role.value)
    && (startAfter.Some? ==> d.createdAt < startAfter.value)
  }

  /** The ordered, filtered query without its limit. */
  function Select(docs: seq<Doc>, role: Option<Role>, startAfter: Option<int>): (r: seq<Doc>)
    ensures |r| <= |docs|
    ensures forall d :: d in r ==> d in docs && Selected(d, role, startAfter)
    ensures forall d :: d in docs && Selected(d, role, startAfter) ==> d in r
    ensures NewestFirst(docs) ==> NewestFirst(r)
  {
    if docs == [] then []
    else
      var rest := Select(docs[1..], role, startAfter);
      assert forall d :: d in docs[1..] ==> d in docs;
      assert forall d :: d in docs ==> d == docs[0] || d in docs[1..];
      if Selected(docs[0], role, startAfter) then
        assert NewestFirst(docs) ==> NewestFirst([docs[0]] + rest) by {
          if NewestFirst(docs) {
            OlderThanHead(docs);
            NewestTail(docs);
            PrependNewest(docs[0], rest);
          }
        }
        [docs[0]] + rest
      else
        rest
  }

  /** At most the first `n` elements (`limit(n)`). */
  function Take(s: seq<Doc>, n: nat): (r: seq<Doc>)
    ensures |r| == if |s| <= n then |s| else n
    ensures r == s[..|r|]
  {
    if |s| <= n then s else s[..n]
  }

  /** `orderBy('createdAt', 'desc')`, optionally `where('role', '==', role)`,
      optionally `startAfter(cursor)`, then `limit(n)`. */
  function Query(docs: seq<Doc>, role: Option<Role>, startAfter: Option<int>, n: nat): (r: seq<Doc>)
    ensures |r| <= n
    ensures forall d :: d in r ==> d in docs && Selected(d, role, startAfter)
  {
    Take(Select(docs, role, startAfter), n)
  }
}
