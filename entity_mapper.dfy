/** The repository's mapper from stored documents to entities. */
module Mapper {
  import opened Outcomes
  import opened UserEntities
  import opened DocumentStore

  /** `toEntity`: id, name, email, role and timestamps are copied as stored;
      a document without `isActive` reads as active. */
  function ToEntity(d: Doc): (u: UserEntity)
    ensures u.id == d.id && u.name == d.name && u.email == d.email && u.role == d.role
    ensures u.isActive <==> d.isActive != Some(false)
    ensures u.createdAt == d.createdAt && u.updatedAt == d.updatedAt
  {
    UserEntity(d.id, d.name, d.email, d.role, d.isActive.GetOr(true), d.createdAt, d.updatedAt)
  }

  /** `docs.map(toEntity)`. */
  function ToEntities(ds: seq<Doc>): (us: seq<UserEntity>)
    ensures |us| == |ds|
    ensures forall i :: 0 <= i < |ds| ==> us[i] == ToEntity(ds[i])
  {
    if ds == [] then [] else [ToEntity(ds[0])] + ToEntities(ds[1..])
  }

  lemma ToEntitiesAppend(a: seq<Doc>, b: seq<Doc>)
    ensures ToEntities(a + b) == ToEntities(a) + ToEntities(b)
  {
    assert forall i :: 0 <= i < |a + b| ==> (a + b)[i] == if i < |a| then a[i] else b[i - |a|];
  }
}
