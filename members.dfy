/** The member table (db.Member) as the auth controller sees it: member rows,
    the claim record a token carries, the findOne lookup and the insert. */
module Members {

  datatype Option<T> = None | Some(value: T)

  /** A row of the member table. password holds whatever was stored at
      creation, which the controller makes a bcrypt hash. */
  datatype Member = Member(id: nat, pseudo: string, email: string, password: string, isAdmin: bool)

  /** The claims a token is generated from. The signed token itself (generateJWT)
      is not modelled: a token is its claim record. */
  datatype Claims = Claims(id: nat, pseudo: string, isAdmin: bool)

  /** tokenGenerator: projects a member onto the three claims. */
  function TokenGenerator(m: Member): (c: Claims)
    ensures c.id == m.id && c.pseudo == m.pseudo && c.isAdmin == m.isAdmin
  {
    Claims(m.id, m.pseudo, m.isAdmin)
  }

  /** The token depends on the id, pseudo and privilege flag only: neither the
      email nor the stored password hash has any influence on it. */
  lemma TokenOmitsEmailAndPassword(m: Member, email: string, password: string)
    ensures TokenGenerator(m.(email := email, password := password)) == TokenGenerator(m)
  {
  }

  /** findOne: some row satisfying the condition, or none when no row does.
      This model returns the first such row in table order. */
  function FindOne(rows: seq<Member>, where: Member -> bool): (r: Option<Member>)
    ensures r.Some? ==> r.value in rows && where(r.value)
    ensures r.None? <==> forall i :: 0 <= i < |rows| ==> !where(rows[i])
    decreases |rows|
  {
    if rows == [] then None
    else if where(rows[0]) then Some(rows[0])
    else FindOne(rows[1..], where)
  }

  /** When exactly one row satisfies the condition, findOne returns that row. */
  lemma FindOneUnique(rows: seq<Member>, where: Member -> bool, k: nat)
    requires k < |rows| && where(rows[k])
    requires forall i :: 0 <= i < |rows| && where(rows[i]) ==> rows[i] == rows[k]
    ensures FindOne(rows, where) == Some(rows[k])
  {
  }

  /** No two rows share an id: the primary key. */
  predicate DistinctIds(rows: seq<Member>) {
    forall i, j :: 0 <= i < j < |rows| ==> rows[i].id != rows[j].id
  }

  /** findByPk: the row stored under a primary key. */
  function FindByPk(rows: seq<Member>, id: nat): (r: Option<Member>)
    ensures r.Some? ==> r.value in rows && r.value.id == id
    ensures r.None? <==> forall i :: 0 <= i < |rows| ==> rows[i].id != id
    ensures DistinctIds(rows) ==> forall i :: 0 <= i < |rows| && rows[i].id == id ==> r == Some(rows[i])
  {
    FindOne(rows, (m: Member) => m.id == id)
  }

  /** Default of the isAdmin column for a newly created member. */
  const DefaultIsAdmin := false

  /** The member table. Ids come from an auto-incremented counter. */
  class MemberTable {
    var rows: seq<Member>
    var nextId: nat

    /** Every stored id was handed out before nextId, and ids are unique. */
    ghost predicate Valid()
      reads this
    {
      (forall i :: 0 <= i < |rows| ==> rows[i].id < nextId) && DistinctIds(rows)
    }

    constructor ()
      ensures Valid()
      ensures rows == [] && nextId == 1
    {
      rows := [];
      nextId := 1;
    }

    /** db.Member.create: inserts one row under a fresh id and returns it. */
    method Create(pseudo: string, email: string, password: string) returns (m: Member)
      requires Valid()
      modifies this
      ensures Valid()
      ensures m == Member(old(nextId), pseudo, email, password, DefaultIsAdmin)
      ensures rows == old(rows) + [m]
      ensures nextId == old(nextId) + 1
      ensures forall i :: 0 <= i < |old(rows)| ==> rows[i].id != m.id
    {
      m := Member(nextId, pseudo, email, password, DefaultIsAdmin);
      rows := rows + [m];
      nextId := nextId + 1;
    }
  }
}
