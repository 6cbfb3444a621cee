/** The `member` table of the Next.js variant, with the constraints the
    database engine enforces on every insert: the primary key on `id`, the
    unique index on `email`, and the declared `varchar` lengths (MySQL in strict
    mode rejects a value that is too long instead of truncating it). */
module Schema {
  import opened Common

  /** Declared length of every `varchar(255)` column. */
  const VarcharMax: nat := 255
  /** Declared length of `postal_code`, a `varchar(10)`. */
  const PostalCodeMax: nat := 10

  /** One row of `member`. Nullable columns are `Option`s; timestamps are
      instants as integers. */
  datatype MemberRow = MemberRow(
    id: string,
    name: Option<string>,
    email: string,
    password: Option<string>,
    image: Option<string>,
    address: Option<string>,
    postalCode: Option<string>,
    createdAt: int,
    updatedAt: int,
    createdBy: Option<string>,
    updatedBy: Option<string>)

  predicate FitsVarchar(x: Option<string>, max: nat) {
    x.None? || |x.value| <= max
  }

  /** Every value fits its column's declared length. */
  predicate Fits(row: MemberRow) {
    && |row.id| <= VarcharMax
    && FitsVarchar(row.name, VarcharMax)
    && |row.email| <= VarcharMax
    && FitsVarchar(row.image, VarcharMax)
    && FitsVarchar(row.postalCode, PostalCodeMax)
    && FitsVarchar(row.createdBy, VarcharMax)
    && FitsVarchar(row.updatedBy, VarcharMax)
  }

  predicate HasId(rows: seq<MemberRow>, id: string) {
    exists i :: 0 <= i < |rows| && rows[i].id == id
  }

  predicate HasEmail(rows: seq<MemberRow>, email: string) {
    exists i :: 0 <= i < |rows| && rows[i].email == email
  }

  /** `name = ?` never matches a NULL name. */
  predicate HasName(rows: seq<MemberRow>, name: string) {
    exists i :: 0 <= i < |rows| && rows[i].name == Some(name)
  }

  predicate IdsUnique(rows: seq<MemberRow>) {
    forall i, j :: 0 <= i < j < |rows| ==> rows[i].id != rows[j].id
  }

  predicate EmailsUnique(rows: seq<MemberRow>) {
    forall i, j :: 0 <= i < j < |rows| ==> rows[i].email != rows[j].email
  }

  /** What the engine guarantees of the table's contents at all times. */
  predicate WellFormed(rows: seq<MemberRow>) {
    && (forall i :: 0 <= i < |rows| ==> Fits(rows[i]))
    && IdsUnique(rows)
    && EmailsUnique(rows)
  }

  /** The engine accepts an insert of `row` into `rows` exactly when no
      constraint is violated. */
  predicate Admissible(rows: seq<MemberRow>, row: MemberRow) {
    Fits(row) && !HasId(rows, row.id) && !HasEmail(rows, row.email)
  }

  /** The constraints checked on insert are exactly those that keep the table
      well formed: an insert is accepted if and only if the grown table is
      still well formed. */
  lemma AdmissibleIffStaysWellFormed(rows: seq<MemberRow>, row: MemberRow)
    requires WellFormed(rows)
    ensures Admissible(rows, row) <==> WellFormed(rows + [row])
  {
    var grown := rows + [row];
    var n := |rows|;
    assert grown[n] == row;
    if WellFormed(grown) {
      assert Fits(grown[n]);
      forall i | 0 <= i < n ensures rows[i].id != row.id && rows[i].email != row.email {
        assert grown[i] == rows[i];
      }
    }
    if Admissible(rows, row) {
      forall i, j | 0 <= i < j < |grown| ensures grown[i].id != grown[j].id && grown[i].email != grown[j].email {
        if j == n {
          assert grown[i] == rows[i];
        } else {
          assert grown[i] == rows[i] && grown[j] == rows[j];
        }
      }
    }
  }

  /** The `member` table as the application sees it through the ORM. */
  class MemberTable {
    var rows: seq<MemberRow>

    ghost predicate Valid()
      reads this
    {
      WellFormed(rows)
    }

    constructor ()
      ensures Valid() && rows == []
    {
      rows := [];
    }

    /** `db.insert(member).values(row)`: the row is appended, or the engine
        raises a constraint violation and nothing changes. */
    method Insert(row: MemberRow) returns (ok: bool)
      requires Valid()
      modifies this
      ensures Valid()
      ensures ok <==> Admissible(old(rows), row)
      ensures rows == if ok then old(rows) + [row] else old(rows)
    {
      ok := Admissible(rows, row);
      if ok {
        AdmissibleIffStaysWellFormed(rows, row);
        rows := rows + [row];
      }
    }
  }
}
