/** The `Users` spreadsheet as a flat table of text cells. Row 1 holds the
    column headings; the user with index i (0-based, in read order) sits on
    sheet row i + 2. Columns A..I hold id, name, email, password hash, age,
    weight, height, bmi and the profile image URL. */
module Sheet {
  import opened Common

  type Row = seq<string>

  /** The whole sheet: `table[n - 1]` is sheet row n (1-based). */
  type Table = seq<Row>

  const IdColumn: nat := 0
  const NameColumn: nat := 1
  const EmailColumn: nat := 2
  const PasswordColumn: nat := 3
  const AgeColumn: nat := 4
  const WeightColumn: nat := 5
  const HeightColumn: nat := 6
  const BmiColumn: nat := 7
  const ImageColumn: nat := 8     // column I

  /** The user reads fetch `Users!A2:H`: eight columns from sheet row 2. */
  const ReadWidth: nat := 8
  const FirstUserRow: nat := 2

  const HeaderRow: Row := ["id", "name", "email", "password", "age", "weight", "height", "bmi"]

  // ---------------------------------------------------------------- ids

  function Digit(d: nat): (c: char)
    requires d < 10
  {
    ('0' as int + d) as char
  }

  /** The decimal text of a non-negative integer, as JavaScript's
      `Number.prototype.toString` writes it and as the sheet shows a number
      that was written raw. */
  function Decimal(n: nat): (s: string)
    ensures |s| >= 1
    ensures n >= 10 ==> |s| >= 2
    ensures forall k :: 0 <= k < |s| ==> '0' <= s[k] <= '9'
  {
    if n < 10 then [Digit(n)] else Decimal(n / 10) + [Digit(n % 10)]
  }

  lemma DigitInjective(d: nat, e: nat)
    requires d < 10 && e < 10 && Digit(d) == Digit(e)
    ensures d == e
  {
    assert Digit(d) as int == '0' as int + d;
    assert Digit(e) as int == '0' as int + e;
  }

  /** Distinct ids have distinct decimal texts, so comparing id cells as
      strings compares the ids. */
  lemma {:induction false} DecimalInjective(a: nat, b: nat)
    requires Decimal(a) == Decimal(b)
    ensures a == b
  {
    if a < 10 && b < 10 {
      DigitInjective(a, b);
    } else if a >= 10 && b >= 10 {
      var s := Decimal(a);
      assert s == Decimal(a / 10) + [Digit(a % 10)];
      assert s == Decimal(b / 10) + [Digit(b % 10)];
      assert s[..|s| - 1] == Decimal(a / 10);
      assert s[..|s| - 1] == Decimal(b / 10);
      DecimalInjective(a / 10, b / 10);
      assert s[|s| - 1] == Digit(a % 10) == Digit(b % 10);
      DigitInjective(a % 10, b % 10);
    }
  }

  // ---------------------------------------------------------------- reads

  /** `row[col]` in JavaScript: `None` stands for `undefined`. */
  function Cell(row: Row, col: nat): (c: Option<string>) {
    if col < |row| then Some(row[col]) else None
  }

  /** The cells of a row that fall in the first `width` columns. */
  function Prefix(row: Row, width: nat): (r: Row)
    ensures |r| == if |row| < width then |row| else width
    ensures forall c :: 0 <= c < |r| ==> r[c] == row[c]
  {
    if |row| <= width then row else row[..width]
  }

  /** The value rows of a read of columns 1..width from sheet row 2 down;
      an empty range reads as no rows. */
  function ReadRange(table: Table, width: nat): (users: seq<Row>)
    ensures |users| == if |table| == 0 then 0 else |table| - 1
    ensures forall i :: 0 <= i < |users| ==> users[i] == Prefix(table[i + 1], width)
  {
    if |table| <= 1 then []
    else seq(|table| - 1, i requires 0 <= i < |table| - 1 => Prefix(table[i + 1], width))
  }

  /** `getAllUsers`: the range `Users!A2:H`. */
  function ReadUsers(table: Table): (users: seq<Row>) {
    ReadRange(table, ReadWidth)
  }

  /** The 1-based sheet row of the user at read index `index`. */
  function SheetRowOf(index: nat): (n: nat) {
    index + FirstUserRow
  }

  /** `users.findIndex(user => user[col] === value)`, with -1 as `None`;
      `users.find` is the row at the same index. */
  function FindFirst(users: seq<Row>, col: nat, value: string): (r: Option<nat>)
    ensures r.Some? ==> r.value < |users| && Cell(users[r.value], col) == Some(value)
    ensures r.Some? ==> forall j :: 0 <= j < r.value ==> Cell(users[j], col) != Some(value)
    ensures r.None? <==> forall j :: 0 <= j < |users| ==> Cell(users[j], col) != Some(value)
  {
    if |users| == 0 then None
    else if Cell(users[0], col) == Some(value) then Some(0)
    else match FindFirst(users[1..], col, value)
      case None => None
      case Some(k) => Some(k + 1)
  }

  // ---------------------------------------------------------------- writes

  /** What `addUser` is given. */
  datatype NewUser = NewUser(
    name: string,
    email: string,
    passwordHash: string,
    age: string,
    weight: string,
    height: string,
    bmi: string)

  /** The row `addUser` appends: the id, then the seven fields in order. */
  function UserRow(id: nat, u: NewUser): (r: Row) {
    [Decimal(id), u.name, u.email, u.passwordHash, u.age, u.weight, u.height, u.bmi]
  }

  /** `users.length + 1` for the users the sheet currently holds. */
  function NextId(table: Table): (id: nat) {
    |ReadUsers(table)| + 1
  }

  /** A single-cell update of a row; columns between the row's end and
      `col` are left blank. */
  function SetCell(row: Row, col: nat, v: string): (r: Row)
    ensures |r| == if col < |row| then |row| else col + 1
    ensures r[col] == v
    ensures forall c :: 0 <= c < |row| && c != col ==> r[c] == row[c]
    ensures forall c :: |row| <= c < col ==> r[c] == ""
  {
    if col < |row| then row[col := v] else row + seq(col - |row|, _ => "") + [v]
  }

  /** A `values.update` of the one-cell range at sheet row `n`, column `col`. */
  function WriteCell(table: Table, n: nat, col: nat, v: string): (t: Table)
    requires 1 <= n <= |table|
    ensures |t| == |table|
    ensures forall k :: 0 <= k < |table| && k != n - 1 ==> t[k] == table[k]
    ensures t[n - 1] == SetCell(table[n - 1], col, v)
  {
    table[n - 1 := SetCell(table[n - 1], col, v)]
  }

  // ---------------------------------------------------------------- invariants

  /** The shape every sheet reached from the heading row alone has: a
      heading row, and below it user rows of eight or nine cells whose id
      cell is the user's position (the user on sheet row n + 1 has id n). */
  ghost predicate WellFormed(table: Table) {
    && |table| >= 1
    && forall n :: 1 <= n < |table| ==>
         ReadWidth <= |table[n]| <= ImageColumn + 1 && table[n][IdColumn] == Decimal(n)
  }

  /** No two users share an email cell. */
  ghost predicate EmailsUnique(users: seq<Row>) {
    forall i, j :: 0 <= i < j < |users| ==> Cell(users[i], EmailColumn) != Cell(users[j], EmailColumn)
  }

  /** Every read row of a well-formed sheet has all eight cells A..H, and
      its id is its index plus one. */
  lemma ReadRowsOfWellFormed(table: Table)
    requires WellFormed(table)
    ensures |ReadUsers(table)| == |table| - 1
    ensures forall i :: 0 <= i < |ReadUsers(table)| ==>
              |ReadUsers(table)[i]| == ReadWidth && ReadUsers(table)[i][IdColumn] == Decimal(i + 1)
  {
    var users := ReadUsers(table);
    forall i | 0 <= i < |users|
      ensures |users[i]| == ReadWidth && users[i][IdColumn] == Decimal(i + 1)
    {
      assert users[i] == Prefix(table[i + 1], ReadWidth);
    }
  }

  /** On a well-formed sheet, the id-column lookup of `Decimal(k)` finds
      exactly the k-th user, and nothing for ids no user has. */
  lemma FindIdOfWellFormed(table: Table, k: nat)
    requires WellFormed(table)
    ensures FindFirst(ReadUsers(table), IdColumn, Decimal(k))
            == if 1 <= k < |table| then Some(k - 1) else None
  {
    var users := ReadUsers(table);
    ReadRowsOfWellFormed(table);
    forall j | 0 <= j < |users| && Cell(users[j], IdColumn) == Some(Decimal(k))
      ensures j == k - 1
    {
      DecimalInjective(j + 1, k);
    }
    var r := FindFirst(users, IdColumn, Decimal(k));
    if 1 <= k < |table| {
      assert Cell(users[k - 1], IdColumn) == Some(Decimal(k));
    }
  }

  /** Appending a row leaves the rows read before it as they were and adds
      the new row's first `width` cells at the end. */
  lemma ReadAfterAppend(table: Table, row: Row, width: nat)
    requires |table| >= 1
    ensures ReadRange(table + [row], width) == ReadRange(table, width) + [Prefix(row, width)]
  {
    var after := ReadRange(table + [row], width);
    var before := ReadRange(table, width) + [Prefix(row, width)];
    assert |after| == |before|;
    forall i | 0 <= i < |after| ensures after[i] == before[i] {
      assert (table + [row])[i + 1] == if i + 1 < |table| then table[i + 1] else row;
    }
  }

  /** The id an append assigns is the new user's index plus one, so the new
      row keeps the sheet well formed. */
  lemma AppendPreservesWellFormed(table: Table, u: NewUser)
    requires WellFormed(table)
    ensures NextId(table) == |table|
    ensures WellFormed(table + [UserRow(NextId(table), u)])
  {
    ReadRowsOfWellFormed(table);
  }

  /** Writing a column at or beyond the read width changes nothing a read
      of that width returns, provided the row already spans the width. */
  lemma ReadAfterWriteBeyondWidth(table: Table, n: nat, col: nat, v: string, width: nat)
    requires 1 <= n <= |table|
    requires width <= col && width <= |table[n - 1]|
    ensures ReadRange(WriteCell(table, n, col, v), width) == ReadRange(table, width)
  {
    var t := WriteCell(table, n, col, v);
    var after := ReadRange(t, width);
    var before := ReadRange(table, width);
    forall i | 0 <= i < |after| ensures after[i] == before[i] {
      if i + 1 == n - 1 {
        var r := SetCell(table[n - 1], col, v);
        assert Prefix(r, width) == Prefix(table[n - 1], width);
      }
    }
  }

  /** Writing the image cell of a user keeps the sheet well formed. */
  lemma WriteImagePreservesWellFormed(table: Table, index: nat, url: string)
    requires WellFormed(table)
    requires index < |ReadUsers(table)|
    ensures SheetRowOf(index) <= |table|
    ensures WellFormed(WriteCell(table, SheetRowOf(index), ImageColumn, url))
  {
  }

  /** An email the duplicate check did not find becomes the last user's,
      and only that user's. */
  lemma AppendedEmailFound(table: Table, id: nat, u: NewUser)
    requires |table| >= 1
    requires FindFirst(ReadUsers(table), EmailColumn, u.email).None?
    ensures FindFirst(ReadUsers(table + [UserRow(id, u)]), EmailColumn, u.email) == Some(|table| - 1)
  {
    ReadAfterAppend(table, UserRow(id, u), ReadWidth);
    var users := ReadUsers(table + [UserRow(id, u)]);
    assert users[|table| - 1] == UserRow(id, u);
    forall j | 0 <= j < |table| - 1 ensures Cell(users[j], EmailColumn) != Some(u.email) {
      assert users[j] == ReadUsers(table)[j];
    }
  }

  /** Appending a user whose email was not found keeps emails unique. */
  lemma AppendPreservesEmailsUnique(table: Table, id: nat, u: NewUser)
    requires |table| >= 1
    requires EmailsUnique(ReadUsers(table))
    requires FindFirst(ReadUsers(table), EmailColumn, u.email).None?
    ensures EmailsUnique(ReadUsers(table + [UserRow(id, u)]))
  {
    ReadAfterAppend(table, UserRow(id, u), ReadWidth);
    var before := ReadUsers(table);
    var users := ReadUsers(table + [UserRow(id, u)]);
    assert users == before + [UserRow(id, u)];
    forall i, j | 0 <= i < j < |users|
      ensures Cell(users[i], EmailColumn) != Cell(users[j], EmailColumn)
    {
      if j == |before| {
        assert Cell(users[j], EmailColumn) == Some(u.email);
        assert users[i] == before[i];
      } else {
        assert users[i] == before[i] && users[j] == before[j];
      }
    }
  }
}
