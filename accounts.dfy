/** Registration, login, profile lookup and profile-image upload over the
    `Users` sheet. Each handler reads the whole sheet, searches it, and at
    most appends one row or overwrites one cell. */
module Accounts {
  import opened Common
  import opened Sheet

  const DefaultAvatar := "/default-avatar.png"
  const UploadDirectory := "/uploads/"

  /** The JSON body of the `/api/user` reply. The password hash is not part
      of it. */
  datatype Profile = Profile(
    id: string,
    name: string,
    email: string,
    age: string,
    weight: string,
    height: string,
    bmi: string,
    profileImage: string)

  /** The reply fields taken from a fetched user row; the image falls back
      to the default avatar when `user[8]` is undefined or empty. */
  function ProfileOf(user: Row): (p: Profile)
    requires |user| >= ReadWidth
    ensures p.id == user[IdColumn] && p.name == user[NameColumn] && p.email == user[EmailColumn]
    ensures p.age == user[AgeColumn] && p.weight == user[WeightColumn]
    ensures p.height == user[HeightColumn] && p.bmi == user[BmiColumn]
    ensures Cell(user, ImageColumn).Some? && user[ImageColumn] != "" ==> p.profileImage == user[ImageColumn]
    ensures Cell(user, ImageColumn).None? || user[ImageColumn] == "" ==> p.profileImage == DefaultAvatar
  {
    Profile(user[IdColumn], user[NameColumn], user[EmailColumn], user[AgeColumn],
            user[WeightColumn], user[HeightColumn], user[BmiColumn],
            if ImageColumn < |user| && user[ImageColumn] != "" then user[ImageColumn]
            else DefaultAvatar)
  }

  /** The URL stored for an uploaded file with the generated `filename`. */
  function ImageUrl(filename: string): (url: string) {
    UploadDirectory + filename
  }

  /** The duplicate check of `/register`: some fetched row has this email
      in column C. */
  predicate EmailTaken(table: Table, email: string) {
    FindFirst(ReadUsers(table), EmailColumn, email).Some?
  }

  /** `bcrypt.compare` accepts every password against its own hash. */
  ghost predicate HashSound(hash: string -> string, verify: (string, string) -> bool) {
    forall p :: verify(p, hash(p))
  }

  /** The spreadsheet and the handlers that use it. */
  class UserStore {
    var sheet: Table

    /** The shape of the sheet: heading row, then user rows with ids in order. */
    ghost predicate Shaped()
      reads this
    {
      WellFormed(sheet)
    }

    /** The store invariant: the shape, and no two users share an email. */
    ghost predicate Valid()
      reads this
    {
      Shaped() && EmailsUnique(ReadUsers(sheet))
    }

    /** A sheet holding only its heading row. */
    constructor ()
      ensures Valid()
      ensures sheet == [HeaderRow]
      ensures ReadUsers(sheet) == []
    {
      sheet := [HeaderRow];
    }

    /** `getAllUsers`: the rows of `Users!A2:H`, so the image column is
        never among the cells returned. */
    method GetAllUsers() returns (users: seq<Row>)
      requires Shaped()
      ensures users == ReadUsers(sheet)
      ensures |users| == |sheet| - 1
      ensures forall i :: 0 <= i < |users| ==> |users[i]| == ReadWidth && Cell(users[i], ImageColumn) == None
    {
      users := ReadUsers(sheet);
      ReadRowsOfWellFormed(sheet);
    }

    /** `addUser`: appends one row whose id is the current user count plus one. */
    method AddUser(u: NewUser) returns (id: nat)
      requires Shaped()
      modifies this
      ensures Shaped()
      ensures old(Valid()) && !EmailTaken(old(sheet), u.email) ==> Valid()
      ensures id == |ReadUsers(old(sheet))| + 1 && id == |old(sheet)|
      ensures sheet == old(sheet) + [UserRow(id, u)]
      ensures ReadUsers(sheet) == ReadUsers(old(sheet)) + [UserRow(id, u)]
    {
      var users := GetAllUsers();
      id := |users| + 1;
      AppendPreservesWellFormed(sheet, u);
      ReadAfterAppend(sheet, UserRow(id, u), ReadWidth);
      if Valid() && !EmailTaken(sheet, u.email) {
        AppendPreservesEmailsUnique(sheet, id, u);
      }
      sheet := sheet + [UserRow(id, u)];
    }

    /** `POST /register`. On success the session holds the returned id. */
    method Register(name: Option<string>, email: Option<string>, password: Option<string>,
                    age: Option<string>, weight: Option<string>, height: Option<string>,
                    bmi: string, hash: string -> string)
      returns (r: Result<nat>)
      requires Valid()
      modifies this
      ensures Valid()
      ensures !(Present(name) && Present(email) && Present(password) && Present(age)
                && Present(weight) && Present(height))
              ==> r == Failure(Invalid(AllFieldsRequired)) && sheet == old(sheet)
      ensures Present(name) && Present(email) && Present(password) && Present(age)
              && Present(weight) && Present(height) && EmailTaken(old(sheet), email.value)
              ==> r == Failure(DuplicateEmail) && sheet == old(sheet)
      ensures Present(name) && Present(email) && Present(password) && Present(age)
              && Present(weight) && Present(height) && !EmailTaken(old(sheet), email.value)
              ==> var row := UserRow(NextId(old(sheet)), NewUser(name.value, email.value,
                                 hash(password.value), age.value, weight.value, height.value, bmi));
                  r == Success(NextId(old(sheet))) && sheet == old(sheet) + [row]
      ensures EmailsUnique(ReadUsers(old(sheet))) ==> EmailsUnique(ReadUsers(sheet))
    {
      if !(Present(name) && Present(email) && Present(password) && Present(age)
           && Present(weight) && Present(height)) {
        return Failure(Invalid(AllFieldsRequired));
      }
      var users := GetAllUsers();
      var existing := FindFirst(users, EmailColumn, email.value);
      if existing.Some? {
        return Failure(DuplicateEmail);
      }
      var hashed := hash(password.value);
      var u := NewUser(name.value, email.value, hashed, age.value, weight.value, height.value, bmi);
      var id := AddUser(u);
      r := Success(id);
    }

    /** `POST /login`. On success the result is the session id: the id cell
        of the first row with this email. An unknown email and a wrong
        password give the same error. */
    method Login(email: Option<string>, password: Option<string>, verify: (string, string) -> bool)
      returns (r: Result<string>)
      requires Valid()
      ensures !(Present(email) && Present(password)) ==> r == Failure(Invalid(CredentialsRequired))
      ensures Present(email) && Present(password) ==>
                var users := ReadUsers(sheet);
                var found := FindFirst(users, EmailColumn, email.value);
                && (r.Success? <==> found.Some? && verify(password.value, users[found.value][PasswordColumn]))
                && (r.Success? ==> r.value == users[found.value][IdColumn])
                && (r.Failure? ==> r.error == InvalidCredentials)
      ensures Present(email) && Present(password) && r.Failure? ==>
                Status(r.error) == 400 && Message(r.error) == "Invalid email or password"
    {
      if !(Present(email) && Present(password)) {
        return Failure(Invalid(CredentialsRequired));
      }
      var users := GetAllUsers();
      var found := FindFirst(users, EmailColumn, email.value);
      if found.None? {
        return Failure(InvalidCredentials);
      }
      var user := users[found.value];
      var validPassword := verify(password.value, user[PasswordColumn]);
      if !validPassword {
        return Failure(InvalidCredentials);
      }
      r := Success(user[IdColumn]);
    }

    /** `GET /api/user`: the profile of the first row whose id cell equals
        the session id. */
    method GetUser(session: Option<string>) returns (r: Result<Profile>)
      requires Valid()
      ensures !SignedIn(session) ==> r == Failure(NotAuthenticated)
      ensures SignedIn(session) ==>
                var users := ReadUsers(sheet);
                match FindFirst(users, IdColumn, session.value)
                case None => r == Failure(UserNotFound)
                case Some(i) => r == Success(ProfileOf(users[i]))
      ensures r.Success? ==> r.value.profileImage == DefaultAvatar
    {
      if !SignedIn(session) {
        return Failure(NotAuthenticated);
      }
      var users := GetAllUsers();
      var found := FindFirst(users, IdColumn, session.value);
      if found.None? {
        return Failure(UserNotFound);
      }
      r := Success(ProfileOf(users[found.value]));
    }

    /** `POST /api/upload-profile-image`: writes the URL into column I of
        the session user's sheet row and returns it. No other cell changes,
        and the user reads return what they returned before. */
    method UploadProfileImage(session: Option<string>, filename: Option<string>)
      returns (r: Result<string>)
      requires Valid()
      modifies this
      ensures Valid()
      ensures !SignedIn(session) ==> r == Failure(NotAuthenticated) && sheet == old(sheet)
      ensures SignedIn(session) && filename.None? ==> r == Failure(NoFileUploaded) && sheet == old(sheet)
      ensures SignedIn(session) && filename.Some? ==>
                match FindFirst(ReadUsers(old(sheet)), IdColumn, session.value)
                case None => r == Failure(UserNotFound) && sheet == old(sheet)
                case Some(i) =>
                  && SheetRowOf(i) <= |old(sheet)|
                  && r == Success(ImageUrl(filename.value))
                  && sheet == WriteCell(old(sheet), SheetRowOf(i), ImageColumn, ImageUrl(filename.value))
      ensures ReadUsers(sheet) == ReadUsers(old(sheet))
    {
      if !SignedIn(session) {
        return Failure(NotAuthenticated);
      }
      if filename.None? {
        return Failure(NoFileUploaded);
      }
      var imageUrl := ImageUrl(filename.value);
      var users := GetAllUsers();
      var userIndex := FindFirst(users, IdColumn, session.value);
      if userIndex.None? {
        return Failure(UserNotFound);
      }
      var row := SheetRowOf(userIndex.value);
      WriteImagePreservesWellFormed(sheet, userIndex.value, imageUrl);
      ReadAfterWriteBeyondWidth(sheet, row, ImageColumn, imageUrl, ReadWidth);
      sheet := WriteCell(sheet, row, ImageColumn, imageUrl);
      r := Success(imageUrl);
    }
  }

  /** After a registration appends `u` with the next id, the id lookup with
      that id's string form finds the new row, and its profile shows the
      registered fields with the default avatar. */
  lemma ProfileAfterRegister(table: Table, u: NewUser)
    requires WellFormed(table)
    ensures var id := NextId(table);
            var users := ReadUsers(table + [UserRow(id, u)]);
            && FindFirst(users, IdColumn, Decimal(id)) == Some(id - 1)
            && ProfileOf(users[id - 1])
               == Profile(Decimal(id), u.name, u.email, u.age, u.weight, u.height, u.bmi, DefaultAvatar)
  {
    var id := NextId(table);
    var t := table + [UserRow(id, u)];
    AppendPreservesWellFormed(table, u);
    FindIdOfWellFormed(t, id);
    ReadAfterAppend(table, UserRow(id, u), ReadWidth);
  }

  /** After a registration with a fresh email, logging in with the same
      email and password succeeds with the new id, provided the verifier
      accepts a password against its own hash. */
  lemma LoginAfterRegister(table: Table, u: NewUser, password: string,
                           hash: string -> string, verify: (string, string) -> bool)
    requires WellFormed(table)
    requires !EmailTaken(table, u.email)
    requires u.passwordHash == hash(password)
    requires HashSound(hash, verify)
    ensures var id := NextId(table);
            var users := ReadUsers(table + [UserRow(id, u)]);
            var found := FindFirst(users, EmailColumn, u.email);
            && found == Some(id - 1)
            && verify(password, users[id - 1][PasswordColumn])
            && users[id - 1][IdColumn] == Decimal(id)
  {
    var id := NextId(table);
    AppendPreservesWellFormed(table, u);
    AppendedEmailFound(table, id, u);
    ReadAfterAppend(table, UserRow(id, u), ReadWidth);
    assert verify(password, hash(password));
  }

  /** Once an email is registered, registering it again is refused. */
  lemma SecondRegistrationRefused(table: Table, id: nat, u: NewUser)
    requires |table| >= 1
    requires !EmailTaken(table, u.email)
    ensures EmailTaken(table + [UserRow(id, u)], u.email)
  {
    AppendedEmailFound(table, id, u);
  }

  /** As written: the image URL an upload stores in column I never reaches
      the profile, because the read stops at column H. */
  lemma UploadedImageNotShown(table: Table, index: nat, url: string)
    requires WellFormed(table)
    requires index < |ReadUsers(table)|
    ensures SheetRowOf(index) <= |table|
    ensures var t := WriteCell(table, SheetRowOf(index), ImageColumn, url);
            |ReadUsers(t)| == |ReadUsers(table)|
            && |ReadUsers(t)[index]| == ReadWidth
            && ProfileOf(ReadUsers(t)[index]).profileImage == DefaultAvatar
  {
    var t := WriteCell(table, SheetRowOf(index), ImageColumn, url);
    WriteImagePreservesWellFormed(table, index, url);
    ReadRowsOfWellFormed(t);
  }

  /** A concrete instance: user 1 uploads `/uploads/a.png`, and the profile
      still shows the default avatar. */
  lemma UploadedImageNotShownExample()
    ensures var table := [HeaderRow, UserRow(1, NewUser("Ann", "ann@x", "h", "30", "60", "170", "20.7"))];
            var t := WriteCell(table, SheetRowOf(0), ImageColumn, "/uploads/a.png");
            && t[1][ImageColumn] == "/uploads/a.png"
            && ProfileOf(ReadUsers(t)[0]).profileImage == DefaultAvatar
  {
    var table := [HeaderRow, UserRow(1, NewUser("Ann", "ann@x", "h", "30", "60", "170", "20.7"))];
    assert WellFormed(table);
    UploadedImageNotShown(table, 0, "/uploads/a.png");
  }

  /** The read the profile needs: `Users!A2:I`, which includes column I. */
  function ReadUsersWithImage(table: Table): (users: seq<Row>)
    ensures |users| == |ReadUsers(table)|
    ensures forall i :: 0 <= i < |users| ==> Prefix(users[i], ReadWidth) == ReadUsers(table)[i]
  {
    ReadRange(table, ImageColumn + 1)
  }

  /** Every lookup on a column the `A2:H` read covers gives the same index
      under the corrected read, so the email and id searches of register,
      login, profile and upload are unaffected by the correction. */
  lemma LookupsAgreeUnderEitherRead(table: Table, col: nat, value: string)
    requires col < ReadWidth
    ensures FindFirst(ReadUsersWithImage(table), col, value) == FindFirst(ReadUsers(table), col, value)
  {
    var wide := ReadUsersWithImage(table);
    var narrow := ReadUsers(table);
    forall j | 0 <= j < |wide| ensures Cell(wide[j], col) == Cell(narrow[j], col) {
      assert narrow[j] == Prefix(wide[j], ReadWidth);
    }
    FindFirstAgrees(wide, narrow, col, value);
  }

  /** Two row sequences that agree on a column give the same first match. */
  lemma {:induction false} FindFirstAgrees(a: seq<Row>, b: seq<Row>, col: nat, value: string)
    requires |a| == |b|
    requires forall j :: 0 <= j < |a| ==> Cell(a[j], col) == Cell(b[j], col)
    ensures FindFirst(a, col, value) == FindFirst(b, col, value)
  {
    if |a| > 0 {
      FindFirstAgrees(a[1..], b[1..], col, value);
    }
  }

  /** Corrected: with the read extended to column I, the profile of the
      user whose image was just written shows that image. */
  lemma UploadedImageShownWithColumnI(table: Table, index: nat, url: string)
    requires WellFormed(table)
    requires index < |ReadUsers(table)|
    requires url != ""
    ensures SheetRowOf(index) <= |table|
    ensures var t := WriteCell(table, SheetRowOf(index), ImageColumn, url);
            |ReadUsersWithImage(t)| == |ReadUsers(table)|
            && |ReadUsersWithImage(t)[index]| == ImageColumn + 1
            && ProfileOf(ReadUsersWithImage(t)[index]).profileImage == url
  {
    var t := WriteCell(table, SheetRowOf(index), ImageColumn, url);
    WriteImagePreservesWellFormed(table, index, url);
    var users := ReadUsersWithImage(t);
    assert users[index] == Prefix(t[index + 1], ImageColumn + 1);
  }
}
