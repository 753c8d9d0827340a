# Diabetes backend: risk scorer and user sheet

This project models the two pieces of logic in the Express server `server.js`:

- **The risk scorer** of `POST /predict`. Six threshold ladders add points to an integer risk score:
  glucose, blood pressure, bmi, age, insulin and diabetes pedigree. The probability is
  `min(score / 10, 1)`, and the prediction is `probability > 0.5`.
- **The user sheet** behind `/register`, `/login`, `/api/user` and `/api/upload-profile-image`.
  The sheet is a flat table of text cells. Row 1 holds the column headings. The user at read
  index `i` sits on sheet row `i + 2`. Columns A–I hold id, name, email, password hash, age,
  weight, height, bmi and the profile image URL.

Modules:

- `common.dfy` (`Common`): optional request fields, handler results, the error replies with their
  status codes and messages, and the session check.
- `risk.dfy` (`Risk`): the scorer as pure functions, with lemmas about its bounds, its
  monotonicity and which inputs it ignores.
- `sheet.dfy` (`Sheet`): the table as `seq<seq<string>>` with the heading row kept in place.
  It has the `A2:H` read, the first-match search, the appended row, the single-cell write, and
  the sheet invariants with lemmas.
- `accounts.dfy` (`Accounts`): the class `UserStore`, whose field `sheet` is the table. Its
  methods are `GetAllUsers`, `AddUser`, `Register`, `Login`, `GetUser` and
  `UploadProfileImage`. The module also holds the lemmas that connect one handler's result with
  the next one's.

The store invariant `UserStore.Valid` holds from the constructor onward:

- every user row has eight or nine cells (`WellFormed`);
- the user on sheet row `n + 1` has the id cell `Decimal(n)` (`WellFormed`);
- no two users share an email (`EmailsUnique`).

`Decimal` is the decimal text that `Number.prototype.toString` gives. Ids are compared as
strings (`user[0] === req.session.userId.toString()`). `DecimalInjective` shows that comparing
the strings is the same as comparing the ids.

Things the model takes as parameters:

- bcrypt: `hash: string -> string` (the salt is folded into it) and
  `verify: (string, string) -> bool`. Where it matters, `HashSound` requires
  `verify(p, hash(p))`.
- The bmi cell: the caller supplies it as text.
- The upload's generated file name.
- The session id, as an `Option<string>`.

## Model

| member | source | states |
|---|---|---|
| `Common.RepliesDistinct` | server.js:176-302 | apart from the field-check replies, two different error kinds never share both status code and `error` text |
| `Risk.Points` | server.js:364-365 | a ladder gives 2 exactly above its upper threshold, 1 exactly between the thresholds, 0 exactly at or below the lower one |
| `Risk.InsulinPoints` | server.js:380 | insulin gives 1 exactly above 25, otherwise 0 |
| `Risk.RiskScore` | server.js:361-384 | the accumulated score lies between 0 and 11 |
| `Risk.Probability` | server.js:387 | the probability lies in [0, 1]; it is 1 for every score of 10 or more, and score/10 below that |
| `Risk.PredictionThreshold` | server.js:387-390 | `probability > 0.5` holds exactly when the score is at least 6 |
| `Risk.Assess` | server.js:386-398 | the reply echoes the features and carries their score, the probability `Probability(score)` (in [0, 1]), and a prediction that is true iff the score is at least 6 |
| `Risk.ToFeatures` | server.js:349-358 | every feature is the request's parsed field, and a missing pregnancies count becomes 0 |
| `Risk.Predict` | server.js:326-398 | no session gives Not authenticated; a missing required field (skin thickness included) gives "All fields are required"; otherwise the reply is the assessment of the request's own features, whose score is their risk score and whose probability is `Probability` of that score |
| `Risk.ScoreMonotone` | server.js:361-384 | raising glucose, blood pressure, bmi, age, insulin or pedigree never lowers the score |
| `Risk.ScoreIgnoresUnscoredFields` | server.js:349-384 | pregnancies and skin thickness never change the score |
| `Risk.MaxScoreReached` | server.js:361-387 | every ladder at its top step gives 11, with probability 1 |
| `Risk.ZeroScoreWhenAllNormal` | server.js:361-390 | every input at or below its lower threshold gives 0, probability 0, a negative prediction |
| `Risk.HighRiskExample` | server.js:361-390 | glucose 150, pressure 130, bmi 32, age 50, insulin 30, pedigree 1.6 score 10, with probability 1 and a positive prediction |
| `Risk.LowRiskExample` | server.js:361-390 | glucose 90, pressure 80, bmi 22, age 20, insulin 10, pedigree 0.3 score 0, with probability 0 and a negative prediction |
| `Sheet.Decimal` | server.js:261 | the id text is non-empty and all digits, and has two or more digits from 10 up |
| `Sheet.DecimalInjective` | server.js:299 | equal id texts mean equal ids, so a string comparison of ids is an id comparison |
| `Sheet.ReadRange` | server.js:101-105 | a read yields one row per sheet row from row 2 down, each cut to the read's columns; a sheet with no users reads as no rows |
| `Sheet.FindFirst` | server.js:299-301 | the search returns the first index whose cell equals the value, or none exactly when no row matches |
| `Sheet.SetCell` | server.js:306-313 | the written cell holds the value, every other cell of the row is unchanged, and skipped columns are blank |
| `Sheet.WriteCell` | server.js:306-308 | only the addressed sheet row changes, and it changes by that one cell |
| `Sheet.ReadRowsOfWellFormed` | server.js:101-105 | on a well-formed sheet every fetched row has the eight cells A–H, and the id of user `i` is `i + 1` |
| `Sheet.FindIdOfWellFormed` | server.js:259-261 | looking up id `k` finds user `k - 1` when that user exists, and nothing otherwise |
| `Sheet.ReadAfterAppend` | server.js:115-124 | after an append, the earlier rows read as before and the new row is read last |
| `Sheet.AppendPreservesWellFormed` | server.js:115-116 | the id `users.length + 1` equals the new row's position, so the invariant holds |
| `Sheet.ReadAfterWriteBeyondWidth` | server.js:306-308 | a write to a column outside the read range leaves every read unchanged |
| `Sheet.WriteImagePreservesWellFormed` | server.js:299-308 | sheet row `index + 2` holds user `index`, and writing its column I keeps the invariant |
| `Sheet.AppendedEmailFound` | server.js:180-185 | an email the duplicate check did not find belongs afterwards to the new row and to no other |
| `Sheet.AppendPreservesEmailsUnique` | server.js:179-203 | a registration that passes the duplicate check keeps emails unique |
| `Accounts.ProfileOf` | server.js:267-276 | the reply carries cells A–H of the row (never the hash in D); the image is `user[8]` when present and non-empty, otherwise the default avatar |
| `Accounts.UserStore.constructor` | server.js:80-87 | the store starts with only the heading row, reads no users, and satisfies the invariant (shape and unique emails) |
| `Accounts.UserStore.GetAllUsers` | server.js:99-110 | the result is the `A2:H` read, one row per user, each with eight cells and never column I |
| `Accounts.UserStore.AddUser` | server.js:113-140 | exactly one row is appended; its id is the previous user count plus one, followed by name, email, hash, age, weight, height and bmi; the existing rows are unchanged; with an email not yet taken, unique emails stay unique |
| `Accounts.UserStore.Register` | server.js:170-212 | a missing field fails first and a taken email fails second, both with the sheet unchanged; otherwise it appends the user row with the hashed password and returns the new id; unique emails stay unique |
| `Accounts.UserStore.Login` | server.js:215-245 | missing fields fail; otherwise it succeeds exactly when the first row with that email passes verification, and the session id is that row's id cell; an unknown email and a wrong password give the same reply, 400 "Invalid email or password" |
| `Accounts.UserStore.GetUser` | server.js:254-281 | no session gives 401; an unmatched id gives 404; otherwise the reply is the profile of the first matching row, always with the default avatar |
| `Accounts.UserStore.UploadProfileImage` | server.js:284-323 | no session, no file and an unmatched id each fail with the sheet unchanged; otherwise it writes the URL to column I of sheet row `index + 2` only, returns that URL, and leaves every user read unchanged |
| `Accounts.ProfileAfterRegister` | server.js:195-206 | after registration the new id's string form finds the new row, and its profile shows the registered fields |
| `Accounts.LoginAfterRegister` | server.js:225-239 | after registering with a fresh email, a login with that email and password finds the new row, passes verification and yields the new id |
| `Accounts.SecondRegistrationRefused` | server.js:180-185 | once an email has been registered, the duplicate check finds it |
| `Accounts.UploadedImageNotShown` | server.js:275 | as written: after an upload, the user's profile still shows the default avatar |
| `Accounts.UploadedImageNotShownExample` | server.js:308-311 | as written: the cell holds `/uploads/a.png`, yet the profile shows `/default-avatar.png` |
| `Accounts.ReadUsersWithImage` | server.js:103 | corrected read `A2:I`: one row per user, agreeing with the `A2:H` read on columns A–H |
| `Accounts.LookupsAgreeUnderEitherRead` | server.js:103 | on any column A–H, the first-match search gives the same index under the `A2:I` read as under `A2:H` |
| `Accounts.FindFirstAgrees` | server.js:181 | two row sequences that agree on a column give the same first match on it |
| `Accounts.UploadedImageShownWithColumnI` | server.js:305-313 | corrected: with the read extended to column I, the profile shows the image just written |

## Left out

- HTTP routing, static files, redirects, logout and CORS: plumbing around the handlers.
- Session cookies: the session is an optional id parameter. Register returns the id, and the
  later handlers receive its `toString()` form.
- Google Sheets authentication and the remote calls. The sheet is an in-memory table, and the
  `initializeSheet` heading bootstrap becomes the constructor's state.
- Remote failures. `getAllUsers` turns a failed fetch into an empty list. That would make the
  next id 1 and would let the duplicate check pass. Failed appends and writes give 500 replies.
  None of this is modelled.
- bcrypt: hashing and comparison are function parameters. The random salt is folded into the
  hash function.
- The bmi computation `weight / (height/100)²`: it is floating point, so the bmi cell is supplied as text.
- `parseFloat`/`parseInt` and JavaScript truthiness. Fields arrive already parsed as `Option`
  values, and a present field is a non-empty string. JSON numbers (0 is falsy) and NaN (every
  comparison false) are not modelled.
- Floating point in the scorer. The features and the probability are exact reals standing for the
  doubles that `parseFloat`/`parseInt` and `riskScore / 10` produce. Input text at the precision
  limit can therefore score differently: the pedigree text `0.80000000000000001` parses to the
  double 0.8, so `> 0.8` is false, while the exact real is above 0.8.
- Number formatting of the non-id cells: the sheet shows age, weight, height and bmi exactly as
  given.
- The sheet API dropping trailing empty cells and empty rows from a read.
- multer: storage, the size limit, the image-extension filter, and the time- and
  random-based file name. The file name is a parameter.
- The read-then-write races on id assignment and on the email check: the model is sequential.
- `app.py` (a Flask wrapper around a trained model, whose only logic is a feature-count check)
  and `train_model.py` (library calls only).

## Findings

| source | as written | input that shows it | evidently intended | confidence | as-written member | corrected member |
|---|---|---|---|---|---|---|
| server.js:103 | `getAllUsers` reads `Users!A2:H`; the upload writes the URL to column I (server.js:308) and `/api/user` shows `user[8]` (server.js:275), which is never fetched | user 1 uploads `a.png`: the cell I2 holds `/uploads/a.png`, but `/api/user` replies `profileImage: "/default-avatar.png"` | the read covers column I (`Users!A2:I`), so the profile shows the uploaded image | high (not executed) | `Accounts.UploadedImageNotShown` | `Accounts.UploadedImageShownWithColumnI` |

The handler methods keep the read as written, because the other handlers share it. The
corrected read `Accounts.ReadUsersWithImage` agrees with it on columns A–H.
`Accounts.LookupsAgreeUnderEitherRead` proves that every email and id search gives the same
index under either read, so register, login, the duplicate check and the upload's row choice
do not change with the correction.
