# Church back office — a Dafny model

This project models the core of a church administration system. Its back end is an ASP.NET Core API; its front end is a set of React pages. The model covers:

- **The record stores.** These are members and their relatives, music-school students and pre-registrations, jiu-jitsu students, men's-group members, users, and child presentations. Each store is a `Table`: a map from id to record plus the next identity value. Create, update, soft delete, get and list are pure functions that return `Result` values. Their errors (`NotFound`, `BadRequest`, the automatic `Invalid` 400, `Unauthorized`, `Forbidden`) carry the controllers' status codes and messages.
- **Email uniqueness.** A create is refused with 400 "Email já cadastrado" when the email is already in use. An update is refused only when it changes the email to one in use. The unique indexes become a store invariant that every operation keeps.
- **The statistics endpoints.** These cover the members, the music school and the child presentations. Each is stated as counts over the active rows, with the partition and sum relations between them.
- **The certificate life cycle.** This covers the merge of the optional overrides, the certificate as an ordered list of blocks, the file name and paths, the generated flag and path written together, and the download guard and name.
- **The pre-registration life cycle.** A submission starts pending. The "Contatado" status stamps the contact date once. A conversion is guarded by a case-insensitive email check.
- **The date arithmetic.** This covers .NET `AddYears` ages, the browser's age, months of age and their Portuguese label, `dd/MM/yyyy`, and the `yyyyMMddHHmmss` stamp.
- **Login and seeding.** The login decision, and the seeding of the administrator with the jiu-jitsu payment repair.
- **The connection string.** The choice of database source and the conversion of a `DATABASE_URL` into a connection string.
- **The pages' own logic.** Each page's required-field checks and email regex, the error banners for each HTTP status, the colour, icon and chip maps, the search filters, and the pre-registration form and the administration panel.

**Modules.** `Common`, `Text`, `Dates`, `Counting`, `Sorting`, `Tables`, `Annotations` and `Forms` are shared foundations. There is one module per controller or service, and one per page.

**Parameters.** The clock, GUIDs, BCrypt hashing and verification, the JWT token, the outcome of file writes and existence checks, and `System.Uri` parsing all become parameters.

**Representations.**

- Money is whole cents.
- Dates are calendar triples. Times of day are dropped, except in the certificate stamp.
- Text is `seq<char>`. Length limits count UTF-16 code units, as .NET's `string.Length` and JavaScript's `.length` do: a character outside the Basic Multilingual Plane counts twice.
- The .NET 32-bit counters are written out with their wrap-around.
- The name listings sort under the database's collation, which the program does not fix. They take it as a parameter: any total preorder on names.

## Model

| member | source | states |
|---|---|---|
| Tables.Find | backend/Controllers/MembersController.cs:94-101 | a lookup by id finds a row exactly when the id is a key, and returns that row |
| Tables.Add | backend/Controllers/MembersController.cs:164-165 | an insert gives the new row a fresh positive id that was not a key, keeps the id invariant and changes nothing else |
| Tables.CreateUnique | backend/Controllers/MembersController.cs:159-166 | a create fails iff some row, active or not, has exactly the same email; it then answers 400 "Email já cadastrado"; otherwise it inserts exactly one row |
| Tables.UpdateUnique | backend/Controllers/MembersController.cs:209-221 | an update is 404 for an unknown id; it fails iff the email changes to one in use; on success only that row is replaced |
| Tables.SameEmailNeverConflicts | backend/Controllers/MembersController.cs:216-221 | keeping one's own email always passes the duplicate check |
| Tables.Modify | backend/Controllers/MembersController.cs:261-272 | a single-row change is 404 iff the id is unknown; it keeps the key set and the identity counter |
| Tables.ModifyKeepsInv | backend/Data/AppDbContext.cs:22-36 | a change that keeps the email and the row's admissibility preserves the unique-email store invariant |
| Tables.Rows | backend/Controllers/MembersController.cs:35-43 | the table as a list of (id, row) pairs: every row once, in increasing id order |
| Tables.ListRows | backend/Controllers/MembersController.cs:37-43 | the rows a filter keeps, each exactly once and sorted by the key, are exactly the kept rows of the table |
| Tables.CountAfterChange | backend/Controllers/MembersController.cs:263-272 | replacing one row changes a count over the table by the change in that row alone |
| Tables.CountAfterAdd | backend/Controllers/MembersController.cs:164-166 | inserting a row raises a count by one exactly when the new row is counted |
| Sorting.SortBy | backend/Controllers/MembersController.cs:42-43 | the `OrderBy` result is sorted by the key and is a permutation of its input |
| Sorting.StrLeIsTotalPreorder | backend/Controllers/MusicSchoolController.cs:35 | code-point order, the order of PostgreSQL's "C" collation, is a total preorder, so it is one collation the name listings accept |
| Sorting.LaterOrSameIsTotalPreorder | backend/Controllers/MusicSchoolController.cs:260 | the descending date order is a total preorder |
| Counting.CountPartition4 | backend/Controllers/ChildPresentationController.cs:218-221 | four predicates that split a list count to its length |
| Counting.CountUpdate | frontend/src/components/PreRegistrationManagement.tsx:159-161 | replacing one element of a list changes a count by that element's contribution only |
| Counting.GroupCounts | backend/Controllers/MusicSchoolController.cs:177-185 | a group-by dictionary lists each key of the list exactly once, with its number of occurrences |
| Counting.GroupCountsSum | backend/Controllers/MusicSchoolController.cs:177-185 | the values of a group-by dictionary sum to the length of the list |
| Counting.FilterFilter | frontend/src/pages/MusicSchool.tsx:132-156 | filtering twice equals filtering once by the conjunction |
| Text.Trim | frontend/src/pages/Members.tsx:179-187 | `trim()` gives a contiguous piece of its input with only white space before and after it, and the piece neither starts nor ends with white space |
| Text.TrimIsFramedCore | frontend/src/pages/Members.tsx:179-187 | any piece of the text with only white space around it and none at its ends is the trimmed text, so only the leading and trailing runs are removed |
| Text.TrimEmptyIffAllSpace | frontend/src/pages/Members.tsx:179-187 | the trimmed text is empty iff the text is all white space, so a field counts as blank exactly then |
| Text.Lower | backend/Controllers/MembersController.cs:294 | case mapping works character by character and keeps the length |
| Text.LowerIdempotent | backend/Controllers/MembersController.cs:294 | lower-casing twice equals lower-casing once |
| Text.IncludesIffOccurs | frontend/src/pages/MusicSchool.tsx:135-142 | `includes` holds iff the fragment occurs at some position of the text |
| Text.Utf16Length | backend/DTOs/MemberDtos.cs:11 | the length the limits compare is at least the character count and at most twice it; it equals the character count iff every character is in the Basic Multilingual Plane, and twice it iff none is |
| Text.Utf16LengthConcat | backend/DTOs/MemberDtos.cs:11 | code units add up over a concatenation |
| Text.ReplaceChar | backend/Services/PdfService.cs:204 | `Replace` changes exactly the occurrences of the given character and keeps the length |
| Text.ReplaceCharRemoves | backend/Services/PdfService.cs:204 | after replacing a character by a different one, it no longer occurs |
| Text.TrimChar | backend/Program.cs:263 | `Trim('/')` gives a contiguous piece of its input with only the character before and after it, and the piece neither starts nor ends with the character |
| Text.TrimCharIsFramedCore | backend/Program.cs:263 | any piece of the text with only the character around it and not at its ends is the trimmed text, so the `Database=` value is the path without its outer slashes |
| Text.TrimCharFixpoint | backend/Program.cs:263 | a text that neither starts nor ends with the character is unchanged, so trimming twice equals trimming once |
| Text.JoinSplit | backend/Program.cs:264 | `Split` then `Join` on the same separator gives back the text |
| Text.ParseNatToString | backend/Controllers/ChildPresentationController.cs:340 | the decimal rendering of a number reads back as the number |
| Text.SplitJoin | backend/Program.cs:264 | pieces without the separator, joined and split again, give back the pieces |
| Dates.DaysInMonth | backend/DTOs/MemberDtos.cs:109 | month lengths of the Gregorian calendar, 29 days for February exactly in leap years |
| Dates.AddYears | backend/DTOs/MemberDtos.cs:109 | `AddYears` keeps month and day, except that 29 February becomes 28 February in a common year |
| Dates.Age | backend/DTOs/MemberDtos.cs:108-110 | the .NET age is the year difference or one less, and never negative for a birth date not after today |
| Dates.AgeIffBetweenAnniversaries | backend/DTOs/MemberDtos.cs:108-110 | the age is n exactly when today lies from the n-th anniversary up to the day before the (n+1)-th |
| Dates.NullableAge | backend/DTOs/JiuJitsuDtos.cs:64-66 | the DTO age is null iff there is no birth date; otherwise it is the number of anniversaries reached |
| Dates.LeapdayBirthdayInCommonYear | backend/DTOs/MemberDtos.cs:108-110 | someone born on 29 February is a year older on 28 February of a common year |
| Dates.BrowserAge | frontend/src/pages/MusicSchoolPreRegistration.tsx:129-140 | the page's age is the year difference, less one when this year's month and day have not yet been reached |
| Dates.BrowserAgeVersusServerAge | frontend/src/pages/MusicSchoolPreRegistration.tsx:133-139 | the browser's age equals the server's, except on 28 February of a common year for a 29 February birth, where it is one less |
| Dates.AgeInMonths | backend/DTOs/ChildPresentationDtos.cs:80-81 | months of age are null exactly for `DateTime.MinValue` |
| Dates.MonthsBetween | backend/DTOs/ChildPresentationDtos.cs:80-81 | the month difference is 0 within the birth month and negative exactly when today's month comes before the birth month |
| Dates.BrowserAgeFromMonths | frontend/src/pages/ChildPresentations.tsx:258-262 | the page's month arithmetic, less one for a day not yet reached, divided by 12, is the browser age |
| Dates.MonthsLabelRoundTrip | frontend/src/pages/ChildPresentations.tsx:263-268 | the label "{n} meses", "{y} anos" or "{y} anos e {m} meses" reads back as the number of months it shows |
| Dates.FormatDateRoundTrip | backend/Services/PdfService.cs:81-82 | `dd/MM/yyyy` of a valid date parses back to the date |
| Dates.StampRoundTrip | backend/Controllers/ChildPresentationController.cs:340 | the `yyyyMMddHHmmss` stamp of a valid moment reads back as that moment |
| Dates.StampInjective | backend/Controllers/ChildPresentationController.cs:340 | two valid moments have the same stamp iff they are equal |
| Dates.DayNumberMonotone | backend/Controllers/ChildPresentationController.cs:218-221 | the day count since the epoch grows strictly with the calendar order, so day differences order birth dates |
| Annotations.AstralTextCountsTwice | backend/DTOs/MemberDtos.cs:11 | a name of 51 emoji has fewer than 100 characters yet breaks `[MaxLength(100)]` |
| Annotations.EmailAddressIffSingleInnerAt | backend/DTOs/MemberDtos.cs:37-39 | `[EmailAddress]` holds iff the text has exactly one '@', neither first nor last |
| Forms.EmailRegexIffShape | frontend/src/pages/Members.tsx:190-194 | `/^[^\s@]+@[^\s@]+\.[^\s@]+$/` matches iff there is no white space, exactly one '@' with text before it, and a '.' after it that is neither first nor last in the domain |
| Forms.CheckForm | frontend/src/pages/Members.tsx:179-194 | the blank fields are reported first and block the request; the email regex comes next; the form is sent only when both pass |
| Forms.MissingLabelsAreBlankFields | frontend/src/pages/Members.tsx:179-187 | the reported labels are exactly the labels of the blank fields, in form order |
| Forms.ReportedIffBlank | frontend/src/pages/Members.tsx:179-187 | with distinct labels, a field's label is reported iff the field is blank |
| Forms.OrElse | frontend/src/pages/MusicSchoolPreRegistration.tsx:124 | `message \|\| fallback`: the server's non-empty message, or the fallback |
| Forms.Banner | frontend/src/pages/JiuJitsu.tsx:205-214 | the first status branch that matches decides the text; with no match the default branch does |
| Forms.BannerFirstMatch | frontend/src/pages/JiuJitsu.tsx:205-214 | when the k-th branch is the first with that status, its text is shown |
| Users.View | backend/Controllers/UsersController.cs:35-43 | the view carries the id, name, email, role, creation date and flag of the row |
| Users.ViewHidesHash | backend/Controllers/UsersController.cs:108-116 | no response depends on the password hash |
| Users.GetUsers | backend/Controllers/UsersController.cs:30-43 | only an administrator gets the list, one view per stored user |
| Users.GetUser | backend/Controllers/UsersController.cs:55-72 | only for an administrator; 404 iff the id is unknown |
| Users.CreateUser | backend/Controllers/UsersController.cs:84-116 | only for an administrator; refused with 400 iff the email is taken; the new user is active and stores hash(password) |
| Users.Apply | backend/Controllers/UsersController.cs:136-142 | an update sets name, email and role, rehashes only for a non-empty password, and keeps the flag and creation date |
| Users.UpdateUser | backend/Controllers/UsersController.cs:120-144 | only for an administrator; 404 for an unknown id; a duplicate is checked only on an email change |
| Users.DeleteUser | backend/Controllers/UsersController.cs:152-164 | only for an administrator; 404 iff unknown; otherwise only the flag is cleared |
| Users.EmptyPasswordKeepsHash | backend/Controllers/UsersController.cs:139-142 | an update without a password keeps the stored hash |
| Users.NonAdminsGetNothing | backend/Controllers/UsersController.cs:30 | every user endpoint refuses a caller who is not an administrator, and no table changes |
| Auth.FindActive | backend/Controllers/AuthController.cs:41-42 | the lookup finds a row whose email matches exactly and that is active, and finds none iff no such row exists |
| Auth.Login | backend/Controllers/AuthController.cs:35-65 | a login succeeds iff an active user has that exact email and the password verifies against its hash; it answers with that user's name, email, role and token |
| Auth.FailuresIndistinguishable | backend/Controllers/AuthController.cs:44-54 | an unknown email, an inactive account and a wrong password all give the same 401 answer |
| Auth.LoginAfterCreate | backend/Controllers/UsersController.cs:90-103 | a user created by an administrator can log in with the password given at creation |
| Auth.NoLoginAfterDelete | backend/Controllers/UsersController.cs:155-164 | after a soft delete the user can no longer log in, whatever the password |
| Database.DefaultAdmin | backend/Data/DbInitializer.cs:19-27 | the seeded user is an active administrator with the administrator's email |
| Database.FixStudent | backend/Data/DbInitializer.cs:38-45 | a jiu-jitsu student with a null or empty payment status gets "Em dia"; any other is unchanged |
| Database.FixJiuJitsuStudentData | backend/Data/DbInitializer.cs:36-51 | after the repair no student has an empty status, the keys are the same, and rows that had a status are untouched |
| Database.SeedData | backend/Data/DbInitializer.cs:8-34 | seeding adds the administrator iff its email is absent, repairs the jiu-jitsu rows, keeps the other stores and keeps the unique indexes |
| Database.SeedingLeavesOneAdminEmail | backend/Data/DbInitializer.cs:11-30 | after seeding the administrator's email is in use |
| Database.SeedDataIdempotent | backend/Data/DbInitializer.cs:11-16 | seeding twice gives the same database as seeding once |
| Startup.Choose | backend/Program.cs:56-65 | `DATABASE_URL` wins over `Database:Url`, which wins over `DefaultConnection`; only an absent value falls through; the source is named accordingly |
| Startup.UpperSchemeIsUrl | backend/Program.cs:71-72 | the scheme test ignores case |
| Startup.KeyValueIsNotUrl | backend/Program.cs:71-74 | a key=value connection string is not taken for a URL |
| Startup.UserInfoRoundTrip | backend/Program.cs:264-266 | for "user:password" with one colon, the user and the password pieces put back together give the user info |
| Startup.PasswordOf | backend/Program.cs:264-266 | the password is the second ':' piece, "" without a colon; text after a second colon is dropped |
| Startup.PortOf | backend/Program.cs:268 | the port is the URI's when positive, 5432 otherwise |
| Startup.ConnectionStringSettings | backend/Program.cs:270 | with no ';' in the parts, splitting the connection string on ';' gives the seven settings in order |
| Startup.ConvertPostgresUrl | backend/Program.cs:256-279 | a parse failure becomes the "Failed to parse DATABASE_URL" error; a parsed URI becomes its connection string |
| Startup.Configure | backend/Program.cs:56-74 | a blank chosen value stops start-up with "Database not configured"; a URL is converted; anything else is used verbatim |
| Startup.BlankEnvironmentShadowsConfig | backend/Program.cs:56-69 | a `DATABASE_URL` that is set but blank stops start-up even when the configuration holds a value |
| Startup.PlainValueVerbatim | backend/Program.cs:74 | a value that is not a URL is the connection string as it stands |
| Members.NewProfile | backend/Models/Member.cs:24-73 | a new profile defaults to "Não informado", "Solteiro(a)", city "Não informado", "Membro" and "Não batizado"; it is admissible iff the declared attributes hold |
| Members.GetMembers | backend/Controllers/MembersController.cs:26-43 | the list holds the active members, or all when asked, each once with its id, ordered by full name under the database's collation, whatever total preorder that is |
| Members.FamilyOf | backend/Controllers/MembersController.cs:94-96 | the family listed with a member is exactly the relatives whose member id is that member's |
| Members.GetMember | backend/Controllers/MembersController.cs:92-101 | a member is found iff the id is known, inactive members included, with their relatives |
| Members.CreateMember | backend/Controllers/MembersController.cs:156-196 | an inadmissible body is refused first; a taken email gives 400; a new member is active with the body's profile |
| Members.UpdateMember | backend/Controllers/MembersController.cs:207-253 | 404 for an unknown id; a duplicate is checked only on an email change; the profile is replaced and the flag kept |
| Members.DeleteMember | backend/Controllers/MembersController.cs:261-272 | 404 iff unknown; otherwise only the flag is cleared and the relatives stay |
| Members.Extension | backend/Controllers/MembersController.cs:294 | `GetExtension` is the text from the last '.' of the last path segment, or "" when there is none |
| Members.UploadPhoto | backend/Controllers/MembersController.cs:279-318 | 404 for an unknown member; 400 for a missing or empty file; 400 iff the lower-cased extension is not .jpg/.jpeg/.png/.gif; otherwise only the photo path changes |
| Members.PhotoPathKeepsExtension | backend/Controllers/MembersController.cs:308-315 | the stored photo path ends in the uploaded file's extension |
| Members.PhotoPathsDistinct | backend/Controllers/MembersController.cs:308 | photos of two different members never share a path |
| Members.AgeGroupIffTest | backend/Controllers/MembersController.cs:352-360 | a member's age group is the bucket whose calendar-year test it passes; -1 iff the birth year is after this year |
| Members.AgeGroupsPartition | backend/Controllers/MembersController.cs:352-360 | the six age groups sum to the active count iff no birth year is after the current year |
| Members.GetStats | backend/Controllers/MembersController.cs:326-373 | total = active + inactive; each distribution counts exact matches among active members, so its sum is at most the active count |
| Members.ActiveSplit | backend/Controllers/MembersController.cs:333-335 | every member is active or inactive |
| Members.AddFamilyMember | backend/Controllers/MembersController.cs:383-405 | a relative is added iff the member exists, and it belongs to that member |
| Members.UpdateFamilyMember | backend/Controllers/MembersController.cs:412-430 | succeeds iff the relative exists and belongs to the member in the route |
| Members.RemoveFamilyMember | backend/Controllers/MembersController.cs:437-450 | removes exactly that relative iff it belongs to the member in the route |
| Members.FamilyGuardedByOwner | backend/Controllers/MembersController.cs:414-420 | another member's relative can be neither changed nor removed |
| Members.MemberWritesKeepFamily | backend/Models/Member.cs:114-115 | member create, update, delete and photo upload keep every relative attached to an existing member |
| Members.NewMemberHasNoFamily | backend/Models/Member.cs:92-107 | a new member is readable, active and has no relatives |
| Members.DeleteKeepsMemberReadable | backend/Controllers/MembersController.cs:261-272 | a deleted member is still found by id, is inactive, and leaves the default list |
| Members.UpdateIdempotent | backend/Controllers/MembersController.cs:223-253 | repeating an update changes nothing more |
| Members.MemberAge | backend/DTOs/MemberDtos.cs:108-110 | a member's age is null iff there is no birth date, and otherwise is the .NET age |
| Members.RelativeAge | backend/DTOs/MemberDtos.cs:141-143 | a relative's age uses the member formula |
| JiuJitsu.NewStudent | backend/Models/JiuJitsuStudent.cs:9-28 | a new student wears "Branca" and is active; it is admissible iff the declared attributes hold |
| JiuJitsu.GetStudents | backend/Controllers/JiuJitsuController.cs:22-27 | the list holds exactly the active students, ordered by name under the database's collation, whatever total preorder that is |
| JiuJitsu.GetStudent | backend/Controllers/JiuJitsuController.cs:33-41 | found iff the id is known and the student is active |
| JiuJitsu.CreateStudent | backend/Controllers/JiuJitsuController.cs:46-55 | an inadmissible body gives 400; a taken email gives 400 "Email já cadastrado"; a new student is active and enrolled now |
| JiuJitsu.UpdateStudent | backend/Controllers/JiuJitsuController.cs:64-84 | 404 for an unknown id; a duplicate is checked only on an email change; only name, email, phone, belt and notes change |
| JiuJitsu.DeleteStudent | backend/Controllers/JiuJitsuController.cs:92-103 | 404 iff unknown; otherwise only the flag is cleared |
| JiuJitsu.DeleteHides | backend/Controllers/JiuJitsuController.cs:94-103 | a deleted student is no longer found, keeps the email, and the active count drops by one when it was active |
| JiuJitsu.CreateCounts | backend/Controllers/JiuJitsuController.cs:54-55 | a create adds one row and one active student |
| JiuJitsu.DeleteIdempotent | backend/Controllers/JiuJitsuController.cs:94-103 | deleting twice equals deleting once |
| JiuJitsu.UpdateIdempotent | backend/Controllers/JiuJitsuController.cs:80-84 | repeating an update changes nothing more |
| JiuJitsu.NewStudentDto | backend/DTOs/JiuJitsuDtos.cs:9-43 | the DTO defaults to "Branca", 0 stripes, fee 0 and "Em dia"; it is admissible iff the declared attributes hold |
| JiuJitsu.NewAttendanceDto | backend/DTOs/JiuJitsuDtos.cs:161-166 | an attendance defaults to "Treino", present, today |
| JiuJitsu.NewPaymentDto | backend/DTOs/JiuJitsuDtos.cs:204-212 | a payment defaults to "Dinheiro" for the current month |
| MensGroup.NewMember | backend/Models/MensGroupMember.cs:9-28 | a new member is active; it is admissible iff the declared attributes hold |
| MensGroup.GetMembers | backend/Controllers/MensGroupController.cs:22-27 | the list holds exactly the active members, ordered by name under the database's collation, whatever total preorder that is |
| MensGroup.GetMember | backend/Controllers/MensGroupController.cs:33-41 | found iff the id is known and the member is active |
| MensGroup.CreateMember | backend/Controllers/MensGroupController.cs:46-55 | an inadmissible body gives 400; a taken email gives 400; a new member is active and joined now |
| MensGroup.UpdateMember | backend/Controllers/MensGroupController.cs:64-84 | 404 for an unknown id; a duplicate is checked only on an email change; only name, email, phone, role and notes change |
| MensGroup.DeleteMember | backend/Controllers/MensGroupController.cs:92-103 | 404 iff unknown; otherwise only the flag is cleared |
| MensGroup.DeleteHides | backend/Controllers/MensGroupController.cs:94-103 | a deleted member is no longer found, keeps the email, and the active count drops by one when it was active |
| MensGroup.CreateCounts | backend/Controllers/MensGroupController.cs:54-55 | a create adds one row and one active member |
| MensGroup.DeleteIdempotent | backend/Controllers/MensGroupController.cs:94-103 | deleting twice equals deleting once |
| MensGroup.UpdateIdempotent | backend/Controllers/MensGroupController.cs:80-84 | repeating an update changes nothing more |
| MusicSchool.NewStudent | backend/Models/MusicSchoolStudent.cs:36-67 | a new student is "Iniciante", "Individual", "Em dia" and "Ativo", with fee 0, no classes, and is active |
| MusicSchool.GetStudents | backend/Controllers/MusicSchoolController.cs:31-36 | the list holds exactly the active students, ordered by name under the database's collation, whatever total preorder that is |
| MusicSchool.GetStudent | backend/Controllers/MusicSchoolController.cs:49-56 | found iff the id is known and the student is active |
| MusicSchool.CreateStudent | backend/Controllers/MusicSchoolController.cs:69-80 | an inadmissible body gives 400; a taken email gives 400; a new student is active and enrolled now |
| MusicSchool.UpdateStudent | backend/Controllers/MusicSchoolController.cs:96-132 | 404 for an unknown id; a duplicate is checked only on an email change; the editable fields are copied and the flag and enrolment date kept |
| MusicSchool.DeleteStudent | backend/Controllers/MusicSchoolController.cs:145-156 | 404 iff unknown; otherwise only the flag is cleared |
| MusicSchool.RegisterPayment | backend/Controllers/MusicSchoolController.cs:201-216 | 404 iff unknown; otherwise only the payment status ("Em dia") and the last payment date of that student change |
| MusicSchool.PaymentClearsPending | backend/Controllers/MusicSchoolController.cs:187-211 | a payment leaves the active count alone and lowers the pending-payment count by one when the student was pending |
| MusicSchool.Increment32 | backend/Controllers/MusicSchoolController.cs:238-239 | `++` on a 32-bit int adds one, wrapping from the largest value to the smallest |
| MusicSchool.RegisterAttendance | backend/Controllers/MusicSchoolController.cs:229-244 | 404 iff unknown; otherwise both class counters of that student step by one and nothing else changes |
| MusicSchool.AttendanceKeepsDifference | backend/Controllers/MusicSchoolController.cs:238-239 | below the 32-bit limit, an attendance keeps total minus attended, and so keeps attended ≤ total |
| MusicSchool.AttendanceAtLimitWraps | backend/Controllers/MusicSchoolController.cs:238-239 | at the 32-bit limit the total wraps below the attended count |
| MusicSchool.GetStats | backend/Controllers/MusicSchoolController.cs:167-187 | active + inactive = total; the instrument, level and payment dictionaries tally the active students and sum to the active count; pending means a status other than "Em dia" |
| MusicSchool.RevenueBounds | backend/Controllers/MusicSchoolController.cs:186 | with no negative fee the revenue is non-negative and at least each active fee |
| MusicSchool.DeleteHides | backend/Controllers/MusicSchoolController.cs:147-156 | a deleted student is no longer found, keeps the email, and the active count drops by one when it was active |
| MusicSchool.CreateCounts | backend/Controllers/MusicSchoolController.cs:72-80 | a create adds one row and one active student |
| MusicSchool.DeleteIdempotent | backend/Controllers/MusicSchoolController.cs:147-156 | deleting twice equals deleting once |
| MusicSchool.UpdatePreRegistration | backend/Controllers/MusicSchoolController.cs:304-320 | 404 iff unknown; status, notes and flag are overwritten; the contact date is stamped only for "Contatado" when it was empty |
| MusicSchool.ContactDateStampedOnce | backend/Controllers/MusicSchoolController.cs:317-320 | once set, the contact date survives any sequence of status updates |
| MusicSchool.Enrol | backend/Controllers/MusicSchoolController.cs:355-375 | the new student copies the applicant's data; its schedule is the request's or else the preferred one; notes are the questions; it is "Em dia", "Ativo" and active |
| MusicSchool.ConvertPreRegistration | backend/Controllers/MusicSchoolController.cs:337-383 | 404 for an unknown id; 400 iff a student's email matches ignoring case; otherwise one student is added and the row becomes "Matriculado" and processed |
| MusicSchool.ConvertTwiceFails | backend/Controllers/MusicSchoolController.cs:346-352 | a second conversion of the same pre-registration is refused |
| MusicSchool.CaseVariantBlocksConversion | backend/Controllers/MusicSchoolController.cs:346-348 | an existing student whose email differs only in case blocks the conversion |
| ChildPresentations.NewFields | backend/DTOs/ChildPresentationDtos.cs:10-77 | a new DTO defaults to the Mateus 19:14 verse and "Igreja"; it is admissible iff the declared attributes hold |
| ChildPresentations.NewPresentation | backend/Models/ChildPresentation.cs:76-84 | a new record is active, without a certificate and without a path |
| ChildPresentations.GetPresentations | backend/Controllers/ChildPresentationController.cs:28-66 | the active records, or all when asked, each once with its id, latest presentation first |
| ChildPresentations.GetPresentation | backend/Controllers/ChildPresentationController.cs:69-80 | found iff the id is known, inactive included |
| ChildPresentations.CreatePresentation | backend/Controllers/ChildPresentationController.cs:110-135 | refused iff the body is inadmissible; otherwise one active record without a certificate, whatever the body claims |
| ChildPresentations.CreatedBody | backend/Controllers/ChildPresentationController.cs:140-141 | the 201 body is the request body under the new id, as sent |
| ChildPresentations.CreatedBodyEchoesStoredFields | backend/Controllers/ChildPresentationController.cs:110-141 | after a create, the echoed fields are the stored row's fields, and the echoed certificate flag differs from the stored `false` exactly when the client sent `true` |
| ChildPresentations.UpdatePresentation | backend/Controllers/ChildPresentationController.cs:145-172 | 404 for an unknown id; the fields are replaced; the certificate state, creation time and flag are kept |
| ChildPresentations.DeletePresentation | backend/Controllers/ChildPresentationController.cs:180-190 | 404 iff unknown; otherwise only the flag is cleared |
| ChildPresentations.WritesKeepCertificate | backend/Controllers/ChildPresentationController.cs:154-172 | an update never touches the certificate flag or path, so a path is present iff a certificate was generated |
| ChildPresentations.UpdateIdempotent | backend/Controllers/ChildPresentationController.cs:154-172 | repeating an update changes nothing more |
| ChildPresentations.GetStats | backend/Controllers/ChildPresentationController.cs:197-239 | every figure counts the active records that pass its test: the year, the month, each gender, each age bucket, a generated certificate; the twelve month figures sum to the total |
| ChildPresentations.StatsBounds | backend/Controllers/ChildPresentationController.cs:208-239 | this month ≤ this year ≤ total, boys + girls ≤ total, the four age buckets sum to the total, and generated + pending = total |
| ChildPresentations.MonthCounts | backend/Controllers/ChildPresentationController.cs:225-236 | the twelve month counts, by month of any year, sum to the number of records |
| ChildPresentations.FutureBirthIsUnder1Year | backend/Controllers/ChildPresentationController.cs:218 | a birth date after today lands in the youngest bucket |
| ChildPresentations.RowAgeInMonths | backend/DTOs/ChildPresentationDtos.cs:80-81 | the DTO's months of age: null only for the minimum date, 0 in the birth month, negative iff the birth month is later |
| Certificates.Merge | backend/Controllers/ChildPresentationController.cs:321-331 | each of church, pastor, verse and message is replaced only by a non-null, non-empty override; the address override is never applied |
| Certificates.MergeIdempotent | backend/Controllers/ChildPresentationController.cs:321-331 | applying the same overrides twice equals applying them once |
| Certificates.MergeKeepsAdmissible | backend/DTOs/ChildPresentationDtos.cs:92-111 | overrides within their declared lengths keep a valid record valid |
| Certificates.Primary | backend/Services/PdfService.cs:38-40 | blue exactly for "Masculino", deep pink for every other value |
| Certificates.Layout | backend/Services/PdfService.cs:43-183 | the blocks come in their fixed order, and a block appears iff its presence condition holds |
| Certificates.Render | backend/Services/PdfService.cs:43-183 | the rendered certificate's blocks follow that order and presence, each with its text and style |
| Certificates.NameBlockStyle | backend/Services/PdfService.cs:70-77 | the name block is the upper-cased child name, bordered, in the primary colour, at size 20 |
| Certificates.OnlyIssueLineDependsOnClock | backend/Services/PdfService.cs:178-183 | two renderings differ only in the issue line |
| Certificates.PastorLineShown | backend/Services/PdfService.cs:170-171 | the certificate always carries "Pastor " followed by the pastor's name |
| Certificates.FileName | backend/Controllers/ChildPresentationController.cs:340 | "Certificado_{id}_{yyyyMMddHHmmss}.pdf" has no space, '/' or '\\' |
| Certificates.FileNameInjective | backend/Controllers/ChildPresentationController.cs:340 | two file names are equal only for the same id and the same second |
| Certificates.SavedPath | backend/Services/PdfService.cs:204 | the saved path is "uploads/certificates/" plus the name with every '\\' turned into '/' |
| Certificates.CertificatePath | backend/Services/PdfService.cs:192-204 | the stored path of a certificate is the folder followed by its file name |
| Certificates.Issue | backend/Controllers/ChildPresentationController.cs:259-265 | the record gets the merged fields, the generated flag and the path together |
| Certificates.GenerateCertificate | backend/Controllers/ChildPresentationController.cs:246-274 | overrides beyond their declared lengths give the automatic 400; an unknown id gives 404; a failed write gives 500; it succeeds exactly otherwise, and then only that record is issued under the folder path of its file name, the file name and the issue line each carrying their own reading of the clock |
| Certificates.GenerateKeepsStoreInv | backend/Controllers/ChildPresentationController.cs:262-265 | generation keeps "path present iff generated" for every record |
| Certificates.OverridesShownAndKept | backend/Controllers/ChildPresentationController.cs:321-331 | applied overrides appear on the certificate and are kept on the stored record |
| Certificates.Combine | backend/Controllers/ChildPresentationController.cs:296 | `Path.Combine` ends with the relative part and is the root when that part is empty; a root already ending in a separator, '/' included on every host, gets none added |
| Certificates.LocalPath | backend/Controllers/ChildPresentationController.cs:295 | the local path is no longer than the stored one and, on a platform whose separator is not '/', does not start with '/' |
| Certificates.LocalCertificatePath | backend/Controllers/ChildPresentationController.cs:295 | a stored certificate path becomes "uploads", "certificates" and the name joined by the separator |
| Certificates.DownloadName | backend/Controllers/ChildPresentationController.cs:304 | the download is named "Certificado_" + child name with spaces turned into '_' + ".pdf" |
| Certificates.DownloadCertificate | backend/Controllers/ChildPresentationController.cs:278-311 | 404 for an unknown id; 400 unless generated with a non-empty path; 404 for a missing file; otherwise the file under its download name |
| Certificates.NoDownloadBeforeGenerate | backend/Controllers/ChildPresentationController.cs:288-291 | a freshly created record cannot be downloaded |
| Certificates.DownloadAfterGenerate | backend/Controllers/ChildPresentationController.cs:288-304 | after a successful generation whose file exists, the download succeeds |
| PreRegistrations.FromRequest | backend/Controllers/PreRegistrationController.cs:28-52 | a new pre-registration is pending, unprocessed, uncontacted and stamped now, and its request fields read back unchanged |
| PreRegistrations.CreatePreRegistration | backend/Controllers/PreRegistrationController.cs:24-88 | a body the request DTO's attributes reject gets the automatic 400 and nothing else does; otherwise the row is stored, pending, under a fresh id, and the response carries that id and the stored record |
| PreRegistrations.CreateEchoesStoredRow | backend/Controllers/PreRegistrationController.cs:57-84 | after a stored submission, what the response echoes is what a lookup of the id finds |
| PreRegistrations.Instruments | backend/Controllers/PreRegistrationController.cs:106-116 | eight distinct instruments |
| PreRegistrations.Levels | backend/Controllers/PreRegistrationController.cs:133-138 | three distinct levels, the default first |
| PreRegistrations.ClassTypes | backend/Controllers/PreRegistrationController.cs:155-159 | two distinct class types, the default first |
| PreRegistrations.DefaultsAreOffered | backend/Models/MusicSchoolPreRegistration.cs:54-57 | the default level and class type are among the offered options |
| MusicSchoolPage.ApplyFiltersIsOnePass | frontend/src/pages/MusicSchool.tsx:132-156 | the successive filters equal one filter by the conjunction of the search and the non-empty exact filters |
| MusicSchoolPage.ApplyFiltersMembers | frontend/src/pages/MusicSchool.tsx:132-156 | a student is shown iff it is loaded and passes the search and every active filter |
| MusicSchoolPage.InstrumentOptions | frontend/src/pages/MusicSchool.tsx:319 | the options are the distinct non-empty instruments of the loaded students |
| MusicSchoolPage.Percent | frontend/src/pages/MusicSchool.tsx:567-571 | the exact ratio 100·attended/total rounded half up to a whole number, in 0..100 when attended ≤ total; the page's double arithmetic can show one less (see Left out) |
| MusicSchoolPage.AttendanceCell | frontend/src/pages/MusicSchool.tsx:566-572 | '-' iff there are no classes, otherwise attended/total and its percentage |
| MusicSchoolPage.CellAfterAttendance | frontend/src/pages/MusicSchool.tsx:566-572 | after a registered attendance the cell shows a ratio |
| MusicSchoolPage.PaymentColour | frontend/src/pages/MusicSchool.tsx:306-317 | "Em dia" success, "Pendente" warning, "Atrasado" error, anything else default |
| MusicSchoolPage.PendingCountIsNonGreenChips | backend/Controllers/MusicSchoolController.cs:187 | the server's pending-payment count is the number of active students whose chip is not green |
| MusicSchoolPage.PaymentTurnsChipGreen | frontend/src/pages/MusicSchool.tsx:260-272 | after a registered payment the student's chip is green |
| MusicSchoolPage.Validate | frontend/src/pages/MusicSchool.tsx:195-214 | sent iff the five required fields are filled and the email has the regex's shape |
| MusicSchoolPage.ReportsBlankFieldsInOrder | frontend/src/pages/MusicSchool.tsx:197-207 | the blank fields are reported in form order |
| MusicSchoolPage.ReportedIffBlank | frontend/src/pages/MusicSchool.tsx:197-207 | each label is reported iff its field is blank |
| MusicSchoolPage.SaveBannerCases | frontend/src/pages/MusicSchool.tsx:227-238 | 400 shows the server's message or the invalid-data text, 409 the duplicate text, 500 the server-trouble text, anything else the message or the fallback |
| MusicSchoolPage.DuplicateShowsServerText | frontend/src/pages/MusicSchool.tsx:228-231 | the server answers a duplicate with 400, so the page shows "Email já cadastrado" and never the 409 text |
| MembersPage.Validate | frontend/src/pages/Members.tsx:177-194 | sent iff name, email and phone are filled and the email has the regex's shape |
| MembersPage.ReportsBlankFieldsInOrder | frontend/src/pages/Members.tsx:179-187 | the blank fields are reported in form order |
| MembersPage.ReportedIffBlank | frontend/src/pages/Members.tsx:179-187 | each label is reported iff its field is blank |
| MembersPage.SaveBannerCases | frontend/src/pages/Members.tsx:207-217 | 400 shows the server's message or the invalid-data text, 409 the duplicate text, anything else the message or the fallback |
| MembersPage.DuplicateShowsServerText | frontend/src/pages/Members.tsx:207-211 | a refused create is a 400 and a refused update a 400 or 404, never 409; a duplicate shows the server's "Email já cadastrado" |
| MembersPage.MembershipColour | frontend/src/pages/Members.tsx:233-248 | Pastor error, Presbítero warning, Diácono info, Membro success, Congregado primary, anything else default |
| MembersPage.MembershipColoursOfOfferedTypes | frontend/src/pages/Members.tsx:233-248 | the offered types other than Visitante have pairwise different colours |
| MembersPage.GenderIcon | frontend/src/pages/Members.tsx:250-252 | three-way: Masculino, Feminino, anything else |
| MembersPage.GenderIconsOfOfferedGenders | frontend/src/pages/Members.tsx:250-252 | the three offered genders get three different icons |
| MembersPage.BaptisedCardCounts | frontend/src/pages/Members.tsx:418 | the "Batizados" card counts the active members baptised in water, with or without the Spirit, and excludes Spirit-only |
| ChildPresentationsPage.NewForm | frontend/src/pages/ChildPresentations.tsx:124-145 | a new form is a boy presented today, with the default verse and church |
| ChildPresentationsPage.Missing | frontend/src/pages/ChildPresentations.tsx:175-182 | nothing is missing iff the four names are filled after trimming and the birth date is non-empty |
| ChildPresentationsPage.Validate | frontend/src/pages/ChildPresentations.tsx:173-185 | the form is sent iff nothing is missing; there is no email check |
| ChildPresentationsPage.ReportedIffMissing | frontend/src/pages/ChildPresentations.tsx:175-182 | each label is reported iff its field is blank; the birth date is not trimmed |
| ChildPresentationsPage.BlankBirthDateIsSent | frontend/src/pages/ChildPresentations.tsx:177 | a birth date of one space passes the check |
| ChildPresentationsPage.SaveBanner | frontend/src/pages/ChildPresentations.tsx:198-203 | the server's message or the fallback |
| ChildPresentationsPage.RejectedSaveShowsFallback | frontend/src/pages/ChildPresentations.tsx:198-203 | a refused save comes without a message, so the page shows its fallback |
| ChildPresentationsPage.GenderIcon | frontend/src/pages/ChildPresentations.tsx:250-252 | the boy icon exactly for "Masculino" |
| ChildPresentationsPage.GenderTone | frontend/src/pages/ChildPresentations.tsx:254-256 | the primary colour exactly for "Masculino" |
| ChildPresentationsPage.GenderShownAsPrinted | backend/Services/PdfService.cs:38-40 | the page's icon, its colour and the certificate's colour agree on every gender text |
| ChildPresentationsPage.AgeLabelIsAgeInMonths | frontend/src/pages/ChildPresentations.tsx:258-268 | the page's age label reads back as the server's months of age |
| ChildPresentationsPage.CertificateChip | frontend/src/pages/ChildPresentations.tsx:337-341 | "Gerado" in success iff a certificate was generated, otherwise "Pendente" in warning |
| ChildPresentationsPage.DownloadOffered | frontend/src/pages/ChildPresentations.tsx:748 | the download button shows iff the chip reads "Gerado" |
| ChildPresentationsPage.ChipFollowsCertificate | frontend/src/pages/ChildPresentations.tsx:337-341 | a new record shows "Pendente"; after a generation it shows "Gerado" and offers the download |
| ChildPresentationsPage.ClientDownloadName | frontend/src/pages/ChildPresentations.tsx:240 | the page saves the blob as "Certificado_" + child name + ".pdf" |
| ChildPresentationsPage.DownloadNamesAgree | frontend/src/pages/ChildPresentations.tsx:240 | the page's name and the server's agree iff the child's name has no space |
| JiuJitsuPage.NewForm | frontend/src/pages/JiuJitsu.tsx:127-147 | a new form wears "Branca" and is "Em dia", with empty texts |
| JiuJitsuPage.Validate | frontend/src/pages/JiuJitsu.tsx:174-192 | sent iff name, email, phone and belt are filled and the email has the regex's shape |
| JiuJitsuPage.ReportedIffBlank | frontend/src/pages/JiuJitsu.tsx:176-185 | each label is reported iff its field is blank |
| JiuJitsuPage.NewFormNeedsThreeFields | frontend/src/pages/JiuJitsu.tsx:176-185 | on a new form the belt is already filled, so only name, email and phone decide |
| JiuJitsuPage.SaveBannerCases | frontend/src/pages/JiuJitsu.tsx:205-214 | 400 shows the server's message or the invalid-data text, 409 the duplicate text, 500 the server-trouble text, anything else the message or the fallback |
| JiuJitsuPage.RejectedSaveBanner | frontend/src/pages/JiuJitsu.tsx:205-214 | the controller refuses only with 400 or 404, so a duplicate shows "Email já cadastrado" |
| JiuJitsuPage.DeleteBannerCases | frontend/src/pages/JiuJitsu.tsx:226-232 | 404 the missing-student text, 500 the server text, anything else the message or the fallback |
| JiuJitsuPage.RejectedDeleteBanner | frontend/src/pages/JiuJitsu.tsx:226-232 | a delete is refused iff the id is unknown, shown as a missing student |
| JiuJitsuPage.PaymentColour | frontend/src/pages/JiuJitsu.tsx:238-249 | "Em dia" success, "Atrasado" warning, "Inadimplente" error, anything else default |
| JiuJitsuPage.PaymentChip | frontend/src/pages/JiuJitsu.tsx:238-249 | a missing or empty status shows as paid up |
| JiuJitsuPage.RepairInvisible | backend/Data/DbInitializer.cs:38-45 | the seeding repair never changes a chip's colour |
| JiuJitsuPage.BeltColour | frontend/src/pages/JiuJitsu.tsx:251-266 | the five belts get their hex codes, anything else #9e9e9e |
| JiuJitsuPage.BeltColoursDistinct | frontend/src/pages/JiuJitsu.tsx:251-266 | the five belts have five different colours, and the default belt is white |
| MensGroupPage.Validate | frontend/src/pages/MensGroup.tsx:84-101 | sent iff name, email and phone are filled and the email has the regex's shape |
| MensGroupPage.ReportedIffBlank | frontend/src/pages/MensGroup.tsx:86-94 | each label is reported iff its field is blank |
| MensGroupPage.SaveBannerCases | frontend/src/pages/MensGroup.tsx:113-122 | 400 shows the server's message or the invalid-data text, 409 the duplicate text, 500 the server-trouble text, anything else the message or the fallback |
| MensGroupPage.RejectedSaveBanner | frontend/src/pages/MensGroup.tsx:113-122 | the controller refuses only with 400 or 404; a duplicate shows "Email já cadastrado" |
| MensGroupPage.DeleteBannerCases | frontend/src/pages/MensGroup.tsx:133-138 | 404 "Membro não encontrado.", 500 the server text, anything else the message or the fallback |
| MensGroupPage.RejectedDeleteBanner | frontend/src/pages/MensGroup.tsx:133-136 | a delete is refused iff the id is unknown; a member already deleted is deleted again without complaint |
| UsersPage.OpenForEdit | frontend/src/pages/Users.tsx:56-59 | opening a user copies name, email and role and clears the password |
| UsersPage.RequiredFields | frontend/src/pages/Users.tsx:85-90 | the password is a required field only when creating |
| UsersPage.Validate | frontend/src/pages/Users.tsx:83-107 | sent iff the required fields are filled, the email has the regex's shape, and a new password's `.length` is at least six |
| UsersPage.ReportedIffBlank | frontend/src/pages/Users.tsx:85-94 | each label is reported iff its field is blank |
| UsersPage.PaddedPasswordPasses | frontend/src/pages/Users.tsx:104-107 | the length check counts white space: "  a   " passes, six spaces is reported missing |
| UsersPage.EditKeepsOrReplacesHash | backend/Controllers/UsersController.cs:139-142 | an untouched edit keeps the login; a typed password, even only spaces, replaces it |
| UsersPage.SaveBannerCases | frontend/src/pages/Users.tsx:119-128 | 400 shows the server's message or the invalid-data text, 409 the duplicate text, 500 the server-trouble text, anything else the message or the fallback |
| UsersPage.RejectedSaveBanner | frontend/src/pages/Users.tsx:119-124 | for an administrator a save is refused only as a duplicate (400) or an unknown id, never 409 |
| UsersPage.DeleteBannerCases | frontend/src/pages/Users.tsx:139-146 | 404 the missing-user text, 500 the server text, anything else the message or the fallback |
| UsersPage.RejectedDeleteBanner | frontend/src/pages/Users.tsx:139-142 | a deactivation is refused iff the id is unknown, shown as a missing user |
| UsersPage.RoleTone | frontend/src/pages/Users.tsx:230-236 | red exactly for "Admin", blue for any other role |
| UsersPage.RedChipIsAdmin | backend/Controllers/UsersController.cs:30 | the chip is red exactly for the callers the role gate lets through |
| LoginPage.Check | frontend/src/pages/Login.tsx:27-46 | a blank email is reported first, then a blank password, then the regex; a request is made only when all pass |
| LoginPage.Credentials | frontend/src/pages/Login.tsx:48-52 | the request carries the texts as typed, untrimmed |
| LoginPage.LoginBanner | frontend/src/pages/Login.tsx:60-71 | a network error shows the connection text; an answerless failure shows the fallback |
| LoginPage.LoginBannerCases | frontend/src/pages/Login.tsx:61-66 | 401, 403 and 500 show their fixed texts; any other status shows the message or the fallback |
| LoginPage.AfterFailedLogin | frontend/src/services/api.ts:51-54 | a 401 reloads the login page, so no banner is left; any other failure leaves the banner the catch computed |
| LoginPage.WrongCredentialsNeverStays | frontend/src/pages/Login.tsx:61-62 | the wrong-credentials text is left on screen only when a non-401 answer carries it as the server's own message |
| LoginPage.RefusedLoginBanner | backend/Controllers/AuthController.cs:44-54 | every refused login is a 401; the banner the catch computes is the wrong-credentials text, never the controller's message nor the inactive-account text, and the interceptor's reload then leaves a fresh login page |
| LoginPage.DeactivatedUserRefusedLikeStranger | backend/Controllers/AuthController.cs:41-48 | a deactivated user with the right password is refused with a 401; the banner the catch computes is the wrong-credentials text, and the reload leaves a fresh login page |
| PreRegistrationPage.AfterSubmit | frontend/src/pages/MusicSchoolPreRegistration.tsx:104-121 | a stored submission resets the form to its initial values; a failed one keeps what was typed |
| PreRegistrationPage.SubmissionStoresAnswers | frontend/src/pages/MusicSchoolPreRegistration.tsx:42-57 | a submission is stored iff the request's attributes admit it, and then with the typed answers, pending and unprocessed; the form's default level and class type are among the offered options |
| PreRegistrationPage.SubmitBanner | frontend/src/pages/MusicSchoolPreRegistration.tsx:122-124 | the server's message or "Erro ao enviar pré-matrícula", whatever the status |
| PreRegistrationPage.RejectedSubmissionShowsFallback | frontend/src/pages/MusicSchoolPreRegistration.tsx:122-124 | the only refusal is the automatic 400, which carries no message, so the page shows its fallback |
| PreRegistrationPage.CalculateAge | frontend/src/pages/MusicSchoolPreRegistration.tsx:129-140 | no age without a birth date; otherwise the year difference or one less |
| PreRegistrationPage.MinorFlag | frontend/src/pages/MusicSchoolPreRegistration.tsx:142 | `isMinor` is true for ages 1 to 17 and below 0, the number 0 for age 0, and false otherwise |
| PreRegistrationPage.GuardianArea | frontend/src/pages/MusicSchoolPreRegistration.tsx:227 | as written: the guardian section for ages below 0 or 1 to 17; a stray "0" for age 0 |
| PreRegistrationPage.IntendedGuardianArea | frontend/src/pages/MusicSchoolPreRegistration.tsx:142 | corrected: the guardian section exactly for ages under 18 |
| PreRegistrationPage.GuardianAreasDiffer | frontend/src/pages/MusicSchoolPreRegistration.tsx:142 | the two differ exactly for an age of 0 |
| PreRegistrationPage.InfantShowsZero | frontend/src/pages/MusicSchoolPreRegistration.tsx:227 | a baby born 1 January 2026 seen on 10 October 2026 gets "0" instead of the guardian fields |
| PreRegistrationPage.IntendedMinorIsServerMinor | frontend/src/pages/MusicSchoolPreRegistration.tsx:129-142 | the corrected section is shown iff the server's age is under 18, except on 28 February for a 29 February birth |
| PreRegistrationManagement.StatusColour | frontend/src/components/PreRegistrationManagement.tsx:145-153 | Pendente warning, Contatado info, Matriculado success, Rejeitado error, anything else default, each both ways |
| PreRegistrationManagement.StatusCounters | frontend/src/components/PreRegistrationManagement.tsx:159-161 | the three exact-match counters sum to at most the list's length, and to exactly that iff every status is one of the three |
| PreRegistrationManagement.ConvertOffered | frontend/src/components/PreRegistrationManagement.tsx:259 | the convert button shows iff the chip is not green |
| PreRegistrationManagement.StatusOptionsExcludeEnrolled | frontend/src/components/PreRegistrationManagement.tsx:300-302 | the status dialog never offers "Matriculado", and its options have distinct colours |
| PreRegistrationManagement.UpdatePrefill | frontend/src/components/PreRegistrationManagement.tsx:83-91 | the dialog opens with the row's status and flag and its notes or "" |
| PreRegistrationManagement.UntouchedUpdateKeepsRow | frontend/src/components/PreRegistrationManagement.tsx:103-108 | saving the dialog untouched keeps status, flag and contact date; only missing notes become "" |
| PreRegistrationManagement.UpdateBanner | frontend/src/components/PreRegistrationManagement.tsx:112-114 | the server's message or the update fallback |
| PreRegistrationManagement.RejectedUpdateBanner | frontend/src/components/PreRegistrationManagement.tsx:112-114 | a refused update has no message, so the fallback is shown |
| PreRegistrationManagement.ConvertPrefill | frontend/src/components/PreRegistrationManagement.tsx:93-100 | the conversion dialog opens with no teacher, the preferred schedule or "", and a fee of 0 |
| PreRegistrationManagement.ConvertedScheduleFromDialog | frontend/src/components/PreRegistrationManagement.tsx:93-100 | the dialog always sends a schedule, so a student converted without a preferred schedule gets "" |
| PreRegistrationManagement.ConvertBanner | frontend/src/components/PreRegistrationManagement.tsx:126-128 | the server's message or the conversion fallback |
| PreRegistrationManagement.RejectedConvertBanner | frontend/src/components/PreRegistrationManagement.tsx:126-128 | a duplicate shows the server's "Já existe um aluno…" text; an unknown id shows the fallback |
| PreRegistrationManagement.ConversionMovesCounters | frontend/src/components/PreRegistrationManagement.tsx:159-161 | after a conversion the row is green and offers no conversion; enrolled rises by one and the former status's counter falls by one |

## Left out

- Persistence. Entity Framework, SaveChanges, migrations and async calls are not modelled; each request is one sequential step on in-memory tables. The race between the duplicate check and the unique index is concurrency and is not modelled.
- Clock, GUIDs, hashing and tokens. BCrypt hashing and verification and JWT creation are opaque function parameters. `Guid.NewGuid`, `DateTime.Now`, `UtcNow` and `Today` are arguments.
- File system. Writing the PDF and the photo, `Directory.CreateDirectory`, `File.Exists` and reading the certificate back are not modelled. Their outcomes are boolean or predicate parameters; only the path and file-name strings are modelled.
- PDF encoding. iText, fonts and byte streams are not modelled. The certificate is an ordered list of blocks with text, colour, size and border.
- Upper-casing. `ToUpper`, `ToLower` and JavaScript's `toLowerCase` are modelled only for ASCII and Latin-1 letters. Other scripts are left as they are.
- `System.Uri`. Parsing, percent-escaping and scheme default ports are not modelled. `ConvertPostgresUrl` receives the already-split parts, or the parser's failure message.
- Floating point. `TotalDays` is replaced by whole day differences. Fees are whole cents. `toFixed` and `parseFloat` are not modelled; `Math.round` is modelled as rounding half up on whole numbers.
- JavaScript dates. `new Date("YYYY-MM-DD")` parses as UTC while its getters read local time, so in a zone west of UTC the pre-registration age can be a day off. Dates here are calendar triples and this shift is not modelled.
- Implicit `[Required]`. Non-nullable reference properties may imply this attribute, depending on a project setting that is not part of this model. Only the attributes written in the code are modelled.
- `[Phone]` and `[EmailAddress]`. Extensions and Unicode digits in `[Phone]`, and the line-break rule of `[EmailAddress]`, are not modelled.
- Missing DTO file. The DTO file holding `CreateUserDto`, `LoginRequestDto` and `MusicSchoolPreRegistrationRequestDto` is not part of this model. The user and login bodies therefore have no automatic 400 path. The pre-registration create has one, behind an `admissible` predicate parameter that stands for the request DTO's attributes.
- Member statistics. `MembersWithFamily` and `TotalFamilyMembers` are separate database queries and are left out of the member statistics.
- `GET pre-registrations`. The listing (MusicSchoolController.cs:257-291) is left out. It is a read-only projection ordered by date, and no property depends on it.
- Pre-registration delete. The management panel's delete action is left out: the back end has no endpoint for it.
- Load errors. The 401 interceptor is modelled for the login request only. Its redirect after the other pages' requests, `window.confirm`, `alert`, blobs and `localStorage` are user-interface plumbing and are not modelled.
- Other music-school banners. The messages of the music-school delete, payment and attendance actions are not modelled; they follow the same pattern as the save banner.
- Date input. The conversion of date-input text into `DateTime?` on the server is not modelled; forms carry dates already parsed.
- Server wiring. Swagger, CORS, the JWT middleware, port binding and the migration fallback in `Program.cs` are left out.
- `Path.Combine`. When the relative argument is itself rooted, `Path.Combine` discards the root. This case is not modelled: the stripped certificate path is never rooted.
- MusicSchoolPage.Percent: is the exact ratio rounded half up. The page rounds the IEEE double `(attended / total) * 100`, which can fall just below an exact half. For 23 of 40 the double is 57.49999999999999, so the page shows 57% where the model gives 58. With at most 1000 classes, 40 pairs differ this way, among them 29/200 and 46/80.
- Pre-registration service calls. `musicSchoolService` (frontend/src/services/musicSchoolService.ts:39-75) defines no `getPreRegistrations`, `updatePreRegistration`, `convertPreRegistration` or `deletePreRegistration`. The management panel calls them at PreRegistrationManagement.tsx:76, 107, 121 and 136. The model assumes the update reaches PUT `pre-registrations/{id}` (MusicSchoolController.cs:301) and the conversion reaches POST `pre-registrations/{id}/convert` (MusicSchoolController.cs:333). The panel's update and conversion properties rest on that assumption.
- Host culture. `Dates.FormatDate`, `Dates.Stamp` and `Text.Upper` assume the server's current culture uses '/' as its date separator, the Gregorian calendar and non-Turkish casing. `ToString("dd/MM/yyyy")` and `ToString("yyyyMMddHHmmss")` (PdfService.cs:81, 106, 178; ChildPresentationController.cs:340) take the separator and the calendar from that culture: de-DE prints "10.10.2026", and a Buddhist-calendar culture changes `yyyy`. `ToUpper()` (PdfService.cs:70) maps 'i' to 'İ' under tr-TR.
- Host platform. The certificate paths are modelled for either directory separator. The photo extension assumes the Linux host, where '/' is the only separator.
- StrLeIsTotalPreorder: shows only that the "C" collation is one order the listings accept. The database's actual collation is a setting outside the program, so the listings take any total preorder.

Behaviour worth knowing:

- **Duplicate emails.** A duplicate email is answered with 400 "Email já cadastrado", so the pages' 409 branches are never reached.
- **Certificate overrides.** They are applied to the tracked record and saved with it.
- **Child presentation create answer.** The 201 body is the request body with the new id, so it shows the client's certificate flag; the stored row always starts without a certificate.
- **Failed certificate render.** A render or save that fails returns 500 before anything is saved, so the record is unchanged.
- **Unique indexes.** `AppDbContext` declares unique email indexes only for users, music-school students, jiu-jitsu students and men's-group members. Members and child presentations rely on the controller's check alone.
- **Jiu-jitsu payment status.** The jiu-jitsu model class lacks the payment status that the seeding and the DTOs use. The model gives the student an optional payment status.

## Findings

| source | as written | input that shows it | evidently intended | confidence | as-written member | corrected member |
|---|---|---|---|---|---|---|
| frontend/src/pages/MusicSchoolPreRegistration.tsx:142 | `isMinor` is `age && age < 18`, which is the number 0 for a child under one, so `{isMinor && (…)}` renders the text "0" and hides the guardian fields | birth date 2026-01-01, today 2026-10-10: age 0 | the guardian section for every age under 18 | high, not executed | PreRegistrationPage.InfantShowsZero | PreRegistrationPage.IntendedGuardianArea |
