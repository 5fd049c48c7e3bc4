# SkillSwap backend services, modelled in Dafny

SkillSwap is a NestJS/TypeORM backend for a skill-exchange site. Users
register, publish skills under a two-level category catalogue, pick
favourites, and send one another exchange requests. The receiver accepts or
rejects a request, and each step pushes a notification to the other party.
This project models the decision logic of the services behind those
operations. The relational database becomes an in-memory store: one
`Store.Db` object whose fields are tables of rows keyed by id, plus the log
of pushed notifications. The project proves what each operation promises.

The project is organised as follows:

- **Shared modules.** `Common` holds ids, `Option`/`Result`/`Outcome`, the
  error kinds the services throw, and bcrypt as an abstract
  `Hash`/`Compare` pair. `Entities` holds the rows. `Store` holds tables
  with a fresh-id counter; where the database leaves the order of rows
  open, the model lists them by id. `Ordering` is ORDER BY, with NULLs last when ascending
  and first when descending. `Paging` holds SKIP/TAKE and the page count.
  `Text` holds case folding, LIKE-style substring search, `trim`, and the
  `split('/').pop()` used on image URLs.
- **Services.** `Users`, `Skills`, `Requests`, `Categories` and `Cities`
  model the five services. Operations that write the database are methods
  on `Db` with `modifies` frames. Their `ensures` tie the new state to a
  check function, which states every error case in the order the source
  tests them. Read-only queries are functions.
- **Upload validator.** `FileUpload` models the MIME allow-list, the 2 MiB
  cap and the magic-number sniffing. `CheckSignature` keeps the source's
  index loop.
- **Guard, filter and DTOs.** `RolesGuard` is the role guard.
  `ExceptionFilter` is the global exception-to-response filter.
  `QueryDto` is the validation of the two list-query DTOs.
  `UsersListResponse` is the paged user list DTO.
- **Seeders.** `UsersSeeder`, `AdminSeeder`, `SkillsSeeder` and
  `CategoriesSeeder` keep the source's loops. Each seeder method is proved
  equal to a recursive specification function (`Seeding`). The lemmas
  about that function prove that the catalogue is there after a run, that a
  second run adds nothing, and what the returned list holds.

Three behaviours of the code worth noting:

- Roles are `'USER'` and `'ADMIN'` (src/seeding/admin.seeder.ts:43), not
  lower-case names.
- The role guard passes a handler without role metadata even when no user
  is authenticated (src/auth/guards/roles.guard.ts:13-15).
- Skill update hands the whole DTO to the ORM's `update`
  (src/skills/skills.service.ts:128). `Skill` has no property `categoryId`,
  only the relation `category` whose join column carries that name
  (src/skills/entities/skill.entity.ts:16-18), so a body with a categoryId
  is refused with a 500, as is a body with no field at all. A skill's
  category cannot be changed through update.

## Model

| member | source | states |
|---|---|---|
| Common.Hash | src/users/users.service.ts:44 | bcrypt.compare accepts the stored digest for exactly the password it was made from |
| Common.First | src/users/users.service.ts:147 | findOne returns a matching row, and returns null exactly when no row matches |
| Store.Table.Insert | src/users/users.service.ts:81 | save of a new row: the row gets the next id, every other row stays, and it is listed after the existing rows |
| Store.Table.Put | src/cities/cities.service.ts:40 | save of an existing row: only that row changes, and the id counter stays |
| Store.Table.Delete | src/cities/cities.service.ts:45 | delete: exactly that row is gone, and the id counter stays |
| Store.Load | src/skills/skills.service.ts:104-107 | a relation loads the referenced row exactly when the reference is set and the row exists, else null |
| Entities.Public | src/users/users.service.ts:102-112 | the selected columns keep id, name, email, about, birthdate, city, gender, avatar and role; the type has no password or refresh token |
| Ordering.SortBy | src/users/users.service.ts:137 | ORDER BY returns a permutation of the rows (same multiset), ordered by the key ascending or descending, NULL last when ascending |
| Ordering.SortByKeepsRows | src/users/users.service.ts:137 | sorting neither drops nor adds a row |
| Paging.TotalPages | src/skills/skills.service.ts:80 | Math.ceil(total/limit) for limit at least 1: 0 for no rows, else (p-1)*limit < total <= p*limit |
| Paging.TotalPagesUnique | src/skills/skills.service.ts:80 | the ceiling bounds admit exactly one page count |
| Paging.TotalPagesExamples | src/users/dto/users-list-response.dto.ts:23 | 25/10 gives 3, 0/20 gives 0, 2/1 gives 2, 3/2 gives 2, 2/20 gives 1 |
| Paging.Page | src/skills/skills.service.ts:75-78 | skip/take: at most take rows, the i-th being row skip+i, none when skip is past the end |
| Paging.Skip | src/skills/skills.service.ts:54 | skip is (page-1)*limit |
| Paging.PageEmptyIff | src/skills/skills.service.ts:80-82 | a page is empty exactly when there are no rows or the page number exceeds totalPages |
| Text.Lower | src/skills/skills.service.ts:68 | case folding maps each of A-Z and А-Я to the same letter in lower case (code point + 32), Ё to ё, and leaves every other character alone |
| Text.LowerStr | src/skills/skills.service.ts:68-71 | LOWER folds every character of the string and keeps its length |
| Text.ContainsFoldedLaws | src/users/users.service.ts:127-130 | ILIKE ignores case: an exact substring matches, and folding either side beforehand changes nothing |
| Text.Trim | src/cities/cities.service.ts:26-27 | trim returns the block of the string that neither starts nor ends with whitespace and has only whitespace around it |
| Text.TrimEmptyIff | src/cities/cities.service.ts:26 | trim leaves the empty string exactly when the search is all whitespace |
| Text.TrimIdempotent | src/cities/cities.service.ts:26-27 | trimming twice is trimming once |
| Text.LastSegment | src/skills/skills.service.ts:159 | split('/').pop() is the suffix after the last '/', holding no '/' |
| Text.LastSegmentAfterSlash | src/skills/skills.service.ts:159 | the URL dir/name yields name, whatever dir holds |
| Text.Decimal | src/skills/skills.service.ts:38 | an id renders as a canonical numeral (digits only, no leading zero) whose value is the id |
| Text.DecimalInjective | src/skills/skills.service.ts:38 | two different ids never render the same |
| Text.DecimalOfValue | src/skills/skills.service.ts:60-63 | every canonical numeral is the rendering of the id it denotes, so a well-formed category string names exactly one id |
| QueryDto.IntViolations | src/users/dto/get-users-query.dto.ts:6-10 | @IsInt and @Min/@Max report nothing exactly when the number is an integer within the bounds |
| QueryDto.IntField | src/users/dto/get-users-query.dto.ts:6-16 | an absent field takes its default; a present one passes exactly when integer and in range, and then keeps its value |
| QueryDto.ValidateFindSkills | src/skills/dto/find-skills.dto.ts:4-25 | accepted exactly when page is an integer at least 1 and limit an integer in 1..100; defaults page 1, limit 20, search '' and no category; errors are BadRequest |
| QueryDto.FindSkillsExamples | src/skills/dto/find-skills.dto.ts:5-16 | page=0, limit=101, page=1.5 and page=NaN are refused; the empty query gives 1, 20, '' and no category; limit=100 passes |
| QueryDto.ParseGender | src/users/dto/get-users-query.dto.ts:22-24 | only male, female and unspecified parse, each to the gender of that name |
| QueryDto.ParseRole | src/users/dto/get-users-query.dto.ts:26-28 | only USER and ADMIN parse, each to the role of that name |
| QueryDto.ParseOrder | src/users/dto/get-users-query.dto.ts:38-40 | ASC and DESC parse, nothing else |
| QueryDto.ParseOrderRoundTrip | src/users/dto/get-users-query.dto.ts:38-40 | the spelling of each order parses back to it, and no other string parses to it |
| QueryDto.EnumField | src/users/dto/get-users-query.dto.ts:22-28 | an absent enum field is fine; a present one must parse, else BadRequest naming the allowed values |
| QueryDto.ValidateUsersQuery | src/users/dto/get-users-query.dto.ts:5-41 | accepted exactly when page and limit are integers at least 1 and gender, role and order parse; defaults page 1, limit 20, sortBy name, order ASC; city and search are passed through |
| QueryDto.UsersQueryExamples | src/users/dto/get-users-query.dto.ts:6-16 | page=0, limit=-1, an unknown gender and order=asc are refused; limit=500 passes; the empty query gives the defaults |
| UsersListResponse.CeilDiv | src/users/dto/users-list-response.dto.ts:23 | Math.ceil(total/limit) is the integer ceiling for limit at least 1, NaN or Infinity for limit 0, and not positive for a negative limit |
| UsersListResponse.New | src/users/dto/users-list-response.dto.ts:12-25 | data is the users unchanged; meta echoes total, page and limit, and totalPages is their ceiling quotient |
| UsersListResponse.TotalPagesCovers | src/users/dto/users-list-response.dto.ts:23 | with limit at least 1, totalPages is an integer and the least page count covering every row |
| UsersListResponse.ZeroLimit | src/users/dto/users-list-response.dto.ts:23 | limit 0 gives NaN or Infinity, never an integer page count |
| Users.FindByEmail | src/users/users.service.ts:146-148 | a found user has the email; none found exactly when no row has it |
| Users.FindByEmailUnique | src/users/users.service.ts:146-148 | with unique emails, findByEmail returns the one row holding the email |
| Users.PasswordCheck | src/users/users.service.ts:30-42 | NotFound for an unknown user, then Unauthorized when the old password does not match; passes exactly otherwise |
| Users.ChangePassword | src/users/users.service.ts:25-52 | on failure nothing changes; on success only the password column changes, to the hash of the new password |
| Users.ChangedPasswordAccepts | src/users/users.service.ts:39-51 | after a change the new password passes the check, and exactly that password does |
| Users.FoundCategories | src/users/users.service.ts:72-74 | findByIds finds exactly the requested ids that name categories |
| Users.CategoriesResolveIff | src/users/users.service.ts:71-79 | the count test passes exactly when every id names a category and no id repeats |
| Users.NewUser | src/users/users.service.ts:64-69 | the row stores only the hash of the password (Compare accepts exactly that password), role USER and gender unspecified by default |
| Users.CreateCheck | src/users/users.service.ts:57-79 | Conflict for a taken email, then NotFound when a category id does not resolve; on success the ids, all existing and distinct |
| Users.Create | src/users/users.service.ts:54-82 | on failure nothing is stored; on success exactly one new row, the built user |
| Users.CreateTwiceConflicts | src/users/users.service.ts:57-62 | a second registration with the same email is a Conflict |
| Users.SortField | src/users/users.service.ts:135-136 | sortBy is used only if it is name, email, city or birthdate, else name |
| Users.MatchesNarrows | src/users/users.service.ts:114-131 | the empty query admits every user, and each given filter (city, gender, role, search) only narrows the result |
| Users.SearchIgnoresCase | src/users/users.service.ts:127-130 | a search selects the same users as its lower-case form |
| Users.Listing | src/users/users.service.ts:114-137 | the listing holds exactly the rows meeting every given filter (city, gender, role equal; search in name or email ignoring case), each as often as the table holds it, ordered by the sort field |
| Users.ListingOnce | src/users/users.service.ts:114-141 | each matching user is listed exactly once, so the listing's length is the number of matching users |
| Users.FindAll | src/users/users.service.ts:84-144 | total is the length of the listing; the users are page (page-1)*limit of the listing, public columns only |
| Users.FindAllTotal | src/users/users.service.ts:139-143 | the total findAll reports is the number of users meeting the filters |
| Users.FindAllDefaults | src/users/users.service.ts:87-98 | an empty query yields the first 20 users of the listing, or all of them when fewer |
| Users.DefaultOrderIsName | src/users/users.service.ts:94-95 | an empty query orders the listing by name ascending |
| Users.FindById | src/users/users.service.ts:150-173 | NotFound for an unknown id, else the public columns of the row |
| Users.RemoveStub | src/users/users.service.ts:175-177 | remove only returns a message naming the id |
| Users.Merge | src/users/users.service.ts:188-191 | the given fields overwrite, every other field (id, password, token, relations) keeps its value |
| Users.MergeLaws | src/users/users.service.ts:188-191 | an empty update changes nothing; applying an update twice is applying it once |
| Users.UpdateCheck | src/users/users.service.ts:179-192 | NotFound for an unknown id; fails exactly when the merged email belongs to another user |
| Users.Update | src/users/users.service.ts:179-192 | on failure nothing changes; on success the merged row replaces the stored one |
| Users.RefreshTokenValue | src/users/users.service.ts:194-201 | null becomes undefined, a token is written as it is |
| Skills.NewSkill | src/skills/skills.service.ts:42-46 | the row carries the DTO's fields, the category and the given owner |
| Skills.Create | src/skills/skills.service.ts:31-49 | NotFound naming the category id when it does not exist, storing nothing; otherwise one new row |
| Skills.FindOneStub | src/skills/skills.service.ts:95-97 | findOne only returns a message naming the id |
| Skills.MatchesNarrows | src/skills/skills.service.ts:61-73 | with neither filter every skill matches, each filter only narrows, and without a category a title containing the search matches |
| Skills.Matching | src/skills/skills.service.ts:61-73 | exactly the skills whose category id equals the filter and whose title, category name or parent name contains the search ignoring case, each as often as the table holds it |
| Skills.MatchingOnce | src/skills/skills.service.ts:55-77 | each matching skill is listed exactly once, so the number of matches is the number of matching skills |
| Skills.CategoryFilterById | src/skills/skills.service.ts:60-63 | a well-formed category string selects exactly the skills whose category has the id it denotes |
| Skills.FindAll | src/skills/skills.service.ts:52-93 | a category string that is not a well-formed id fails the query (a 500 through the filter); otherwise NotFound exactly when page > totalPages and there are matches, else the page of matches, page and totalPages = ceil(total/limit) |
| Skills.FindAllTotalPages | src/skills/skills.service.ts:75-80 | totalPages is ceil(n/limit) for n the number of matching skills |
| Skills.FindAllAnswers | src/skills/skills.service.ts:75-92 | an answered page holds at most limit matching skills, at least one unless nothing matched, when it is empty with totalPages 0 |
| Skills.OwnedSkill | src/skills/skills.service.ts:104-115 | NotFound for an unknown skill, a TypeError for a null owner, Forbidden for another owner; passes exactly for the owner |
| Skills.OnlyOwnerPasses | src/skills/skills.service.ts:113-115 | a skill that passes the checks is owned by the caller |
| Skills.PatchSkill | src/skills/skills.service.ts:128 | the given title, description and images overwrite; id, owner and category stay |
| Skills.PatchSkillLaws | src/skills/skills.service.ts:128 | an empty update changes nothing; updating twice is updating once |
| Skills.Update | src/skills/skills.service.ts:99-140 | ownership errors first, then NotFound for an unknown categoryId; an existing categoryId (no such property on Skill) and an empty body make the ORM throw, which is a 500; every error leaves the skill unchanged; only a non-empty patch without categoryId is stored and returned |
| Skills.FileOf | src/skills/skills.service.ts:159-160 | an image URL names at most one file, non-empty and without '/' |
| Skills.ImageFiles | src/skills/skills.service.ts:157-167 | the file names considered, at most one per URL, none empty or holding '/' |
| Skills.FilesToUnlink | src/skills/skills.service.ts:157-167 | the loop over the image URLs collects exactly ImageFiles of them |
| Skills.ImageFileOfUrl | src/skills/skills.service.ts:159 | the URL dir/name makes remove consider the file name |
| Skills.Remove | src/skills/skills.service.ts:143-170 | ownership errors change nothing; otherwise the image files are those of its URLs, and the row is deleted unless a request still names the skill, which the foreign key refuses with a 500 and the row stays |
| Skills.FavoriteCheck | src/skills/skills.service.ts:173-198 | NotFound for a missing skill, then for a missing user, Conflict for a skill already a favourite; otherwise favourites grow by the skill |
| Skills.FavoritesStayDistinct | src/skills/skills.service.ts:192-200 | a favourites list without repeats has none after an accepted addToFavorites |
| Skills.AddToFavorites | src/skills/skills.service.ts:173-202 | with the favourites relation the code evidently intends: on failure nothing changes; on success only that user's favourites change, by exactly the skill |
| Requests.CreateParties | src/requests/requests.service.ts:30-64 | NotFound, BadRequest (no owner), Forbidden (not the caller's), NotFound, BadRequest, in this order; passes with the two owners |
| Requests.OwnerOf | src/requests/requests.service.ts:30-33 | the owner relation is the owner row when the skill has an owner that exists, else null |
| Requests.CategoryName | src/requests/requests.service.ts:51-54 | `category.name` is the name of the skill's category row when it is set and exists, else the relation is null |
| Requests.CreatePartiesOwnSkills | src/requests/requests.service.ts:66-67 | the sender is the caller and owns the offered skill; the receiver owns the requested skill |
| Requests.Create | src/requests/requests.service.ts:29-91 | a failed check stores and sends nothing; otherwise one new pending, unread request and one NEW_REQUEST notification to the receiver with the request's id |
| Requests.FindIncoming | src/requests/requests.service.ts:94-103 | exactly the caller's received requests that are pending or in progress, newest first |
| Requests.FindOutgoing | src/requests/requests.service.ts:106-115 | exactly the caller's sent requests that are pending or in progress, newest first |
| Requests.OpenIsUnanswered | src/requests/requests.service.ts:98 | the statuses the views show are exactly those other than accepted, rejected and done |
| Requests.IncomingOnce | src/requests/requests.service.ts:94-103 | each open received request is listed exactly once |
| Requests.OutgoingOnce | src/requests/requests.service.ts:106-115 | each open sent request is listed exactly once |
| Requests.OpenedIsListed | src/requests/requests.service.ts:69-76 | a created request shows in the receiver's incoming and the sender's outgoing view |
| Requests.Answer | src/requests/requests.service.ts:154-155 | only status (to the given value) and isRead (to true) change |
| Requests.Answerable | src/requests/requests.service.ts:123-152 | NotFound, then a TypeError when the receiver relation is null, then Forbidden for a caller other than the receiver, then BadRequest for a status other than accepted or rejected; on success the request and its receiver |
| Requests.AnswerKind | src/requests/requests.service.ts:169-179 | REQUEST_ACCEPTED exactly for accepted, REQUEST_REJECTED exactly for rejected |
| Requests.UpdateStatus | src/requests/requests.service.ts:118-182 | a failed check changes nothing; otherwise the answered request is stored, and then a null offered skill, category or sender is a TypeError with nothing sent, else exactly one notification goes to the sender |
| Requests.AnsweredLeavesViews | src/requests/requests.service.ts:154-157 | an answered request is in neither party's incoming or outgoing view |
| Categories.ParentOf | src/categories/categories.service.ts:19-27 | no parentId gives a root; an unknown parentId is NotFound; a known one is the parent |
| Categories.Create | src/categories/categories.service.ts:16-35 | NotFound stores nothing; otherwise one new row with the name, under the parent if given |
| Categories.CreatedRootIff | src/categories/categories.service.ts:17-32 | a created category is a root exactly when no parentId was given |
| Categories.ChildrenOf | src/categories/categories.service.ts:41-46 | exactly the categories under the given one, each as often as the table holds it, by name |
| Categories.ChildrenOnce | src/categories/categories.service.ts:41-46 | each child is listed exactly once |
| Categories.Roots | src/categories/categories.service.ts:40-43 | exactly the categories without a parent, each as often as the table holds it, by name |
| Categories.RootsOnce | src/categories/categories.service.ts:40-43 | each root is listed exactly once |
| Categories.FindAll | src/categories/categories.service.ts:38-49 | the roots by name, each with its children by name |
| Categories.FindAllOnce | src/categories/categories.service.ts:38-49 | one entry per root, no root twice, and no child twice under a root |
| Categories.FindOne | src/categories/categories.service.ts:51-56 | null exactly for an unknown id; otherwise the category, its parent and exactly its children, each as often as the table holds it |
| Categories.FindOneChildrenOnce | src/categories/categories.service.ts:51-56 | findOne loads each child exactly once |
| Categories.UpdateStub | src/categories/categories.service.ts:59-61 | update only returns a message naming the id |
| Categories.RemoveStub | src/categories/categories.service.ts:63-65 | remove only returns a message naming the id |
| Cities.Create | src/cities/cities.service.ts:17-20 | one new row with exactly the given name and subject |
| Cities.SearchTerm | src/cities/cities.service.ts:26-27 | a search is in effect exactly when it is present and not all whitespace, and it is then the trimmed text |
| Cities.MatchesIgnoresCase | src/cities/cities.service.ts:26-28 | ILIKE: a term selects the same cities as its lower-case form, and a name containing it exactly matches |
| Cities.FindAll | src/cities/cities.service.ts:23-32 | exactly the cities whose name contains the search ignoring case (all when none), each as often as the table holds it, by name ascending |
| Cities.FindAllOnce | src/cities/cities.service.ts:23-32 | each matching city is listed exactly once |
| Cities.BlankSearchListsAll | src/cities/cities.service.ts:26-31 | a whitespace-only search lists every city, as no search does |
| Cities.SearchIgnoresSurroundingBlanks | src/cities/cities.service.ts:26-28 | surrounding whitespace in the search does not change the result |
| Cities.Assign | src/cities/cities.service.ts:39 | the given fields overwrite, the id and the rest stay |
| Cities.Update | src/cities/cities.service.ts:35-41 | NotFound changes nothing; otherwise the assigned row replaces the stored one |
| Cities.Remove | src/cities/cities.service.ts:44-47 | the row is deleted; NotFound exactly when there was none |
| RolesGuard.CanActivate | src/auth/guards/roles.guard.ts:10-29 | passes exactly when no roles are declared, or a user is present whose role is listed; never false; otherwise Forbidden |
| RolesGuard.AdminOnly | src/auth/guards/roles.guard.ts:24-26 | an ADMIN-only handler admits exactly the ADMIN principals |
| RolesGuard.MoreRolesAdmitMore | src/auth/guards/roles.guard.ts:24-26 | listing more roles never shuts out a principal who passed |
| RolesGuard.EmptyRolesAdmitNobody | src/auth/guards/roles.guard.ts:17-26 | an empty role list admits nobody |
| ExceptionFilter.DetailOrNull | src/common/filters/all-exception.filter.ts:49 | the detail, or null when it is missing or undefined |
| ExceptionFilter.Catch | src/common/filters/all-exception.filter.ts:28-77 | 404 for a missing entity, 409 with detail for code 23505, 413 for a too-large payload, other HttpExceptions as they are, 500 otherwise |
| ExceptionFilter.ConflictOnlyForUniqueViolation | src/common/filters/all-exception.filter.ts:41-53 | outside HttpExceptions, 409 is sent exactly for a unique violation |
| ExceptionFilter.BodyCarriesStatus | src/common/filters/all-exception.filter.ts:32-76 | every body the filter writes itself starts with the status it sends, then a message |
| ExceptionFilter.OtherQueryFailuresAre500 | src/common/filters/all-exception.filter.ts:41-76 | any other driver code, a missing code or a null driver error gives 500 |
| ExceptionFilter.Thrown | src/common/filters/all-exception.filter.ts:64-68 | a service's Nest exception is an HttpException with its status; a runtime error is none |
| ExceptionFilter.ServiceErrorsReachClient | src/common/filters/all-exception.filter.ts:64-76 | every service error reaches the client with its status and message; a runtime error becomes a bare 500 |
| FileUpload.CheckSignature | src/file-upload/file-upload.service.ts:86-98 | true exactly when the buffer is at least as long as the signature and begins with it |
| FileUpload.DetectFileType | src/file-upload/file-upload.service.ts:67-84 | jpeg, png or gif exactly when that signature matches; null when none does |
| FileUpload.SignaturesExclusive | src/file-upload/file-upload.service.ts:7-11 | the three signatures start with different bytes, so at most one matches |
| FileUpload.Head | src/file-upload/file-upload.service.ts:40 | slice(0, 8) is the prefix of exactly 8 bytes, or the whole buffer when shorter |
| FileUpload.SignatureSeesHead | src/file-upload/file-upload.service.ts:40 | a signature of at most 8 bytes matches the prefix exactly when it matches the buffer |
| FileUpload.DetectionSeesHead | src/file-upload/file-upload.service.ts:40 | truncating to 8 bytes never changes the detected type |
| FileUpload.GetExpectedType | src/file-upload/file-upload.service.ts:100-108 | the three image types map to jpeg, png and gif; any other string outside the allow-list is returned unchanged, and only the three allow-listed types reach it from validateFileContent |
| FileUpload.ValidateFileContent | src/file-upload/file-upload.service.ts:30-65 | passes exactly when the detected type equals the expected one; every failure, including a failed read, is BadRequest |
| FileUpload.DiskVerdictSeesWholeFile | src/file-upload/file-upload.service.ts:35-41 | the disk path, reading 8 bytes, gives the verdict the whole file would get |
| FileUpload.HandleFileUpload | src/file-upload/file-upload.service.ts:13-28 | BadRequest for no file, then a type outside the allow-list, then a size over 2 MiB, then bad content; success carries the file's path |
| FileUpload.AcceptedIsGenuine | src/file-upload/file-upload.service.ts:13-27 | an accepted file is at most 2 MiB and its bytes carry the signature of its declared type |
| FileUpload.ExactlyMaxSizePasses | src/file-upload/file-upload.service.ts:22-23 | a file of exactly 2 MiB passes the size check |
| UsersSeeder.NewUser | src/seeding/users.seeder.ts:30-38 | a seeded user has role USER, the entry's fields, a hashed password, and favourites defaulting to none |
| UsersSeeder.FoundIff | src/seeding/users.seeder.ts:22-26 | findOne by email finds a user exactly when the email is taken |
| UsersSeeder.InsertFresh | src/seeding/users.seeder.ts:26-40 | adding a user whose email is free keeps emails unique |
| UsersSeeder.SeedingAppends | src/seeding/users.seeder.ts:40-41 | seed only appends rows, and the rows it appends are exactly the users it returns |
| UsersSeeder.SeedingKeepsValid | src/seeding/users.seeder.ts:21-46 | seed keeps row ids and the unique-email constraint |
| UsersSeeder.SeedCovers | src/seeding/users.seeder.ts:21-46 | after seed every entry's email belongs to a user |
| UsersSeeder.SeedNothingNew | src/seeding/users.seeder.ts:21-26 | when every email is taken, seed writes and returns nothing |
| UsersSeeder.SeedIdempotent | src/seeding/users.seeder.ts:21-46 | a second run creates and returns nothing |
| UsersSeeder.SeededFromData | src/seeding/users.seeder.ts:28-41 | every returned user is built from an entry |
| UsersSeeder.SeededWereAbsent | src/seeding/users.seeder.ts:26-41 | no returned user had an email taken before the run |
| UsersSeeder.Seeding | src/seeding/users.seeder.ts:16-50 | the reference definition of the loop, entry after entry; its contract keeps every id below the counter, and the lemmas above state what it writes and returns |
| UsersSeeder.Seed | src/seeding/users.seeder.ts:16-50 | the loop's table and returned list are exactly those of Seeding, and the store stays valid |
| UsersSeeder.Clear | src/seeding/users.seeder.ts:52-55 | the user table is emptied |
| AdminSeeder.NewAdmin | src/seeding/admin.seeder.ts:38-46 | name ADMIN, role ADMIN, gender male, a hashed password and no favourites |
| AdminSeeder.AdminSeeding | src/seeding/admin.seeder.ts:20-56 | nothing when a setting is missing or empty or the email is taken; otherwise exactly one new row, which is the returned list |
| AdminSeeder.AdminSeedIdempotent | src/seeding/admin.seeder.ts:30-34 | a second run creates nothing |
| AdminSeeder.Seed | src/seeding/admin.seeder.ts:17-57 | the method's table and returned list are those of AdminSeeding, and the store stays valid |
| SkillsSeeder.NewSkill | src/seeding/skills.seeder.ts:27-31 | title and description copied, images defaulting to empty, no category or owner |
| SkillsSeeder.FindByTitle | src/seeding/skills.seeder.ts:21-23 | a found skill has the title |
| SkillsSeeder.FoundIff | src/seeding/skills.seeder.ts:21-25 | findOne by title finds a skill exactly when the title is in use |
| SkillsSeeder.SeedingAppends | src/seeding/skills.seeder.ts:33-34 | seed only appends rows, and those rows are exactly the skills it returns |
| SkillsSeeder.SeedingKeepsIds | src/seeding/skills.seeder.ts:20-39 | seed keeps row ids equal to their keys |
| SkillsSeeder.SeedCovers | src/seeding/skills.seeder.ts:20-39 | after seed every entry's title belongs to a skill |
| SkillsSeeder.SeedNothingNew | src/seeding/skills.seeder.ts:20-25 | when every title is in use, seed writes and returns nothing |
| SkillsSeeder.SeedIdempotent | src/seeding/skills.seeder.ts:20-39 | a second run creates and returns nothing |
| SkillsSeeder.SeededFromData | src/seeding/skills.seeder.ts:25-34 | every returned skill is built from an entry whose title was free before the run |
| SkillsSeeder.Seeding | src/seeding/skills.seeder.ts:15-43 | the reference definition of the loop, entry after entry; its contract keeps every id below the counter, and the lemmas above state what it writes and returns |
| SkillsSeeder.Seed | src/seeding/skills.seeder.ts:15-43 | the loop's table and returned list are exactly those of Seeding, and the store stays valid |
| SkillsSeeder.Clear | src/seeding/skills.seeder.ts:45-48 | the skill table is emptied |
| CategoriesSeeder.FindRoot | src/seeding/categories.seeder.ts:25-27 | a found category has the name and no parent |
| CategoriesSeeder.FindChild | src/seeding/categories.seeder.ts:42-48 | a found category has the name and the given parent |
| CategoriesSeeder.ParentFor | src/seeding/categories.seeder.ts:25-38 | the existing root is reused; otherwise a new root with the name is added |
| CategoriesSeeder.ParentForExtends | src/seeding/categories.seeder.ts:29-34 | finding or creating the root keeps every existing row |
| CategoriesSeeder.SeedChildren | src/seeding/categories.seeder.ts:41-61 | the reference definition of the inner loop, child after child; its contract keeps every id below the counter |
| CategoriesSeeder.SeedEntry | src/seeding/categories.seeder.ts:25-63 | the reference definition of one entry: its root, then its children; its contract keeps every id below the counter |
| CategoriesSeeder.Seeding | src/seeding/categories.seeder.ts:14-68 | the reference definition of the outer loop, entry after entry; its contract keeps every id below the counter |
| CategoriesSeeder.SeedChildrenAppends | src/seeding/categories.seeder.ts:50-56 | the inner loop only appends rows, exactly the children it collects |
| CategoriesSeeder.SeedChildrenUnder | src/seeding/categories.seeder.ts:50-56 | every collected child is new and lies under the entry's root |
| CategoriesSeeder.SeedEntryExtends | src/seeding/categories.seeder.ts:23-64 | one entry keeps every existing row |
| CategoriesSeeder.SeedingExtends | src/seeding/categories.seeder.ts:23-64 | seed keeps every existing row |
| CategoriesSeeder.SeedEntryReturns | src/seeding/categories.seeder.ts:25-63 | one entry adds at most its root, then exactly its new children; it returns those children and then the root findOne now finds |
| CategoriesSeeder.SeedChildrenCovers | src/seeding/categories.seeder.ts:41-60 | after the inner loop every listed child exists under the root |
| CategoriesSeeder.SeedEntryCovers | src/seeding/categories.seeder.ts:23-60 | after one entry its root and all its children exist |
| CategoriesSeeder.SeedCovers | src/seeding/categories.seeder.ts:23-60 | after seed every entry's root exists, and every listed child exists under it |
| CategoriesSeeder.SeedChildrenNothingNew | src/seeding/categories.seeder.ts:42-50 | children that all exist already are not created again |
| CategoriesSeeder.SeedNothingNew | src/seeding/categories.seeder.ts:25-50 | when every root and child exists, seed adds no row |
| CategoriesSeeder.SeedIdempotent | src/seeding/categories.seeder.ts:23-64 | a second run adds no category |
| CategoriesSeeder.ChildrenScopedByRoot | src/seeding/categories.seeder.ts:42-48 | a child name listed under two roots of different names yields two different categories |
| CategoriesSeeder.SeedReturnsRoots | src/seeding/categories.seeder.ts:63 | every entry's root, new or existing, is in the returned list |
| CategoriesSeeder.SeedEntryChildrenNew | src/seeding/categories.seeder.ts:56-63 | one entry returns only new children, followed by its root |
| CategoriesSeeder.SeedReturnsOnlyNewChildren | src/seeding/categories.seeder.ts:56 | every child in the returned list was created by this run |
| CategoriesSeeder.SeedChildrenOf | src/seeding/categories.seeder.ts:41-61 | the inner loop's table and collected children are exactly those of SeedChildren |
| CategoriesSeeder.Seed | src/seeding/categories.seeder.ts:14-68 | the nested loops' table and returned list are exactly those of Seeding, and the store stays valid |
| CategoriesSeeder.Clear | src/seeding/categories.seeder.ts:70-74 | the category table is emptied |

## Left out

- Network and transport are not modelled: HTTP routing, the controllers, the WebSocket gateway and its rooms. A notification is an event appended to `Db.notifications`.
- JWT issuing and verification, the auth service and its strategies are not part of this model. `RolesGuard` takes the decoded principal as a parameter.
- The file system is not modelled. `fs.readFile` in the upload validator is a parameter (`None` when the read throws). `existsSync`/`unlinkSync` in `Skills.Remove` are not modelled; the method returns the names of the files it would consider.
- bcrypt's salt and cost are left out: `Hash` is deterministic and `Compare` is equality with it.
- Ids are natural numbers handed out by a counter, where the source uses generated uuids. A query-string category id is compared with the id's decimal rendering. The timestamp `createdAt` is the parameter `now`.
- Collation is left out. Text compares by code point, and case folding covers only ASCII and the basic Cyrillic letters. A `%` or `_` inside a search string is taken literally, not as a LIKE wildcard.
- Unspecified row order is fixed by id. Without ORDER BY, and between rows that tie under ORDER BY, PostgreSQL promises no order, but the model lists such rows by id. So a page of a sort with ties (many users with one name, NULL cities, requests created at the same instant) may differ from the database's, and so may the row findOne picks when several match.
- FileUpload.GetExpectedType: in JavaScript, `typeMap[mimetype]` also finds members inherited from Object.prototype (such as 'constructor' or 'toString'). The model returns such strings unchanged. They cannot reach the method, because it runs only after the allow-list check.
- Skills.FindAll: a category string that is not a well-formed id makes the database refuse the query. The model returns `Internal`, and the filter answers both with 500. Well-formed means the canonical decimal numeral of an id, standing for the uuid syntax.
- Query-string parsing is left out: `Number(...)` conversion and repeated parameters. The DTO model starts from the converted number.
- A failed validation reports only its first message; the ValidationPipe lists them all.
- Schema constraints (foreign keys, NOT NULL) are not enforced, except the requests' foreign keys on their skills when a skill is removed (`Skills.Remove`). `Skill.category` and `Skill.owner` are optional in the model.
- SkillsSeeder.Seed: the source creates each skill from title, description and images only (src/seeding/skills.seeder.ts:27-33), while `category` and `owner` are declared `nullable: false` (src/skills/entities/skill.entity.ts:16-25). Under that schema the database refuses the first insert of a new title with a NOT NULL violation, and seed throws. The model follows the evident intent: each new skill is stored without category or owner. So `Seeding`, `SeedCovers` and `SeedIdempotent` describe the intended seeder, not one the declared schema lets through.
- Users.Merge: the update DTO class is not part of this model. The patch is taken to hold the profile fields of CreateUserDto without `password`, since passwords change only through the password-change path, which hashes them. If the DTO is `PartialType(CreateUserDto)`, a body's password would pass the whitelist and `save` would store it unhashed; the model does not cover that.
- `clear` empties the table. PostgreSQL refusing to TRUNCATE a table that other tables reference is not modelled.
- Users.Update: a save that violates the unique email constraint is modelled as `Conflict("Duplicate entry")`, the answer the exception filter gives for code 23505.
- Users.RefreshTokenValue: models only the argument mapping of updateRefreshToken. What the ORM does with an undefined column is not shown in the code.
- Users.CreateCheck: repeated ids in wantToLearnCategoryIds make findByIds return fewer rows, so the request is refused with NotFound. The model keeps this behaviour of the code.
- UsersSeeder.NewUser: the owned-skills list of a seeded user is a relation stored on the skill side; the user row does not hold it.
- The Update*Dto classes are not part of this model; their fields are modelled as optional.
- Skills.Update: the two ORM failures (EntityPropertyNotFoundError for `categoryId`, UpdateValuesMissingError for an empty body) are modelled by their messages as `Internal`; the ORM's own column matching is not modelled beyond these two cases.
- Skills.AddToFavorites: the source loads the skill with the relation `favoritedBy`, which `Skill` does not declare (src/skills/entities/skill.entity.ts:5-26), although `User.favoriteSkills` names it as its inverse side (src/users/entities/user.entity.ts:57). As written the relation lookup would fail with a 500 before any check. The model follows the evident intent: a many-to-many between users and their favourite skills, stored on the user side.
- The seed data files (users, skills, categories) are not part of this model; the seeders take the data as a parameter.
- Console logging in the seeders and the exception filter is output only and is left out.
- updateRefreshToken's store write, users.remove's missing implementation and the other stubs return or write nothing the model needs beyond the rows above.
