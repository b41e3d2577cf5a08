# File uploader core, modelled in Dafny

This project models the logic of a small multi-user file-storage web
application: nested folders owned by users, the breadcrumb path of a folder,
time-limited public share links for files and folders, and the password
policy and uniqueness check of registration. The database tables become Dafny
maps, the route handlers become methods on classes that hold those maps, and
each HTTP answer becomes a value of a response datatype. The clock (`now`),
the random share token, email validation and normalisation, and the password
hash are parameters.

Files (all modules are top level and import one another):

- `wrappers.dfy`: `Option`, which stands for `null`/`undefined` and for a lookup that finds no row.
- `text.dfy`: the whitespace set, `Trim` and the lemma that pins it down (`TrimPadded`), and the length that the `isLength` validator measures (`CountedLength`).
- `folder_table.dfy`: the `Folder` row and the owner-scoped `findFirst`.
- `breadcrumbs.dfy`: `buildBreadcrumbs`. It has a specification function `Trail`, a method with a loop proved against `Trail`, and lemmas about `Trail`.
- `folders.dfy`: class `FolderRoutes` (create, show, rename, delete), plus lemmas on how these operations affect the breadcrumb walk.
- `share.dfy`: `parseDuration` and its regular expression, class `ShareService` (link creation), and the pure `View` and `Download` decisions.
- `auth.dfy`: the validators of the registration form, the error list they collect, and class `UserStore` (`Register`).

Termination of the breadcrumb walk. The source loop has no cycle guard, so it
ends only on an acyclic parent chain. The model makes this assumption
explicit with a ghost `rank: map<int, nat>`. `Ranked(table, userId, rank)`
says that every step the walk can take for that user goes to a folder of
strictly smaller rank. The method's loop decreases that rank.

Where the code does something its own comments or names do not suggest:

- The comment on `buildBreadcrumbs` (src/utils/breadcrumbs.js:5) promises crumbs "from root -> current folder". The code stops at the first parent it cannot find among the caller's folders, so the crumbs can start below the true root (`ChainShape`, `TrailShape`).
- The code treats a `parentId` of `0` as "no parent", because `0` is falsy (`HasParent`).
- The `trim()` sanitizer of the validation chain rewrites `req.body.name`. So rename stores the trimmed name, and an all-blank name is stored as `""`, because the validation result is never read.
- Rename and delete use no owner in their `where` clause (`Rename`, `Delete` take a `userId` that their contracts never mention).
- When a share token is already in the table, the insert violates the unique constraint. The handler catches that and answers 500 "Could not create link". A duration so long that the expiry leaves the `Date` range gives an invalid date, which the insert refuses with the same answer.
- `isLength` does not count U+FE0E and U+FE0F, so a folder name made only of them is "required" although it is not empty.
- The create route stores `Number(parentId)` unchecked (src/routes/folders.js:28-34). A `parentId` equal to the id the new row receives satisfies its own foreign key, so the folder becomes its own parent. After that the breadcrumb walk from it never ends, and no ranking of its owner's folders exists (`SelfParentUnranked`).

## Model

| member | source | states |
|---|---|---|
| `FolderTable.FindOwnedWhere` | src/utils/breadcrumbs.js:9-12 | on a table keyed by row id, the keyed owner-scoped lookup returns a row exactly when that row is stored in the table with that id and that owner, as the `where: { id, userId }` query over the rows does |
| `Text.CountedLengthFull` | src/routes/auth.js:23 | the length that `isLength` measures equals the number of characters exactly when the string holds no presentation selector (U+FE0E, U+FE0F) |
| `Text.CountedLengthZero` | src/routes/folders.js:17 | the measured length is zero exactly when every character is a presentation selector, so `isLength({ min: 1 })` rejects exactly the names made of nothing else |
| `Text.Trim` | src/routes/share.js:11 | the result is no longer than the input, starts and ends with non-whitespace, and is empty exactly when the input is all whitespace |
| `Text.TrimPadded` | src/routes/share.js:11 | trimming removes exactly the surrounding whitespace: whitespace + core + whitespace trims to core, for any trimmed core |
| `Text.TrimIdempotent` | src/routes/folders.js:16 | trimming twice is trimming once |
| `Breadcrumbs.Chain` | src/utils/breadcrumbs.js:14-21 | the walk from an owned folder is non-empty and ends with that folder's `{id, name}` |
| `Breadcrumbs.Trail` | src/utils/breadcrumbs.js:9-13 | the result is empty exactly when no folder with that id belongs to the user; otherwise it ends with the target's `{id, name}` |
| `Breadcrumbs.Reverse` | src/utils/breadcrumbs.js:22 | the result has the same length, with element i equal to element n-1-i of the input |
| `Breadcrumbs.BuildBreadcrumbs` | src/utils/breadcrumbs.js:7-23 | the push loop followed by the reversal returns exactly `Trail`, on every ranked (acyclic) table |
| `Breadcrumbs.RootTrail` | src/utils/breadcrumbs.js:16 | a found folder whose parent id is null or 0 yields exactly its own crumb |
| `Breadcrumbs.ChainShape` | src/utils/breadcrumbs.js:14-21 | every crumb names an owned row; each crumb is the stored, owned parent of the next; the first crumb's folder has no parent that can be followed |
| `Breadcrumbs.ChainRankIncreasing` | src/utils/breadcrumbs.js:14-21 | the walk climbs strictly down the rank, so the crumbs come out with strictly increasing rank, root first |
| `Breadcrumbs.CrumbsOf` | src/utils/breadcrumbs.js:15 | the crumbs of a list of folders are their `{id, name}` pairs, position by position |
| `Breadcrumbs.ChainOfOwnedChain` | src/utils/breadcrumbs.js:14-22 | the converse of ChainShape: for owned folders F0 -> ... -> Fn, each the parent of the next and F0 without a followable parent, the walk from Fn returns [F0, ..., Fn] |
| `Breadcrumbs.TrailOfOwnedChain` | src/utils/breadcrumbs.js:7-23 | the same statement for `buildBreadcrumbs(Fn.id, user)` |
| `Breadcrumbs.TrailShape` | src/utils/breadcrumbs.js:14-22 | non-empty breadcrumbs are owned folders, each linked to the next by its stored parent; the first one is a true root, or its parent is missing or belongs to another user (a truncated path) |
| `Breadcrumbs.TrailBounded` | src/utils/breadcrumbs.js:14-21 | on a ranked table no folder id repeats, and there are at most as many crumbs as folders the user owns |
| `Breadcrumbs.DistinctIdsCount` | src/utils/breadcrumbs.js:15 | a list of crumbs with distinct ids has as many distinct ids as crumbs |
| `Folders.FolderRoutes.Create` | src/routes/folders.js:12-37 | a name whose measured length after trimming is zero (blank, or only presentation selectors) inserts nothing, stores "Folder name is required" in the session and redirects back; any other name inserts exactly one row under a fresh id, with the trimmed name, the caller as owner and the given parent (not checked), and redirects to the parent, or home when no parent was given |
| `Folders.FolderRoutes.ShowFolder` | src/routes/folders.js:40-56 | 404 with the session untouched unless the caller owns the folder, on any table; otherwise, where the owner's walk is ranked, the folder, its child ids, `Trail` as breadcrumbs and the pending session error, which is then cleared |
| `Folders.FolderRoutes.Rename` | src/routes/folders.js:59-70 | whoever the caller is, only the name of the row with that id changes, to the trimmed name, even an empty one; a missing id fails and changes nothing |
| `Folders.FolderRoutes.Delete` | src/routes/folders.js:73-77 | whoever the caller is, the row with that id is removed and nothing else; a missing id fails and changes nothing |
| `Folders.RenameKeepsTrail` | src/routes/folders.js:64-67 | renaming keeps the table ranked; the breadcrumbs of any folder visit the same ids, and only the renamed folder's crumb gets a new name |
| `Folders.RenameKeepsChain` | src/routes/folders.js:64-67 | the same, for the walk from one owned folder |
| `Folders.DeleteKeepsRanked` | src/routes/folders.js:75 | deleting a row keeps the remaining table ranked, so every later walk still terminates |
| `Folders.CreateKeepsRanked` | src/routes/folders.js:28-34 | if no row already names the new id as its parent and the new row is not its own parent, a create keeps the table ranked, with the new folder ranked just above its parent |
| `Folders.SelfParentUnranked` | src/routes/folders.js:28-34 | a folder created with itself as parent (any non-zero id) leaves no ranking of its owner's walk, so the breadcrumb walk from it does not terminate |
| `Share.DurationWholeHours` | src/routes/share.js:10-15 | every parsed duration, default included, is a whole number of hours in milliseconds |
| `Share.MatchDurationSound` | src/routes/share.js:11 | whatever the matcher accepts matches `^(\d+)\s*([dh])$`: the number is the value of the digits and the unit is the final letter |
| `Share.MatchDurationComplete` | src/routes/share.js:11-14 | every string that matches the pattern is accepted, with the value of its digits and its unit |
| `Share.MatchDurationIff` | src/routes/share.js:11-12 | the matcher accepts a string exactly when the string matches the pattern |
| `Share.ParseDurationDefault` | src/routes/share.js:11-12 | an absent duration, or one that does not match the pattern after trimming, is 86 400 000 ms |
| `Share.ParseDurationOfPattern` | src/routes/share.js:11-14 | whitespace + digits + optional whitespace + h/H/d/D + whitespace is the digits' value times 3 600 000 or 86 400 000 |
| `Share.TwoHoursDuration` | src/routes/share.js:14 | "2h" is 7 200 000 ms |
| `Share.NoUnitDuration` | src/routes/share.js:11-12 | a duration that, once trimmed, is empty or does not end in h, H, d or D is the one-day default |
| `Share.NonDigitDuration` | src/routes/share.js:11-12 | any character before the unit that is neither a digit nor whitespace (a sign as in "-2h", a point as in "1.5h", a letter) gives the one-day default, so no duration is negative or fractional |
| `Share.ShareService.CreateLink` | src/routes/share.js:18-40 | a type other than "file" or "folder" gives 400 "Invalid type"; a target the caller does not own gives 404; in both cases the link table is unchanged; a token already in use, or an expiry `now + parseDuration(duration)` outside the range of a JavaScript `Date`, gives 500 "Could not create link" and changes nothing; otherwise exactly one link is added under the token, bound to that one target and expiring at that instant, and the answer redirects to `/s/<token>`; after a successful file share, viewing the token at any instant `t` shows that file when `t` is at most the expiry and "Link expired or not found." after it, and downloading it fails exactly after the expiry; after a successful folder share, viewing shows the folder with its child folders and its files up to the expiry and refuses it after; the file and folder tables stay keyed by row id and every stored link keeps exactly one target and a valid expiry |
| `Share.View` | src/routes/share.js:43-53 | a missing token or an expiry strictly before `now` gives "Link expired or not found."; a live link whose file exists always shows that file, and a file is shown only then; a live link without an existing file shows its folder when that folder exists and otherwise gives "Invalid link", and a folder is shown only then; a shown folder comes with exactly its child folders and the files placed in it |
| `Share.Download` | src/routes/share.js:56-66 | the answer is not a 404 exactly when the link exists, is live and is bound to an existing file; it then redirects to the file's non-empty URL, and otherwise serves the file's local path under its original name; every 404 carries "Not found." |
| `Share.FileLinkLifecycle` | src/routes/share.js:48-50 | a file link is shown up to and including its expiry instant, refused after it, and downloads over the same window |
| `Share.FolderLinkLifecycle` | src/routes/share.js:51 | a folder link shows the folder, with its child folders and its files, up to and including its expiry instant, gives "Link expired or not found." after it, and never downloads |
| `Share.OtherTokensUnaffected` | src/routes/share.js:27 | adding a link leaves every other token's view and download answers as they were |
| `Share.TwoHourLink` | src/routes/share.js:21 | a "2h" file link is shown 1 ms before its expiry and at that instant, and refused 1 ms after |
| `Auth.Matches` | src/routes/auth.js:25-32 | an unanchored one-class `matches` holds exactly when some character is in the class |
| `Auth.Failures` | src/routes/auth.js:43-46 | a validator is reported exactly when it is in the chain and rejects the form, and the list is no longer than the chain |
| `Auth.FailuresInOrder` | src/routes/auth.js:43-46 | the errors are a subsequence of the chain: they come in chain order |
| `Auth.FailuresCounted` | src/routes/auth.js:43-46 | no validator is reported more often than it occurs in the chain |
| `Auth.FailuresDistinct` | src/routes/auth.js:43-46 | a chain that repeats no validator reports each failure once |
| `Auth.RegistrationFailuresDistinct` | src/routes/auth.js:16-46 | the registration errors list each failed validator once |
| `Auth.FailuresAppend` | src/routes/auth.js:15-46 | the errors of chains run one after another are the errors of the first chain followed by those of the next |
| `Auth.PasswordRuleMeaning` | src/routes/auth.js:22-33 | the length validator rejects a measured length (code points, presentation selectors not counted) outside 8..72; the three `matches` validators reject a password with no `[A-Z]`, no digit, no `[^A-Za-z0-9]` character; the negated one rejects any whitespace |
| `Auth.PasswordRules` | src/routes/auth.js:22-34 | the registration errors name each password rule exactly when the password breaks it, independently of the other rules (no bail inside the chain) |
| `Auth.EmailAndConfirmationRules` | src/routes/auth.js:16-21 | the email message is reported exactly when the trimmed email is invalid, and the mismatch message exactly when the confirmation differs from the raw password (lines 36-40) |
| `Auth.NoneFail` | src/routes/auth.js:44 | the error list of a chain is empty exactly when no validator of the chain rejects the form |
| `Auth.PasswordChainPasses` | src/routes/auth.js:22-34 | the password chain reports nothing exactly when the password is 8 to 72 characters long with an upper-case letter, a digit, a special character and no whitespace |
| `Auth.RegistrationAccepted` | src/routes/auth.js:16-44 | the form passes validation exactly when the trimmed email is valid, the password is strong and the confirmation equals it |
| `Auth.StrongPasswordHasVisibleSpecial` | src/routes/auth.js:29-33 | every accepted password contains a character that is not a letter, not a digit and not whitespace |
| `Auth.AcceptedExample` | src/routes/auth.js:22-34 | "Passw0rd!" passes every password rule |
| `Auth.BlankOnlyFailure` | src/routes/auth.js:22-33 | a password of the right length with an upper-case letter, a digit and a blank fails only the no-whitespace rule, since the blank already satisfies `[^A-Za-z0-9]` |
| `Auth.LowercaseOnly` | src/routes/auth.js:25-30 | 8 to 72 lower-case letters fail exactly the uppercase, digit and special rules |
| `Auth.Messages` | src/routes/auth.js:45-47 | the error list shown has one entry per failed validator, the message of that validator, in the same order |
| `Auth.UserStore.Register` | src/routes/auth.js:42-62 | any validation failure answers 400 with the messages of the failed validators, in order, and leaves the user table unchanged; an email whose normalised form is already present answers "Email already in use." and leaves it unchanged; otherwise exactly one user is added under the normalised email, with an id no existing user has, with `hash(password)`, and the answer redirects to `/login` |

Definitions used in the table above: `Share.ParseDuration` (src/routes/share.js:10-15), `Share.MatchDuration` (src/routes/share.js:11), `Auth.Fails` (src/routes/auth.js:16-40), `Text.CountedLength` (src/routes/auth.js:23, src/routes/folders.js:17), `Share.Expired` (src/routes/share.js:48, 61), `FolderTable.HasParent` (src/utils/breadcrumbs.js:16), `FolderTable.FindOwned` (src/utils/breadcrumbs.js:9-12, 17-20), `Breadcrumbs.NextUp` (src/utils/breadcrumbs.js:16-20), `Share.FindOwnedFile` (src/routes/share.js:25), `Share.Inserted` (src/routes/share.js:27, 31, 36-38), `FolderTable.ChildIds` (src/routes/share.js:46, src/routes/folders.js:44), `Share.FilesIn` (src/routes/share.js:46).

## Left out

- Database, cloud storage, bcrypt and passport calls: the tables are maps and the libraries are parameters (`isEmail`, `normalize`, `hash`). The salted, randomised bcrypt hash is one opaque value per call.
- src/routes/files.js: uploads, remote deletion and file lookups are calls to the storage service and the database. Only the file row that share links read is modelled (`Share.FileRecord`).
- src/config/passport-config.js, src/app.js and scripts/test-cloudinary.js: login, session wiring, the dashboard query and a connectivity script. They are library glue.
- Token generation: the 22-character nanoid token is an input. Its uniqueness comes only from the table's unique constraint, modelled as the 500 answer.
- The cascading delete of sub-folders, files and links: it is declared in the database schema, which is not part of this model. `Delete` removes the one row.
- Foreign-key checks on `parentId`: they come from the same schema. `Create` stores any parent id, as the route does. So `CreateKeepsRanked` needs two hypotheses: no earlier row points at the new id, and the new row's `parentId` is not its own id. The second is not a foreign-key check the source leaves out: the route accepts a self-parented folder (`SelfParentUnranked`).
- Exceptions other than a missing row (a lost connection, a failing hash): not modelled, including the 500 answer of registration's `catch`.
- `Number(...)` and `parseInt` on values that are not plain decimal strings: parsed values are mathematical integers. `parentId` arrives already parsed, as None when the field is absent or empty. The duration arithmetic needs no floating point: every integer up to the `Date` range is exact in a double, and larger results are refused either way.
- Unicode whitespace: `trim()` and `\s` use a fixed set, namely space, tab, line feed, carriage return, vertical tab, form feed, U+00A0 and U+FEFF.
- Text.CountedLength: measures code points other than U+FE0E and U+FE0F, which is how the `isLength` validator of the validator library measures; that library is not part of this model. Lone surrogates, which a JavaScript string can hold, do not occur in a Dafny string.
- Rendering, redirects as HTTP, status codes other than the named outcomes, and the files list of a shown folder (`include: files`) in `ShowFolder`.
- Folders.FolderRoutes.ShowFolder: the branch that shows an owned folder needs the owner's whole walk to be ranked. A table where the caller owns a self-parented folder, or any other cycle, leaves that branch undescribed even for a folder whose own walk avoids the cycle. The 404 branch needs no ranking.
- Breadcrumbs.BuildBreadcrumbs: defined only where the user's parent links are acyclic (`Ranked` covers every owned folder, not only the walk from `folderId`). On a cyclic parent chain the source never returns, and the model does not describe that case.
