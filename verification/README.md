# Post board core, modelled in Dafny

A model of the pure logic of a small bulletin-board backend in which every post is guarded by its own
password: the post service's guarded state transitions (add, read, edit, soft delete), the where-condition
builders used by the listing query, the custom field validators (`IsPassword` in two copies, `IsId`, the
`IdPipe` path check), the entity's per-field constraints collected as a list of violations, and the
password-free list response.

Modules, one per source file or concept:

- `Wrappers` (`wrappers.dfy`): `Option`, standing for `null` / `undefined`.
- `JsValues` (`js_values.dfy`): the JavaScript values the validators see (`Undefined | Null | Bool | Num | NaN | Str`),
  falsiness, `typeof … === 'number'` and ToNumber.
- `Errors` (`errors.dfy`): message constants, validator verdicts, `InvalidIdException` (status 400).
- `PasswordRule`, `CommonIsPassword`, `IsPassword` (`password_rule.dfy`, `is_password.dfy`): the password rule
  shared by two decorators. They are registered under different names (`isPassword` and `isNumberContains`) and
  report different messages.
- `IsId` (`is_id.dfy`), `IdPipe` (`id_pipe.dfy`): the optional-id rule and the path-id pipe.
- `QueryBrackets` (`query_brackets.dfy`): `eqCondition`, `ltCondition`, `containsCondition`, the keyword split
  on single spaces, and the nested loops that emit the OR-clauses.
- `PostEntity` (`post_entity.dfy`): the stored `Post` record and the decorator constraints as `Violations`.
- `PostResponse` (`post_response.dfy`): the `PostsResponse` projection.
- `PostService` (`post_service.dfy`): the store `Store(live: map<int, Post>, nextId: int)`; soft deletion removes
  the id from `live`, and `nextId` is the auto-increment counter, so a deleted id is never reused.
  `bcrypt.hash` is the function parameter `hash`; the password comparison the service calls is the parameter
  `verify`.

Where the source's own messages and tests expect more than the code enforces, the model follows the code:

- `PostMessage.TITLE_MIN_LENGTH` and `CONTENT_MIN_LENGTH` (src/domain/post/post.message.ts:4, 6) announce a
  two-character minimum, and the controller tests at src/test/domain/post/post.controller.spec.ts:106-118 and
  134-144 expect a one-character title or content to be refused. The entity's decorators
  (src/domain/post/post.entity.ts:26-36) only demand a non-empty string, so `OneCharacterTitleAccepted` shows
  such a post raises no violation.
- The entity requires a password of at least 6 characters, with no digit rule. The digit rule belongs to
  `IsPassword`, whose default window is 1 to 150 characters.
- The keyword is split with `split(/ /g)`, so consecutive spaces give empty words, and each keyword clause is
  written with the operator `=` around a `%word%` pattern. The model records the operator as written and does
  not evaluate it.

## Model

| member | source | states |
|---|---|---|
| `PostService.AddPost` | src/domain/post/post.service.ts:28-42 | exactly one record is added, under an id that was not live; it stores `hash(password)` and copies author, title and content; every other record is unchanged; the store invariant is kept |
| `PostService.GetPost` | src/domain/post/post.service.ts:56-64 | fails with PostNotFound exactly when the id is not live; otherwise returns the stored record itself |
| `PostService.UpdatePost` | src/domain/post/post.service.ts:74-93 | a missing id fails with PostNotFound before any password check; a password that does not verify fails with PasswordMismatch; both leave the store unchanged; success happens exactly when both guards pass, and then only author, title and content of that id change |
| `PostService.DeletePost` | src/domain/post/post.service.ts:100-115 | the same guard order with the store unchanged on failure; on success exactly that id leaves the live posts and every other record is unchanged |
| `PostService.AddThenGet` | src/domain/post/post.service.ts:34-41 | a post just added reads back with its fields and the hashed password |
| `PostService.UpdateThenGet` | src/domain/post/post.service.ts:88-92 | after an edit the post reads back edited, with its old password hash, which still verifies against the same password |
| `PostService.DeleteThenNotFound` | src/domain/post/post.service.ts:104-114 | after a delete, reading, editing or deleting that id again fails with PostNotFound |
| `PostService.Run` | src/domain/post/post.service.ts:28-115 | any sequence of requests keeps the store invariant and never lowers the id counter |
| `PostService.NeverRevived` | src/domain/post/post.service.ts:114 | an id that is not live and below the counter stays not live under any sequence of requests |
| `PostService.DeleteIsTerminal` | src/domain/post/post.service.ts:104-114 | after a successful delete, no later sequence of requests makes that post readable again |
| `PostService.ApplyKeepsHashes` | src/domain/post/post.service.ts:34-41 | one request keeps every stored password equal to the hash of some plaintext |
| `PostService.RunKeepsHashes` | src/domain/post/post.service.ts:34-41 | any sequence of requests keeps every stored password equal to the hash of some plaintext |
| `QueryBrackets.EqCondition` | src/common/queryBrackets/queryBrackets.ts:3-11 | no clause exactly for the falsy values (undefined, null, false, 0, NaN, empty string); otherwise the single clause `column = value` |
| `QueryBrackets.LtCondition` | src/common/queryBrackets/queryBrackets.ts:13-21 | no clause exactly for the falsy values, 0 included; otherwise the single clause `column < value` |
| `JsValues.Falsy` | src/common/queryBrackets/queryBrackets.ts:4 | `!value` holds exactly for undefined, null, false, 0, NaN and the empty string (used again at queryBrackets.ts:14 and IsId.validation.ts:15) |
| `JsValues.ToNumber` | src/common/validation/IsId.validation.ts:16 | the conversion behind `isNaN(value)` and `value > 0`: a number converts to itself; NaN and undefined to NaN; null and false to 0; true to 1; a string to whatever the string parser gives |
| `QueryBrackets.Split` | src/common/queryBrackets/queryBrackets.ts:28 | `keyword.split(/ /g)` always yields at least one word, even for the empty keyword |
| `QueryBrackets.Join` | src/common/queryBrackets/queryBrackets.ts:28 | the inverse used by JoinSplit: the first word starts the result, and a space follows it when there are more words |
| `QueryBrackets.JoinSplit` | src/common/queryBrackets/queryBrackets.ts:28 | joining the split words with single spaces gives back the keyword |
| `QueryBrackets.SplitJoin` | src/common/queryBrackets/queryBrackets.ts:28 | splitting space-free words joined by single spaces gives back the words |
| `QueryBrackets.WordsHaveNoSpace` | src/common/queryBrackets/queryBrackets.ts:28 | no word of the split contains a space |
| `QueryBrackets.WordCount` | src/common/queryBrackets/queryBrackets.ts:28 | the split has one word more than the keyword has spaces |
| `QueryBrackets.DoubleSpaceGivesEmptyWord` | src/common/queryBrackets/queryBrackets.ts:28 | two adjacent spaces yield an empty word |
| `QueryBrackets.WordClauses` | src/common/queryBrackets/queryBrackets.ts:32-34 | one clause per word, in word order, each `column = :name` with the placeholder name for that word and the value `'%' + word + '%'` |
| `QueryBrackets.ClauseCount` | src/common/queryBrackets/queryBrackets.ts:31-35 | the nested loops emit exactly columns × words clauses |
| `QueryBrackets.ClauseColumns` | src/common/queryBrackets/queryBrackets.ts:33 | every clause has operator `=` and is on one of the given columns |
| `QueryBrackets.ColumnClausesSnoc` | src/common/queryBrackets/queryBrackets.ts:31-35 | one more column appends exactly that column's clauses at the end |
| `QueryBrackets.ClauseAt` | src/common/queryBrackets/queryBrackets.ts:31-33 | column-major order: clause `i × |words| + j` pairs column `i` with word `j`, the placeholder name, and the value `'%' + word + '%'` |
| `QueryBrackets.LastClause` | src/common/queryBrackets/queryBrackets.ts:31-33 | the last `orWhere` call pairs the last column with the last word |
| `QueryBrackets.ClausesFitWords` | src/common/queryBrackets/queryBrackets.ts:32-33 | every clause carries the placeholder name and the pattern of one of the words |
| `QueryBrackets.ContainsCondition` | src/common/queryBrackets/queryBrackets.ts:23-39 | an empty keyword gives no clause; otherwise an OR-list of columns × words clauses, each with operator `=` on a given column, and every one of them using the placeholder name `word` |
| `QueryBrackets.Bind` | src/common/queryBrackets/queryBrackets.ts:33 | the parameter map after the `orWhere` calls in order: every clause's placeholder name is bound |
| `QueryBrackets.BindSharedName` | src/common/queryBrackets/queryBrackets.ts:33 | when all clauses share one name, that name is bound to the last clause's value |
| `QueryBrackets.BindConsistent` | src/common/queryBrackets/queryBrackets.ts:33 | when equal names always carry equal values, every clause's name is bound to its own value |
| `QueryBrackets.SharedNameBindsLastWord` | src/common/queryBrackets/queryBrackets.ts:32-33 | as written, every contains-clause is compared with the pattern of the last word |
| `QueryBrackets.SharedNameLosesFirstWord` | src/common/queryBrackets/queryBrackets.ts:33 | for the keyword `a b` on one column, the first clause is handed `%a%` but the query binds `%b%` for it |
| `QueryBrackets.SplitTwoWords` | src/common/queryBrackets/queryBrackets.ts:28 | `"a b".split(/ /g)` is `["a", "b"]` |
| `QueryBrackets.IndexedConsistent` | src/common/queryBrackets/queryBrackets.ts:33 | with one placeholder name per word, two clauses with the same name carry the same value |
| `QueryBrackets.IndexedBindsOwn` | src/common/queryBrackets/queryBrackets.ts:33 | with one placeholder name per word, every clause is bound to its own value |
| `QueryBrackets.IndexedLookup` | src/common/queryBrackets/queryBrackets.ts:33 | with one placeholder name per word, word `j`'s name is bound to word `j`'s pattern |
| `QueryBrackets.ContainsConditionIndexed` | src/common/queryBrackets/queryBrackets.ts:23-39 | the corrected builder: the same clauses in the same order, and every clause is bound to its own value |
| `QueryBrackets.IndexedClauseAt` | src/common/queryBrackets/queryBrackets.ts:31-33 | with one name per word, clause `i × |words| + j` is column `i` against word `j` and is bound to word `j`'s pattern |
| `QueryBrackets.IndexedBindsOwnWord` | src/common/queryBrackets/queryBrackets.ts:23-39 | in the corrected builder, the clause for column `i` and word `j` is compared with word `j`'s pattern |
| `QueryBrackets.AppendWordClauses` | src/common/queryBrackets/queryBrackets.ts:32-34 | the inner loop appends exactly the clauses of one column against every word |
| `QueryBrackets.BuildContainsClauses` | src/common/queryBrackets/queryBrackets.ts:30-36 | the nested loops emit exactly the column-major clause list |
| `PasswordRule.ContainsDigit` | src/common/validation/IsPassword.validation.ts:20-26 | `/\d/.test` holds exactly when some character is an ASCII digit 0-9 |
| `PasswordRule.Check` | src/common/validation/IsPassword.validation.ts:18-27 | passes exactly for a string with length in [min, max] inclusive that contains an ASCII digit; any other value fails under the given registered name and message; with no option object, validation throws |
| `PasswordRule.NoDigitRejected` | src/common/validation/IsPassword.validation.ts:20-26 | a string without a digit fails, whatever its length and bounds |
| `PasswordRule.DefaultBoundsInclusive` | src/common/validation/IsPassword.validation.ts:34-37 | under the defaults min 1 and max 150, lengths 1 and 150 pass and lengths 0 and 151 fail |
| `CommonIsPassword.Validate` | src/common/validation/IsPassword.validation.ts:9-27 | the password rule; every failure is reported under the name `isPassword` with PostErrorMessage.PASSWORD |
| `IsPassword.Validate` | src/validation/IsPassword.validation.ts:9-27 | the same rule; every failure is reported under the name `isNumberContains` with PostMessage.PASSWORD |
| `IsPassword.CopiesAgree` | src/validation/IsPassword.validation.ts:9-27 | the two decorators accept and reject exactly the same values, and a rejection differs in both the registered name and the message |
| `IsId.Validate` | src/common/validation/IsId.validation.ts:7-17 | undefined, null, false and the empty string pass as absent; a number passes exactly when it is above 0, so 0 and negatives fail; NaN fails; a non-empty string passes exactly when it converts to a positive number; failures are reported under the name `isId` with ID_INVALID |
| `IdPipe.Transform` | src/common/pipe/validation.pipe.ts:24-29 | the input is passed on unchanged exactly when it is a non-NaN number at least 0; anything else throws InvalidIdException with status 400 |
| `IdPipe.PipeAdmitsZero` | src/common/pipe/validation.pipe.ts:25-28 | on numbers, whatever `IsId` accepts the pipe passes, and the two disagree exactly at 0 |
| `PostEntity.Constraints` | src/domain/post/post.entity.ts:16-36 | each field's decorators: `@IsString` first, no decorator twice, `@IsNotEmpty` on every field but the password, `@MinLength(6)` on the password only |
| `PostEntity.Holds` | src/domain/post/post.entity.ts:16-36 | the decorators' meaning: `IsString` holds exactly on strings; `IsNotEmpty` refuses only `''`, null and undefined; the length bounds hold only on strings, comparing their length |
| `PostEntity.Failing` | src/domain/post/post.entity.ts:16-36 | the violations of one field are exactly its decorators that reject the value, and none is reported twice when the decorators are distinct |
| `PostEntity.Violations` | src/domain/post/post.entity.ts:16-36 | a violation is reported exactly for each decorator of each field that rejects that field's value; all fields are checked; no violation is reported twice |
| `PostEntity.FieldRule` | src/domain/post/post.entity.ts:16-36 | a field has a violation exactly when its rule fails: author empty, password shorter than 6, title empty or over 20, content empty or over 200, or a non-string |
| `PostEntity.NoViolations` | src/domain/post/post.entity.ts:16-36 | there is no violation exactly when every field keeps its rule |
| `PostEntity.EmptyStringBreaksOne` | src/domain/post/post.entity.ts:16-36 | an empty string breaks exactly one decorator of each field |
| `PostEntity.AllEmptyGivesFour` | src/domain/post/post.entity.ts:16-36 | four empty strings give exactly four violations, one per field |
| `PostEntity.OneCharacterTitleAccepted` | src/domain/post/post.entity.ts:26-36 | a one-character title and content raise no violation, although post.message.ts:4 and the controller tests expect a two-character minimum |
| `PostResponse.Contents` | src/domain/post/post.response.dto.ts:5-8 | one entry per post, in order, with the post's id, author, title and content |
| `PostResponse.PostsResponse` | src/domain/post/post.response.dto.ts:3-12 | null or undefined posts give undefined contents; otherwise the contents match the posts entry by entry |
| `PostResponse.PasswordInvisible` | src/domain/post/post.response.dto.ts:6-7 | two post lists give the same response exactly when they agree post by post on everything but the password |
| `PostResponse.ContentsAppend` | src/domain/post/post.response.dto.ts:5 | the response of a concatenation is the concatenation of the responses, so order is kept |

## Left out

- `getPosts` only delegates to a repository listing method that is not part of this model. Its ordering, page
  size and cursor handling are therefore not modelled.
- The database's evaluation of the built clauses is not modelled. Clauses are kept as data: column, operator,
  placeholder name, and the value passed to `where`/`orWhere` for that name. `Bind` models only how those values
  end up in one parameter map.
- How the numeric suffix of an indexed placeholder name is spelled (`word0`, `word1`, …) is left abstract as
  `Placeholder("word", Some(j))`; only its distinctness matters.
- `eqCondition` and `ltCondition` both name their placeholder `value` (queryBrackets.ts:7, 17). Two of them in
  one query would share that name, as the contains-clauses share `word`. The listing query that combines them
  is not part of this model, so that sharing is not analysed.
- `ContainsCondition`: with no columns and a non-empty keyword the model returns `AnyOf([])`, an OR-list with no
  clause. The source's `Brackets` then adds no condition at all, exactly like `Empty`. The model keeps the two
  apart and does not prove them equivalent.
- The HTTP layer is not modelled: the controller, status codes of service errors, the global `ValidationPipe`
  options (whitelisting, implicit conversion), module wiring and bootstrap.
- The `@IsNumber` decorator on `id` is left out. `AddPostDto` (src/domain/post/post.request.dto.ts:4-9) picks
  only author, password, title and content. The other request DTOs are not part of this model's source files.
- Persistence plumbing and seeding are left out. The database's row-level behaviour is replaced by the map of
  live posts.
- Timestamps are left out, because the entity as written has no creation or deletion column.
- The entity (src/domain/post/post.entity.ts:10-37) has neither an `equalsPassword` method nor a
  `@DeleteDateColumn`. Yet the service calls `existsPost.equalsPassword` (post.service.ts:84, 110) and
  `softDelete` (post.service.ts:114). The model supplies both from what the calls intend: the comparison is the
  parameter `verify`, and soft deletion is removal from the live map.
- Hashing and password comparison are uninterpreted parameters. That a hash differs from its plaintext cannot be
  stated about them. The model instead proves that every stored password is a hash image.
- `hash` is a deterministic function, but `bcrypt.hash` (post.service.ts:34) draws a fresh salt on every call.
  The model therefore stores equal hashes for equal passwords, which bcrypt does not.
- Post ids are integers. The service takes a JavaScript number, and `IdPipe` passes a fractional id such as 1.5.
  No post has such an id, so the source answers PostNotFound; the service model cannot be given that input.
- Requests are sequential single steps. Asynchrony and concurrent requests are out of scope.
- `PasswordMismatchException` and the `PostErrorMessage` and `CommonErrorMessage` constants are not part of this
  model's source files. They appear only as the constructors `PasswordMismatch`, `PostErrorPassword` and
  `IdInvalid`.
- JavaScript string-to-number parsing, used by `isNaN` and `>` in `IsId`, is passed in as the parameter
  `stringToNumber`.
- Objects, arrays, infinities and negative zero are not among the modelled JavaScript values.
- `PasswordRule.Check`: string lengths count Unicode characters, not UTF-16 code units as JavaScript's
  `length` does. They differ for characters outside the Basic Multilingual Plane.
- `PasswordRule.Check`: an option object with `min` or `max` missing is not modelled. Only a complete option or
  no option at all is.
- `PostEntity.Violations`: the order of messages within one field follows the decorators top to bottom. The
  validation library does not promise that order.

## Findings

| source | as written | input that shows it | evidently intended | confidence | as-written member | corrected member |
|---|---|---|---|---|---|---|
| src/common/queryBrackets/queryBrackets.ts:33 | every clause is added with the same placeholder name `:word`, and the query keeps one value per name, so each `orWhere` overwrites the previous word's pattern | keyword `a b` on the column `title`: the first clause is handed `%a%`, but the query binds `%b%` for both clauses | each word is bound under its own name, so each clause is compared with its own word's pattern | not executed | `QueryBrackets.SharedNameLosesFirstWord` | `QueryBrackets.ContainsConditionIndexed` |
