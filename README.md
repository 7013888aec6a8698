# Webshop API user registration, modelled in Dafny

This project models the user-registration core of the webshop API (ASP.NET Core, C#):

- the registration service `UserService.RegisterUser` in its current form (username check, email
  check, password hashing, building the `UserModel`, one insert) and in its older form (username
  check, plaintext password, one insert);
- the user repository as an in-memory table with the `UsernameExists` / `EmailExists` queries and
  the `CreateUser` append;
- the password policy of `PasswordValidationAttribute` and the field rules of `CreateUserDto`;
- the `LanguageConverter` JSON codec for the `Language` enum.

Files and modules:

| file | module | models |
|---|---|---|
| wrappers.dfy | `Wrappers` | `Option` (a nullable value), `Result` (a value or an exception message), `Outcome` (a `Task` that completes or throws) |
| text.dfy | `Text` | ASCII `ToLower()`, the regex character-class search, `char.IsWhiteSpace` and the `Trim().Length == 0` test |
| users.dfy | `Users` | the `UserModel` record `{Id, Username, Email, Password, Salt}` |
| calls.dfy | `Calls` | the calls a registration makes on its collaborators, as the mocks in the tests record them |
| repositories.dfy | `Repositories` | `UserRepository` as a class over `seq<User>` |
| password_hashing.dfy | `PasswordHashing` | `PasswordHasher.HashPassword` with the random salt and PBKDF2 as parameters |
| password_validation.dfy | `PasswordValidation` | `PasswordValidationAttribute.IsValid` |
| dtos.dfy | `Dtos` | `CreateUserDto` validation and the admission of a valid body to the service |
| languages.dfy | `Languages` | `LanguageConverter.Read` and `Write` |
| services.dfy | `Services` | the current `UserService.RegisterUser` |
| legacy_services.dfy | `LegacyServices` | the older `UserService.RegisterUser` |

How the pieces are represented:

- A registration returns two things. `outcome` is `Ok`, or `Err(code)` where `code` is the message
  of the exception thrown. `trace` is the sequence of calls made on the repository and the hasher.
  The tests' `Times.Once` / `Times.Never` checks become statements about `trace`.
- The repository's table is a `seq<User>` field that `CreateUser` reassigns.
  The two existence queries are functions that read the table, so they cannot change it.
- `Guid.NewGuid()` enters as the parameter `id`.
  The 16 bytes drawn by `RandomNumberGenerator` enter as the parameter `salt`.
  PBKDF2-HMAC-SHA-256 with Base64 encoding enters as the service's function-valued field `derive`.
  An exception raised by the database while saving enters as `storageFault`.
- The source files come from different versions of the project: V1/DTOs/CreateUserDTO.cs has
  no `Email`, while V1/Services/UserService.cs:33 reads `request.Email`. The model uses one
  record: the request `{username, email, password}` and the stored user
  `{id, username, email, password, salt}`. The DTO rules are those of `V1/DTOs/CreateUserDTO.cs`;
  the model adds an `email` field to the DTO and gives it no validation rule.

Where the code and its tests differ, the model follows the code:

- The current service opens no transaction, issues no verification token and sends no email
  (V1/Services/UserService.cs:24-52). The tests at
  V1.Tests/ServiceTests/UserServiceTests/RegisterUserTests.cs:144-273 expect `StartTransaction`,
  `CommitAsync`/`RollbackAsync` and `SendEmail` calls. In the model the registration ends with
  the insert, and an insert failure propagates unchanged without any rollback step.
- The insert's exception is not caught (V1/Services/UserService.cs:51). Whatever the storage
  raises, a uniqueness violation included, leaves `RegisterUser` as it was raised.
- The older service's tests expect `HashPassword` to be called once
  (tests/V1.Tests/Services/UserServiceTests/RegisterUserTests.cs:90) and an
  `InvalidOperationException`. The older service (Services/UserService.cs) never hashes and throws a
  plain `Exception`, and the model follows the service.
- Data-annotation validation in ASP.NET Core MVC runs every attribute of a property.
  An empty username therefore gets both the "required" and the "length" message. The tests
  only ask that the expected message be among those returned.

## Model

| member | source | states |
|---|---|---|
| `Text.Lower` | V1/Converters/LanguageConverter.cs:17 | the lower-cased string has the same length and lower-cases each character in place (ASCII letters only) |
| `Text.ContainsCharIn` | Src/V1/Attributes/PasswordValidationAttribute.cs:15-28 | the left-to-right scan for a character class `[lo-hi]` answers true iff some character of the string lies in the class |
| `Text.IsBlank` | V1/DTOs/CreateUserDTO.cs:16 | the `[Required]` emptiness test is true iff every character is white space (so also for "") |
| `Repositories.AnyUsername` | V1/Repositories/UserRepository.cs:21-24 | the scan of the table answers true iff some row has exactly that username |
| `Repositories.AnyEmail` | V1/Repositories/IUserRepository.cs:18-26 | the scan of the table answers true iff some row has exactly that email |
| `Repositories.AppendFreshUsername` | V1/Services/UserService.cs:27-30 | appending a row whose username no row has keeps usernames unique |
| `Repositories.AppendFreshEmail` | V1/Services/UserService.cs:33-36 | appending a row whose email no row has keeps emails unique |
| `Repositories.UserRepository.constructor` | V1.Tests/RepositoryTests/UserRepositoryTests/UserRepositoryUsernameExistsTest.cs:17-28 | a new repository's table is empty, and neither query finds any username or email in it |
| `Repositories.UserRepository.UsernameExists` | V1/Repositories/UserRepository.cs:21-24 | true iff some stored row has `Username == username`; a function of the table, so the table is unchanged |
| `Repositories.UserRepository.EmailExists` | V1/Repositories/IUserRepository.cs:18-26 | true iff some stored row has `Email == email`; a function of the table, so the table is unchanged |
| `Repositories.UserRepository.CreateUser` | V1/Repositories/UserRepository.cs:32-39 | on success the table is the old table plus the given record with every field as passed, and both queries then find its username and email; a storage fault leaves the table unchanged and is returned as it was raised; earlier rows never change |
| `PasswordValidation.IsValid` | Src/V1/Attributes/PasswordValidationAttribute.cs:40-75 | null or "" gives "Password is required."; 1 to 7 characters give the length message whatever the characters; at length 8 or more, no `A-Z` gives the uppercase message, the lowercase message needs an uppercase letter present, the digit message needs both letter classes present; success iff length is at least 8 and `A-Z`, `a-z` and a digit all occur; any message returned is one of the five |
| `PasswordValidation.FirstFailure` | Src/V1/Attributes/PasswordValidationAttribute.cs:40-75 | for an ordered list of checks, returns nothing iff all pass, and otherwise the message of a failing check before which every check passed |
| `PasswordValidation.IsValidIsFirstFailure` | Src/V1/Attributes/PasswordValidationAttribute.cs:40-75 | the attribute returns exactly the first failure of the checks non-empty, length at least 8, has uppercase, has lowercase, has digit, in that order |
| `PasswordValidation.Examples` | tests/V1.Tests/Controllers/UserControllerTests/UserControllerRegisterTests.cs:46-50 | "" and null give the required message, "p" the length message, "password" the uppercase, "PASSWORD" the lowercase and "Password" the digit message; "Pass1234" is accepted |
| `Dtos.UsernameErrors` | V1/DTOs/CreateUserDTO.cs:16-18 | "Username is required." iff the username is null or all white space; the length message iff it is non-null and shorter than 3 or longer than 50; no other message; so a username of 3 to 50 characters with a non-space character has no error |
| `Dtos.PasswordErrors` | V1/DTOs/CreateUserDTO.cs:28-29 | a message is among the password errors iff it is the message `[PasswordValidation]` returns for that password, so there is at most one and it is one of the policy's messages |
| `Dtos.MessagesDisjoint` | V1/DTOs/CreateUserDTO.cs:16-29 | no username message is also a password message |
| `Dtos.Validate` | V1/DTOs/CreateUserDTO.cs:16-29 | the username messages of a body are exactly those of the username rules, its password messages exactly the policy's result, it holds no other message, and the body is valid iff both are empty |
| `Dtos.Admit` | tests/V1.Tests/Controllers/UserControllerTests/UserControllerRegisterTests.cs:61-82 | a body reaches `RegisterUser` iff it has no validation message, and then with its own username, email and password, a username of 3 to 50 characters and a password the policy accepts |
| `Dtos.UsernameExamples` | tests/V1.Tests/Controllers/UserControllerTests/UserControllerRegisterTests.cs:43-45 | "" gets both username messages, "u" and the 52-character name only the length message, and "user" none |
| `Languages.Read` | V1/Converters/LanguageConverter.cs:9-23 | null or "" fails with "Language cannot be empty."; any other failure carries "Invalid language: " followed by the text as read, not lower-cased |
| `Languages.Write` | V1/Converters/LanguageConverter.cs:25-35 | every language is written as a two-letter lower-case code |
| `Languages.ReadCaseInsensitive` | V1/Converters/LanguageConverter.cs:17-20 | the result is English iff the text is "en" in any casing, and Indonesia iff it is "id" in any casing |
| `Languages.ReadWrite` | V1/Converters/LanguageConverter.cs:17-30 | reading what `Write` emits gives back the same language |
| `Languages.WriteRead` | V1/Converters/LanguageConverter.cs:17-30 | for every text that `Read` accepts, writing the result gives the lower-cased text |
| `Languages.Examples` | V1/Converters/LanguageConverter.cs:11-35 | English is written as "en" and Indonesia as "id"; "EN" gives English, "iD" Indonesia, "fr" fails with "Invalid language: fr", and "" and null fail with the empty message |
| `Services.ProtocolPrefixCounts` | V1/Services/UserService.cs:27-51 | every prefix of the order username check, email check, hash, insert contains each kind of call at most once, and contains it exactly when the prefix reaches that step |
| `Services.UserService.constructor` | V1/Services/UserService.cs:13-16 | the service holds the repository and the hasher it was given |
| `Services.Register` | V1/Services/UserService.cs:24-52 | the calls always follow the order username check, email check, hash, insert. The username check is made once. The email check is made once iff the username is free. The hash and the insert are each made once iff both identifiers are free, and never otherwise. A taken username gives `Err("USERNAME_EXISTS")`. A free username with a taken email gives `Err("EMAIL_EXISTS")`. With both free, an insert failure is returned unchanged, and otherwise the result is `Ok`. On success the table is the old table plus exactly the new record, and on any error it is unchanged. Username and email uniqueness are preserved |
| `Services.AppendUnique` | V1/Services/UserService.cs:27-51 | appending a record whose username and email both passed the checks keeps usernames and emails unique |
| `Services.UserService.RegisterUser` | V1/Services/UserService.cs:24-52 | the outcome, the calls made and the new table are exactly those of `Services.Register` on the old table. The record passed to it has the given id, the request's username and email, and the hasher's output for the request's password: the derived hash and the drawn salt. On success the stored row's salt is the drawn 16 bytes, and its password is the key derived from the request's password with that same salt |
| `LegacyServices.UserService.constructor` | Services/UserService.cs:11-13 | the service holds the repository it was given |
| `LegacyServices.UserService.RegisterUser` | Services/UserService.cs:21-38 | if the username exists, the result is `Err("USER_USERNAME_EXISTS")` and nothing is inserted. Otherwise exactly one insert is made, and its failure is returned unchanged. No email check and no hashing happen on any path. On success, the table is the old one plus exactly the inserted record: the given id, the request's username, its password verbatim, no email and an empty salt. Username uniqueness is preserved |

## Left out

- Transactions, commit and rollback, the verification token (JWT) and the verification email are not modelled. The current service never calls any of them. They appear only in tests that expect calls V1/Services/UserService.cs does not make.
- PBKDF2-HMAC-SHA-256 (section 5.2 of RFC 8018), the Base64 encoding and the random number generator are library code. They are parameters of the model, so nothing is proved about the hash value itself.
- `async`/`await` is not modelled: every step runs in sequence. The check-then-insert race between concurrent registrations is a concurrency issue and is outside this sequential model.
- HTTP plumbing, dependency injection, the EF Core context, migrations and `Program.cs` are not modelled. `Dtos.Admit` stands in for the framework's automatic 400 response.
- Text.Lower: lowers ASCII `A-Z` only. `ToLower()` uses the current culture: under tr-TR, "ID" does not lower to "id", and a non-ASCII letter whose lower case is an ASCII letter would also be accepted. Neither case is modelled.
- PasswordValidation.IsValid: `\d` is taken as `0-9`. .NET also matches other Unicode decimal digits.
- Lengths count Unicode scalar values. .NET counts UTF-16 code units, so the two differ for characters outside the Basic Multilingual Plane, in both the password length and the username length.
- A JSON body that omits a `required` property is rejected by the deserializer before validation. Only explicit `null` values are modelled.
- The model assumes no implicit `[Required]` on `Password`. With nullable reference types enabled (the `string?` annotations at Src/V1/Attributes/PasswordValidationAttribute.cs:40,43 suggest it) and plain `AddControllers()` (V1/Program.cs:161), MVC adds one to a non-nullable property. A null, empty or blank password would then also get "The Password field is required.", which `Dtos.Validate` does not produce.
- `reader.GetString()` (V1/Converters/LanguageConverter.cs:11) throws `InvalidOperationException` on a JSON token that is neither a string nor null, such as a number or a boolean. `Languages.Read` takes `Option<string>`, so that error path is not modelled.
- `Write` on an enum value outside the two named languages cannot arise with a two-constructor datatype.
- `UsernameExists` and `EmailExists` query the database (V1/Repositories/UserRepository.cs:23). An exception they raise would leave `RegisterUser` before any insert. The model treats both queries as total functions of the table; only the insert can fail (`storageFault`).
- `Outcome.Err(code)` keeps an exception's message but not its type. The conflicts throw `InvalidOperationException` (V1/Services/UserService.cs:29,35), and the tests check that type (V1.Tests/ServiceTests/UserServiceTests/RegisterUserTests.cs:50,97). The model tells the cases apart by message only.
- The validation attributes of `UserModel` are not modelled: nothing in the registration flow triggers them.
- The older service leaves `Email` unset (C# `null`) and `Salt` at its initial empty array. The single record type stores these as "" and an empty byte sequence.
