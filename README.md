# Logon-form user management: a Dafny model

This project models the core of an XAF (eXpressApp Framework) extension
that adds "Register User", "Restore Password" and "Set New Password"
actions to the login page. It has three parts.

- **Restore-password service.** `RestorePasswordService` issues a
  password-reset token for the user with a given e-mail address. The token
  is a JSON payload `{ UserId }` sealed by a time-limited data protector
  for one hour. The service stores it as the user's login record under
  the provider name "RestorePasswordToken" and returns the reset-page
  address. Later it redeems the token once: it unseals the token, finds
  the user, checks that the stored record holds this very token, deletes
  the record and sets the new password. Issuing a second token replaces
  the first.
- **Logon-form parameters.** The parameter objects of the three forms
  declare validation rules: required fields, the e-mail regular
  expression and the password confirmation.
- **Database updater.** The updater of the XPO application module creates
  a user behind a chain of guards, gets or creates the "Administrators"
  and "Default" roles, and seeds the demonstration users "User" and
  "Admin".

Modules:

- `Wrappers`: `Option`, `Result`, `Outcome`.
- `Collections`: LINQ `FirstOrDefault` as `FirstIndex`, plus `Count`, `Filter` and `RemoveAt`.
- `Text`: `string.IsNullOrWhiteSpace`.
- `EmailPattern`: the e-mail regular expression. It is given three ways: as a recogniser, as the pattern's concatenation, and as a plain description. Lemmas prove the three agree. `MatchesAsWritten` is the pattern as the .NET engine runs it, where `$` also matches before a final line feed; the form rules use it.
- `LogonActionParameters`: the broken-rule sets of the three forms.
- `Sealing`: the data protector and the JSON serializer. Both are abstract parameters.
- `RestorePassword`: the token lifecycle as pure transition functions, plus a `RestorePasswordService` class whose methods update the user directory in place.
- `DatabaseUpdate`: an `ObjectSpace` class holding the users and roles, the role and user-creation methods, and an `Updater` class. The seeding routine is specified by the pure functions `SeedStep` and `Seeding` over a `Store` value, and its methods are proved to produce exactly their result.

Exceptions that the source throws become `Failure`/`Fail` values naming
the guard that failed. Time is an integer number of seconds passed in as
`now`. Whether `UserManager.CreateUser` succeeds is a parameter.

## Model

| member | source | states |
|---|---|---|
| Collections.FirstIndex | CS/Security.Extensions/Services/RestorePasswordService.cs:52 | `FirstOrDefault`: the index found satisfies the predicate and no earlier element does; none is found exactly when no element satisfies it |
| EmailPattern.DotRunShape | CS/Security.Extensions/LogonActionParameters.cs:12 | `C+(\.C+)*` accepts exactly the non-empty strings over the class and `.` with no dot at either end and no two dots in a row |
| EmailPattern.DomainMatchesShape | CS/Security.Extensions/LogonActionParameters.cs:12 | the part after `@` matches exactly when it is a dotted run of labels whose last label is 2 to 4 lower-case letters |
| EmailPattern.MatchesIsPatternLanguage | CS/Security.Extensions/LogonActionParameters.cs:12 | the recogniser accepts exactly the strings that split as local run, `@`, label run, `.`, final label |
| EmailPattern.MatchesCharacterized | CS/Security.Extensions/LogonActionParameters.cs:12 | an address matches exactly when it has one `@`, a well-formed local part and a well-formed domain |
| EmailPattern.AcceptedAlphabet | CS/Security.Extensions/LogonActionParameters.cs:12 | every character of an accepted address is in `[_a-z0-9-]`, `.` or `@` |
| EmailPattern.RejectsForeignCharacter | CS/Security.Extensions/LogonActionParameters.cs:12 | one character outside that alphabet (a space, an upper-case letter) makes the address fail |
| EmailPattern.AsWrittenAlphabet | CS/Security.Extensions/LogonActionParameters.cs:12 | under the engine's reading of `$`, an accepted value uses only the pattern's characters, except for one final line feed |
| EmailPattern.TrailingLineFeedAccepted | CS/Security.Extensions/LogonActionParameters.cs:12 | "a@b.cc" followed by a line feed passes the pattern as the .NET engine reads `$`, although the strict pattern rejects it |
| LogonActionParameters.RequiredRule | CS/Security.Extensions/LogonActionParameters.cs:19-20 | a required-field rule is broken exactly when the value is null or empty |
| LogonActionParameters.PatternRule | CS/Security.Extensions/LogonActionParameters.cs:23-24 | the pattern rule is broken exactly when a non-empty value fails the e-mail pattern as the .NET engine runs it, where one final line feed is tolerated |
| LogonActionParameters.EqualsRule | CS/Security.Extensions/LogonActionParameters.cs:50-52 | the comparison rule is broken exactly when a non-empty value differs from the other property |
| LogonActionParameters.RegisterUserBrokenRules | CS/Security.Extensions/LogonActionParameters.cs:18-29 | the registration form is valid exactly when user name, e-mail and password are given and the e-mail passes the pattern as the engine runs it; which e-mail rule is broken, both directions |
| LogonActionParameters.RestorePasswordBrokenRules | CS/Security.Extensions/LogonActionParameters.cs:34-38 | the restore form is valid exactly when an e-mail is given and passes the pattern as the engine runs it |
| LogonActionParameters.SetNewPasswordBrokenRules | CS/Security.Extensions/LogonActionParameters.cs:43-56 | the new-password form is valid exactly when both fields are given and equal; the "Passwords are different." rule is broken exactly when a given confirmation differs |
| LogonActionParameters.RestoreFormAcceptsTrailingLineFeed | CS/Security.Extensions/LogonActionParameters.cs:34-38 | the restore form accepts "a@b.cc" followed by one line feed and reports the pattern rule broken for two line feeds |
| LogonActionParameters.ValidRestoreRequestHasEmail | CS/Security.Extensions/LogonActionParameters.cs:34-38 | an address that passes the restore form is never null or white space, so it passes the service's first guard |
| Sealing.Unprotect | CS/Security.Extensions/Services/RestorePasswordService.cs:61 | unprotecting yields text only when the protector unseals it and its embedded expiration has not passed |
| Sealing.SealedLifetime | CS/Security.Extensions/Services/RestorePasswordService.cs:50 | a sealed text can be read up to its expiration and not after it |
| RestorePassword.Resolve | CS/Security.Extensions/Services/RestorePasswordService.cs:61-70 | a token is accepted only when it unseals in time, its payload names a user by key, and that user's first restore record holds exactly this token |
| RestorePassword.ReplaceTokenRecordEffect | CS/Security.Extensions/Services/RestorePasswordService.cs:52-55 | issuing ends the login list with the new token record, turns a restore-record count of zero into one and leaves any other count as it was, and leaves other providers' records as they were, in order |
| RestorePassword.WithoutTokenRecordLeavesNone | CS/Security.Extensions/Services/RestorePasswordService.cs:52-54 | deleting the first restore record of a user with at most one leaves none |
| RestorePassword.ReplaceTokenRecordLeavesOne | CS/Security.Extensions/Services/RestorePasswordService.cs:51-55 | a user with at most one restore record has exactly one after issuing, and it holds the new token |
| RestorePassword.IssuedKeepsAtMostOne | CS/Security.Extensions/Services/RestorePasswordService.cs:51-55 | issuing keeps "at most one live token per user" |
| RestorePassword.ConsumedKeepsAtMostOne | CS/Security.Extensions/Services/RestorePasswordService.cs:71 | redeeming keeps "at most one live token per user" |
| RestorePassword.UserByKeyStable | CS/Security.Extensions/Services/RestorePasswordService.cs:64-65 | changing only logins and passwords does not change which user a key names |
| RestorePassword.IssuedTokenRedeems | CS/Security.Extensions/Services/RestorePasswordService.cs:46-68 | a token just issued is accepted until one hour after issue, and it resolves to that user and the new record |
| RestorePassword.ExpiredTokenRejected | CS/Security.Extensions/Services/RestorePasswordService.cs:50-61 | a token presented more than one hour after issue is refused |
| RestorePassword.RedeemedTokenRejected | CS/Security.Extensions/Services/RestorePasswordService.cs:66-71 | once a token has been redeemed it is refused at any later time |
| RestorePassword.SupersededTokenRejected | CS/Security.Extensions/Services/RestorePasswordService.cs:51-69 | after a different token is issued to the same user, the earlier token is refused |
| RestorePassword.ReissueSupersedesFirstToken | CS/Security.Extensions/Services/RestorePasswordService.cs:37-69 | issuing twice to one user and presenting the first token fails, even within the same second, because each issue draws a different nonce and so yields a different token |
| RestorePassword.IssueThenRedeemOnce | CS/Security.Extensions/Services/RestorePasswordService.cs:37-74 | issue then redeem succeeds once, and a second redemption of the same token fails |
| RestorePassword.QueryValue | CS/Security.Extensions/Services/RestorePasswordService.cs:78 | the query indexer gives null exactly when no parameter has that name, compared ignoring letter case |
| RestorePassword.ValuesNamedSingle | CS/Security.Extensions/Services/RestorePasswordService.cs:78 | a name given once, in any letter case, has exactly that one value |
| RestorePassword.TokenFromQuery | CS/Security.Extensions/Services/RestorePasswordService.cs:76-79 | no token exactly when no parameter is named `restorePasswordToken` in any letter case; the parameter's value when it is given once |
| RestorePassword.TokenNameIgnoresCase | CS/Security.Extensions/Services/RestorePasswordService.cs:77-78 | a parameter whose name equals `restorePasswordToken` up to letter case carries the token |
| RestorePassword.CapitalisedTokenName | CS/Security.Extensions/Services/RestorePasswordService.cs:77-78 | `RestorePasswordToken` equals `restorePasswordToken` under the collection's case-insensitive comparer |
| RestorePassword.RestorePasswordService.constructor | CS/Security.Extensions/Services/RestorePasswordService.cs:26-35 | the service starts on the given protector, serializer, base address and directory |
| RestorePassword.RestorePasswordService.GenerateRestorePasswordUrl | CS/Security.Extensions/Services/RestorePasswordService.cs:37-58 | fails with "not specified" on a null or blank address and with "not found" when no user has it, changing nothing; otherwise replaces that user's token record with a token sealed for one hour with the call's nonce and returns `<base>LoginPage?restorePasswordToken=<token>`; keeps at most one token per user |
| RestorePassword.RestorePasswordService.SetNewPassword | CS/Security.Extensions/Services/RestorePasswordService.cs:60-74 | succeeds exactly when `Resolve` accepts the token, then deletes that record and sets the password; otherwise changes nothing and reports why; keeps at most one token per user |
| DatabaseUpdate.WithRoleFinds | CS/XPO/DXApplication1.Module/DatabaseUpdate/Updater.cs:78-86 | get-or-create finds the role afterwards, adds at most one role and only when none existed, and a repeat changes nothing |
| DatabaseUpdate.AppendKeepsUnique | CS/XPO/DXApplication1.Module/DatabaseUpdate/Updater.cs:30-35 | adding a user whose name and address are not taken keeps names and addresses unique |
| DatabaseUpdate.GetAdminRole | CS/XPO/DXApplication1.Module/DatabaseUpdate/Updater.cs:78-86 | returns the first "Administrators" role, creating it with `IsAdministrative` set when missing |
| DatabaseUpdate.GetDefaultRole | CS/XPO/DXApplication1.Module/DatabaseUpdate/Updater.cs:87-104 | returns the first "Default" role, creating a non-administrative one when missing |
| DatabaseUpdate.CreateUser | CS/XPO/DXApplication1.Module/DatabaseUpdate/Updater.cs:25-46 | the three guards fail in the source's order and change nothing; then the role is got or created; on manager failure "Error creating a new user." with the users unchanged; on success, exactly one user is appended with the e-mail, password and role; names and addresses stay unique |
| DatabaseUpdate.CreateUserIfMissing | CS/XPO/DXApplication1.Module/DatabaseUpdate/Updater.cs:62-67 | its outcome and the new users and roles are exactly `SeedStep` of the old ones: the `FindUserByName` guard, then `CreateUser` with the given e-mail, the empty password and the chosen role |
| DatabaseUpdate.SeedStepRoles | CS/XPO/DXApplication1.Module/DatabaseUpdate/Updater.cs:62-67 | one step keeps every role and adds at most the one role it needs, only when missing, with the right administrative flag |
| DatabaseUpdate.SeedStepUsers | CS/XPO/DXApplication1.Module/DatabaseUpdate/Updater.cs:62-67 | an existing user means pass with nothing changed; otherwise the users are unchanged or gain exactly `ApplicationUser(name, email, "", {role})` for a name and address not taken; the user is present when the step passes |
| DatabaseUpdate.SeedStepKeepsInvariants | CS/XPO/DXApplication1.Module/DatabaseUpdate/Updater.cs:62-67 | one step keeps names and addresses unique and every role a user holds resolvable |
| DatabaseUpdate.SeedingRoles | CS/XPO/DXApplication1.Module/DatabaseUpdate/Updater.cs:55-56 | seeding's roles are exactly the old roles with "Default" and then "Administrators" got or created: old roles kept, at most those two added |
| DatabaseUpdate.SeedingUsers | CS/XPO/DXApplication1.Module/DatabaseUpdate/Updater.cs:60-67 | seeding keeps the old users and appends nothing, the missing "User" (user@example.com, Default role), the missing "Admin" (admin@example.com, Administrators role), or both in that order, all with the empty password |
| DatabaseUpdate.SeedingKeepsInvariants | CS/XPO/DXApplication1.Module/DatabaseUpdate/Updater.cs:47-71 | seeding keeps user names and e-mail addresses unique and every role resolvable |
| DatabaseUpdate.SeedingOutcome | CS/XPO/DXApplication1.Module/DatabaseUpdate/Updater.cs:47-71 | seeding passes only if both roles and both users exist afterwards; on a seeded database it passes and changes nothing |
| DatabaseUpdate.Updater.UpdateDatabaseAfterUpdateSchema | CS/XPO/DXApplication1.Module/DatabaseUpdate/Updater.cs:47-71 | its outcome and the new users and roles are exactly `Seeding` of the old ones, whose roles, users and outcome the lemmas above pin down |

## Left out

- The data protector's cryptography and the JSON serializer are uninterpreted parameters (`Sealing`). The lifecycle lemmas assume that sealing and serialization round-trip (`RoundTrips`, `SerializerRoundTrips`).
- The protector's randomness is the `nonce` argument of `GenerateRestorePasswordUrl`. Supersession assumes that different nonces give different seals (`NonceSeparates`) and that two issues draw different nonces. This stands for "with overwhelming probability"; collisions are not modelled.
- The clock is the parameter `now`. An expiration is taken to be valid while `now <= expiration`, and the one-hour lifetime is 3600 seconds.
- `Uri` parsing, `HttpUtility.ParseQueryString` and URL decoding are not modelled. `TokenFromQuery` starts from the decoded parameter list of the current address. The `NavigationManager` is the constant `baseUri`.
- RestorePassword.TokenFromQuery: the case of a parameter given several times is only characterised through `QueryValue`, which joins the values by commas. No lemma relates the generated address to the query read back from it, because the URL encoding is not modelled.
- RestorePassword.QueryValue: the case-insensitive comparer folds only the ASCII letters. The Unicode case mapping that `OrdinalIgnoreCase` applies to other letters is not modelled.
- The password hashing inside `SetPassword` is not modelled. The model stores the new password.
- The object-space lifetime (`CreateNonSecuredObjectSpace`, `using`, `CommitChanges`) is not modelled. Each service call commits its whole effect or nothing.
- In the updater, lookups see committed and pending objects alike. The distinction between committed and uncommitted objects in `IObjectSpace.FirstOrDefault` is not modelled.
- Lookups by e-mail and by user name compare strings exactly. A case-insensitive database collation is not modelled.
- The permission lists given to the "Default" role (Updater.cs lines 93-101) are not modelled, because roles carry only a name and the administrative flag.
- `UserManager.CreateUser`'s own checks, such as password policy, are not modelled. Its verdict is the `creationSucceeds` parameter, or `userManagerAccepts(name)` while seeding.
- The release build variant is left out. In it the `#if !RELEASE` block is absent and `UpdateDatabaseAfterUpdateSchema` only calls the base implementation.
- `UpdateDatabaseBeforeUpdateSchema` and the base class's update steps are framework calls with no effect in this repository. They are not modelled.
- LogonActionParameters.RequiredRule: a string that holds only white space counts as given. The framework's required-field rule may treat it as empty, and its exact trimming behaviour is not part of this model.
- The exception types and message texts are reduced to the error values `IssueError`, `TokenRejection` and `CreateUserError`. Every `TokenRejection` surfaces to the caller as an exception.
- Concurrent requests are not modelled.
- The controllers, `Module.cs`, `UserRegistrationService`, `ApplicationBuilderExtensions` and the EF Core `DbContext` are not part of this model.

## Findings

| source | as written | input that shows it | evidently intended | confidence | as-written member | corrected member |
|---|---|---|---|---|---|---|
| CS/Security.Extensions/LogonActionParameters.cs:12 | the pattern ends in `$`, and without `RegexOptions.Multiline` .NET also matches `$` just before a final line feed | `"a@b.cc\n"` passes the e-mail rule, with the line feed in the stored address (`RestoreFormAcceptsTrailingLineFeed`) | the pattern should match up to the end of the input only (`\z`) | medium, not executed (assumes the framework's regex rule uses default options) | EmailPattern.TrailingLineFeedAccepted | EmailPattern.AcceptedAlphabet |
