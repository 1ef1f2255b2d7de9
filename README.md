# UserController decision logic, modelled in Dafny

This project models the decision logic of `UserController`, the controller of a small Symfony
user API with three endpoints:

- `index` lists the stored users;
- `show` returns one user by id;
- `store` validates a JSON body and creates a user.

The model covers the controller's single piece of mutable state, the `error` field. The private
`error()` method sets and reads this field through a fixed message table. The private
`validatePhoneNumber()` helper also sets it.

Files:

- `Wrappers.dfy`: `Option`, standing for PHP's nullable values.
- `Php.dfy`: the PHP semantics the controller depends on, namely:
  - the values `json_decode` produces;
  - `empty()` and truthiness of nullable ints and strings;
  - `int`-to-string conversion;
  - `array_replace`, and `array_replace_recursive` on list-shaped arrays.
- `Collaborators.dfy`: what the controller sees of the code it calls, namely:
  - the user record;
  - the repository, with its stored users, its `findOneBy` lookup and a log of `saveUser` calls
    whose outcome is an oracle;
  - libphonenumber, as a `parse` oracle and an `isValidNumber` oracle;
  - a validator violation.
- `Controller.dfy`: the pure specification functions for each handler, and the class
  `UserController`. The class has the `error` field and one method per handler. `Error`,
  `ValidatePhoneNumber`, `Show` and `Store` are proved equal to their specification functions
  (`ErrorCall`, `PhoneCheck`, `ShowResponse`, `StoreSpec`). `Index` has no separate
  specification function: its contract gives the record of every stored user directly.

A response is modelled as a pair of a JSON body and an HTTP status.

## How the model reads the code

- The `error` field is sticky. `error()` overwrites it only when the code passed is truthy, that
  is neither null nor 0. `ErrorFieldIsLastTruthyCode` proves that, after any run of calls, the
  field holds the last truthy code passed.
- Codes 1 to 3 always report their table message, whatever message the caller passed.
- Code 4 assigns its message and then falls through into `default`. `default` keeps that
  message because it is non-empty.
- Any other code, or a field that was never set, reports the caller's message when that message
  is truthy. A null, `""` or `"0"` message gives `'Undefined error'` instead.
- An unkeyed `NotBlank` is not a field constraint. In the constraint literal at
  `src/Controller/UserController.php:145-147`, each `new NotBlank(...)` has no key, so it lands
  under the keys 0, 1 and 2. The keyed fields get only their `Length` constraints.
  - `allowMissingFields` is set, so the keys 0 to 2 never produce violations.
  - A `Length` constraint skips null values.
  - So the "required" rules are never enforced. For example, `firstName: ""` is normalised to
    null and draws no violation. `saveUser` is then called with the raw `""`.
  - The validator is therefore an oracle from the normalised fields to a violation list. The
    model does not assume that it enforces required fields.
- The violation loop does not build a map keyed by field. `$errors[] = []` starts `$errors` as
  `[[]]`. The loop appends one single-entry array `[path => message]` per violation to the local
  `$error` (this is not the field `$this->error`). `array_replace_recursive` then copies those
  entries position by position. The result is a list holding one single-entry object per
  violation, in violation order. Two violations on the same path give two entries.
- `saveUser` and the success body use the raw request fields. Only the validator sees the
  normalised fields.
- A stdClass object is never `empty()`. An absent JSON property reads as null, so the model
  represents it as `JNull`.

## Model

| member | source | states |
|---|---|---|
| Controller.ErrorCall | src/Controller/UserController.php:35-61 | the field becomes the code when the code is truthy and is kept otherwise; the response has `{error: field, message}` and the given status; the message is the table's message for codes 1 to 4, and otherwise the caller's message when it is truthy, else 'Undefined error' |
| Controller.UserController.Error | src/Controller/UserController.php:35-61 | the method's new field and response are exactly those `ErrorCall` gives for the old field |
| Controller.ErrorCalls | src/Controller/UserController.php:24 | a run of `error()` calls on one controller gives one response per call |
| Controller.ErrorCallsResponse | src/Controller/UserController.php:35-61 | response i of a run is what call i answers when the field holds what the calls before it left |
| Controller.ErrorCallsReportLastTruthyCode | src/Controller/UserController.php:37-39 | the `error` member of response i of a run is the last truthy code passed by calls 0 to i, or the initial field when none passed one |
| Controller.ErrorCallsAppend | src/Controller/UserController.php:37-39 | the field after one more call is that call's update of the field before it |
| Controller.ErrorFieldIsLastTruthyCode | src/Controller/UserController.php:37-39 | after any run of `error()` calls the field holds the last truthy code passed, or its initial value when no call passed one |
| Controller.PhoneCheck | src/Controller/UserController.php:63-82 | the result is null exactly when parsing fails or the parsed number is invalid, and then the field becomes 3; otherwise the field is unchanged and the result is the parsed number's (countryCode, nationalNumber) |
| Controller.UserController.ValidatePhoneNumber | src/Controller/UserController.php:63-82 | the method's new field and result are exactly those of `PhoneCheck` |
| Php.NatToString | src/Controller/UserController.php:67 | a natural number converts to at least one decimal digit, with no leading zero |
| Php.IntToStringRoundTrip | src/Controller/UserController.php:67 | an int's string starts with a minus sign exactly when the int is negative, and the digits after it read back as the magnitude; a non-negative int's string reads back as the int |
| Php.NatToStringRoundTrip | src/Controller/UserController.php:67 | reading the converted digits back gives the original number |
| Php.DecimalValueAppend | src/Controller/UserController.php:67 | two digit strings written one after the other denote the first number shifted by the length of the second, plus the second |
| Php.NatToStringUnique | src/Controller/UserController.php:67 | a digit string with no leading zero is exactly the conversion of the number it denotes, so the conversion is the only canonical spelling |
| Php.PrependDigit | src/Controller/UserController.php:67 | writing a non-zero digit d in front of n's digits spells the number d shifted by n's digit count, plus n |
| Controller.PhoneStringDigits | src/Controller/UserController.php:67 | for non-negative inputs the parser receives '+' and then one digit string, whose value is indicMobile shifted left by mobile's digit count, plus mobile |
| Controller.ShiftedSplitIsInvisibleToParser | src/Controller/UserController.php:63-82 | for every non-negative indicMobile of two or more digits ending in a non-zero digit and every non-negative mobile, moving that last digit to the front of mobile hands the parser the same string, so the field and result of the check are the same |
| Controller.ProjectIsRecord | src/Controller/UserController.php:94-99 | the user record has exactly the keys id, firstName, email and subs, in that order, each holding the user's value, and no lastName |
| Controller.UserController.Index | src/Controller/UserController.php:88-103 | status 200 and one record per stored user, in storage order, each the user's projection (an empty store gives an empty list) |
| Collaborators.FindOneBy | src/Controller/UserController.php:112 | the lookup returns null exactly when no stored user has that id; otherwise it returns a stored user with that id, the only one when ids are unique |
| Controller.ShowResponse | src/Controller/UserController.php:110-124 | status 200 exactly when a stored user has the id; otherwise the response is exactly `{error: 1, message: 'Bad id or user not found'}` with status 400; a 200 response is the record of a stored user with that id, and with unique ids of every such user |
| Controller.UserController.Show | src/Controller/UserController.php:110-124 | the response is `ShowResponse` and so does not depend on the prior error field; the field becomes 1 when the user is not found and is unchanged otherwise |
| Controller.NormalizeField | src/Controller/UserController.php:138 | an `empty()` value becomes null and any other value is kept; afterwards a field is `empty()` exactly when it is null |
| Controller.Normalize | src/Controller/UserController.php:137-141 | each of firstName, lastName and email becomes null exactly when it is `empty()`, and is otherwise passed on unchanged |
| Controller.NormalizeIdempotent | src/Controller/UserController.php:137-141 | normalising an already normalised input changes nothing |
| Controller.Entry | src/Controller/UserController.php:158 | a violation gives a single-entry array whose one key is its property path, holding its message |
| Php.Put | src/Controller/UserController.php:159 | writing a key stores the value under it and leaves every other key unchanged; for an existing key every entry stays at its position and only that key's entry takes the new value; a new key is appended at the end |
| Php.ArrayReplace | src/Controller/UserController.php:159 | each key reads as in the replacement array where that array has the key, and as in the base array otherwise |
| Php.ArrayReplaceRecursive | src/Controller/UserController.php:159 | on two lists of string-keyed arrays the result is as long as the longer list; a position both lists have is the `array_replace` of the two entries, and any other position is copied from the list that has it |
| Controller.OneEntryReplace | src/Controller/UserController.php:159 | replacing a single-entry array into an empty array, or into itself, gives that array |
| Controller.ReplaceByExtension | src/Controller/UserController.php:159 | replacing a list of single-entry arrays by that list extended with one more gives the extension |
| Controller.CollectViolations | src/Controller/UserController.php:154-161 | with no violations the errors stay `[[]]`; otherwise there is one single-entry `[path => message]` array per violation, in violation order |
| Controller.ViolationBody | src/Controller/UserController.php:154-161 | the 400 body is a list with one single-key object `{path: message}` per violation, in order |
| Controller.CreatedBody | src/Controller/UserController.php:171-176 | the success body has exactly the keys email, firstName, lastName and subs, echoing the raw request fields, with subs 0 |
| Controller.StoreSpec | src/Controller/UserController.php:131-177 | with violations: status 400, the violation body, no save and the field unchanged; with none: `saveUser` gets the raw fields; if it fails, the field becomes 2 and the body is exactly `{error: 2, message: 'Could not create user'}` with status 400; if it succeeds, status 200 and the created body |
| Controller.UserController.Store | src/Controller/UserController.php:131-177 | the validator gets the normalised request; the new field, the response and the repository's save log are those of `StoreSpec` |
| Collaborators.UserRepository.SaveUser | src/Controller/UserController.php:164-167 | each call is logged with its three arguments, and the result is the repository's verdict on them |
| Controller.UserController.constructor | src/Controller/UserController.php:24-33 | a new controller's error field is null, and it keeps the injected repository |

## Left out

- Symfony routing, `Request` and `JsonResponse` construction, and JSON encoding and decoding. A
  request is its three decoded fields, and a response is a body and a status.
- Floats in decoded JSON. A body that is not an object reads as all fields null, which is what
  PHP's property read gives (with a warning).
- A numeric property path such as `"0"`: PHP would encode that entry as a JSON list rather
  than an object.
- The Symfony Validator (`Collection`, `Length`, `NotBlank`). It is a foreign library. The
  model passes it in as a function from the normalised fields to the violations.
- libphonenumber's parsing and numbering-plan rules. This is a third-party library, so `parse`
  and `isValidNumber` are oracles.
- `UserRepository`'s storage. `findAll` is the stored sequence, and `findOneBy` is the first
  stored user with the id. `saveUser` is an oracle verdict that is logged, and it does not add
  to the stored users, because its code is not part of this model.
- The route parameter `id` is taken as an int. Its conversion from the request string is left
  to the database comparison.
- `UserPasswordEncoderInterface`: it is injected into the controller but never used.
- `tests/UserTest.php`: it is an integration test against a live fixture. It serves only as
  evidence for the `index` and `show` properties.
- Controller.UserController.Error: PHP's default arguments (a null message and status 400) are
  not modelled as defaults. `error(1)` at `src/Controller/UserController.php:115` and `error(2)`
  at `src/Controller/UserController.php:168` pass only the code and rely on them; the model's
  callers `Show` and `Store` pass the null message and 400 explicitly.
- Controller.StoreSpec: the validator is modelled as always returning a violation list. In
  Symfony, a `Length` constraint throws `UnexpectedValueException` on a value that is neither
  null nor a string. Normalisation keeps a non-empty array or object field (for example
  `{"firstName": [1]}`), so such a request ends in that exception, with neither a 400 nor a 200
  response. The model has no outcome for this path.
