# Todo service and screenshot helpers, modelled in Dafny

This project models the two pieces of sequential logic in the todo-list test-automation
repository:

- **The todo service** (`backend/index.js`). It keeps an in-memory list of items, each an id and
  a name, plus a counter `currentId` that starts at 1. It checks one hard-coded login, and it
  lists, creates, renames and deletes items. Each route handler is a pure transition
  `(State, request) -> (State, Response)` in module `TodoStore`. `Handle` routes one request to
  its handler, and `Run` serves a sequence of requests in order. The invariant `Inv` says that ids
  rise strictly along the list, are at least 1, and are below `currentId`. It holds in the start
  state and every handler keeps it.
- **The screenshot helpers of the UI tests** (`VisualTestHelper.java`, `ScreenshotHelper.java`).
  The artifact file names are modelled as string layouts, each with a parser that inverts it, so
  that name uniqueness is a proved round trip. The `yyyyMMdd_HHmmss_SSS` timestamp is modelled as
  `java.time.format.DateTimeFormatter` prints it. The pixel comparator `compareScreenshots` is a
  nested-loop method over decoded images.

Modules: `Wrappers` (optional values), `Digits` (zero-padded and plain decimal rendering, with
parsers), `Text` (last-occurrence search), `TodoStore`, `VisualTestHelper`, `ScreenshotHelper`.

Facts about the code that the model keeps:

- `compareScreenshots` returns only a boolean; it scans `x` outer and `y` inner.
- A read failure also gives `false`, the same answer as a mismatch.
- Two captures by one test in the same millisecond get the same name.
- The service stores an item sent with no name, although `backend/index.test.js` expects a 400
  "Name is required" for it.
- Deleting an absent id answers 204, although `backend/index.test.js` expects a 404 for it.

Some behaviour of the Java time library is easy to miss. Pattern letter `y` prints the *year of
era*, so year 0 (1 BCE) prints as `0001`, the same as year 1 (`EraNotPrinted`). Four letters
print with sign style "exceeds pad", so a year of era above 9999 is printed as `+` followed by its
digits. Timestamp uniqueness is therefore proved for years from 1 CE on.

A related fact about names: an element screenshot of test `t` gets exactly the name of a full-page
screenshot of test `t_element` taken in the same millisecond (`ElementName`).

## Model

| member | source | states |
|---|---|---|
| TodoStore.InitialInv | backend/index.js:10-11 | The server starts with no items and `currentId` 1, and that start state satisfies the id invariant |
| TodoStore.HandleLogin | backend/index.js:13-20 | Answers 200 "Login successful" exactly when the username is "test" and the password is "test123", compared strictly. Any other or missing value gets 401 "Invalid credentials". The state is never changed |
| TodoStore.HandleList | backend/index.js:22-24 | GET /items answers 200 with the current list and leaves the state unchanged |
| TodoStore.HandleCreate | backend/index.js:26-31 | POST /items appends one item after the existing ones, which are kept unchanged. The item gets the current counter as id and the sent name, even an absent one. The answer is 201 with that same item, and the counter rises by one |
| TodoStore.FindIndex | backend/index.js:36 | Finds the first position whose item has the id, or reports that none has it |
| TodoStore.HandleUpdate | backend/index.js:33-43 | For an absent id: answers 404 "Item not found" with the state unchanged. For a present id: replaces one matching item with the same id and the new name, keeps the length and the counter, and answers 200 with the renamed item |
| TodoStore.UpdateTouchesOnlyTarget | backend/index.js:33-43 | Under the invariant, PUT keeps every id and position and every other item, changes only the target's name, and leaves the counter alone |
| TodoStore.Without | backend/index.js:47 | The filter keeps every item whose id differs and only those, and drops every item carrying the id |
| TodoStore.HandleDelete | backend/index.js:45-49 | DELETE always answers 204 with no body and keeps the counter. Afterwards no item has the id, and the other items all remain |
| TodoStore.WithoutKeepsOrder | backend/index.js:47 | Filtering keeps the ids strictly increasing, so the survivors stay in their original order |
| TodoStore.WithoutAbsent | backend/index.js:47 | Filtering out an id no item has returns the list unchanged |
| TodoStore.WithoutPresent | backend/index.js:47 | With increasing ids, filtering out a present id removes exactly that one position |
| TodoStore.DeleteRemovesExactly | backend/index.js:45-49 | Under the invariant, DELETE removes exactly the item found by id and keeps the rest in order. For an absent id the state is unchanged |
| TodoStore.DeleteIdempotent | backend/index.js:45-49 | Deleting an id twice has the same state and answer as deleting it once |
| TodoStore.CreatePreservesInv | backend/index.js:26-31 | Creating an item keeps ids strictly increasing and below the counter |
| TodoStore.UpdatePreservesInv | backend/index.js:33-43 | Updating an item keeps ids strictly increasing and below the counter |
| TodoStore.DeletePreservesInv | backend/index.js:45-49 | Deleting keeps ids strictly increasing and below the counter |
| TodoStore.HandlePreservesInv | backend/index.js:13-49 | Every route keeps the id invariant and never lowers `currentId` |
| TodoStore.RunPreservesInv | backend/index.js:10-49 | Any sequence of requests keeps the invariant and never lowers the counter |
| TodoStore.ReachableInv | backend/index.js:10-49 | Every state reachable from start-up satisfies the invariant |
| TodoStore.StepKeepsFreedId | backend/index.js:26-49 | One request never brings back an absent id that is below the counter |
| TodoStore.FreedIdNeverReissued | backend/index.js:11-49 | Once an id below the counter is absent, for example after a delete, no later sequence of requests makes it reappear |
| TodoStore.CreatesListInOrder | backend/index.js:22-31 | A run of creates followed by GET lists the old items, then the new ones in request order with consecutive ids from the counter. The counter rises by the number of creates |
| Digits.IntToStringRoundTrip | tests/ui/src/test/java/VisualTestHelper.java:32-33 | The decimal text `%s` prints for a `long` clock reading parses back to that reading, negative ones included |
| Digits.PaddedRoundTrip | tests/ui/src/test/java/ScreenshotHelper.java:26 | A zero-padded fixed-width field reads back as the value when the value fits the width |
| Digits.NatToStringLength | tests/ui/src/test/java/ScreenshotHelper.java:26 | A number's decimal text has more than k digits exactly when the number reaches 10^k |
| VisualTestHelper.FullPageName | tests/ui/src/test/java/VisualTestHelper.java:32-33 | A full-page artifact name starts with "target/screenshots/" and ends with ".png" |
| VisualTestHelper.ElementName | tests/ui/src/test/java/VisualTestHelper.java:46-47 | An element artifact name starts with "target/screenshots/" and ends with ".png". It equals the full-page name of the same test with "_element" appended to its name |
| VisualTestHelper.FullPageNameRoundTrip | tests/ui/src/test/java/VisualTestHelper.java:32-33 | The test name and clock reading are recovered from a full-page name, even when the test name has underscores |
| VisualTestHelper.FullPageNameInjective | tests/ui/src/test/java/VisualTestHelper.java:32-33 | Two full-page names are equal exactly when both the test names and the milliseconds are equal. So one test's captures in different milliseconds never overwrite each other |
| VisualTestHelper.ElementNameInjective | tests/ui/src/test/java/VisualTestHelper.java:46-47 | Two element names are equal exactly when both the test names and the milliseconds are equal |
| VisualTestHelper.CompareScreenshots | tests/ui/src/test/java/VisualTestHelper.java:57-81 | Answers true exactly when both files read and the images have equal sizes and equal colour at every (x, y). A read failure or a size difference answers false with no pixel compared. A match compares all width*height pixels |
| VisualTestHelper.MatchesReflexive | tests/ui/src/test/java/VisualTestHelper.java:62-75 | Any image compared with itself matches |
| VisualTestHelper.MatchesSymmetric | tests/ui/src/test/java/VisualTestHelper.java:62-75 | Swapping baseline and actual never changes the answer |
| VisualTestHelper.SizeMismatchNeverMatches | tests/ui/src/test/java/VisualTestHelper.java:62-65 | Images of different width or height never match |
| VisualTestHelper.OnePixelDifferenceDetected | tests/ui/src/test/java/VisualTestHelper.java:70-72 | Changing any one pixel of an image makes it compare unequal to the original |
| VisualTestHelper.ReadFailureNeverMatches | tests/ui/src/test/java/VisualTestHelper.java:77-80 | An unreadable baseline or actual file never gives a match |
| ScreenshotHelper.YearOfEra | tests/ui/src/test/java/ScreenshotHelper.java:26 | The year letter prints a positive year of era, equal to the year from 1 CE on |
| ScreenshotHelper.YearField | tests/ui/src/test/java/ScreenshotHelper.java:26 | `yyyy` is at least four characters, all digits except a possible leading '+' |
| ScreenshotHelper.ClockFields | tests/ui/src/test/java/ScreenshotHelper.java:26 | `MMdd_HHmmss_SSS` is 15 characters: underscores at offsets 4 and 11 and digits elsewhere |
| ScreenshotHelper.Timestamp | tests/ui/src/test/java/ScreenshotHelper.java:26 | A timestamp is at least 19 characters. Its only underscores are the two 4 and 11 places before the end, so the year part has none |
| ScreenshotHelper.ClockFieldsRoundTrip | tests/ui/src/test/java/ScreenshotHelper.java:26 | Month, day, hour, minute, second and millisecond read back from their zero-padded fields |
| ScreenshotHelper.YearFieldRoundTrip | tests/ui/src/test/java/ScreenshotHelper.java:26 | The year field reads back as the year of era, in both the four-digit and the '+' form |
| ScreenshotHelper.TimestampRoundTrip | tests/ui/src/test/java/ScreenshotHelper.java:26 | Parsing a timestamp gives back every field, with the year as the year of era |
| ScreenshotHelper.TimestampInjective | tests/ui/src/test/java/ScreenshotHelper.java:25-26 | From 1 CE on, two in-range date-times print the same timestamp exactly when they are equal |
| ScreenshotHelper.EraNotPrinted | tests/ui/src/test/java/ScreenshotHelper.java:26 | Year y BCE, stored as 1 - y, prints exactly like year y CE |
| ScreenshotHelper.TimestampLength | tests/ui/src/test/java/ScreenshotHelper.java:26 | The timestamp is exactly 19 characters exactly when the year lies in -9998..9999, which includes 0..9999 |
| ScreenshotHelper.TimestampLayout | tests/ui/src/test/java/ScreenshotHelper.java:26 | For years 0..9999: 19 characters, '_' at positions 8 and 15 and decimal digits everywhere else |
| ScreenshotHelper.FileName | tests/ui/src/test/java/ScreenshotHelper.java:27 | The name is "target/screenshots/", the test name, '_', the timestamp and ".png", and has the matching length |
| ScreenshotHelper.FileNameSeparatesTimestamps | tests/ui/src/test/java/ScreenshotHelper.java:25-27 | For a fixed test name, distinct timestamps give distinct file names |
| ScreenshotHelper.ParseFileName | tests/ui/src/test/java/ScreenshotHelper.java:27 | For a timestamp with no underscore ahead of its clock part, parsing the file name gives back the test name, even one with underscores, and whatever the timestamp parses to |
| ScreenshotHelper.ScreenshotNameRoundTrip | tests/ui/src/test/java/ScreenshotHelper.java:26-27 | Both the test name and the date-time are recovered from an artifact name, with the year as the year of era |
| ScreenshotHelper.ScreenshotNameInjective | tests/ui/src/test/java/ScreenshotHelper.java:25-27 | From 1 CE on, two file names are equal exactly when both the test names and the date-times are equal. This is what the unique-filename comment intends |

## Left out

- Express plumbing (`cors`, `express.json`, `app.listen`) and HTTP transport: these are I/O. Requests arrive already parsed.
- The `:id` path parameter is a natural number. JavaScript's loose comparison of a string parameter with a numeric id is not modelled, and neither is a non-numeric parameter.
- Ids and `currentId` are exact integers. The JavaScript counter is a double that stops advancing at 2^53, after which ids would repeat; that bound is not modelled, so `Inv` and the id-uniqueness lemmas hold only below it.
- A request `name` is a string or absent. Other JSON values (numbers, objects) are not modelled.
- Behaviour that backend/index.test.js expects but backend/index.js does not implement is not modelled: 400 on a missing name, 404 on deleting an absent id, a `/health` route, an exported `app`, and state reset between tests.
- frontend/src/App.js and its test: React rendering, `fetch` and browser dialogs, with no logic beyond the server's.
- UITests.java and APITests.java: Selenium and REST-assured drivers talking to live servers.
- Screen capture (AShot viewport stitching, `getScreenshotAs`), PNG encoding and decoding, `FileUtils.copyFile`, `mkdirs`, `listAllScreenshots` and console logging: foreign libraries and file-system I/O. Images arrive decoded and clock readings arrive as inputs.
- `ImageIO.read` returning null for an unrecognised format throws an uncaught `NullPointerException` in the source. That is library behaviour and is not modelled.
- A null `testName` would print as "null"; names are modelled as strings.
- `LocalDateTime` rejects impossible days such as 31 April. The model only bounds the day by 31; this affects none of the properties.
- Sub-millisecond digits are dropped by `SSS`; the model takes the millisecond field as its input.
- ScreenshotHelper.TimestampInjective: requires years from 1 CE on, because pattern letter `y` drops the era and year 0 prints like year 1 (`EraNotPrinted`).
- ScreenshotHelper.ScreenshotNameInjective: requires years from 1 CE on, for the same reason as `TimestampInjective`.
