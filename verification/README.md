# EcoWatt backend: energy assistant, accounts and appliances

This project models the core of the EcoWatt backend, an Express/MongoDB service, in Dafny:

- **The energy assistant** (`POST /api/chatbot`).
  - It validates the request, then reads the user and that user's appliances.
  - It aggregates them into a bundle of figures and renders a text context for a generative prompt.
  - It then picks the reply. That is one of three: the rule engine (`generateRuleBasedResponse`), the generated text (the part after the prompt marker, when it has one), or the degraded reply with its notice when something fails.
- **Registration and login** (`POST /signup`, `POST /login`). These cover the field checks, the duplicate e-mail check, the zero-initialised energy figures, and one message for both login failures.
- **Appliance management** (`GET /:userId`, `POST /`, `DELETE /:id`).

The modules are:

- `Optional`
- `Text`: the JavaScript string operations the handlers rely on. These are `includes`, `split`, `join`, `trim`, `toLowerCase`, `.length` in UTF-16 code units, and number-to-text in templates.
- `Records`: the user and appliance documents.
- `Auth`
- `Appliances`
- `EnergyContext`: aggregation and the context text.
- `RuleEngine`
- `Arbiter`: the assistant's handler.

Outside inputs become parameters:

- **The database** becomes values. The user store is a map from e-mail address to user. The appliance store is the sequence of appliance documents in retrieval order. The assistant's two reads arrive as a `Lookup`.
- **Fresh ids** are passed in as arguments.
- **Password hashing and comparison** (bcrypt) are the function parameters `hash` and `matches`.
- **The generative service** arrives as a `Generation`: no token configured, the generated text, or a failure.
- **The token check** (`process.env.HF_TOKEN`) is folded into `Generation.NoToken`.

Where the code's comments and its behaviour differ, the model follows the code:

- **The fallback reply is never sent.** The comment in the assistant's `catch` block (routes/chatbot.js:122) says a failure falls back to the rule engine, and line 131 appends a notice saying basic responses are in use. The `catch` block cannot deliver that reply (see Findings). `Arbiter.AnswerAsWritten` models the code; `Arbiter.Answer` is the handler the comment describes.
- **Database failures take the same path.** The comment speaks of the generative service failing, but the two database reads sit in the same `try` block as the generative call. So a failed read also ends in the `catch` block.
- **Text without the marker is not trimmed.** The generated text is trimmed only when it contains the marker.

## Model

| member | source | states |
|---|---|---|
| Text.ContainsIffOccurs | routes/chatbot.js:140-168 | `includes` (`Text.Contains`) holds exactly when the key occurs at some position of the text |
| Text.Find | routes/chatbot.js:100 | the result is the first index at or after the start where the key occurs; none means the key occurs nowhere after it |
| Text.Split | routes/chatbot.js:101 | at least one piece; exactly one piece iff the separator does not occur; the first piece never contains the separator |
| Text.JoinSplit | routes/chatbot.js:101 | joining the pieces of a split with the same separator gives back the original text |
| Text.JoinCons | routes/chatbot.js:49 | `join` (`Text.Join`) places the separator between a piece and the join of the pieces after it |
| Text.SplitJoin | routes/chatbot.js:49 | for a separator without a proper border, splitting a join of pieces free of the separator gives back the pieces |
| Text.Trim | routes/chatbot.js:50 | the result is a contiguous part of the input starting at its first non-whitespace character, and it neither starts nor ends with whitespace |
| Text.TrimPadded | routes/chatbot.js:40-50 | trimming whitespace padding around a text that starts and ends with non-whitespace yields exactly that text |
| Text.Lower | routes/chatbot.js:137 | the result has no upper-case ASCII letter and is between one and two times as long as the input |
| Text.LowerIdempotent | routes/chatbot.js:137 | lowering twice is lowering once |
| Text.LowerIsAsciiLower | routes/chatbot.js:137 | on text without U+0130 and U+212A, lowering keeps the length, maps each of 'A'..'Z' to the letter 32 code points later and keeps every other character |
| Text.LowerIgnoresCase | routes/chatbot.js:137 | two texts of equal length whose characters are pairwise equal or the same ASCII letter in opposite cases lower to the same text |
| Text.Utf16Length | routes/auth.js:16 | the JavaScript length lies between the number of code points and twice it |
| Text.Utf16LengthOfBmp | routes/chatbot.js:105 | for text within the Basic Multilingual Plane the JavaScript length is the number of characters |
| Text.Utf16LengthOfChar | routes/chatbot.js:105 | a code point above U+FFFF counts two code units, any other one |
| Text.Utf16LengthAppend | routes/auth.js:16 | the JavaScript length of a concatenation is the sum of the two lengths |
| Text.NatToString | routes/chatbot.js:43-46 | the decimal rendering is non-empty, all digits, and has no leading zero except for 0 itself |
| Text.ParseNatToString | routes/chatbot.js:43-46 | reading the decimal rendering back gives the number |
| Text.NatToStringInjective | routes/chatbot.js:43-46 | different numbers render differently |
| Auth.Signup | routes/auth.js:6-49 | each rejection happens exactly when its check is the first to fail, with its message; a rejection leaves the store unchanged; a success adds exactly the new address, leaves every other user unchanged, stores the hashed password and sets all four energy figures to 0, and returns the id, name and e-mail |
| Auth.SignupPreservesStore | routes/auth.js:21-40 | every user stays filed under its own address, and a registration grows the store by one |
| Auth.SignupTwiceIsRefused | routes/auth.js:21-24 | registering the same address a second time is refused as a duplicate |
| Auth.Login | routes/auth.js:57-84 | rejected exactly when the address is unknown or the password does not match, always with the same message; otherwise the profile is the stored user's, without the password |
| Auth.LoginFailuresIndistinguishable | routes/auth.js:63-71 | an unknown address and a wrong password give identical results |
| Auth.SignupThenLogin | routes/auth.js:27-84 | with a comparison that accepts a password against its own hash, a new user can log in right away, with zero energy points |
| Appliances.Select | routes/appliances.js:9 | the selection holds exactly the stored appliances the criterion keeps and is no longer than the store |
| Appliances.SelectAppend | routes/appliances.js:9 | selection distributes over concatenation, so store order is kept |
| Appliances.Add | routes/appliances.js:18-34 | rejected with its message and no store change exactly when one of the four fields is missing or empty; otherwise the store gains exactly one appliance at the end, with the request's fields, zero power and active |
| Appliances.ListForUser | routes/appliances.js:6-10 | the list holds exactly the stored appliances of that user |
| Appliances.Delete | routes/appliances.js:49-53 | the reply is always the deletion message; what remains is exactly the appliances with another id |
| Appliances.AddPreservesUniqueIds | routes/appliances.js:27-34 | adding under a fresh id keeps ids unique |
| Appliances.ListAfterAdd | routes/appliances.js:9-34 | after an add, the owner's list is the old list followed by the new appliance, and every other user's list is unchanged |
| Appliances.DeleteMissingIsNoOp | routes/appliances.js:52-53 | deleting an id that is not stored changes nothing, and the reply is the same |
| Appliances.AddThenDelete | routes/appliances.js:27-53 | deleting a just-added appliance restores the store exactly |
| Appliances.DeleteRemovesOne | routes/appliances.js:52 | with unique ids, deleting a stored id removes exactly one appliance |
| EnergyContext.Aggregate | routes/chatbot.js:26-37 | the count equals the number of appliances; each figure is the stored one, or 0 when absent; each summary entry keeps its appliance's name and status, with power and hours defaulting to 0 |
| EnergyContext.NewUserHasZeroBundle | routes/chatbot.js:26-37 | a freshly registered user without appliances aggregates to the all-zero bundle of the failure path |
| EnergyContext.UserContext | routes/chatbot.js:40-50 | the trimmed template keeps the whole header and is the body with all trailing whitespace removed |
| EnergyContext.ContextWithoutAppliances | routes/chatbot.js:40-50 | without appliances the context is exactly the body, which ends with the "No appliances connected" line |
| EnergyContext.ContextKeepsBody | routes/chatbot.js:40-50 | when the last appliance's status does not end in whitespace, trimming removes only the template's own padding |
| RuleEngine.FirstMatch | routes/chatbot.js:139-173 | the chosen topic is the menu or the topic of some rule |
| RuleEngine.FirstMatchIsEarliest | routes/chatbot.js:139-173 | with distinct topics, rule i is chosen iff it fires and no earlier rule does |
| RuleEngine.FirstMatchIsMenu | routes/chatbot.js:172-173 | the menu is chosen iff no rule fires |
| RuleEngine.RulesHaveDistinctTopics | routes/chatbot.js:139-170 | the priority table names each topic once |
| RuleEngine.Respond | routes/chatbot.js:136-174 | every message gets a non-empty reply |
| RuleEngine.TopicOf | routes/chatbot.js:140-173 | the topic the keyword tests select is the priority table's first match |
| RuleEngine.RespondFollowsTable | routes/chatbot.js:136-174 | the chain of keyword tests on the lowered message gives the reply of the priority table's first matching rule |
| RuleEngine.ChainFollowsTable | routes/chatbot.js:140-173 | the if-chain's topic equals the first match in the table |
| RuleEngine.RespondByPriority | routes/chatbot.js:140-170 | a message gets topic i's reply iff rule i fires and no earlier rule does |
| RuleEngine.MenuExactlyWithoutKeywords | routes/chatbot.js:172-173 | the menu reply goes exactly to messages with no keyword of any rule |
| RuleEngine.RespondIgnoresCase | routes/chatbot.js:137 | messages whose characters are pairwise equal or the same ASCII letter in opposite cases get the same reply |
| RuleEngine.RespondToLowered | routes/chatbot.js:137 | a message and its lowered form get the same reply |
| RuleEngine.SavedImpliesSave | routes/chatbot.js:145 | every message containing "saved" contains "save" |
| RuleEngine.SavingsBeforeEnvironment | routes/chatbot.js:145-165 | a message about saving without points or score gets the savings reply, even if it mentions the environment |
| RuleEngine.PointsBeforeSavings | routes/chatbot.js:140-147 | a message mentioning points or score gets the points reply whatever else it contains |
| RuleEngine.NoDevicesPrompt | routes/chatbot.js:150-153 | an appliance question with no appliances gets the fixed prompt to connect one |
| RuleEngine.DevicesListed | routes/chatbot.js:150-155 | read line by line, the appliance reply is the count header followed by one bullet per appliance in order |
| RuleEngine.GreetingInsideWord | routes/chatbot.js:168-169 | "which one?" gets the greeting, because the "hi" inside "which" matches |
| RuleEngine.SavingsExample | routes/chatbot.js:145-147 | "did i save the environment?" gets the savings reply |
| RuleEngine.NoDevicesExample | routes/chatbot.js:150-153 | "show my appliances" with no appliances gets the prompt to connect one |
| Arbiter.Prompt | routes/chatbot.js:69-76 | the prompt ends with the marker |
| Arbiter.Candidate | routes/chatbot.js:97-102 | text without the marker is kept verbatim; text with it shrinks |
| Arbiter.CandidateIsSegment | routes/chatbot.js:100-101 | when the text contains the marker, the candidate is the trimmed text between the first marker and the next one, or the end of the text |
| Arbiter.CandidateHasNoMarker | routes/chatbot.js:100-101 | a candidate cut out at the marker contains no marker |
| Arbiter.EchoedPromptYieldsContinuation | routes/chatbot.js:69-101 | when the service echoes the prompt, and neither the user's data nor the continuation contains the marker, the candidate is the trimmed continuation |
| Arbiter.TryBlock | routes/chatbot.js:9-117 | the try block throws exactly when validation passed and either a read failed or the generative step failed; every response it sends has a non-empty reply |
| Arbiter.Answer | routes/chatbot.js:8-131 | every request gets a non-empty reply; the status is OK iff both inputs are present and the lookup did not report the user missing (a failed read gets OK with the degraded reply); a valid request for a missing user gets the 404 "User not found." reply |
| Arbiter.Degraded | routes/chatbot.js:122-131 | the failure reply has status OK, ends with the notice, and has a non-empty reply before it |
| Arbiter.AnswerAsWritten | routes/chatbot.js:8-131 | as written, the handler sends nothing itself (its promise is rejected) exactly when validation passed and either a read failed or the generative step failed; otherwise the reply is non-empty, with OK exactly when the user was found |
| Arbiter.AsWrittenFailureIsUnanswered | routes/chatbot.js:119-131 | as written, a failure after validation never sends the degraded reply, while the corrected handler sends the degraded reply |
| Arbiter.AnswerAgreesWhereSourceReplies | routes/chatbot.js:9-117 | whenever the handler as written responds, its response is the corrected handler's |
| Arbiter.MissingInputRejected | routes/chatbot.js:12-14 | a missing or empty message or user id gets the 400 reply, whatever else holds |
| Arbiter.UnknownUserIsNotFound | routes/chatbot.js:16-19 | a valid request for an unknown user gets status 404 and "User not found.", as written and as intended |
| Arbiter.NoTokenUsesRuleEngine | routes/chatbot.js:52-66 | without a token the reply is the rule engine's on the user's real figures |
| Arbiter.GeneratedReplyChoice | routes/chatbot.js:97-117 | a candidate shorter than 10 UTF-16 code units falls back silently to the rule engine on the real figures; a longer one is returned verbatim |
| Arbiter.EchoedReplyAccepted | routes/chatbot.js:69-117 | an echoed prompt followed by a long enough continuation is answered with the trimmed continuation |
| Arbiter.FailureIgnoresUserData | routes/chatbot.js:119-131 | the failure reply is the same for every user and lookup, and is the rule engine's reply on all-zero figures followed by the notice |
| Arbiter.LookupFailureIsDegraded | routes/chatbot.js:17-23 | a failed database read gives the degraded reply, whatever the generative step would have done |
| Arbiter.FailureMatchesEmptyUser | routes/chatbot.js:55-131 | for a user with zero figures and no appliances, the failure reply is the no-token reply plus the notice |

## Left out

- HTTP plumbing is not modelled: status codes beyond the assistant's three, response envelopes (`message`/`user`/`appliance` wrappers), logging, async scheduling and the Express router.
- The 500 replies of the `catch` blocks in routes/auth.js and routes/appliances.js are not modelled. They fire when the database or bcrypt throws, and also when Mongoose cannot cast a field to its schema type at `save()`. The model represents none of these.
- Request fields are strings or absent, except the sign-up `age`, which is taken as an already-cast number. Other JSON values (arrays, objects) and the coercions they trigger are not modelled.
- Auth.Signup: `age` is an optional natural number. A value that Mongoose cannot cast to Number fails `user.save()` (routes/auth.js:40) with a 500, which the model does not represent.
- Appliances.Add: `userId` is assumed castable to an ObjectId (models/Appliance.js:19-23). For any other string, `appliance.save()` (routes/appliances.js:27) rejects, the handler answers 500 "Error connecting appliance" and nothing is stored, whereas the model connects and stores the appliance.
- Auth.Signup, Auth.Login: the user store is keyed by the e-mail exactly as given. Mongoose's `lowercase`/`trim` normalisation, and the unique-index error it can cause, are left out.
- Auth.Login: an absent e-mail or password is not modelled. An absent e-mail turns `findOne` into an unfiltered query.
- Invalid ObjectId strings (cast errors) in `findById`, `find`, `findByIdAndDelete` and the `save` calls of both routes are not modelled. Ids are plain strings.
- The timestamps, `createdAt` and the bcrypt salt are left out.
- Energy figures, power and hours are natural numbers. Floating-point values and their JavaScript rendering are left out.
- Text.Lower: only ASCII letters plus U+0130 and U+212A are mapped (the characters whose lower case contains ASCII letters). All other characters are kept as they are, so keyword matching is exact and the rendering of other scripts is not.
- The generative call's parameters (model URL, `max_new_tokens`, temperature, `top_p`, headers) are left out, and so is the shape of its response payload. The call is represented only by its outcome.
- Appliance `status` and `usageHours` are not in the appliance schema, so documents created by this service never have them. The model keeps them optional, and the context then renders the status as "undefined", as the template does.
- Arbiter.AnswerAsWritten: the rejected promise of the handler is modelled as no response. What follows depends on the Express major version, which the source files do not pin. Under Express 4 the rejection is unhandled, no response is sent, and under Node 15 or later's default the process exits. Under Express 5 the rejection reaches the error middleware at server.js:43-46, which answers 500 with "Something went wrong!".
- Arbiter.Candidate: a reply without the marker is not trimmed, so a whitespace-only text of 10 or more code units is accepted as it stands. This follows the code.

## Findings

| source | as written | input that shows it | evidently intended | confidence | as-written member | corrected member |
|---|---|---|---|---|---|---|
| routes/chatbot.js:123 | the `catch` block passes `message` to the rule engine, but `message` is declared with `const` inside the `try` block (line 10) and is out of scope there, so the fallback itself throws a ReferenceError and the degraded reply is never sent; the handler's promise is rejected instead (see "Left out" for what the client then receives) | a valid message and user id while the generative call fails (or either database read throws) | answer with the rule engine's reply on all-zero figures followed by the notice | not executed | Arbiter.AnswerAsWritten (Arbiter.AsWrittenFailureIsUnanswered) | Arbiter.Answer (Arbiter.FailureIgnoresUserData) |
