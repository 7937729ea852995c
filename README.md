# Oxygen in Dafny

A model of the core of Oxygen, the Drupal module that lets a remote
dashboard manage a Drupal site. Every dashboard request is signed. The module
checks the signature, spends the request's nonce, runs the named action and
sends back a JSON or multipart answer. The model covers these parts:

- **Arbitrary-precision integers** (`Oxygen_Math_BigInteger`, 31-bit limbs):
  - addition, subtraction, multiplication and long division;
  - Barrett reduction, sliding-window `modPow`, GCD and modular inverse;
  - the bitwise operators;
  - the base-256 byte conversions and shifts.

  Limb loops are methods over `seq<int>` with loop invariants. Each is proved
  against the integer value of its limbs (`Limbs.Val`).
- **RSA signature verification** (`Oxygen_Security_Rsa_PhpRsaVerifier`):
  - the DER reader of the public key;
  - RSAVP1 and EMSA-PKCS1-v1_5 with SHA-1;
  - the byte comparison.

  `Verify` is proved equal to RSASSA-PKCS1-v1_5-VERIFY of section 8.2.2 of
  RFC 8017.
- **The request pipeline**:
  - the kernel and the action kernel;
  - the protocol, handshake, login, action and error listeners;
  - the nonce manager and the action registry;
  - the HTTP request, response and multipart response;
  - the append stream, the exception codes and the small utilities.
- **The tar reader** (`Oxygen_Archive_Tar`): header blocks, checksums, long
  names, the directory-traversal test and the walk over the entries.
- **The container, the Drupal context and the autoloader.**

## Conventions

- PHP values are the datatype `Php.Value`.
- Exceptions are the datatype `OxygenException.Fault`, returned through
  `Result`.
- Foreign functions become parameters. This covers the RSA capability, the
  clock, `sha1`, `json_decode`, `uniqid` and Drupal's session functions.
- Objects whose fields the PHP code updates are classes. Their methods are
  proved against specification functions of the same name without the
  object.
- Where the code has a bug, the model gives two members:
  - one as written, with a lemma that exhibits the discrepancy;
  - a corrected one, which the rest of the model uses.

  The table under "## Findings" lists each pair.

## Model

| member | source | states |
|---|---|---|
| Autoload.ReplaceChar | autoload.php:13 | `str_replace` of one character: same length, each matching character replaced and every other kept |
| Autoload.PathOf | autoload.php:11-13 | a class gets a path exactly when it starts with "Oxygen_"; the path is src + "/" + the rest with '_' as '/' + ".php", with no '_' left in it |
| Autoload.ClassRoundTrip | autoload.php:11-13 | class → path → class gives the class back for every class name without '/' |
| Autoload.PathRoundTrip | autoload.php:11-13 | path → class → path gives the file back when its relative path has no '_' |
| Autoload.UnderscoreInFileName | autoload.php:13 | `Foo_Bar.php` defines `Oxygen_Foo_Bar`, but the autoloader looks for that class in `Foo/Bar.php` |
| Autoload.Autoloader.Load | autoload.php:3-15 | the source directory is worked out on the first call and then kept; the file to require is `PathOf` of that directory |
| DrupalContext.AlreadyDefined | src/Drupal/Context.php:100 | the RuntimeException message for a constant already defined |
| DrupalContext.DefineOnce | src/Drupal/Context.php:96-113 | refused iff the name exists and `throw` is set; otherwise the key set grows by the name, existing values never change, a new name gets the value |
| DrupalContext.DefineTwice | src/Drupal/Context.php:96-113 | defining a name twice without `throw` leaves the table as after the first time; with `throw` the second call fails |
| DrupalContext.Context.constructor | src/Drupal/Context.php:19-30 | a null argument means the process's globals or constants, otherwise the given array |
| DrupalContext.Context.SetGlobal | src/Drupal/Context.php:38-41 | the variable is set, every other variable and all constants are unchanged |
| DrupalContext.Context.GetGlobal | src/Drupal/Context.php:49-52 | a key that exists wins over the default, even when its value is null |
| DrupalContext.Context.HasConstant | src/Drupal/Context.php:59-66 | true iff the name is in the table |
| DrupalContext.Context.GetConstant | src/Drupal/Context.php:74-85 | the constant's value when it exists, the default otherwise |
| DrupalContext.Context.SetConstant | src/Drupal/Context.php:96-113 | the table becomes what `DefineOnce` gives or stays as it was on refusal; an existing constant keeps its value |
| Container.Defaults | src/Container/Abstract.php:17-23 | exactly the five default parameters with their values |
| Container.Union | src/Container/Abstract.php:17 | PHP's `+` on arrays: all keys of both, the left operand's value winning |
| Container.CallerWins | src/Container/Abstract.php:15-24 | a caller's parameter is never replaced by a default, and every default is present |
| Container.NoSuchParameter | src/Container/Abstract.php:32 | the InvalidArgumentException and its message |
| Container.ContainerBase.constructor | src/Container/Abstract.php:15-24 | parameters are the caller's over the defaults; nothing is made yet |
| Container.ContainerBase.GetParameter | src/Container/Abstract.php:29-36 | the stored value (even null) iff the key exists, the InvalidArgumentException otherwise |
| Container.ContainerBase.Get | src/Container/Abstract.php:41-218 | a kept service is returned without calling its factory; otherwise the factory is called exactly once and its result is kept unless it is null; no other service's slot changes |
| Registry.Find | src/Action/Registry.php:26-33 | the definition iff the name is registered, ACTION_NOT_FOUND with the action name otherwise |
| Registry.FindAfterSet | src/Action/Registry.php:14-33 | after `setDefinition(n, d)`, n finds d and every other name finds what it found before |
| Registry.Registry.SetDefinition | src/Action/Registry.php:14-17 | the name is (re)bound, every other lookup is unchanged |
| Registry.Registry.GetDefinition | src/Action/Registry.php:26-33 | the lookup `Find` describes, with no state change |
| HookedClosure.HookedClosure.Execute | src/Util/HookedClosure.php:44-52 | the first call runs the closure; every later call fails with the LogicException; the object is marked executed either way |
| HookedClosure.RunTwice | src/Util/HookedClosure.php:44-52 | whatever the closure does, a second `execute` is refused |
| HashEquals.XorStrings | src/Security/Util.php:17 | PHP string `^`: byte-wise xor, cut to the shorter operand |
| HashEquals.OrAllZero | src/Security/Util.php:18-23 | the or-accumulator is zero iff every byte is zero |
| HashEquals.XorAllZero | src/Security/Util.php:17-23 | the xor of two strings is all zero iff their common prefix agrees |
| HashEquals.HashEquals | src/Security/Util.php:11-24 | with `hash_equals` the answer is equality; the fallback answers equality of the common prefix, which is equality when the lengths agree |
| HashEquals.Fallback | src/Util.php:40-46 | the fallback loop visits min(|known|,|user|) bytes and returns `HashEquals(known, user, false)` |
| HashEquals.FallbackPrefixExample | src/Security/Util.php:17-23 | the fallback accepts the empty string against "sec", which `hash_equals` rejects |
| HashEquals.HashEqualsCorrected | src/Security/Util.php:13-15 | the comparison the fallback means to reproduce: true iff the strings are equal |
| NonceManager.BeforeUnderscore | src/Security/Nonce/NonceManager.php:23 | the longest prefix without '_', stopping at the first '_' |
| NonceManager.Explode | src/Security/Nonce/NonceManager.php:23 | `explode('_', …)` into the value and the expiry text: no expiry iff there is no '_', otherwise the two pieces joined by '_' start the nonce |
| NonceManager.UseOutcomes | src/Security/Nonce/NonceManager.php:25-37 | an expired nonce fails with NONCE_EXPIRED (expiry equal to now is accepted); a used value fails with NONCE_ALREADY_USED; success iff neither, and then the ledger gains exactly this value with its expiry |
| NonceManager.SecondUseFails | src/Security/Nonce/NonceManager.php:31-37 | a value, once used, is refused whatever the expiry and time |
| NonceManager.DistinctValuesBothSucceed | src/Security/Nonce/NonceManager.php:21-38 | two distinct fresh values that have not expired are both accepted in turn |
| NonceManager.ExplodeJoined | src/Security/Nonce/NonceManager.php:23 | "value_expiry" without other '_' splits back into value and expiry |
| NonceManager.ExplodeUnjoined | src/Security/Nonce/NonceManager.php:23-25 | a nonce without '_' is all value, and its expiry casts to 0 |
| NonceManager.NonceManager.UseNonce | src/Security/Nonce/NonceManager.php:21-38 | the ledger becomes what `UseNonceSpec` gives, or stays unchanged with its error |
| NonceManager.NonceManager.UseValue | src/Security/Nonce/NonceManager.php:25-37 | the same for a value and a given expiry, through `Use` |
| DrupalState.State.Lookup | src/Drupal/State.php:8-11 | `variable_get` with default null |
| DrupalState.State.Set | src/Drupal/State.php:16-19 | this variable changes and no other |
| Autoload.ReplaceBack | autoload.php:13 | replacing '/' by '_' undoes replacing '_' by '/' on a text without '/' |
| Autoload.Autoloader.constructor | autoload.php:5 | the source directory starts unknown |
| DrupalState.State.constructor | src/Drupal/State.php:3-28 | the state starts with the given Drupal variables |
| DrupalState.State.Get | src/Drupal/State.php:8-11 | `variable_get`'s `isset` test: the variable's value when it is set and not null, the default otherwise (a stored null included), with no state change |
| DrupalState.State.Delete | src/Drupal/State.php:24-27 | this variable is no longer set and no other changes |
| HookedClosure.HookedClosure.constructor | src/Util/HookedClosure.php:27-31 | keeps the hook name and the closure; not executed yet |
| NonceManager.BeforeUnderscoreOf | src/Security/Nonce/NonceManager.php:23 | the part before the first '_' of "value_rest" is the value when the value has no '_' |
| NonceManager.NonceManager.constructor | src/Security/Nonce/NonceManager.php:13-16 | the manager starts with an empty ledger of used nonces, which stands for the database table |
| Registry.Registry.constructor | src/Action/Registry.php:8 | the registry starts with the given definitions |
| Php.NotSetIsEmpty | src/EventListener/HandshakeListener.php:36-50 | what `isset` rejects `empty` rejects too, and "" is set but empty |
| ActionKernel.Argument | src/ActionKernel.php:72-79 | no argument iff the value is not set (absent or null) and the parameter is required |
| ActionKernel.Bind | src/ActionKernel.php:71-80 | binding succeeds iff every parameter gets an argument; then one argument per parameter, in order, each the one `Argument` gives; otherwise the given fault |
| ActionKernel.BindArguments | src/ActionKernel.php:69-80 | the loop computes `Bind` |
| ActionKernel.BindMissingOnly | src/EventListener/ActionListener.php:31-40 | the listener's loop binds like the kernel's; only the fault for a missing argument differs |
| ActionKernel.NullTakesDefault | src/ActionKernel.php:72-78 | a null value is not set: an optional parameter takes its default and a required one fails |
| ActionKernel.Converted | src/ActionKernel.php:106-116 | the response a listener set for the data, or the LogicException "Action data should get converted to a response object." |
| ActionKernel.MissingBeforeCall | src/ActionKernel.php:71-88 | a missing required argument fails with ACTION_ARGUMENT_NOT_PROVIDED before the action is called |
| ActionKernel.RawOutcomeCases | src/ActionKernel.php:82-96 | the call's exception propagates; a response is returned; an array goes through conversion; any other value is the LogicException naming its type |
| ActionKernel.HookName | src/ActionKernel.php:42-44 | an action is deferred iff its `hook_name` option is present and not null |
| ActionKernel.ActionKernel.constructor | src/ActionKernel.php:39-116 | keeps the registry and the action callbacks |
| ActionKernel.ActionKernel.HandleRaw | src/ActionKernel.php:65-97 | the binding loop, then the call and the conversion, as `RawOutcome` |
| ActionKernel.NoActionRunsAsWritten | src/ActionKernel.php:41-42 | as written an unknown action is still ACTION_NOT_FOUND, and every known one ends in the Error for the undeclared `getOption`, which `catch (Exception $e)` lets through |
| ActionKernel.ActionKernel.Handle | src/ActionKernel.php:39-51 | unknown action: ACTION_NOT_FOUND; without a hook the raw outcome now; with one a fresh, unexecuted hooked closure for that hook whose closure yields the raw outcome |
| ActionListener.JsonBody | src/EventListener/ActionListener.php:43 | the JSON body has the one key `actionResult`, holding the result |
| ActionListener.NoOpUnlessBoth | src/EventListener/ActionListener.php:22-24 | the listener does nothing iff `actionName` or `actionParameters` is not set |
| ActionListener.UnknownAction | src/EventListener/ActionListener.php:26 | an unknown action is ACTION_NOT_FOUND naming the action |
| ActionListener.SameBindingRule | src/EventListener/ActionListener.php:26-43 | a missing argument is ACTION_ARGUMENT_EMPTY; the call's exception propagates; otherwise the JSON response wraps the result |
| ActionListener.ActionNeverRunsAsWritten | src/EventListener/ActionListener.php:20 | as written every master request fails here with the Error for the undeclared `getData`, even one the corrected listener ignores |
| ActionListener.ActionListener.constructor | src/EventListener/ActionListener.php:13-16 | keeps the registry |
| ActionListener.ActionListener.OnMasterRequest | src/EventListener/ActionListener.php:18-44 | the loop computes `ListenerOutcome` |
| HandshakeListener.VerificationKey | src/EventListener/HandshakeListener.php:54-59 | the pinned key when there is one, the offered key otherwise |
| HandshakeListener.MissingFieldsInOrder | src/EventListener/HandshakeListener.php:36-50 | the missing fields are reported in the order publicKey, signature, nonce, with their codes |
| HandshakeListener.VerificationDecides | src/EventListener/HandshakeListener.php:61-70 | success needs the signature to verify; a failure is VERIFY_TEST_FAILED without a pinned key and VERIFY_FAILED with one |
| HandshakeListener.NonceSpentAfterVerification | src/EventListener/HandshakeListener.php:61-72 | the ledger changes only after the signature verified, and then as `useNonce` changes it |
| HandshakeListener.PinningRule | src/EventListener/HandshakeListener.php:74-76 | a pinned key is never replaced; a failure pins nothing and spends nothing; a success without a pinned key pins the offered key |
| HandshakeListener.ReplayFails | src/EventListener/HandshakeListener.php:72 | the same handshake repeated after a success fails, at any later time |
| HandshakeListener.PastTheChecks | src/EventListener/HandshakeListener.php:61-72 | once the fields are there and the signature verifies, the handshake fails iff the nonce is refused |
| HandshakeListener.HandshakeNeverRunsAsWritten | src/EventListener/HandshakeListener.php:33 | as written every handshake fails on its first line with the Error for the undeclared `getData`: nothing is pinned and no nonce is spent; the corrected listener pins the offered key on a first success |
| HandshakeListener.HandshakeListener.constructor | src/EventListener/HandshakeListener.php:24-29 | keeps the state and the nonce manager |
| HandshakeListener.HandshakeListener.OnMasterRequest | src/EventListener/HandshakeListener.php:31-77 | the result, the new ledger and the new pinned key are `HandshakeOutcome`'s; no other state variable changes |
| ProtocolListener.DotAt | src/EventListener/ProtocolListener.php:91 | the split point of a version is within the text |
| ProtocolListener.IdentityStageAccepts | src/EventListener/ProtocolListener.php:31-85 | the request id, public key, username, signature, handshake key, handshake signature and expiry checks pass iff each field has the type and shape the code asks for |
| ProtocolListener.VersionStageAccepts | src/EventListener/ProtocolListener.php:87-97 | the version checks pass iff a major.minor version is given and is not newer than the running one |
| ProtocolListener.ActionStageAccepts | src/EventListener/ProtocolListener.php:99-113 | the action checks pass iff a string action name and an array of parameters are given |
| ProtocolListener.BaseUrlStageAccepts | src/EventListener/ProtocolListener.php:115-133 | the base URL checks pass iff it is an http or https URL with a host whose slug is the site's |
| ProtocolListener.AcceptedIffAcceptable | src/EventListener/ProtocolListener.php:27-134 | the chain of checks lets a request through exactly when its envelope is acceptable field by field |
| ProtocolListener.ZeroRequestIdNotProvided | src/EventListener/ProtocolListener.php:31-33 | a request id "0" is reported as not provided, since `empty("0")` holds |
| ProtocolListener.ZeroSignatureNotProvided | src/EventListener/ProtocolListener.php:55-61 | a signature "0" has the base64 shape yet is reported as not provided |
| ProtocolListener.VersionGate | src/EventListener/ProtocolListener.php:95-97 | with a well-formed required version, VERSION_TOO_LOW is reported iff it is newer than the running version |
| ProtocolListener.SlugMismatchReported | src/EventListener/ProtocolListener.php:123-133 | a base URL whose slug differs from the site's is BASE_URL_SLUG_MISMATCHES with both URLs and both slugs in the context |
| ProtocolListener.BaseUrlStagesDifferOnMismatch | src/EventListener/ProtocolListener.php:126-133 | the base URL stage as written differs from the corrected one only on a slug mismatch, where it raises the Error for an array message instead of SLUG_MISMATCHES |
| ProtocolListener.SlugMismatchErrorAsWritten | src/EventListener/ProtocolListener.php:126-133 | as written a request that passes every other check but names a base URL with another slug ends in that Error |
| ProtocolListener.VersionOfParts | src/EventListener/ProtocolListener.php:91-95 | "major.minor" has the checked shape and compares as the pair of its two numbers |
| ProtocolListener.MinorComparedAsNumber | src/EventListener/ProtocolListener.php:95 | minor versions compare as numbers: 1.10 is newer than 1.9 |
| LoginListener.UserQueryFor | src/EventListener/LoginListener.php:141-145 | an empty username selects user 1, any other the user of that name |
| LoginListener.NoEffectUnlessLogin | src/EventListener/LoginListener.php:58-76 | without a request id, or for an action other than site.login, the listener does nothing and spends no nonce |
| LoginListener.ExpiryRule | src/EventListener/LoginListener.php:82-85 | an expiry passes exactly when it is the decimal text of an integer |
| LoginListener.PaddedExpiryRefused | src/EventListener/LoginListener.php:83 | a zero-padded expiry is refused |
| LoginListener.StoredKeyOnly | src/EventListener/LoginListener.php:112-120 | a public key in the query changes nothing; a login needs the pinned key and a signature over the signed message that verifies under it |
| LoginListener.NonceAfterVerification | src/EventListener/LoginListener.php:118-122 | the request id is spent, with the link's expiry, only after the signature verified; a failure or no-op spends nothing |
| LoginListener.ReplayRefused | src/EventListener/LoginListener.php:122 | a login link works once: the same query against the new ledger fails |
| LoginListener.PlainRequestIdExpiredAsWritten | src/Security/Nonce/NonceManager.php:21-29 | as written an authorized link whose request id has no '_' is refused as NONCE_EXPIRED on first use, since its expiry reads as 0; the corrected listener accepts it iff the link has not expired and the id is unused |
| LoginListener.BarAt | src/EventListener/LoginListener.php:118 | the first '|' of a text lies within it |
| LoginListener.BarAfterBare | src/EventListener/LoginListener.php:118 | in `a|r` with `a` free of '|', the first '|' is the one after `a` |
| LoginListener.SplitAtBar | src/EventListener/LoginListener.php:118 | joining with '|' after a '|'-free head is injective |
| LoginListener.SignedMessageInjective | src/EventListener/LoginListener.php:118 | the signed text `%s|%d|%s|%s` determines the request id, expiry, user uid and username when the request id has no '|' and the uid has its `U` + ten digits shape |
| LoginListener.MessageShape | src/EventListener/LoginListener.php:118 | the signed text is the request id, '|', then the rest |
| LoginListener.UidBare | src/EventListener/LoginListener.php:107 | a uid of the checked shape has no '|' |
| LoginListener.DecimalBare | src/EventListener/LoginListener.php:118 | `%d` output has no '|' |
| LoginListener.UserSelection | src/EventListener/LoginListener.php:139-172 | the user found is logged in; a user not found is AUTO_LOGIN_CAN_NOT_FIND_USER; the session is registered to the dashboard uid; the redirect goes to admin/dashboard as altered, with the altered status (302 by default) |
| LoginListener.LoginNeverCompletesAsWritten | src/EventListener/LoginListener.php:139-159 | as written no login completes: a username meets the undeclared `findUserByUsername`; an empty one logs user 1 in, then meets the undeclared `getSessionId`; the corrected `loginUser` redirects iff the user is found |
| LoginListener.QueryUnreadableAsWritten | src/EventListener/LoginListener.php:53-60 | as written every public request ends in the Error "Cannot access private property Oxygen_Http_Request::$query", which `catch (Exception)` lets through, with the ledger unchanged; even a request without a request id, which the corrected listener lets pass untouched, fails |
| LoginListener.LoginListener.constructor | src/EventListener/LoginListener.php:43-51 | keeps the state, the nonce manager and the user and session callbacks |
| LoginListener.LoginListener.OnPublicRequest | src/EventListener/LoginListener.php:53-127 | the ledger and outcome are `PublicRequestOutcome`'s; a login yields a fresh, unexecuted closure on the `init` hook that runs `loginUser` with the link's uid and username |
| Kernel.HandleException | src/Kernel.php:105-114 | the response an EXCEPTION listener set, or the RuntimeException "The response was not set after an exception." |
| Kernel.Guarded | src/Kernel.php:56-57 | a success passes unchanged; only the RuntimeException or an uncatchable error leaves |
| Kernel.OnlyUnansweredEscapes | src/Kernel.php:37-114 | when every exception gets a response, nothing but an uncatchable error leaves `handle`, `notifyResponse` or `wrapResponse` |
| Kernel.NotifyReturnsEventResponse | src/Kernel.php:87-96 | the response MASTER_RESPONSE leaves in its event is what is returned |
| Kernel.DelayedActionFirst | src/Kernel.php:70-77 | when DELAYED_ACTION throws, the deferred action's outcome plays no part |
| Kernel.NotifyFailureHandledTwice | src/Kernel.php:51-57 | a failing MASTER_RESPONSE with no EXCEPTION response gives a RuntimeException that the outer catch hands to `handleException` again |
| Kernel.PublicAnswer | src/Kernel.php:27-35 | the deferred response when one was set, else the event's response, else null |
| Kernel.InvalidJsonHandled | src/Kernel.php:39-42 | a body that does not decode to an array is the RuntimeException "The request does not contain valid JSON." |
| Kernel.Answered | src/Kernel.php:23-59 | a handler's outcome as `handle`'s answer |
| Kernel.GivenType | src/Kernel.php:39-57 | the type PHP 7 names in the TypeError: "instance of stdClass" for the object the decoded body was cast to, "null" when no data was set, "integer", "boolean" or "string" for a scalar body |
| Kernel.ExceptionLostAsWritten | src/Kernel.php:107 | the event is built with three arguments, so the second, the request data, meets the `Exception` type: the TypeError always wins, naming "instance of stdClass" once the body was cast and "null" before; built with two arguments the event holds the exception |
| Kernel.Kernel.constructor | src/Kernel.php:23-59 | keeps the action kernel, the listeners and the JSON decoder |
| Kernel.Kernel.Prepare | src/Kernel.php:39-46 | reads the body once (loading it into the request), decodes it and runs MASTER_REQUEST; authentication is unchanged |
| Kernel.Kernel.Handle | src/Kernel.php:23-59 | a public request gets the public answer and leaves the body unread; a master request is prepared, routed through the action kernel and notified, or deferred on the action's hook with `wrapResponse` around it; every exception is handed to `handleException` |
| Request.ContentStep | src/Http/Request.php:93-110 | a stream only when nothing was read before, and only once; the text is read from input once and kept; every refused call is the RuntimeException and changes nothing |
| Request.TextStable | src/Http/Request.php:105-109 | reading the text twice gives the same text, whatever the input holds at the second read |
| Request.StreamOnlyFirst | src/Http/Request.php:95-103 | after any successful read a stream is refused, and after a stream every read is refused |
| Request.FindToken | src/Http/Request.php:123 | the first position at or after `from` where the media type stands as a token, or none |
| Request.HasTokenIff | src/Http/Request.php:123 | the pattern matches iff some position holds the media type between separators or the ends |
| Request.OxygenAccepted | src/Http/Request.php:137 | application/oxygen is accepted in the middle of a list and with parameters |
| Request.LongerTypeRefused | src/Http/Request.php:137 | a type that only begins with the requested one is not accepted |
| Request.Request.constructor | src/Http/Request.php:68-77 | the server parameters are kept; a given body counts as already read; not authenticated |
| Request.Request.GetContent | src/Http/Request.php:93-110 | the result and the new body are `ContentStep`'s; authentication is unchanged |
| Request.Request.Header | src/Http/Request.php:119-121 | a header is there iff its server parameter is set |
| Request.Request.SetAuthenticated | src/Http/Request.php:151-154 | only the flag changes |
| Response.AssignFacts | src/Http/MultipartResponse.php:14-22 | `$headers[name] = value` binds the name, keeps every other name, and keeps names unique and lower-case |
| Response.LowerStringLowerCase | src/Http/Response.php:100 | `strtolower` leaves no upper-case letter |
| Response.ChangeKeyCase | src/Http/Response.php:100 | `array_change_key_case` gives unique lower-case names, each holding the value given last under any spelling of it |
| Response.ChangeKeyCaseFinds | src/Http/Response.php:100 | every header given is found under its lower-cased name when no later header has the same lower-cased name |
| Response.ChangeKeyCaseIdempotent | src/Http/Response.php:100 | lower-casing the names twice is lower-casing them once |
| Response.LowerNamesKept | src/Http/Response.php:100 | on unique lower-case names the conversion changes nothing |
| Response.AssignNew | src/Http/MultipartResponse.php:20-22 | assigning a name not yet present appends one entry at the end |
| Response.AsString | src/Http/Response.php:108-115 | null, strings and numbers print; an object prints through `__toString`; booleans, arrays and objects without it are the LogicException naming the type |
| Response.NullAndArrayContent | src/Http/Response.php:108-115 | null content is ""; an array names "array" in the error |
| Response.Protocol | src/Http/Response.php:150-153 | HTTP/1.0 only for a server protocol of exactly "HTTP/1.0", HTTP/1.1 otherwise |
| Response.StatusLine | src/Http/Response.php:155-157 | a status line is sent iff the code has a reason phrase |
| Response.StatusLines | src/Http/Response.php:16-80 | 404 is "Not Found", 200 is "OK", and 299 gets no status line |
| Response.SentHeaders | src/Http/Response.php:148-162 | the status line, if any, then one `name: value` line per header in order |
| Response.Response.constructor | src/Http/Response.php:96-101 | the content and code are kept (200 unless given); the header names are lower-cased |
| Response.Response.SetContent | src/Http/Response.php:122-127 | only the content changes, and the response itself is returned |
| Response.Response.Send | src/Http/Response.php:140-146 | the header lines go out first; the body is the content as a string, which fails after the headers for content that cannot print |
| Response.DefaultsAndRoundTrip | src/Http/Response.php:96-135 | without a code the response answers 200; the content set is the content read back |
| OxygenException.ConstantOf | src/Exception.php:5-58 | the flipped constant table finds only values between 10000 and 10046, each the value of the constant it names |
| OxygenException.ConstantOfCode | src/Exception.php:107-111 | the flipped table finds every constant by its value |
| OxygenException.CodesDistinct | src/Exception.php:5-58 | no two constants share a value, so `array_flip` loses none |
| OxygenException.UnusedCode | src/Exception.php:5-58 | 10016 is inside the range but names no constant |
| OxygenException.TypeForCode | src/Exception.php:103-115 | the constant's name for a declared value; for any other value the number GENERAL_ERROR (10000), not its name |
| OxygenException.Table | src/Exception.php:107 | the flipped table holds exactly the declared values |
| OxygenException.CodeCache.constructor | src/Exception.php:64 | the static cache starts empty |
| OxygenException.CodeCache.TypeFor | src/Exception.php:103-115 | the first call fills the cache with the flipped table, later calls leave it; the answer is `TypeForCode`'s |
| OxygenException.Decimal | src/Exception.php:91 | `%d` text is never empty and has only digits for a non-negative number |
| OxygenException.DefaultMessage | src/Exception.php:90-92 | a missing message is "Error [code]: type" |
| OxygenException.NewOxygen | src/Exception.php:85-96 | the type comes from the code, the context and previous exception are kept, the message is the given one or the default |
| OxygenException.Raise | src/Exception.php:85-96 | a constant's exception carries the constant's name and value |
| OxygenException.RaiseWith | src/Exception.php:85-96 | the same with the context kept |
| OxygenException.Undefined | src/EventListener/HandshakeListener.php:37 | naming a constant the class does not declare is PHP's Error, not an Oxygen_Exception |
| OxygenException.Coded | src/Exception.php:85-96 | the fault for a constant carries it with an empty context |
| OxygenException.ThrownOf | src/Exception.php:85-96 | each fault is thrown as the exception class and message it stands for |
| MultipartResponse.HexDigit | src/Http/MultipartResponse.php:96 | a nibble is written as an upper-case hexadecimal digit |
| MultipartResponse.UrlEncode | src/Http/MultipartResponse.php:96 | `urlencode` output holds only unreserved characters, '+' and '%' |
| MultipartResponse.DecodeChar | src/Http/MultipartResponse.php:96 | decoding one encoded byte in front of more text gives the byte back |
| MultipartResponse.UrlRoundTrip | src/Http/MultipartResponse.php:94-97 | `urldecode(urlencode(s)) == s` for every byte string, so the encoded Content-Location loses nothing |
| MultipartResponse.NoLineBreak | src/Http/MultipartResponse.php:94-98 | an encoded Content-Location has no CR or LF, so it cannot end its header line early |
| MultipartResponse.PartsAsWrittenSnoc | src/Http/MultipartResponse.php:37-39 | each part as written adds its text and then a delimiter |
| MultipartResponse.PartsTextSnoc | src/Http/MultipartResponse.php:70-74 | each part in the corrected text adds a line break, its text and a delimiter |
| MultipartResponse.PartsTextLonger | src/Http/MultipartResponse.php:35-42 | the corrected parts are two characters longer per part than the parts as written |
| MultipartResponse.ContentTextLonger | src/Http/MultipartResponse.php:29-45 | the text as written lacks one line break for every part after the first |
| MultipartResponse.OnePartAgrees | src/Http/MultipartResponse.php:29-45 | with one part the text as written and the corrected text agree |
| MultipartResponse.TwoPartsGlued | src/Http/MultipartResponse.php:35-42 | with two parts, the text as written glues the second part's first header to the delimiter line |
| MultipartResponse.HeaderStreams | src/Http/MultipartResponse.php:110-116 | one sub-stream per header, reading as the header lines of the string form |
| MultipartResponse.PartStream | src/Http/MultipartResponse.php:106-140 | a part's sub-streams, refused exactly for an encoding other than binary or base64 |
| MultipartResponse.BodyStreams | src/Http/MultipartResponse.php:68-74 | the body's sub-streams, refused exactly when some part's encoding is |
| MultipartResponse.ResponseStream | src/Http/MultipartResponse.php:62-79 | the same, ending in the closing "--" |
| MultipartResponse.AllStreamed | src/Http/MultipartResponse.php:118-137 | each part as the stream form writes it |
| MultipartResponse.EncodingHeaderLine | src/Http/MultipartResponse.php:121 | the added encoding line is the header line of content-transfer-encoding |
| MultipartResponse.PartStreamText | src/Http/MultipartResponse.php:106-140 | a part's stream reads as the streamed part's text without its final line break |
| MultipartResponse.BodyMatchesText | src/Http/MultipartResponse.php:68-74 | the body's sub-streams read as the opening delimiter and the corrected parts |
| MultipartResponse.StreamMatchesString | src/Http/MultipartResponse.php:62-79 | read to its end, the stream is the corrected string form of the streamed parts |
| MultipartResponse.MixedCaseEncodingReplaced | src/Http/MultipartResponse.php:19-23 | a caller's encoding header under a mixed-case name is replaced by "binary" as written, and kept by the corrected constructor |
| MultipartResponse.CapitalisedEncodingName | src/Http/MultipartResponse.php:19 | "Content-Transfer-Encoding" lower-cases to the name the test looks for |
| MultipartResponse.ConstructorHeaders | src/Http/MultipartResponse.php:10-24 | unique lower-case names; content-type names the boundary; the caller's encoding under any spelling is kept, binary otherwise; every other header is the caller's |
| MultipartResponse.MultipartResponse.constructor | src/Http/MultipartResponse.php:10-24 | the boundary is the one given or `uniqid()`; the parts, code and headers are set as `ConstructorHeaders` says |
| MultipartResponse.MultipartResponse.CreateResponseStream | src/Http/MultipartResponse.php:62-79 | a fresh, valid Append stream whose text is the response stream's, or the encoding fault |
| MultipartResponse.MultipartResponse.Send | src/Http/MultipartResponse.php:47-57 | the header lines, then a body that is the corrected string form of the streamed parts, or the encoding fault |
| AppendStream.ConcatAppend | src/Stream/Append.php:21-24 | concatenating two lists of texts concatenates their concatenations |
| AppendStream.Take | src/Stream/Append.php:62 | a read takes the first `length` characters, all that is left when fewer, none for a length below 1 |
| AppendStream.Fresh | src/Stream/Append.php:68 | a fresh string sub-stream has its whole text left and is open |
| AppendStream.ReadSource | src/Stream/Append.php:62 | reading a sub-stream takes from the front of what is left and moves the cursor past it |
| AppendStream.TextsAppend | src/Stream/Append.php:21-24 | appending a sub-stream appends what is left of it |
| AppendStream.TextsAt | src/Stream/Append.php:53-72 | what is left from a source on is its rest, then the sources after it |
| AppendStream.Append.constructor | src/Stream/Append.php:8-14 | a stream over no sources, with nothing to read |
| AppendStream.Append.AddStream | src/Stream/Append.php:21-24 | the source goes last and its text is read after everything before it |
| AppendStream.Append.EofNothingLeft | src/Stream/Append.php:45-48 | at the end nothing is left to read |
| AppendStream.Append.SkipExhausted | src/Stream/Append.php:58-60 | moving past an exhausted source leaves the same text to read |
| AppendStream.Append.MoveToNextStream | src/Stream/Append.php:103-112 | the cursor moves one on iff it is not past the last source |
| AppendStream.Append.SkipToText | src/Stream/Append.php:58-60 | exhausted sources are skipped until one has text or the stream ends; the text left is unchanged |
| AppendStream.Append.StepPastExhausted | src/Stream/Append.php:58-60 | one turn of that loop leaves the text to read unchanged |
| AppendStream.Append.ReadCurrent | src/Stream/Append.php:62-64 | a read from the current source takes from the front of what is left, and something when that source has text |
| AppendStream.Append.ReadTurn | src/Stream/Append.php:57-68 | one turn of the loop takes from the front, at most `length`, and something unless the stream ended |
| AppendStream.Append.Read | src/Stream/Append.php:53-72 | the next `length` characters of the concatenation, fewer only at the end |
| AppendStream.Append.ToString | src/Stream/Append.php:92-101 | everything left, leaving the stream at its end |
| AppendStream.Append.Close | src/Stream/Append.php:77-82 | every source is closed and nothing is read |
| AppendStream.FromTexts | src/Http/MultipartResponse.php:66-76 | a stream over one fresh source per text reads as their concatenation |
| ErrorListener.Rot13Char | src/EventListener/ErrorListener.php:44 | `str_rot13` keeps lower-case letters lower-case, upper-case upper-case, and moves no other character |
| ErrorListener.Rot13 | src/EventListener/ErrorListener.php:44 | `str_rot13` works character by character and keeps the length |
| ErrorListener.Rot13CharInvolution | src/EventListener/ErrorListener.php:44 | rotating a character twice gives it back |
| ErrorListener.Rot13Involution | src/EventListener/ErrorListener.php:44 | the response id rotated again is the request id |
| ErrorListener.ExceptionData | src/EventListener/ErrorListener.php:68-95 | class, message and code always; type and previous only for an Oxygen exception; context only for an Oxygen exception and a verbose report; file, line and trace only when verbose |
| ErrorListener.UnauthenticatedDiscreet | src/EventListener/ErrorListener.php:56-92 | an unauthenticated caller never sees context, file, line or trace, at any depth of previous exceptions |
| ErrorListener.ChainReported | src/EventListener/ErrorListener.php:79-81 | every Oxygen exception of the previous-chain is reported, one nesting level each |
| ErrorListener.FatalException | src/EventListener/ErrorListener.php:124 | the FATAL_ERROR exception with the last error as context and the default message |
| ErrorListener.FatalReport | src/EventListener/ErrorListener.php:115-134 | a report iff there is a last error at a fatal level; it carries the response id, the log and the FATAL_ERROR exception's data |
| ErrorListener.FatalNeverReportedAsWritten | src/EventListener/ErrorListener.php:124 | as written the last error lands in the message parameter, which PHP rejects, so no fatal error is reported; the corrected report names FATAL_ERROR |
| ErrorListener.CodeToString | src/EventListener/ErrorListener.php:136-181 | a name other than "Unknown PHP error" iff the code is a PHP error level |
| ErrorListener.CodeToStringNames | src/EventListener/ErrorListener.php:136-181 | every level gets its constant's name, distinct levels distinct names, any other code "Unknown PHP error" |
| ErrorListener.ErrorListener.constructor | src/EventListener/ErrorListener.php:35-38 | keeps the reserve size; nothing is reserved, logged or installed yet |
| ErrorListener.ErrorListener.OnMasterRequest | src/EventListener/ErrorListener.php:40-50 | remembers the request, the response id is the rotated request id, the handlers are installed and 1024 times the size is reserved |
| ErrorListener.ErrorListener.OnException | src/EventListener/ErrorListener.php:52-66 | the report holds the response id, the exception's data and the log so far |
| ErrorListener.ErrorListener.HandleError | src/EventListener/ErrorListener.php:100-110 | exactly one entry is appended and nothing else changes |
| ErrorListener.ErrorListener.HandleFatalError | src/EventListener/ErrorListener.php:115-134 | the reserve is released and the answer is `FatalReport` for the request's authentication |
| Util.TrimTrailingSlashes | src/Util.php:25 | `rtrim($path, '/')` is a prefix of the path, the rest is all '/', and it does not end in '/' |
| Util.TrimTrailingSlashesUnique | src/Util.php:25 | the trimmed path is the only prefix with those three properties |
| Util.SlugIgnoresTrailingSlashes | src/Util.php:19-26 | two URLs that differ only in trailing slashes of the path have one slug |
| Util.Slashes | src/Util.php:25 | a run of k slashes |
| Util.SlashesTrimmed | src/Util.php:25 | trailing slashes added to a path are trimmed away again |
| Util.SlugOfPath | src/Util.php:19-26 | the slug ends in the trimmed path and so never in '/' after a non-empty trimmed path |
| Util.WwwKept | src/Util.php:21-25 | the host is copied as it is: a "www." prefix stays and makes a different slug |
| Util.Lower | src/Util.php:64 | `strtolower` on one ASCII letter adds 32 to upper-case letters and keeps every other character |
| Util.LowerString | src/Util.php:64 | `strtolower` character by character, keeping the length |
| Util.TrimLeadingPluses | src/Util.php:65 | `ltrim($s, '+')` is a suffix of s that does not start with '+' |
| Util.DigitValue | src/Util.php:66-72 | a digit's value is below its base |
| Util.SkipSpace | src/Util.php:67-71 | `intval` skips exactly the leading white space |
| Util.NoSpaceFront | src/Util.php:67-71 | a string that does not start with white space is read from its first character |
| Util.NumberBase | src/Util.php:66-72 | base 16 after "0x", 8 after any other leading "0", 10 otherwise |
| Util.UnitPower | src/Util.php:74-86 | the final letter stands for a power of 1024 of at most 4 |
| Util.Pow1024 | src/Util.php:74-86 | a power of 1024 is at least 1 |
| Util.ConvertToBytes | src/Util.php:56-89 | the method computes `MemoryLimitBytes` |
| Util.FallThrough | src/Util.php:74-86 | falling through the cases from the final letter down multiplies by its power of 1024 |
| Util.UnlimitedExample | src/Util.php:60-62 | "-1" is unlimited |
| Util.SettingValue | src/Util.php:56-89 | a setting other than "-1" is the number read from its lower-cased text after the '+' signs, in its base, times the power of 1024 of its last letter |
| Util.MegabyteExample | src/Util.php:56-89 | "128M" is 134217728 bytes |
| Util.AccumulateStep | src/Util.php:67-71 | a digit in front is read onto the accumulated value |
| Util.AccumulateStop | src/Util.php:67-71 | reading stops at the first non-digit |
| Util.HexExample | src/Util.php:66-67 | "0x10k" is 16 KiB |
| Util.OctalExample | src/Util.php:68-69 | "010" is 8 bytes |
| Util.SpaceIgnored | src/Util.php:67-71 | white space in front of a number does not change it |
| Util.PlusIgnored | src/Util.php:65 | leading '+' signs do not change the setting's value |
| Util.SameScale | src/Util.php:65-86 | two settings alike after their '+' signs and with the same last letter have the same value |
| Util.AccumulateConcat | src/Util.php:71 | reading a run of digits and what follows continues from the run's value |
| Util.AccumulateDigits | src/Util.php:71 | the decimal digits of n read back as n |
| Util.IntValDecimal | src/EventListener/LoginListener.php:83 | `intval` reads back what `%d` prints |
| Util.DecimalWithUnit | src/Util.php:56-89 | a positive decimal number with a unit letter k, m, g or t is that many KiB, MiB, GiB or TiB |
| Util.LowerCaseKept | src/Util.php:64 | a setting without upper-case letters is unchanged by `strtolower` |
| Util.PlainSetting | src/Util.php:64-86 | a lower-case setting with no leading '+' is its number times its unit |
| Util.NoLeadingZero | src/Util.php:68 | the decimal text of a positive number does not start with '0', so it is not read as octal |
| Util.Translate | src/Util.php:105 | `strtr` keeps the length and maps each character by the first pairs of `from` and `to` |
| Util.TranslateChar | src/Util.php:105 | a character is kept, or replaced by the `to` character paired with it |
| Util.NormalizePathAsWrittenIsConstant | src/Util.php:105 | as written, the arguments are swapped: every path becomes "\" where the separator is not '/' |
| Util.NormalizePath | src/Util.php:99-106 | the path is unchanged where the separator is '/'; elsewhere exactly the back-slashes become slashes |
| Util.NormalizePathIdempotent | src/Util.php:99-106 | normalising twice is normalising once, and a path without back-slashes is left alone |
| Tar.SumAppend | src/Archive/Tar.php:203-210 | the byte sum of two strings joined is the sum of their sums |
| Tar.SumRepeat | src/Archive/Tar.php:207 | eight spaces count 32 * 8 |
| Tar.ChecksumAsSpaces | src/Archive/Tar.php:200-210 | the computed checksum is the byte sum of the block with its checksum field read as eight spaces |
| Tar.ComputeChecksum | src/Archive/Tar.php:200-210 | the two loops compute `HeaderChecksum` |
| Tar.TrimLeft | src/Archive/Tar.php:214 | the left trim is a suffix, drops only trimmed characters and starts with a kept one |
| Tar.TrimRight | src/Archive/Tar.php:214 | the right trim is a prefix, drops only trimmed characters and ends with a kept one |
| Tar.Trim | src/Archive/Tar.php:214-233 | `trim` is the piece of the string between runs of trimmed characters, kept characters at both its ends |
| Tar.TrimKeeps | src/Archive/Tar.php:227 | a string with nothing to trim is its own trim |
| Tar.TrimIdempotent | src/Archive/Tar.php:227 | trimming twice is trimming once |
| Tar.Octal | src/Archive/Tar.php:214 | `decoct` writes only octal digits, at least one |
| Tar.OctDecOctal | src/Archive/Tar.php:214 | `octdec(decoct(n)) == n` |
| Tar.OctDecLeadingZeros | src/Archive/Tar.php:229-233 | leading zeros of an octal field read as nothing |
| Tar.PaddedOctal | src/Archive/Tar.php:229-233 | a zero-padded octal field reads back as its number |
| Tar.TrimOf | src/Archive/Tar.php:227 | a string whose first and last kept characters are known trims to exactly that piece |
| Tar.TrimAway | src/Archive/Tar.php:227 | a string of trimmed characters only trims to "" |
| Tar.Decode | src/Archive/Tar.php:212-236 | the fields as `unpack` cuts them: the type flag is byte 156, a directory has size 0, any other entry the octal size field |
| Tar.RejectDirectoryTraversal | src/Archive/Tar.php:244-251 | a name is refused exactly when it holds "/../" or starts with "../" |
| Tar.ReadHeader | src/Archive/Tar.php:189-237 | an empty block ends the archive; another length is INVALID_BLOCK_SIZE; a wrong checksum is CHECKSUM_NOT_VALID except stored 0 against 256, which is the end; a header is the decoded block with a name that does not climb out |
| Tar.EndBlock | src/Archive/Tar.php:216-221 | the all-zero closing block reads as the end |
| Tar.SpacedTraversalPasses | src/Archive/Tar.php:225-227 | " ../evil" passes the test on the raw name as written, and its trimmed name "../evil" climbs out, which the corrected reader refuses |
| Tar.AsWrittenAccepts | src/Archive/Tar.php:212-225 | as written, a well-formed block whose raw name does not climb out is accepted |
| Tar.CorrectedRefuses | src/Archive/Tar.php:225-227 | corrected, a well-formed block whose trimmed name climbs out is refused |
| Tar.BlockCount | src/Archive/Tar.php:148-156 | the blocks `size` bytes take: whole blocks plus one for a remainder |
| Tar.Prefix | src/Archive/Tar.php:151-155 | `fwrite` with a length writes at most that many bytes of the block |
| Tar.StripDotSlash | src/Archive/Tar.php:100-102 | dropping a leading "./" keeps a name that does not climb out from climbing out |
| Tar.DotSlashSafe | src/Archive/Tar.php:100-102 | a name after "./" is dropped does not climb out if the full name did not |
| Tar.NotRefusedOf | src/Archive/Tar.php:103 | the destination joined with a name the traversal test lets through is a path the extraction may write |
| Tar.DotDotNotRefused | src/Archive/Tar.php:244-251 | "..", "./.." and "a/.." pass the traversal test, though each names the parent of the destination |
| Tar.ShortNamePasses | src/Archive/Tar.php:246-247 | a name of at most four characters is refused only when it is "/../" or starts with "../" |
| Tar.LongHeader | src/Archive/Tar.php:258-275 | the long name is the trimmed content of its blocks, and is refused when it climbs out; the next header read gets that name; the stream stands after the blocks read |
| Tar.LongOf | src/Archive/Tar.php:270-274 | the entry carries the long name, which does not climb out, and where the stream stands |
| Tar.Store | src/Archive/Tar.php:100-177 | a directory or file is written under the destination, a symlink is skipped; a file holds the next `size` bytes of the stream; it fails with FILE_SIZE_MISMATCH exactly when the stream ends first |
| Tar.NextEntry | src/Archive/Tar.php:88-98 | an empty read finishes the loop; otherwise the stream moves on and whatever is written is the destination joined with a name the traversal test let through |
| Tar.HeaderStep | src/Archive/Tar.php:89-98 | a header read never finishes the loop, and anything it writes is the destination joined with a name the traversal test let through |
| Tar.ExtractFrom | src/Archive/Tar.php:78-179 | every file and directory the extraction writes is the destination joined with a name the traversal test let through |
| Tar.Prepend | src/Archive/Tar.php:88-178 | entries written earlier come first, and the error is the rest's |
| Tar.ExtractContinues | src/Archive/Tar.php:88-178 | after a pass that goes on, the outcome is the rest's with what the pass wrote in front |
| Tar.ExtractEnds | src/Archive/Tar.php:88-178 | a pass that ends the loop decides the outcome |
| Tar.ZeroBlocks | src/Archive/Tar.php:216-221 | a stream that goes on with only whole all-zero blocks extracts nothing more and stops cleanly |
| TarArchive.LongHeaderPieces | src/Archive/Tar.php:258-275 | `readLongHeader` is the long name's blocks, then the header block after them |
| TarArchive.Archive.constructor | src/Archive/Tar.php:58-62 | the stream starts at its beginning with nothing written |
| TarArchive.Archive.ReadBlock | src/Archive/Tar.php:73-76 | the next 512 bytes, fewer at the end, none after it |
| TarArchive.Archive.ReadBlocks | src/Archive/Tar.php:149-152 | `count` reads give the next `count` blocks of the stream |
| TarArchive.Archive.ReadContent | src/Archive/Tar.php:148-156 | the file gets the next `size` bytes; the stream moves past the whole blocks they take |
| TarArchive.Archive.ReadNameBlocks | src/Archive/Tar.php:261-267 | the blocks that hold a long name of `size` bytes, padding included |
| TarArchive.Archive.ReadLongHeader | src/Archive/Tar.php:258-275 | the result is `LongHeader`'s, and the stream stands where it says |
| TarArchive.Archive.StoreEntry | src/Archive/Tar.php:100-177 | the entry is `Store`'s and is appended to what was written |
| TarArchive.Archive.ExtractNext | src/Archive/Tar.php:88-178 | one pass of the loop is `NextEntry`'s |
| TarArchive.Archive.HandleHeader | src/Archive/Tar.php:89-98 | the pass for the header just read is `HeaderStep`'s |
| TarArchive.Archive.LongEntry | src/Archive/Tar.php:96-98 | an 'L' header is read as `LongStep` says |
| TarArchive.Archive.Extract | src/Archive/Tar.php:58-179 | the stream is read from its start, entries going under the path without its trailing slashes, until a read comes back empty or an error stops it; what is written and the error are `ExtractFrom`'s |
| RsaVerifier.DashFilter | src/Security/Rsa/PhpRsaVerifier.php:170 | removing the text of the lines that start with '-' never lengthens the key |
| RsaVerifier.Strip | src/Security/Rsa/PhpRsaVerifier.php:172 | no carriage return, line feed or space is left, and a text without them is unchanged |
| RsaVerifier.PadCount | src/Security/Rsa/PhpRsaVerifier.php:173 | counts exactly the run of '=' that ends the text |
| RsaVerifier.ExtractKey | src/Security/Rsa/PhpRsaVerifier.php:167-178 | a key that is extracted is a byte string; any other outcome is the invalid-format error |
| RsaVerifier.DropRest | src/Security/Rsa/PhpRsaVerifier.php:170 | the rest of a line being dropped goes with it |
| RsaVerifier.KeepRest | src/Security/Rsa/PhpRsaVerifier.php:170 | the rest of a line being kept is kept whole |
| RsaVerifier.BreakResets | src/Security/Rsa/PhpRsaVerifier.php:170 | a line break ends the line and is itself kept |
| RsaVerifier.ArmourLineDropped | src/Security/Rsa/PhpRsaVerifier.php:170 | a line that starts with '-' is removed up to its line break |
| RsaVerifier.BodyLineKept | src/Security/Rsa/PhpRsaVerifier.php:170 | a base64 line and its break pass the filter unchanged |
| RsaVerifier.BodyLinesKept | src/Security/Rsa/PhpRsaVerifier.php:170 | any number of base64 lines pass the filter unchanged, whatever follows |
| RsaVerifier.StripConcat | src/Security/Rsa/PhpRsaVerifier.php:172 | removing blanks distributes over concatenation |
| RsaVerifier.StripLines | src/Security/Rsa/PhpRsaVerifier.php:172 | removing blanks from base64 lines joins them |
| RsaVerifier.ArmourRemoved | src/Security/Rsa/PhpRsaVerifier.php:170 | in an armoured key the BEGIN and END lines go and the body lines stay |
| RsaVerifier.ArmourAround | src/Security/Rsa/PhpRsaVerifier.php:170 | armour lines around a body the filter keeps leave only that body |
| RsaVerifier.HeaderDropped | src/Security/Rsa/PhpRsaVerifier.php:170 | the header line goes and its break starts the next line |
| RsaVerifier.ArmourLineAlone | src/Security/Rsa/PhpRsaVerifier.php:170 | a final armour line without a break leaves nothing |
| RsaVerifier.ArmouredKey | src/Security/Rsa/PhpRsaVerifier.php:167-178 | a PEM-armoured key yields the decoding of its joined body lines when they have base64 shape, and the invalid-format error otherwise |
| RsaVerifier.Repeat | src/Security/Rsa/PhpRsaVerifier.php:134 | k copies of the byte, nothing else |
| RsaVerifier.EmsaUnique | src/Security/Rsa/PhpRsaVerifier.php:123-139 | the encoded message is determined by the digest and the length |
| RsaVerifier.EmsaInjective | src/Security/Rsa/PhpRsaVerifier.php:123-139 | two digests with one encoding are the same digest |
| RsaVerifier.EmsaPkcs1v15Encode | src/Security/Rsa/PhpRsaVerifier.php:123-139 | succeeds exactly when the length is at least 46 (35 + 11), and then gives the EMSA-PKCS1-v1_5 encoding of section 9.2 of RFC 8017; otherwise the encoded-size error |
| RsaVerifier.Rsavp1AcceptsModulus | src/Security/Rsa/PhpRsaVerifier.php:154 | the range check lets the representative equal to the modulus through, and its power is 0 |
| RsaVerifier.ExpOfSelf | src/Security/Rsa/PhpRsaVerifier.php:158 | a positive power of the modulus reduces to 0 |
| RsaVerifier.Rsavp1Corrected | src/Security/Rsa/PhpRsaVerifier.php:151-159 | succeeds exactly for representatives below the modulus (section 5.2.2 of RFC 8017), with s^e mod n |
| RsaVerifier.I2Osp | src/Security/Rsa/PhpRsaVerifier.php:108 | the left-padded bytes stand for the value |
| RsaVerifier.BytesOfMono | src/Math/BigInteger.php:473-546 | a smaller value never has more bytes |
| RsaVerifier.SmallIsNoEncoding | src/Security/Rsa/PhpRsaVerifier.php:108-111 | 0 and 1 are never an encoded message |
| RsaVerifier.LeadingOneBig | src/Security/Rsa/PhpRsaVerifier.php:136 | an encoded message stands for at least 2 |
| RsaVerifier.RepresentativeAtModulus | src/Security/Rsa/PhpRsaVerifier.php:151-159 | the representative equal to the modulus, which the range check admits, is never accepted |
| RsaVerifier.ModulusIsNoEncoding | src/Security/Rsa/PhpRsaVerifier.php:105-111 | the modulus itself is no encoded message |
| RsaVerifier.RepresentativeBelowModulus | src/Security/Rsa/PhpRsaVerifier.php:96-112 | below the modulus, `rsaMatch` is true exactly when RSASSA-PKCS1-v1_5 verification accepts |
| RsaVerifier.RsaMatchIsRsassa | src/Security/Rsa/PhpRsaVerifier.php:96-112 | `rsaMatch` is true exactly when RSASSA-PKCS1-v1_5-VERIFY (section 8.2.2 of RFC 8017) accepts, for every signature |
| RsaVerifier.CorrectedRangeAgrees | src/Security/Rsa/PhpRsaVerifier.php:151-159 | with the range check of RFC 8017 in place, `rsaMatch` accepts exactly when the recovered message is the encoding |
| RsaVerifier.Magnitude | src/Math/BigInteger.php:238-449 | the value of a non-negative number's limbs |
| RsaVerifier.Rsavp1 | src/Security/Rsa/PhpRsaVerifier.php:151-159 | on BigIntegers, fails exactly as the value-level `rsavp1` does, and otherwise returns a valid non-negative number whose value is its result |
| RsaVerifier.RsaMatch | src/Security/Rsa/PhpRsaVerifier.php:96-112 | on BigIntegers and byte strings, gives the value-level `rsaMatch` |
| RsaVerifier.Verify | src/Security/Rsa/PhpRsaVerifier.php:8-18 | true exactly when the whole chain succeeds with true; every exception becomes false |
| RsaVerifier.VerifyIsRsassa | src/Security/Rsa/PhpRsaVerifier.php:8-18 | `verify` accepts exactly when the key extracts and parses and RSASSA-PKCS1-v1_5 verification of the SHA-1 digest accepts the decoded signature |
| RsaKey.Shift | src/Security/Rsa/PhpRsaVerifier.php:189-199 | succeeds exactly when 0 < k ≤ the length, splitting the string into its first k bytes and the rest; otherwise the invalid-length error |
| RsaKey.Low32 | src/Security/Rsa/PhpRsaVerifier.php:213 | the unpacked number is the big-endian value of the bytes modulo 2^32 |
| RsaKey.LastFourBytes | src/Security/Rsa/PhpRsaVerifier.php:213 | the last four bytes hold the value modulo 2^32 |
| RsaKey.SegmentLength | src/Security/Rsa/PhpRsaVerifier.php:206-217 | a length that is read consumes at least one byte, and what remains is a suffix of the input |
| RsaKey.LengthByte | src/Security/Rsa/PhpRsaVerifier.php:209-211 | bit 7 of the length byte is set exactly for bytes of 128 and up, and masking with 0x7F leaves the byte modulo 128 |
| RsaKey.SegmentLengthForms | src/Security/Rsa/PhpRsaVerifier.php:206-217 | an empty input raises the invalid-length error; a byte below 128 is the length itself; a byte c + 128 with 0 < c < the rest takes the next c bytes, big-endian modulo 2^32, and any other c raises |
| RsaKey.OuterSequence | src/Security/Rsa/PhpRsaVerifier.php:30-35 | the body of the outer SEQUENCE is a byte string |
| RsaKey.AlgorithmIdentifier | src/Security/Rsa/PhpRsaVerifier.php:37-50 | what follows the AlgorithmIdentifier is a byte string |
| RsaKey.BitStringHeader | src/Security/Rsa/PhpRsaVerifier.php:52-62 | what follows the BIT STRING header is a byte string |
| RsaKey.PublicKeySequence | src/Security/Rsa/PhpRsaVerifier.php:63-72 | what follows the RSAPublicKey SEQUENCE and INTEGER tag is a byte string |
| RsaKey.ModulusAndExponent | src/Security/Rsa/PhpRsaVerifier.php:74-82 | the modulus and exponent read are non-empty byte strings, and the modulus is not a single byte of at most 2 |
| RsaKey.ParseKey | src/Security/Rsa/PhpRsaVerifier.php:28-85 | a key that is read gives a non-empty modulus and exponent, the modulus not a single byte of at most 2 |
| RsaKey.EncodeLength | src/Security/Rsa/PhpRsaVerifier.php:206-217 | DER length octets are one to five bytes |
| RsaKey.BytesOfLength | src/Security/Rsa/PhpRsaVerifier.php:213 | a value below 256^k has at most k shortest bytes |
| RsaKey.SegmentLengthOfEncoded | src/Security/Rsa/PhpRsaVerifier.php:206-217 | reading an encoded length gives back the length and the bytes after it |
| RsaKey.Tlv | src/Security/Rsa/PhpRsaVerifier.php:28-85 | tag, length octets and body, all bytes |
| RsaKey.AlgorithmIdentifierDer | src/Security/Rsa/PhpRsaVerifier.php:37-50 | the rsaEncryption AlgorithmIdentifier with NULL parameters |
| RsaKey.PublicKeyDer | src/Security/Rsa/PhpRsaVerifier.php:63-85 | an RSAPublicKey is a byte string at most 31 bytes longer than its two integers |
| RsaKey.SubjectPublicKeyInfo | src/Security/Rsa/PhpRsaVerifier.php:28-85 | a SubjectPublicKeyInfo is a byte string |
| RsaKey.TlvParts | src/Security/Rsa/PhpRsaVerifier.php:28-85 | a TLV starts with its tag, then its length and body |
| RsaKey.OuterSequenceOfTlv | src/Security/Rsa/PhpRsaVerifier.php:30-35 | the outer SEQUENCE reader gives back the body of a SEQUENCE |
| RsaKey.RsaEncryptionOidOfDer | src/Security/Rsa/PhpRsaVerifier.php:46-50 | the object identifier length reads back as 9 |
| RsaKey.AlgorithmIdentifierOfDer | src/Security/Rsa/PhpRsaVerifier.php:37-50 | the rsaEncryption AlgorithmIdentifier is accepted and the bytes after it returned |
| RsaKey.BitStringHeaderOfTlv | src/Security/Rsa/PhpRsaVerifier.php:52-62 | a BIT STRING with no unused bits gives back its contents |
| RsaKey.PublicKeySequenceOfTlv | src/Security/Rsa/PhpRsaVerifier.php:63-72 | a SEQUENCE starting with an INTEGER tag gives the body after the tag |
| RsaKey.PublicKeySequenceOfDer | src/Security/Rsa/PhpRsaVerifier.php:63-72 | an RSAPublicKey gives the modulus length, the modulus and the exponent INTEGER |
| RsaKey.ModulusAndExponentOfDer | src/Security/Rsa/PhpRsaVerifier.php:74-82 | the modulus and exponent INTEGERs read back |
| RsaKey.ParseKeyOfEncoded | src/Security/Rsa/PhpRsaVerifier.php:28-85 | the reader gives back the modulus and exponent of every encodable key with a modulus that is not a single byte of at most 2 |
| RsaKey.ParseKeyChain | src/Security/Rsa/PhpRsaVerifier.php:28-85 | the reader is the readers of its parts in order |
| RsaKey.KeyCursor.constructor | src/Security/Rsa/PhpRsaVerifier.php:189-199 | the cursor holds the key |
| RsaKey.KeyCursor.StrShift | src/Security/Rsa/PhpRsaVerifier.php:189-199 | returns `Shift`'s first part and keeps the rest; on failure the key is unchanged |
| RsaKey.KeyCursor.NextSegmentLength | src/Security/Rsa/PhpRsaVerifier.php:206-217 | returns `SegmentLength`'s length and keeps the bytes after it |
| RsaKey.Constructed | src/Math/BigInteger.php:238-449 | the BigInteger built from bytes is non-negative with the bytes' big-endian value |
| RsaKey.ReadOuterSequence | src/Security/Rsa/PhpRsaVerifier.php:30-35 | fails as `OuterSequence` does, and leaves its body |
| RsaKey.ReadAlgorithmIdentifier | src/Security/Rsa/PhpRsaVerifier.php:37-50 | fails as `AlgorithmIdentifier` does, and leaves what follows it |
| RsaKey.ReadBitStringHeader | src/Security/Rsa/PhpRsaVerifier.php:52-62 | fails as `BitStringHeader` does, and leaves what follows it |
| RsaKey.ReadPublicKeySequence | src/Security/Rsa/PhpRsaVerifier.php:63-72 | fails as `PublicKeySequence` does, and leaves what follows it |
| RsaKey.ReadModulusAndExponent | src/Security/Rsa/PhpRsaVerifier.php:74-82 | gives `ModulusAndExponent` |
| RsaKey.GetKeyModulusAndExponent | src/Security/Rsa/PhpRsaVerifier.php:28-85 | raises as `ParseKey` does, and otherwise builds the modulus and exponent from its bytes |
| Bytes.BE | src/Math/BigInteger.php:2902-2906 | the big-endian value of a byte string is never negative |
| Bytes.ZeroBytes | src/Math/BigInteger.php:478 | k zero bytes |
| Bytes.LTrim | src/Math/BigInteger.php:2892 | the string without exactly its leading zero bytes: a suffix that is empty or starts with a non-zero byte, everything cut being zero |
| Bytes.BytesOf | src/Math/BigInteger.php:473-546 | the shortest big-endian form: it stands for the value, is empty only for zero, and has no leading zero byte |
| Bytes.BEBound | src/Math/BigInteger.php:2902-2906 | a string of k bytes is worth less than 256^k |
| Bytes.BEConcat | src/Math/BigInteger.php:2820-2837 | a concatenation is worth the head shifted past the tail, plus the tail |
| Bytes.BEZeros | src/Math/BigInteger.php:318 | leading zero bytes do not change the value |
| Bytes.AllZero | src/Math/BigInteger.php:473-546 | a byte string is worth zero exactly when all its bytes are zero |
| Bytes.BELeading | src/Math/BigInteger.php:473-546 | a string of k bytes with a non-zero first byte is worth at least 256^(k-1) |
| Bytes.LTrimValue | src/Math/BigInteger.php:2892 | trimming leading zero bytes keeps the value |
| Bytes.BytesOfBE | src/Math/BigInteger.php:473-546 | a byte string without leading zeros is the shortest form of its value |
| Bytes.BytesOfTrimmed | src/Math/BigInteger.php:507 | the shortest form of any byte string's value is that string trimmed |
| ModExp.ExpAdd | src/Math/BigInteger.php:1462-1524 | b^(m+k) = b^m · b^k |
| ModExp.ModMultiple | src/Math/BigInteger.php:1539-1565 | adding a multiple of n keeps the residue |
| ModExp.MulMod | src/Math/BigInteger.php:1596-1603 | a product's residue depends only on its factors' residues |
| ModExp.SquareStep | src/Math/BigInteger.php:1615-1621 | squaring the residue of b^p gives the residue of b^(2p) |
| ModExp.MultiplyStep | src/Math/BigInteger.php:1596-1603 | multiplying the residues of b^p and b^q gives the residue of b^(p+q) |
| ModExp.ModOfMod | src/Math/BigInteger.php:1539-1565 | reducing twice is reducing once |
| ModExp.Reduce | src/Math/BigInteger.php:1539-1583 | Barrett mode: a normal number equal to x mod n |
| ModExp.MultiplyReduce | src/Math/BigInteger.php:1596-1603 | a normal number equal to x · y mod n |
| ModExp.SquareReduce | src/Math/BigInteger.php:1615-1621 | a normal number equal to x² mod n |
| ModExp.BindecConcat | src/Math/BigInteger.php:1514 | reading a concatenation of bits shifts the left part past the right |
| ModExp.BindecBelow | src/Math/BigInteger.php:1514 | k bits are worth less than 2^k |
| ModExp.BindecOfZeros | src/Math/BigInteger.php:1471 | zero bits are worth zero |
| ModExp.Decbin | src/Math/BigInteger.php:1469 | the shortest binary digits of v: they read back as v, start with 1 when v > 0, and are no longer than any k with v < 2^k |
| ModExp.PadLeft | src/Math/BigInteger.php:1471 | padding with '0' keeps the value and the bit shape, up to the requested length |
| ModExp.ExponentBits | src/Math/BigInteger.php:1467-1472 | the exponent's bits start with 1 and read back as the exponent |
| ModExp.WindowSize | src/Math/BigInteger.php:1464-1479 | the window is 1 plus the number of thresholds 7, 25, 81, 241, 673, 1793 below the bit length, so between 1 and 7 |
| ModExp.TableExtend | src/Math/BigInteger.php:1491-1494 | a correct power added keeps the table correct |
| ModExp.KeysExtend | src/Math/BigInteger.php:1491-1494 | one more odd entry extends the filled exponents |
| ModExp.AddOddPower | src/Math/BigInteger.php:1491-1494 | entry 2i + 1 is b^(2i+1) mod n, and the table stays correct |
| ModExp.Precompute | src/Math/BigInteger.php:1484-1494 | the table holds exactly entries 2 and the odd exponents below 2^size, each b^j mod n |
| ModExp.WindowEnd | src/Math/BigInteger.php:1504-1508 | the window ends at the furthest 1 bit within the window size, or is the single bit |
| ModExp.WindowEntry | src/Math/BigInteger.php:1514 | a window that ends at a 1 bit names an odd table entry |
| ModExp.ZeroBitStep | src/Math/BigInteger.php:1500-1502 | squaring for a 0 bit extends the exponent read so far |
| ModExp.WindowStep | src/Math/BigInteger.php:1510-1516 | multiplying by the window's entry after its squarings extends the exponent read so far by the window |
| ModExp.SquareTimes | src/Math/BigInteger.php:1510-1512 | count squarings turn b^p mod n into b^(p · 2^count) mod n |
| ModExp.ExponentStep | src/Math/BigInteger.php:1499-1518 | one pass advances past at least one bit and keeps the result b^(bits read) mod n |
| ModExp.SlidingWindow | src/Math/BigInteger.php:1462-1524 | left-to-right window exponentiation gives x^e mod n |
| BigInteger.FromInt | src/Math/BigInteger.php:238-449 | a normalised value standing for the integer |
| BigInteger.ValidUnique | src/Math/BigInteger.php:2736-2795 | a normalised value is determined by the integer it stands for |
| BigInteger.NegativeFlag | src/Math/BigInteger.php:2298-2321 | on a normalised value the flag is the sign, and the limbs are the magnitude |
| BigInteger.IsOddIsParity | src/Math/BigInteger.php:2123-2232 | the low-bit test reads the parity of the integer |
| BigInteger.Normalize | src/Math/BigInteger.php:2736-2774 | trims the limbs, keeping magnitude and sign; an empty value, and one already trimmed, come back as they are |
| BigInteger.Add | src/Math/BigInteger.php:608-630 | a normalised value equal to x + y |
| BigInteger.SubtractAsWritten | src/Math/BigInteger.php:737-759 | the difference, with normal limbs; the result is normalised except exactly for 0 − 0, which comes back as a negative zero |
| BigInteger.SubtractZeroExample | src/Math/BigInteger.php:776-780 | 0 − 0 is the negative zero, and `compare` ranks it below zero |
| BigInteger.Subtract | src/Math/BigInteger.php:737-759 | a normalised value equal to x − y |
| BigInteger.Multiply | src/Math/BigInteger.php:871-893 | a normalised value equal to x · y |
| BigInteger.Divide | src/Math/BigInteger.php:1156-1326 | the quotient of the magnitudes, negated exactly when the signs differ and the quotient comes from the one-limb path or is not below 1; the remainder is normalised, in [0, \|y\|), and congruent to x; for x ≥ 0, q · y + r = x |
| BigInteger.Compare | src/Math/BigInteger.php:2275-2321 | the three-way order of `_compare`; on normalised values, the sign of x − y |
| BigInteger.Equals | src/Math/BigInteger.php:2333-2341 | identical limbs and sign; on normalised values, equal integers |
| BigInteger.Abs | src/Math/BigInteger.php:2240-2256 | the same limbs, positive: the absolute value, normalised when x is |
| BigInteger.Halve | src/Math/BigInteger.php:2700-2724 | an even value shifted right by one is halved exactly |
| BigInteger.Double | src/Math/BigInteger.php:2665-2690 | a positive value shifted left by one is doubled |
| BigModPow.ExpOfResidue | src/Math/BigInteger.php:1414-1418 | a power depends only on the residue of its base |
| BigModPow.ExpProduct | src/Math/BigInteger.php:1392-1446 | the power of a product is the product of the powers |
| BigModPow.ExpOfUnit | src/Math/BigInteger.php:1427-1431 | powers of 1 are 1, and positive powers of 0 are 0 |
| BigModPow.InversePower | src/Math/BigInteger.php:1396-1405 | the power of an inverse is an inverse of the power |
| BigModPow.UnitPower | src/Math/BigInteger.php:1427-1436 | 1 mod n raised to a positive power stays 1 mod n, even for n = 1 |
| BigModPow.ReducedPower | src/Math/BigInteger.php:1427-1445 | for a base in [0, m], exponent 0 gives 1 (not reduced), and a positive exponent gives self^e mod m |
| BigModPow.ModPow | src/Math/BigInteger.php:1392-1446 | for e = 0 the value 1; for e > 0, self^e mod \|n\|; for e < 0, a result exactly when self is coprime to \|n\|, and then an inverse of self^(-e) mod \|n\| |
| BigBitwise.Masked | src/Math/BigInteger.php:2764-2771 | the mask never makes a non-negative magnitude larger or negative |
| BigBitwise.MaskValue | src/Math/BigInteger.php:2356 | the mask's limbs stand for 2^bits − 1 |
| BigBitwise.OnesBytes | src/Math/BigInteger.php:2356 | k bytes of 0xFF stand for 256^k − 1 |
| BigBitwise.MaskBytes | src/Math/BigInteger.php:2356 | the mask bytes are bits / 8 + 1 bytes standing for 2^bits − 1 |
| BigBitwise.MaskBytesValue | src/Math/BigInteger.php:2356 | the first mask byte is a byte, and the mask bytes stand for 2^bits − 1 |
| BigBitwise.NormalizeMasked | src/Math/BigInteger.php:2736-2774 | keeps the sign and leaves the low `bits` bits of the magnitude (all of it without a mask, then trimmed); an empty value comes back as it is |
| BigBitwise.MaskedLimbs | src/Math/BigInteger.php:2764-2771 | and-ing the limbs with those of 2^bits − 1 keeps the magnitude mod 2^bits |
| BigBitwise.SetPrecision | src/Math/BigInteger.php:2352-2363 | the mask is 2^bits − 1, and the value keeps its sign and its magnitude mod 2^bits |
| BigBitwise.BitwiseAnd | src/Math/BigInteger.php:2373-2404 | the magnitude is the bitwise and of the magnitudes, under the receiver's mask; the sign is the receiver's |
| BigBitwise.Pad | src/Math/BigInteger.php:2436-2437 | zero limbs appended up to n: a prefix-preserving extension with the same value |
| BigBitwise.BitwiseCombineAsWritten | src/Math/BigInteger.php:2414-2484 | the or/xor of the magnitudes under the mask, and the argument left holding its limbs padded to the receiver's length |
| BigBitwise.PaddedArgumentExample | src/Math/BigInteger.php:2434-2437 | after 2^31 `bitwise_or` 1, the argument holds the limbs [1, 0]: still 1, no longer normalised, and `compare` ranks it above 1 |
| BigBitwise.BitwiseCombine | src/Math/BigInteger.php:2414-2484 | the or/xor of the magnitudes under the mask, with the sign of the receiver and the argument untouched |
| BigBitwise.BitwiseLeftShift | src/Math/BigInteger.php:2570-2596 | a positive value holding \|x\| · 2^shift under the mask |
| BigBitwise.BitwiseRightShift | src/Math/BigInteger.php:2532-2558 | a positive value holding \|x\| / 2^shift, rounded down, under the mask |
| BigBitwise.BitLengthExact | src/Math/BigInteger.php:2621-2623 | n in [2^(w−1), 2^w) has bit length w |
| BigBitwise.BitLengthBounds | src/Math/BigInteger.php:2621-2623 | n lies below 2^bitlength and, when positive, at or above 2^(bitlength − 1) |
| BigBitwise.ComplementBytes | src/Math/BigInteger.php:2499 | `~` keeps the length |
| BigBitwise.ComplementFront | src/Math/BigInteger.php:2499-2500 | the complement of a string is its first byte flipped, then the complement of the rest |
| BigBitwise.ComplementValue | src/Math/BigInteger.php:2499 | the complement of an n-byte string stands for 256^n − 1 minus the string |
| BigBitwise.StripComplement | src/Math/BigInteger.php:2500-2504 | stripping the leading ones of the complement of b leaves 2^bitlength(b) − 1 − b |
| BigBitwise.BitwiseNot | src/Math/BigInteger.php:2493-2520 | with no precision set: a normalised positive value equal to 2^bitlength(\|x\|) − 1 − \|x\|, every bit below the top bit flipped |
| BigBitwise.NotValue | src/Math/BigInteger.php:2497-2510 | the complemented, stripped bytes stand for 2^bitlength − 1 minus the value |
| BigBitwise.NotInts | src/Math/BigInteger.php:2497-2510 | the complement of the first byte and of the rest combine into the complement of the whole |
| BigBitwise.NotParts | src/Math/BigInteger.php:2497-2504 | the value is the first byte shifted past the rest, and the complement is built likewise |
| BigBitwise.TopByte | src/Math/BigInteger.php:2500-2504 | the first byte after `~` and the strip is the complement of b below its top bit |
| BigBitwise.LengthOfConcat | src/Math/BigInteger.php:2507 | appending k bits below b adds k to its bit length |
| BigBitwise.NotComplements | src/Math/BigInteger.php:2493-2520 | the value and its complement share no bit and together fill 2^w − 1 |
| BigBitwise.PhpMod | src/Math/BigInteger.php:2630 | PHP's `%`: for a ≥ 0 the Euclidean remainder; for a < 0 the negated remainder of −a, in (−m, 0] |
| BigBitwise.CountBits | src/Math/BigInteger.php:2620-2622 | the loop counts the bit length of the byte |
| BigBitwise.ShiftedOut | src/Math/BigInteger.php:2621 | temp >> i is zero exactly when i covers the bit length |
| BigBitwise.BitwiseLeftRotate | src/Math/BigInteger.php:2607-2641 | fails (where PHP divides by zero or shifts negatively) exactly for a zero width or a shift that stays negative; a zero shift returns x; otherwise the rotation of \|x\| within the width, under the mask |
| BigBitwise.RotatePrecision | src/Math/BigInteger.php:2609-2625 | the width is the precision when set, else the bit length of \|x\|, and the mask bytes stand for 2^width − 1; none exactly for a zero width |
| BigBitwise.RotateBy | src/Math/BigInteger.php:2636-2640 | the shifts, the and and the or give the rotation of \|x\| under the mask |
| BigBitwise.BitLengthZero | src/Math/BigInteger.php:2620-2623 | a value without bytes has bit length 0 |
| BigBitwise.WidthOfBytes | src/Math/BigInteger.php:2620-2623 | the width computed from the bytes of \|x\| is its bit length |
| BigBitwise.RotateMasked | src/Math/BigInteger.php:2636-2640 | the values of the rotation's steps combine into the masked rotation |
| BigBitwise.ModIdem | src/Math/BigInteger.php:2764-2771 | reducing mod 2^k twice reduces once |
| BigBitwise.OrModWidth | src/Math/BigInteger.php:2637-2639 | or-ing with a value below 2^w, only the other operand's low w bits survive mod 2^w |
| BigBitwise.RotationValue | src/Math/BigInteger.php:2636-2639 | within the width, rotation moves the top s bits below the rest |
| BigBitwise.RotationInverse | src/Math/BigInteger.php:2607-2655 | rotating by s and then by width − s gives the value back |
| BigBitwise.BitwiseRightRotate | src/Math/BigInteger.php:2652-2655 | a left rotation by the negated shift, failing where it fails |
| BigInverse.DividesCombination | src/Math/BigInteger.php:2123-2232 | a common divisor divides every integer combination |
| BigInverse.DividesSelfAndZero | src/Math/BigInteger.php:2123-2232 | t divides itself and 0 |
| BigInverse.DividesNegation | src/Math/BigInteger.php:2077-2081 | divisibility ignores the sign |
| BigInverse.DividesScaled | src/Math/BigInteger.php:2178-2182 | scaling both sides keeps divisibility |
| BigInverse.DividesOne | src/Math/BigInteger.php:2086-2088 | the only positive divisor of 1 is 1 |
| BigInverse.AddParity | src/Math/BigInteger.php:2198-2201 | the parity of a sum is the sum of the parities |
| BigInverse.AdjustedEven | src/Math/BigInteger.php:2198-2201 | adding y to a and subtracting x from b keeps the combination and makes both even when one of x, y is odd |
| BigInverse.HalfCombination | src/Math/BigInteger.php:2202-2203 | halving the even coefficients halves the combination |
| BigInverse.RemoveTwos | src/Math/BigInteger.php:2196-2214 | u becomes odd, positive and no larger, the combination a·x + b·y = u is kept, and every divisor of the new u divides the old |
| BigInverse.BezoutGreatest | src/Math/BigInteger.php:2227-2231 | a Bézout combination is divisible by every common divisor |
| BigInverse.ScaleBezout | src/Math/BigInteger.php:2228 | multiplying a combination by g scales its value |
| BigInverse.DoubleHalf | src/Math/BigInteger.php:2178-2182 | doubling g while halving x keeps g·x |
| BigInverse.CommonTwos | src/Math/BigInteger.php:2173-2182 | the common factors of two move into g: g·x = self and g·y = n, and one of x, y is odd |
| BigInverse.SubtractBezout | src/Math/BigInteger.php:2216-2224 | subtracting two combinations subtracts their values |
| BigInverse.SubtractSmaller | src/Math/BigInteger.php:2216-2224 | the larger loses the smaller, its combination is kept, and the common divisors stay those of the old pair |
| BigInverse.EuclidStep | src/Math/BigInteger.php:2195-2225 | one pass keeps the loop state, lowers u + v, and keeps every common divisor |
| BigInverse.ExtendedGCD | src/Math/BigInteger.php:2123-2232 | the gcd divides both operands, is divisible by every common divisor, and x·self + y·n = gcd |
| BigInverse.InverseResidue | src/Math/BigInteger.php:2090 | adding n to an inverse is still an inverse |
| BigInverse.InverseCoprime | src/Math/BigInteger.php:2086-2088 | only a value coprime to n has an inverse modulo n |
| BigInverse.NegatedInverse | src/Math/BigInteger.php:2077-2081 | n − i inverts −a when i inverts a |
| BigInverse.CoprimeNegation | src/Math/BigInteger.php:2077-2081 | coprimality ignores the sign |
| BigInverse.ModInverse | src/Math/BigInteger.php:2058-2093 | an inverse exactly when self is coprime to \|n\|, and then one whose product with self is 1 modulo \|n\| |
| Limbs.Pow | src/Math/BigInteger.php:253-272 | Base^k is positive |
| Limbs.Zeros | src/Math/BigInteger.php:2805-2808 | k zero limbs |
| Limbs.PowAdd | src/Math/BigInteger.php:2665-2690 | Base^(a+b) = Base^a · Base^b |
| Limbs.PowMono | src/Math/BigInteger.php:2306-2308 | Base^k grows with k |
| Limbs.ValConcat | src/Math/BigInteger.php:2665-2690 | the value of a concatenation: the low part plus the high part shifted by its length |
| Limbs.ValAppend | src/Math/BigInteger.php:642-715 | one more top limb adds it times Base^length |
| Limbs.ValSplit | src/Math/BigInteger.php:1006-1035 | a value splits at any position into its low and high parts |
| Limbs.ValPrefixStep | src/Math/BigInteger.php:642-715 | one more limb of a prefix |
| Limbs.ValPrefixStep2 | src/Math/BigInteger.php:642-715 | two more limbs of a prefix, as the two-limb loops consume them |
| Limbs.ValUpdate | src/Math/BigInteger.php:642-715 | overwriting limb i changes the value by the difference times Base^i |
| Limbs.ValOfZeros | src/Math/BigInteger.php:2785-2795 | zero limbs are worth zero |
| Limbs.ValZerosThen | src/Math/BigInteger.php:2665-2690 | zero limbs below shift the value up |
| Limbs.ValThenZeros | src/Math/BigInteger.php:2785-2795 | zero limbs on top do not change the value |
| Limbs.ValBound | src/Math/BigInteger.php:2306-2308 | k limbs are worth less than Base^k |
| Limbs.ValNormalLower | src/Math/BigInteger.php:2306-2308 | a normal array of k limbs is worth at least Base^(k−1) |
| Limbs.ValZeroIffEmpty | src/Math/BigInteger.php:2758 | a normal magnitude is zero exactly when it has no limbs |
| Limbs.LongerIsLarger | src/Math/BigInteger.php:2306-2308 | among normal magnitudes the longer is the larger |
| Limbs.NormalUnique | src/Math/BigInteger.php:2333-2341 | two normal magnitudes with one value are one array |
| Limbs.ValInjective | src/Math/BigInteger.php:2333-2341 | on normal magnitudes, equal values and equal arrays coincide |
| Limbs.ToLimbs | src/Math/BigInteger.php:238-449 | the canonical digits of a natural number: normal and standing for it |
| Limbs.NormalIsToLimbs | src/Math/BigInteger.php:2785-2795 | every normal array is the canonical digits of its value |
| Limbs.SignDominated | src/Math/BigInteger.php:2314-2318 | a higher limb dominates everything below it |
| Limbs.ValDiffAt | src/Math/BigInteger.php:2314-2318 | equal-length arrays that agree above limb i are ordered by limb i |
| Limbs.Trim | src/Math/BigInteger.php:2785-2795 | the shortest prefix that drops only zero top limbs: same value, and normal for digit arrays |
| Limbs.ScanFromTop | src/Math/BigInteger.php:2311-2320 | the top-down scan gives the sign of the difference |
| Limbs.Compare | src/Math/BigInteger.php:2298-2321 | gives `Order`: sign flags, then limb count, then the top-down scan |
| Limbs.OrderIsSignedOrder | src/Math/BigInteger.php:2298-2321 | on canonical operands that order is the sign of the difference of the signed values |
| Limbs.NormalCountSound | src/Math/BigInteger.php:796 | on normal magnitudes the limb count decides as the values do |
| Limbs.EqualsIsValueEquality | src/Math/BigInteger.php:2333-2341 | on canonical operands `equals` is equality of the signed values |
| LimbAdd.CarryStep2 | src/Math/BigInteger.php:686-695 | one two-limb step of the carry loop keeps the running sum exact |
| LimbAdd.BorrowStep2 | src/Math/BigInteger.php:821-830 | one two-limb step of the borrow loop keeps the running difference exact |
| LimbAdd.CarryStep1 | src/Math/BigInteger.php:697-702 | the odd tail limb of the carry loop keeps the sum exact |
| LimbAdd.BorrowStep1 | src/Math/BigInteger.php:832-837 | the odd tail limb of the borrow loop keeps the difference exact |
| LimbAdd.SplitSum | src/Math/BigInteger.php:691-694 | `$sum >> 31` and the remainder are both limbs |
| LimbAdd.AddOddLimb | src/Math/BigInteger.php:697-702 | writes only limb i, with a carry of 0 or 1, keeping the prefix sum exact |
| LimbAdd.SubtractOddLimb | src/Math/BigInteger.php:832-837 | writes only limb i, with a borrow of 0 or 1, keeping the prefix difference exact |
| LimbAdd.AddLoopDone | src/Math/BigInteger.php:697-709 | after the carry loop the array and the carry hold the whole sum |
| LimbAdd.AddPairs | src/Math/BigInteger.php:685-695 | the two-limb loop stops within one limb of the shorter length, writes only the prefix, and its carry is 0 or 1 with the prefix sum exact |
| LimbAdd.AddMagnitudes | src/Math/BigInteger.php:675-714 | the same-sign branch gives the normal sum of the magnitudes |
| LimbAdd.SubtractLoopDone | src/Math/BigInteger.php:832-844 | after the borrow loop the array and the borrow hold the difference |
| LimbAdd.BorrowStaysInside | src/Math/BigInteger.php:839-843 | a borrow never runs past the top limb while the difference is not negative |
| LimbAdd.PropagateCarry | src/Math/BigInteger.php:704-709 | adds the carry at limb i, turning MaxDigit limbs to zero |
| LimbAdd.PropagateBorrow | src/Math/BigInteger.php:839-844 | subtracts the borrow at limb i, turning zero limbs to MaxDigit |
| LimbAdd.SubtractPairs | src/Math/BigInteger.php:820-830 | the two-limb loop over y stops within one limb of its length, and the prefix difference with the borrow is exact |
| LimbAdd.SubtractMagnitudes | src/Math/BigInteger.php:817-849 | for x > y, the normal difference of the magnitudes |
| LimbAdd.AddLimbs | src/Math/BigInteger.php:642-715 | the signed sum; an empty operand returns the other as it is; equal signs keep the sign; for non-empty operands the limbs are normal, and canonical operands give a canonical result |
| LimbAdd.SubtractLimbs | src/Math/BigInteger.php:771-850 | the signed difference, with the magnitude \|x − y\| when x is not empty; an empty x returns y with its sign flipped; an empty y returns x; for non-empty operands the limbs are normal |
| LimbMul.DigitProduct | src/Math/BigInteger.php:971 | a product of two limbs fits below MaxDigit² |
| LimbMul.RowCarryBound | src/Math/BigInteger.php:984-986 | a row step never carries Base or more |
| LimbMul.RowStep | src/Math/BigInteger.php:983-987 | one step of a row adds x[j] · f at position i + j, keeping the value exact |
| LimbMul.RowRest | src/Math/BigInteger.php:1887-1895 | what a row leaves at the stop, plus its carry and unread limbs, completes the row |
| LimbMul.Rescale | src/Math/BigInteger.php:1877-1895 | moves a quantity between units of Base^k and Base^stop |
| LimbMul.FirstRow | src/Math/BigInteger.php:970-976 | the first row writes x · y[0] up to the stop, with the part beyond the stop counted as dropped; nothing is dropped when the row fits |
| LimbMul.AddRow | src/Math/BigInteger.php:980-990 | a later row adds x · d at position i, writing only between i and i + \|x\| below the stop, with the excess counted as dropped |
| LimbMul.Rows | src/Math/BigInteger.php:960-990 | the rows give a · b up to a dropped multiple of Base^stop, and nothing is dropped when the product fits |
| LimbMul.RegularMultiply | src/Math/BigInteger.php:942-993 | the untrimmed \|x\| + \|y\| limbs of x · y; empty for a zero operand |
| LimbMul.NormalLength | src/Math/BigInteger.php:1006-1035 | a normal array below Base^k has at most k limbs |
| LimbMul.HalfSumLength | src/Math/BigInteger.php:1022-1024 | the sum of the halves is at most one limb longer than the high half |
| LimbMul.KaratsubaIdentity | src/Math/BigInteger.php:1006-1035 | z2 · p² + (z1 − z2 − z0) · p + z0 is the product |
| LimbMul.MiddleTermNonneg | src/Math/BigInteger.php:1026 | the middle coefficient is never negative |
| LimbMul.MiddleTerm | src/Math/BigInteger.php:1026 | the middle coefficient z1 − z2 − z0, never flagged negative unless zero |
| LimbMul.Assemble | src/Math/BigInteger.php:1028-1034 | the shifted parts add up to z2 · p² + d · p + z0 |
| LimbMul.Karatsuba | src/Math/BigInteger.php:1006-1035 | digits standing for x · y, non-empty for non-empty operands |
| LimbMul.Multiply | src/Math/BigInteger.php:905-930 | the canonical limbs of \|x\| · \|y\|, negative exactly when both are non-zero with different signs: the signed product |
| LimbMul.MultiplyMagnitudes | src/Math/BigInteger.php:905-930 | the normal product of two magnitudes |
| LimbMul.SignedLimbsProduct | src/Math/BigInteger.php:928 | the magnitude of the product with the sign xNeg != yNeg is the signed product |
| LimbMul.CellStep | src/Math/BigInteger.php:1072-1080 | writing a cell and carrying adds the term at that position |
| LimbMul.SquareRowIdentity | src/Math/BigInteger.php:1069-1086 | each row of `_baseSquare` moves the running value towards the square |
| LimbMul.SquareCell | src/Math/BigInteger.php:1078-1080 | each cell keeps a digit and a non-negative carry |
| LimbMul.CrossTerms | src/Math/BigInteger.php:1077-1081 | the inner loop adds the doubled cross terms of row i, writing digits only up to i + \|v\| |
| LimbMul.SquareRow | src/Math/BigInteger.php:1069-1086 | row i adds the diagonal term and the doubled cross terms with the higher limbs |
| LimbMul.TopDigit | src/Math/BigInteger.php:1085 | the top limb is a digit when the value fits the array |
| LimbMul.BaseSquare | src/Math/BigInteger.php:1062-1089 | the untrimmed 2\|v\| limbs of v², empty for an empty v |
| LimbMul.KaratsubaSquare | src/Math/BigInteger.php:1101-1127 | digits standing for v², non-empty for non-empty v |
| LimbMul.Square | src/Math/BigInteger.php:1044-1049 | the canonical limbs of x² |
| LimbMul.BelowStop | src/Math/BigInteger.php:1877-1895 | limbs that are zero from the stop on stand for a value below Base^stop |
| LimbMul.MultiplyLower | src/Math/BigInteger.php:1840-1902 | normal limbs congruent to x · y modulo Base^stop, equal to it mod Base^stop when both fit, negative exactly when both are non-zero with different signs |
| LimbMul.LowerAgrees | src/Math/BigInteger.php:1840-1902 | dropping multiples of p keeps the residue |
| LimbDiv.SafeDivide | src/Math/BigInteger.php:2921-2929 | the floor quotient: r · b ≤ a < (r + 1) · b |
| LimbDiv.DivideDigitStep | src/Math/BigInteger.php:1343-1347 | one limb of the digit division keeps dividend = quotient · d + carry |
| LimbDiv.DivideDigitSuffix | src/Math/BigInteger.php:1343-1347 | one limb of the digit division, on the suffixes |
| LimbDiv.DivideDigitBound | src/Math/BigInteger.php:1345 | each quotient limb is a digit |
| LimbDiv.DivideDigit | src/Math/BigInteger.php:1338-1350 | quotient limbs of the same length and a remainder in [0, d) with x = q · d + r |
| LimbDiv.ValShort | src/Math/BigInteger.php:1261-1265 | arrays of at most three limbs, written out |
| LimbDiv.RemainderWindow | src/Math/BigInteger.php:1261-1265 | the top three limbs at i, i − 1, i − 2 and the part below them make up the remainder |
| LimbDiv.ShortWindow | src/Math/BigInteger.php:1261-1265 | a remainder shorter than i − 2 limbs has an empty window |
| LimbDiv.LongWindow | src/Math/BigInteger.php:1261-1265 | a longer remainder's window holds its top limbs |
| LimbDiv.DivisorWindow | src/Math/BigInteger.php:1266-1269 | the divisor's top two limbs and the part below them make up the divisor |
| LimbDiv.WindowBelow | src/Math/BigInteger.php:1259-1312 | a remainder below Base · Yj has its top limbs below (v + 1) · Base |
| LimbDiv.QuotientAtMost | src/Math/BigInteger.php:1288-1293 | a candidate whose successor times the top divisor limbs exceeds the window bounds the quotient |
| LimbDiv.QuotientAtLeast | src/Math/BigInteger.php:1288-1293 | a candidate within the window is at most one too large |
| LimbDiv.TopLimbsOrdered | src/Math/BigInteger.php:1272 | the remainder's top limb never exceeds the divisor's |
| LimbDiv.FloorDivBounds | src/Math/BigInteger.php:2921-2929 | floor division bounds |
| LimbDiv.EstimateIsDigit | src/Math/BigInteger.php:1275-1278 | the two-limb estimate is a digit, at most 1 when the upper limb is zero |
| LimbDiv.EstimateCovers | src/Math/BigInteger.php:1275-1278 | the two-limb estimate is never below the three-by-two quotient |
| LimbDiv.FirstEstimate | src/Math/BigInteger.php:1272-1279 | the first estimate is a digit, and either MaxDigit or never below the three-by-two quotient |
| LimbDiv.QuotientBelow | src/Math/BigInteger.php:1288-1293 | a candidate h with X < (h + 1) · Y bounds X / Y |
| LimbDiv.ShiftedDivisorWindow | src/Math/BigInteger.php:1295-1299 | the divisor shifted by j limbs, split at its top two limbs |
| LimbDiv.RemainderBelow | src/Math/BigInteger.php:1259-1312 | a remainder below the shifted divisor fits i + 1 limbs and lies below Base · Yj |
| LimbDiv.DigitWindows | src/Math/BigInteger.php:1259-1293 | the quantities the estimate works on, with their bounds |
| LimbDiv.OrderAgainstWindow | src/Math/BigInteger.php:1288 | `_compare` orders the product against the window as their values |
| LimbDiv.ProductBelowCube | src/Math/BigInteger.php:1283-1284 | the estimate times the top divisor limbs fits three limbs |
| LimbDiv.RefineEstimate | src/Math/BigInteger.php:1281-1293 | the estimate only decreases; when lowered it still covers the quotient; the result times the top divisor limbs fits the window |
| LimbDiv.EstimateDigit | src/Math/BigInteger.php:1259-1293 | a digit that is the quotient of the remainder by the shifted divisor or one more; zero when the top two window limbs are zero |
| LimbDiv.DifferenceSign | src/Math/BigInteger.php:1303 | the sign flag of the difference tells whether it is negative |
| LimbDiv.SubtractShifted | src/Math/BigInteger.php:1295-1301 | the remainder less the estimate times the shifted divisor, flagged negative exactly when it is |
| LimbDiv.AddBackShifted | src/Math/BigInteger.php:1303-1308 | adding the shifted divisor back to a negative remainder |
| LimbDiv.SubtractMultiple | src/Math/BigInteger.php:1295-1308 | the digit and the next remainder divide the remainder by the shifted divisor exactly: rem = digit · Y + next with 0 ≤ next < Y |
| LimbDiv.TopLimbSplit | src/Math/BigInteger.php:1225-1230 | a digit array split at its top limb |
| LimbDiv.ShiftHeadroom | src/Math/BigInteger.php:1225-1230 | the scaled top limb leaves room for one more |
| LimbDiv.ScaledTopBounds | src/Math/BigInteger.php:1225-1230 | the scaled value lies in [Msb · p, Base · p) |
| LimbDiv.TopFromValue | src/Math/BigInteger.php:1225-1230 | a value reaching Msb · p has a top limb of at least Msb |
| LimbDiv.NormalizedDivisor | src/Math/BigInteger.php:1225-1230 | shifting until bit 30 of the top limb is set keeps the length and sets that bit |
| LimbDiv.DivisorScaleBounds | src/Math/BigInteger.php:1225-1230 | the normalised divisor lies in [Msb · Base^t, Base^(t+1)) |
| LimbDiv.TopHeadroom | src/Math/BigInteger.php:1225-1230 | the top limb's scaled value leaves room for one more unit |
| LimbDiv.LengthFromValue | src/Math/BigInteger.php:1233-1234 | a digit array worth at least Base^k has more than k limbs |
| LimbDiv.DivisorAtLeastHalf | src/Math/BigInteger.php:1252 | a normalised divisor is at least half of Base^\|ys\| |
| LimbDiv.ShiftedDivisorLarge | src/Math/BigInteger.php:1250-1257 | the shifted divisor is at least half of Base^(k+t+1), so the leading loop subtracts at most once |
| LimbDiv.PreliminaryDigit | src/Math/BigInteger.php:1250-1257 | the leading loop subtracts the top-shifted divisor at most once, leaving a remainder below it, and resets the start index to the remainder's top index after a subtraction |
| LimbDiv.PreliminaryShrinks | src/Math/BigInteger.php:1250-1259 | for x = 2^30·Base + 2^30·Base², y = 2^30·Base, the start index after the leading loop is 1 = t, so the digit loop runs no pass and the remainder is y itself |
| LimbDiv.DigitAccumulate | src/Math/BigInteger.php:1259-1312 | one more digit keeps x = remainder + digits · y |
| LimbDiv.ScaledDivision | src/Math/BigInteger.php:1314-1315 | scaling both operands keeps the quotient and scales the remainder |
| LimbDiv.LongDivide | src/Math/BigInteger.php:1233-1312 | the digit loop from the top index gives digits and a normal remainder with x = rem + digits · y and rem < y |
| LimbDiv.DivideMagnitudes | src/Math/BigInteger.php:1224-1326 | for multi-limb operands, the normal quotient and remainder of the magnitudes |
| LimbDiv.NegatedRemainder | src/Math/BigInteger.php:1319-1323 | the residue of −X is Y − X mod Y, or 0 |
| LimbDiv.DivideByLimb | src/Math/BigInteger.php:1184-1192 | the one-limb divisor case gives the trimmed quotient and remainder of the magnitudes |
| LimbDiv.Complement | src/Math/BigInteger.php:1320-1323 | \|y\| − r, trimmed |
| LimbDiv.DivideResidueAsWritten | src/Math/BigInteger.php:1156-1326 | the quotient of the magnitudes with the sign rule as written; the remainder is \|y\| − (\|x\| mod \|y\|) for a negative x with a multi-limb divisor it does not equal, and \|x\| mod \|y\| otherwise |
| LimbDiv.ResidueOfSigned | src/Math/BigInteger.php:1319-1323 | the common residue of a signed dividend from the remainder of its magnitude |
| LimbDiv.Residue | src/Math/BigInteger.php:1319-1323 | the remainder turned into the common residue |
| LimbDiv.QuotientAndRemainder | src/Math/BigInteger.php:1184-1316 | the quotient and remainder of the magnitudes, with the quotient sign as written |
| LimbDiv.Divide | src/Math/BigInteger.php:1156-1326 | the quotient of the magnitudes with the sign as written, and the remainder the common residue x mod \|y\| in [0, \|y\|); for x ≥ 0, q · y + r = x |
| LimbDiv.DivMod | src/Math/BigInteger.php:1156-1326 | Euclidean division |
| LimbDiv.DivideResidueExamples | src/Math/BigInteger.php:1184-1192 | −7 over 3 leaves 1 (the residue is 2); −2·Base over Base leaves Base (the residue is 0) |
| LimbDiv.ZeroEstimateStepAsWritten | src/Math/BigInteger.php:1295-1308 | for an estimate of 0, an empty remainder becomes the shifted divisor with the digit −1; a remainder at least j limbs long is kept with digit 0 |
| LimbDiv.ExampleOperands | src/Math/BigInteger.php:1156-1326 | the example operands are normal |
| LimbDiv.FirstDigitStep | src/Math/BigInteger.php:1259-1312 | on (2^30 − 1)·Base^5 + low over 2^30·Base, the first digit leaves just `low` |
| LimbDiv.ZeroEstimateExample | src/Math/BigInteger.php:1295-1308 | on (2^30 − 1)·Base^5 over 2^30·Base the remainder is exhausted, the next estimate is 0, and the step records the digit −1 and the remainder y·Base² |
| LimbDiv.ShortRemainderExample | src/Math/BigInteger.php:1301 | on (2^30 − 1)·Base^5 + 1 over 2^30·Base, the remainder [1] is ranked below two zero limbs although it is larger |
| LimbBarrett.Above | src/Math/BigInteger.php:1798 | the limbs from position k on: x divided by Base^k, normal when x is |
| LimbBarrett.Below | src/Math/BigInteger.php:1805 | the low k limbs, x modulo Base^k; the whole array when it is shorter (untrimmed) |
| LimbBarrett.LowLimbs | src/Math/BigInteger.php:1805 | the low limbs stand for x modulo Base^k |
| LimbBarrett.PowerLimbs | src/Math/BigInteger.php:1789-1790 | e zero limbs and a one stand for Base^e |
| LimbBarrett.PowerQuotient | src/Math/BigInteger.php:1696-1705 | the quotient and remainder of Base^e by n |
| LimbBarrett.EstimateAtMost | src/Math/BigInteger.php:1797-1802 | the estimate never exceeds x / n |
| LimbBarrett.EstimateProductLower | src/Math/BigInteger.php:1797-1802 | the lower bound the floor steps leave on the estimate times n |
| LimbBarrett.EstimateAtLeast | src/Math/BigInteger.php:1797-1802 | the estimate falls short of x / n by at most 2 (HAC 14.42) |
| LimbBarrett.BarrettChain | src/Math/BigInteger.php:1797-1802 | the three steps of the estimate give q̂ with q̂ · n ≤ x < (q̂ + 3) · n |
| LimbBarrett.EstimateWithin | src/Math/BigInteger.php:1797-1802 | the estimate is below Base^(k+1) and within 3 of the quotient |
| LimbBarrett.BarrettQuotient | src/Math/BigInteger.php:1797-1802 | the estimate, at most k + 1 limbs, within 3 of the true quotient |
| LimbBarrett.ResidueAfterMultiple | src/Math/BigInteger.php:1818 | subtracting a multiple of m keeps the residue |
| LimbBarrett.LowDifference | src/Math/BigInteger.php:1805-1818 | the low parts modulo m differ by the difference, or by it less m |
| LimbBarrett.EstimateRemainder | src/Math/BigInteger.php:1804-1818 | the low limbs of x, corrected by Base^(k+1) when needed, less the low limbs of q̂ · n: x − q̂ · n, in [0, 3n) |
| LimbBarrett.LowLimbsDifference | src/Math/BigInteger.php:1810-1818 | the corrected difference of the low limbs is the wanted value |
| LimbBarrett.EstimateGap | src/Math/BigInteger.php:1818 | the difference lies below 3 · n |
| LimbBarrett.SubtractWhileAtLeast | src/Math/BigInteger.php:1747-1749 | the loop that stops below n leaves the residue |
| LimbBarrett.InclusiveResidueMod | src/Math/BigInteger.php:1819-1821 | the value a loop stopping at ≤ n leaves is a residue, at most n |
| LimbBarrett.SubtractWhileAbove | src/Math/BigInteger.php:1819-1821 | the loop as written leaves n in place of the residue 0 of a non-zero multiple |
| LimbBarrett.RegularBarrett | src/Math/BigInteger.php:1766-1824 | with the slice trimmed and the loop stopping below n: x mod n |
| LimbBarrett.RegularBarrettAsWritten | src/Math/BigInteger.php:1766-1824 | as written: x mod n for long x; otherwise the inclusive residue of x − q̂ · n, congruent to x and at most n |
| LimbBarrett.RegularBarrettExamples | src/Math/BigInteger.php:1819 | `_regularBarrett(3, 3)` returns 3 as written and 0 once corrected |
| LimbBarrett.SliceOperands | src/Math/BigInteger.php:1805 | the operands 2^94 and 2^61 are normal |
| LimbBarrett.UntrimmedSliceExample | src/Math/BigInteger.php:1805-1818 | on x = 2^94, n = 2^61, the slice is three zero limbs, the product is empty, and the difference is ranked by limb count above n although it is smaller |
| LimbBarrett.FoldCongruent | src/Math/BigInteger.php:1715-1722 | folding the high limbs through Base^c mod n keeps the residue |
| LimbBarrett.FoldSplit | src/Math/BigInteger.php:1715-1722 | the folded value differs from x by a multiple of n |
| LimbBarrett.Barrett | src/Math/BigInteger.php:1665-1752 | x mod n, through the division, `_regularBarrett`, or the folding step and the half estimate |
| LimbBarrett.Fold | src/Math/BigInteger.php:1715-1722 | the folded value is normal and congruent to x |
| LimbBarrett.HalfEstimate | src/Math/BigInteger.php:1729-1751 | the even-length branch gives the residue |
| LimbBits.ApplyBits | src/Math/BigInteger.php:2399-2401 | every bit of the result is the operator on the operands' bits there |
| LimbBits.ApplyUnfold | src/Math/BigInteger.php:2399-2401 | the operator splits off the lowest bit for every pair of operands |
| LimbBits.HalveSplit | src/Math/BigInteger.php:2399-2401 | halving a + 2^k · c when a < 2^k |
| LimbBits.ApplySplit | src/Math/BigInteger.php:2399-2401 | low parts and high multiples of 2^k combine separately |
| LimbBits.ApplyBound | src/Math/BigInteger.php:2399-2401 | combining two values below 2^k stays below 2^k |
| LimbBits.ApplyZero | src/Math/BigInteger.php:2436-2441 | zero is the identity of or and xor and absorbs and |
| LimbBits.CombineStep | src/Math/BigInteger.php:2439-2441 | one more limb keeps the result's prefix the combination of the operands' prefixes |
| LimbBits.SplitAt | src/Math/BigInteger.php:2439-2441 | limb i combines on its own |
| LimbBits.CombineLimbs | src/Math/BigInteger.php:2399-2401 | limb by limb, the operator on the limbs, and in value the operator on the values |
| LimbBits.AndHighZero | src/Math/BigInteger.php:2395-2397 | bits of one operand above the other's length meet only zeros |
| LimbBits.CombineLoopStep | src/Math/BigInteger.php:2399-2401 | the loop invariants carried over one limb |
| LimbBits.PrefixSplit | src/Math/BigInteger.php:2397 | the low m limbs and the rest make up the value |
| LimbBits.AndOfPrefix | src/Math/BigInteger.php:2395-2397 | when one operand has no limbs at or above m, and only sees the low m limbs |
| LimbBits.AndSymmetric | src/Math/BigInteger.php:2373-2404 | and is symmetric |
| LimbBits.AndOfSlices | src/Math/BigInteger.php:2395-2397 | and of two arrays cut to the shorter length is and of the whole |
| LimbShift.PowIsPow2 | src/Math/BigInteger.php:2665-2724 | Base^n is 2^(31n) |
| LimbShift.ShiftFactor | src/Math/BigInteger.php:2665-2724 | a shift by s bits is s / 31 whole limbs and s mod 31 bits |
| LimbShift.TopNonzero | src/Math/BigInteger.php:2665-2690 | a digit array that reaches Base^(\|s\|−1) has a non-zero top limb |
| LimbShift.LShiftStepArith | src/Math/BigInteger.php:2677-2682 | one step of the carry loop keeps the value exact |
| LimbShift.LShiftCarry | src/Math/BigInteger.php:2677-2682 | a limb times 2^bits plus the carry stays below Base · 2^bits |
| LimbShift.ScaleLimbs | src/Math/BigInteger.php:2676-2683 | every limb times f, the carry moved up: r + carry · Base^\|x\| = x · f |
| LimbShift.LShift | src/Math/BigInteger.php:2665-2690 | the magnitude times 2^shift; normal for a normal non-empty input; a zero shift changes nothing |
| LimbShift.RShiftStepArith | src/Math/BigInteger.php:2717-2721 | one step of the right-shift loop keeps the value exact |
| LimbShift.RShiftDigit | src/Math/BigInteger.php:2718-2719 | each new limb is a digit |
| LimbShift.DivDiv | src/Math/BigInteger.php:2700-2724 | dividing by b, then c, is dividing by b · c |
| LimbShift.DropLimbs | src/Math/BigInteger.php:2711-2713 | dropping the low k limbs divides by Base^k |
| LimbShift.ShiftLimbsDown | src/Math/BigInteger.php:2715-2721 | the limbs shifted down by `bits` bits stand for the value divided by 2^bits |
| LimbShift.RShift | src/Math/BigInteger.php:2700-2724 | the magnitude divided by 2^shift, rounded down, and trimmed; a zero shift changes nothing |
| LimbShift.NormalizingShift | src/Math/BigInteger.php:1225-1228 | the least shift that sets bit 30 of the top limb |
| Bits.Pow2 | src/Math/BigInteger.php:2665-2724 | 2^k is positive |
| Bits.Pow2Add | src/Math/BigInteger.php:2665-2724 | 2^(a+b) = 2^a · 2^b |
| Bits.Pow2Constants | src/Math/BigInteger.php:253-272 | 2^30 and 2^31 are the constants of the 64-bit configuration |
| Bits.Pow2Mono | src/Math/BigInteger.php:2665-2724 | 2^k grows with k |
| Bits.Pow2Step | src/Math/BigInteger.php:2700-2724 | dividing by 2^k and its remainder, one bit at a time |
| Bits.DivModNonneg | src/Math/BigInteger.php:2921-2929 | a non-negative dividend gives a non-negative quotient and a remainder no larger |
| Bits.DivZero | src/Math/BigInteger.php:2921-2929 | a quotient is zero exactly when the dividend is below the divisor |
| Bits.DivModUnique | src/Math/BigInteger.php:2921-2929 | quotient and remainder are unique |
| Bits.AndLowMask | src/Math/BigInteger.php:2764-2771 | masking with 2^k − 1 keeps the low k bits |
| Bits.OrDisjoint | src/Math/BigInteger.php:2636-2639 | or-ing a value below 2^k with a multiple of 2^k adds them |
| Bits.AndTopBit | src/Math/BigInteger.php:209 | the test a & 2^k of a value below 2^(k+1) is set exactly when a ≥ 2^k |
| Bits.AndBits | src/Math/BigInteger.php:2373-2404 | and is bitwise conjunction |
| Bits.OrBits | src/Math/BigInteger.php:2414-2444 | or is bitwise disjunction |
| Bits.XorBits | src/Math/BigInteger.php:2454-2484 | xor is bitwise difference |
| Bits.OrSymmetric | src/Math/BigInteger.php:2414-2444 | or is symmetric, with zero as identity |
| Bits.OrBound | src/Math/BigInteger.php:2414-2484 | or and xor of values below 2^k stay below 2^k |
| Bits.OrZero | src/Math/BigInteger.php:2414-2444 | an or is zero exactly when both operands are |
| Bits.XorZero | src/Math/BigInteger.php:2454-2484 | a xor is zero exactly when the operands are equal |
| Base256.Base256LShift | src/Math/BigInteger.php:2820-2837 | the string's value is multiplied by 2^shift, it grows by at least shift/8 bytes, and a leading non-zero byte stays non-zero |
| Base256.ShiftBytesLeft | src/Math/BigInteger.php:2829-2834 | the loop moves every byte up by s bits: kept bytes plus the carry out on top equal the old value times 2^s, with the carry below 2^s |
| Base256.LShiftValue | src/Math/BigInteger.php:2835-2836 | carry byte in front and shift/8 zero bytes behind make the value exactly the original times 2^(8·numBytes + s) |
| Base256.Base256RShift | src/Math/BigInteger.php:2849-2878 | the shifted string is the quotient by 2^shift, the returned remainder the rest, both without leading zero bytes and of bounded length |
| Base256.ShiftBytesRight | src/Math/BigInteger.php:2866-2872 | the loop from the first byte leaves the kept bytes divided by 2^s and the carry holding the bits shifted out |
| Base256.RShiftResults | src/Math/BigInteger.php:2859-2877 | from the two slices and the shifted bytes: quotient and remainder by 2^(8·numBytes + s) |
| Base256.SliceOff | src/Math/BigInteger.php:2860-2864 | the kept bytes and the last numBytes bytes (all of them when the string is shorter) recompose the original |
| Base256.Pack32 | src/Math/BigInteger.php:2892 | four big-endian bytes whose value is the 32-bit argument |
| Base256.Int2Bytes | src/Math/BigInteger.php:2890-2893 | the minimal big-endian bytes of the value, at most four |
| Base256.Bytes2Int | src/Math/BigInteger.php:2902-2906 | the value of a string of at most four bytes, big-endian |
| Base256.FromBytesAsWritten | src/Math/BigInteger.php:331-334 | peeling 31 bits at a time gives limbs with the string's value; a non-empty all-zero string yields the untrimmed limbs [0] |
| Base256.FromBytesZeroExample | src/Math/BigInteger.php:331-334 | the string "\\0" gives [0], which comparison ranks above zero |
| Base256.FromBytes | src/Math/BigInteger.php:331-334 | the trimmed limbs of the string's big-endian value |
| Base256.PadLeftZeros | src/Math/BigInteger.php:540 | left padding with zero bytes keeps the value and reaches the requested length |
| Base256.OrBytesAdd | src/Math/BigInteger.php:540 | the or of a multiple of 2^k with a string below 2^k is their sum |
| Base256.PaddedLimb | src/Math/BigInteger.php:540 | a limb's padded bytes have the limb's value and exactly the padded length |
| Base256.ShiftInLimb | src/Math/BigInteger.php:539-540 | shifting the bytes so far by one limb and or-ing in the next limb gives value·2^31 + limb, still without a leading zero |
| Base256.ShiftInLimbs | src/Math/BigInteger.php:534-541 | the bytes of a non-zero value, with no leading zero byte |
| Base256.ToBytes | src/Math/BigInteger.php:531-545 | the minimal big-endian bytes of the value; empty exactly for zero |
| Base256.BytesRoundTrip | src/Math/BigInteger.php:331-334 | reading back the bytes of a non-negative value gives its limbs again |
| Base256.LimbsRoundTrip | src/Math/BigInteger.php:531-545 | writing back the limbs read from a string gives the string without its leading zero bytes |

## Left out

- GMP and BCMath: `Oxygen_Math_BigInteger` picks them when those extensions are loaded. Only the internal mode, with 31-bit limbs, is modelled.
- The 32-bit configuration (26-bit limbs) is not modelled: `PHP_INT_SIZE` is taken to be 8.
- The Montgomery, power-of-two, classic and plain reductions of `_slidingWindow` are not modelled. `modPow` always passes `BARRETT`, the only reduction modelled.
- The cache of Barrett constants kept across calls is left out: it only stores what the model recomputes.
- The foreign primitives are not modelled:
  - `sha1`, `base64_decode`, `json_encode` and `json_decode`, `urlencode` (only its output alphabet and round trip are stated);
  - `uniqid`, `time`, `parse_url`, PCRE beyond the two patterns written out, `openssl_verify`.

  Each is a function parameter or a character-class predicate.
- `version_compare` is modelled only on the inputs the version check lets through (`\d+\.\d+`), as the comparison of (major, minor) pairs of numbers.
- Tar: the file system is a list of written entries. `fopen`, `mkdir`, `touch`, `chmod`, the existence and permission tests and the compressor's stream are not modelled, and neither is `openLocalFile`'s choice of compressor.
- DrupalContext: `$GLOBALS`, `define` and `defined` are two maps owned by the context object. Other code changing them behind its back is not modelled.
- Container: the factories are opaque functions counted by a call counter. What each service builds is not part of this model.
- Autoload: `require_once` of the computed path is left out. The model stops at the path.
- HookedClosure: `getCallable` (a closure returning `execute`) is left out. It adds nothing beyond `Execute`.
- Response: `prepare`, `emptyBuffers`, `header()` and `exit` are left out. `Send` produces the header lines and the body text instead.
- ErrorListener: `set_error_handler`, `register_shutdown_function` and the reserved memory are process-wide side effects, and are not modelled.
- Request: `createFromGlobals` and the fields `request`, `attributes`, `cookies` and `files` are left out; the core never reads them. The core reads `query` once, at src/EventListener/LoginListener.php:55, but the field is private and the class offers no getter, so that read is modelled as the Error PHP raises (LoginListener.QueryUnreadableAsWritten) and the field itself is not.
- BigBitwise.BitwiseNot: only the path with no precision set is modelled. The masked path of `bitwise_not` is not.
- BigInverse.ExtendedGCD: requires x ≥ 0 and n > 0. `modInverse` only calls it that way. On a zero operand the source's halving loops never end, and a negative receiver is not modelled.
- BigInverse.ModInverse: requires a non-zero n. For n = 0 the source's loops never end.
- BigInteger.Divide: requires a non-zero divisor. As written, `divide(0, 0)` returns (1, 0) (src/Math/BigInteger.php:1209-1214). For any other dividend the normalising loop reads the missing top limb as null and never ends (1226-1228).
- BigModPow.ModPow: requires a non-zero modulus. As written, with n = 0 a positive base is reduced by `divide` by zero and never returns. A zero base gives 1 for e = 0 and 0 for e = 1 or 2, through `divide(0, 0)`. For any larger e the Barrett set-up never returns.
- RsaVerifier.Rsavp1: a zero modulus in the key gives the failure `ZeroModulus`, which stands for that endless `modPow` (e ≥ 3). The source has no such error: it never answers.
- LoginListener.ExpiryText and LoginListener.ExpiryRule: `(int)` is taken as unbounded. PHP saturates at 9223372036854775807, so the source refuses an expiry such as "99999999999999999999", which `ExpiryRule` accepts.
- Php.Value: there is no float case. `json_decode` yields floats for numbers such as `1.5`, `1e3` or any integer past `PHP_INT_MAX`. At src/EventListener/ProtocolListener.php:79-85 an expiry `0.0` would be EXPIRATION_NOT_PROVIDED, since `empty(0.0)` holds, and `1.5` EXPIRATION_NOT_VALID, since it is not an int. The model cannot express either input.
- ActionKernel.HookName and ActionKernel.ActionKernel.Handle: they state the corrected flow, with the `hook_name` option read from the options map. As written, src/ActionKernel.php:42 calls `getOption`, which Oxygen_Action_Definition does not declare, so every known action ends in an Error (ActionKernel.NoActionRunsAsWritten). Kernel.Kernel.Handle routes through the corrected `Handle`.
- ActionListener.NoOpUnlessBoth, ActionListener.UnknownAction, ActionListener.SameBindingRule and ActionListener.ActionListener.OnMasterRequest: they state the listener as it would run with the request data in hand. As written its first line calls the undeclared `getData` and fails (ActionListener.ActionNeverRunsAsWritten).
- HandshakeListener.MissingFieldsInOrder, HandshakeListener.VerificationDecides, HandshakeListener.NonceSpentAfterVerification, HandshakeListener.PinningRule, HandshakeListener.ReplayFails, HandshakeListener.PastTheChecks and HandshakeListener.HandshakeListener.OnMasterRequest: they state the handshake as it would run with the request data in hand. As written its first line calls the undeclared `getData` and fails, so no key is ever pinned (HandshakeListener.HandshakeNeverRunsAsWritten). Oxygen_EventDispatcher_Event, the events' base class, is not part of this model; it is taken not to declare `getData`. Even with such a getter the data would be the stdClass built at src/Kernel.php:44, which `$data['publicKey']` cannot index.
- LoginListener.NoEffectUnlessLogin, LoginListener.StoredKeyOnly, LoginListener.NonceAfterVerification, LoginListener.ReplayRefused, LoginListener.PlainRequestIdExpiredAsWritten and LoginListener.LoginListener.OnPublicRequest: they state the listener with the query in hand, taken as a parameter. As written its first line reads the private `query` of Oxygen_Http_Request, so every public request ends in an Error before any of these outcomes (LoginListener.QueryUnreadableAsWritten). `PlainRequestIdExpiredAsWritten` exhibits the one-argument `useNonce` past that line.
- LoginListener.NonceAfterVerification, LoginListener.ReplayRefused and LoginListener.LoginListener.OnPublicRequest: they spend the request id through the interface's two-argument `useNonce`. The implementation takes one argument and splits it at '_' (LoginListener.PlainRequestIdExpiredAsWritten). Its signature is also incompatible with the interface it implements, which PHP refuses when it loads the class; class loading is not modelled.
- LoginListener.UserSelection and LoginListener.LoginListener.OnPublicRequest: the deferred `loginUser` is the corrected one, with `findUserByName` and working `getSessionId`, `registerSession`, `alter` and `url` calls. As written none of those five is declared by its class (LoginListener.LoginNeverCompletesAsWritten).
- ProtocolListener.SlugMismatchReported: it states the corrected report. As written the context lands in the message parameter and PHP raises an Error instead (ProtocolListener.SlugMismatchErrorAsWritten).
- Util.MemoryLimitBytes and Util.DecimalWithUnit: the product n·1024^p is unbounded. In PHP, `$max *= 1024` turns into a float past `PHP_INT_MAX`, and `intval` saturates at it.

## Findings

| source | as written | input that shows it | evidently intended | confidence | as-written member | corrected member |
|---|---|---|---|---|---|---|
| src/Math/BigInteger.php:776-780 | `_subtract` of an empty x returns y with the flipped sign, and `_normalize` keeps the sign of an empty value | 0 − 0 | the result 0, not a negative zero that `compare` ranks below 0 | not executed | BigInteger.SubtractAsWritten, BigInteger.SubtractZeroExample | BigInteger.Subtract |
| src/Math/BigInteger.php:1252-1259 | the preliminary loop resets `$x_max` to the shrunk x, so the digit loop starts at the new top limb | x = 2^30·2^31 + 2^30·2^62, y = 2^30·2^31 | the digit loop starts at the original top index | not executed | LimbDiv.PreliminaryDigit, LimbDiv.PreliminaryShrinks | LimbDiv.LongDivide |
| src/Math/BigInteger.php:1295-1308 | a digit estimate of 0 still subtracts and corrects, recording −1 or comparing a short remainder against zero limbs | (2^30 − 1)·2^155 over 2^30·2^31 | a zero digit leaves the remainder alone | not executed | LimbDiv.ZeroEstimateStepAsWritten, LimbDiv.ZeroEstimateExample, LimbDiv.ShortRemainderExample | LimbDiv.SubtractMultiple |
| src/Math/BigInteger.php:1184-1192 | the single-limb divisor path skips the common-residue step for a negative dividend | −7 divided by 3 leaves 1 | the remainder 2, as in the multi-limb path | not executed | LimbDiv.DivideResidueAsWritten, LimbDiv.DivideResidueExamples | LimbDiv.Divide |
| src/Math/BigInteger.php:1319-1323 | the common residue of a negative dividend is y − r even when r is 0 | −2·2^31 divided by 2^31 leaves 2^31 | the remainder 0 | not executed | LimbDiv.DivideResidueAsWritten, LimbDiv.DivideResidueExamples | LimbDiv.Divide |
| src/Math/BigInteger.php:1819 | `_regularBarrett`'s correction loop tests `> 0`, so a result equal to n stays | x = 3, n = 3 gives 3; hence `modPow(3, 3, 3)` is 3 | `>= 0`, as `_barrett` has at line 1747, giving 0 | not executed | LimbBarrett.RegularBarrettAsWritten, LimbBarrett.RegularBarrettExamples | LimbBarrett.RegularBarrett |
| src/Math/BigInteger.php:1805 | the slice of x is not trimmed, so zero top limbs make `_compare` rank it by limb count | x = 2^94, n = 2^61, reached by `modPow(2^47, 3, 2^61)` | the slice trimmed before it is compared | not executed | LimbBarrett.UntrimmedSliceExample | LimbBarrett.RegularBarrett |
| src/Math/BigInteger.php:331-334 | the base-256 constructor does not trim the limbs it peels | the string "\0" gives the limbs [0] | the empty limbs of zero, which compare equal to 0 | not executed | Base256.FromBytesAsWritten, Base256.FromBytesZeroExample | Base256.FromBytes |
| src/Math/BigInteger.php:2436-2437 | `bitwise_or` and `bitwise_xor` pad the argument's limbs in place | 2^31 or 1 leaves the argument as [1, 0] | the argument unchanged | not executed | BigBitwise.BitwiseCombineAsWritten, BigBitwise.PaddedArgumentExample | BigBitwise.BitwiseCombine |
| src/Security/Util.php:17-23 | the fallback XORs the strings, which PHP cuts to the shorter one | "" against "sec" is accepted | equal strings only, as `hash_equals` answers | not executed | HashEquals.HashEquals, HashEquals.FallbackPrefixExample | HashEquals.HashEqualsCorrected |
| src/Util.php:105 | `strtr`'s arguments are swapped | any path where the separator is not '/' becomes "\\" | back-slashes turned into slashes | not executed | Util.NormalizePathAsWrittenIsConstant | Util.NormalizePath |
| src/EventListener/ErrorListener.php:124 | the last error is passed in the message parameter | any fatal error | the last error passed as the exception's context | not executed | ErrorListener.FatalNeverReportedAsWritten | ErrorListener.FatalReport |
| src/Http/MultipartResponse.php:35-42 | the line break after each delimiter is missing | two parts: the second part's first header follows "--boundary" on the same line | a CRLF after every delimiter; with no parts the corrected text is "\r\n--boundary--", where the source gives "\r\n--boundary\r\n--" | not executed | MultipartResponse.ContentTextLonger, MultipartResponse.TwoPartsGlued | MultipartResponse.StreamMatchesString |
| src/Http/MultipartResponse.php:19-23 | the encoding test looks only for the lower-case name, before the names are lower-cased | a "Content-Transfer-Encoding: base64" header is replaced by "binary" | the caller's encoding kept under any case | not executed | MultipartResponse.MixedCaseEncodingReplaced | MultipartResponse.ConstructorHeaders |
| src/Archive/Tar.php:225-227 | the traversal test runs on the raw name, and the name is trimmed afterwards | the name " ../evil" | the test run on the trimmed name that is used | not executed | Tar.SpacedTraversalPasses, Tar.AsWrittenAccepts | Tar.ReadHeader, Tar.CorrectedRefuses |
| src/Kernel.php:107 | the EXCEPTION event is built with the request data as its second argument | any exception reaching `handleException` | `new Oxygen_Event_ExceptionEvent($request, $exception)` | not executed | Kernel.ExceptionLostAsWritten | Kernel.HandleException |
| src/EventListener/HandshakeListener.php:33 | `$event->getData()`, a method Oxygen_Event_MasterRequestEvent does not declare | any master request | `getRequestData()`, read as an object | not executed | HandshakeListener.HandshakeNeverRunsAsWritten | HandshakeListener.HandshakeOutcome, HandshakeListener.PinningRule |
| src/EventListener/ActionListener.php:20 | `$event->getData()`, a method Oxygen_Event_MasterRequestEvent does not declare | any master request | `getRequestData()`, read as an object | not executed | ActionListener.ActionNeverRunsAsWritten | ActionListener.ListenerOutcome, ActionListener.SameBindingRule |
| src/ActionKernel.php:42 | `getOption('hook_name')`, a method Oxygen_Action_Definition does not declare | any known action | the `hook_name` entry of `getOptions()` | not executed | ActionKernel.NoActionRunsAsWritten | ActionKernel.HookName |
| src/EventListener/LoginListener.php:55 | `$event->getRequest()->query` reads a property Oxygen_Http_Request declares private (src/Http/Request.php:10) and offers no getter for | any public request | a getter for the query parameters, read before the `isset` test | not executed | LoginListener.OnPublicRequestAsWritten, LoginListener.QueryUnreadableAsWritten | LoginListener.PublicRequestOutcome, LoginListener.NoEffectUnlessLogin |
| src/EventListener/LoginListener.php:142 | `findUserByUsername`, a method Oxygen_Drupal_UserManager does not declare | a login link with a username | `findUserByName` | not executed | LoginListener.LoginNeverCompletesAsWritten | LoginListener.UserSelection |
| src/EventListener/LoginListener.php:157 | `getSessionId`, a method Oxygen_Drupal_SessionManager does not declare, called after user 1 is logged in | a login link with an empty username | the session id of the new session | not executed | LoginListener.LoginNeverCompletesAsWritten | LoginListener.UserSelection |
| src/EventListener/LoginListener.php:159 | `registerSession`, which Oxygen_Drupal_SessionManager does not declare | reached only once the call at line 157 works | the session registered to the dashboard user | not executed | LoginListener.LoginNeverCompletesAsWritten | LoginListener.UserSelection |
| src/EventListener/LoginListener.php:162 | `alter`, which Oxygen_Drupal_Context does not declare | reached only once the calls before it work | `drupal_alter('drupal_goto', ...)` on the path and status | not executed | LoginListener.LoginNeverCompletesAsWritten | LoginListener.UserSelection |
| src/EventListener/LoginListener.php:167 | `url`, which Oxygen_Drupal_Context does not declare | reached only once the calls before it work | Drupal's `url()` of the path, absolute | not executed | LoginListener.LoginNeverCompletesAsWritten | LoginListener.UserSelection |
| src/Security/Nonce/NonceManager.php:21-25 | `useNonce` takes one argument and splits it at '_'; the listener passes the request id and the expiry apart, as the interface declares | an authorized login link whose request id has no '_' is NONCE_EXPIRED on first use | the two-argument `useNonce($nonce, $expiresAt)` of the interface | not executed | LoginListener.PlainRequestIdExpiredAsWritten | LoginListener.NonceAfterVerification |
| src/EventListener/ProtocolListener.php:127-132 | the slug context is passed second, where Oxygen_Exception takes its message, and `Exception::__construct` refuses an array | a signed request whose base URL has another slug than the site's | the context passed third | not executed | ProtocolListener.SlugMismatchErrorAsWritten | ProtocolListener.SlugMismatchReported |
| src/Security/Rsa/PhpRsaVerifier.php:154 | the range check `compare($n) > 0` admits a representative equal to n | s = n | s < n, as section 5.2.2 of RFC 8017 requires | not executed | RsaVerifier.Rsavp1AcceptsModulus, RsaVerifier.RepresentativeAtModulus | RsaVerifier.Rsavp1Corrected, RsaVerifier.CorrectedRangeAgrees |

`LimbDiv.DivideResidueAsWritten` covers the two residue rows, and only those. It is built on the corrected long-division loop, so the `$x_max` reset and the zero-estimate step are shown only by their own step members, named in their rows.
