# Hammerhead: models and proofs

Hammerhead is a URL-rewriting web proxy for testing. It rewrites the scripts, requests, cookies and uploads of a
page and keeps the windows of the page in step with each other. This project models its small algorithms and
protocols in Dafny and proves what they are for. `dafny verify dfyconfig.toml` checks everything.

The models follow the programs branch by branch. Code that changes state in place is a class, an array method or a
loop, and is proved equal to a function of the old state; what the program promises is then proved about that
function, over all inputs or over all runs.

## What is modelled

**Script rewriting** (`TempNames`, `JsValues`, `Destructuring*`, `Script*`, `HtmlComments`). A store semantics of
destructuring patterns (objects, arrays, holes, defaults, rests, nesting) and of the flat assignments that the
lowering emits; a second, lax semantics that says exactly what the emitted assignments do, throws included, for every
pattern; the lowering as a function and as the pass that builds it step by step; the walk that collects text
changes, with its ancestor and `new`-expression bookkeeping; the splice of sorted changes into the source; and the
loop that removes HTML comment lines. Two results compose: the changes collected from a tree, spliced into the source,
give the text rendered from the transformed tree, also for an object literal, which is parsed inside parentheses.

**Proxy URLs** (`Text`, `Numbers`, `Percent`, `ProxyDescriptor`, `Urls`, `UrlCase`, `UrlForms`, `ProxyUrls`). The regular
expression that takes URLs apart is written out by hand with its greedy, lazy and optional parts; the descriptor parser decides by
the resource type what each field means; `encodeURIComponent` is modelled down to UTF-8 bytes.

**Cross-window protocols** (`ActiveWindow`, `Transport*`, `WindowSync`). Each is a state with steps and with messages in
flight; results hold for every interleaving.

**Cookies** (`SyncCookies`, `CookieSort`, `SyncCookieExchange`, `ClientCookies`, `CookieRedelivery`). The text form of a
record, the in-place separation of outdated records, the deletions that a response asks for, the cookie string as an
ordered map, and what a message that arrives twice does to it.

**Uploads** (`BufferLines`, `Multipart*`, `FormData`, `UploadExpansion`, `UploadSharing`, `UploadNames`). A buffer is a
string with one character for each byte. The entries of a form are objects, and one object may be in the list twice.

**Incremental structures** (`Hover`, `Listeners`). Hover markers agree with clearing all and marking again; the listener
tables agree with a plain event target.

## Where the code departs from its purpose

Each of these is stated as a lemma with an input, or as the exact condition under which the code does what it should.

- A rest in an object pattern excludes a key that is not a string only when its string form is excluded too, because the
  helper looks keys up with `indexOf` among strings (`RestObjectExact`, `NumericKeyLeaksIntoRest`).
- A computed key variable that the pattern also assigns is read again for the rest (`ReassignedKeyChangesRest`); the rest
  is right exactly when the keys that are read again exclude the same properties (`RestKeptExactly`).
- A computed key that is no variable is evaluated before the targets that it may read, so `({ a, [a + ""]: b, ...r } = o)`
  selects another property (`StaleKeySelectsOther`, with the exact condition in `StaleKeyMatters`).
- `({} = null)`, `[] = null` and `[a] = {}` succeed after lowering (`EmptyPatternAcceptsNull`, `ArrayPatternAcceptsObject`).
  A throw is lost exactly when such a site is reached and destructuring goes on from there to the end
  (`ThrowLostExactly`).
- Two temporaries can get the same name, so a `const` or `let` list would declare it twice (`TempNamesCanRepeat`,
  `IndexedPartRepeats`). This takes a key with a dollar sign, a repeated key whose index names a part of the first one, or
  a hoisted key beside a key `_hh` (`TempNamesDistinct`). Equal keys alone do not do it (`EqualKeysDiffer`).
- An assignment with an array pattern has the converted array as its value when the right side is another iterable
  (`AssignmentValue`).
- A transformer chain that returns null after a replacement drops the replacement and hides all changes below it
  (`LostHides`).
- A second activation of a window that is already active breaks the active-window protocol (`ActivationGuard`). The
  guard in `src/client/sandbox/event/focus-blur.ts:275-284` reads the flag when the focus is requested, not when the
  window is activated.
- A synchronization message is sent more than five times exactly when its fifth timer fires and finds the window removed,
  with a null parent. It then waits until a done message comes or a later timer finds a parent (`SendsExactly`), so a
  window that stays removed is sent it for ever (`RemovedWindowNeverGivenUp`): the comment at
  `src/client/sandbox/cookie/window-sync.ts:99` suggests the opposite.
- A maximal age of minus infinity is printed as `-Infinity`, which `parseInt` reads as a number in radix 36
  (`CodecRoundTrip`).
- Changing the synchronization type inside the text of a record has no effect when there was none before
  (`ChangedTextIsFormatted`).
- A text without a name before `=` makes the parser of sync cookies raise a TypeError, and one such cookie of the document
  is enough to lose the whole list (`NamelessCookieFails`; `ListFailsExactly` says for which lists).
- An invalid date hides a later record (`InvalidDateHidesLatest`), exactly when no record with a date behind it is at least
  as late (`ActualIsLatest`).
- A message that sets a cookie again after removing it, and later sets one that was not there, changes their order when it
  is delivered again (`RemovedThenSetMoves`); the values stay, and for all other messages nothing changes
  (`RedeliveryIsHarmless`, exact).
- The search for a record in the cookie text finds it inside another record (`FoundInsideAnother`, with the exact
  meaning of the search in `SearchMeansEntry`).
- A query with `@` and no slash before it is taken for credentials, and the host is what follows
  (`QueryTakenForCredentials`; `QueryIsRead` has the exact condition).
- URLs without a host are not printed as they were written, except file, about and relative ones of one form
  (`ConvertedText`).
- Omitting a default port joins what follows it to the host unless it begins with a delimiter (`DefaultPortOmitted`,
  `DestinationParts`).
- Descriptor fields that do not fit the resource type are lost or misread; the iframe origin `null` is one of them
  (`DescriptorRoundTrip`, `MisfitIsNotReadBack`).
- An origin that begins neither with `http://` nor with `https://`, or whose host begins with `s*`, does not survive
  shortening (`ShortOriginRoundTrip`).
- `toBuffer` of a form builds in the list of the preamble, so a second call prints everything twice
  (`SecondPrintRepeats`).
- The name of a form field that ends in the beginning of a file name parameter hides the file name (`FileNameIsRead`,
  exact).
- A multipart header line with a lone line break can be read with a colon in its name, and is then read differently once
  printed (`SecondColon`, with the exact condition in `OnePrintIsFixed`).
- A multipart body without an end delimiter loses its last part, and a delimiter behind the end delimiter adds the last
  part again (`EveryPartIsKept`, exact). That entry is then twice in the list, and of two files for it the first is lost
  (`SharedEntryLosesFile`, with the exact condition in `SharedInjection`).

## Assumptions

- Script: keys and defaults are pure expressions of the page's own variables, values have no getters or prototypes,
  iterables are finite, and no variable of the page begins with the prefix of temporaries. Transformers, the
  parser and the code generator are arbitrary functions or data; source ranges nest.
- Protocols: a message channel keeps order from a window to the worker; replies, activations and done messages may be
  delivered in any order. A window does not give out a message identifier under which a callback still waits
  (identifiers repeat after 2^54 - 1 calls, `IdsRepeatExactly`). Timers fire when they are due.
- Text: characters are Unicode scalar values, so the URIError of a lone surrogate does not arise; case changes cover
  ASCII letters.
- Numbers: times and ages are integers for which printing and reading in radix 36 is exact, as it is below 2^53.

## Model

| member | source | states |
|---|---|---|
| TempNames.IssuedOnce | src/processing/script/transformers/temp-variables.ts:14-27 | a temporary name determines the counter value and suffix it was generated with: names from different counter values differ |
| TempNames.DerivedIsIssued | src/processing/script/transformers/temp-variables.ts:14-31 | names derived from a temporary are temporaries of the same counter value and differ from it |
| TempNames.DerivedTransitive | src/processing/script/transformers/temp-variables.ts:18-26 | derivation is transitive, so nested patterns stay in one family of names |
| JsValues.RestObjectExact | src/client/sandbox/code-instrumentation/index.ts:132-146 | the rest helper copies exactly what a native rest copies if and only if every excluded key that is not a string is also excluded as a string |
| JsValues.NumericKeyLeaksIntoRest | src/client/sandbox/code-instrumentation/index.ts:132-146 | an input on which a numeric key stays in the rest |
| JsValues.ArrayFromIndex | src/client/sandbox/code-instrumentation/index.ts:119-129 | reading index i of the converted value gives the i-th element of the iterable, or undefined |
| JsValues.ArrayFromRest | src/client/sandbox/code-instrumentation/index.ts:114-129 | the array rest of the converted value is the remaining elements of the iterable |
| JsValues.ArrayLikeRest | src/client/sandbox/code-instrumentation/index.ts:114-117 | an object that has the elements and the length of an array gives the same array rest |
| Destructuring.RunConcat | src/processing/script/destructuring.ts:158-167 | running a list of assignments is running its parts in order |
| Destructuring.RunFrame | src/processing/script/destructuring.ts:158-167 | assignments change only their targets |
| DestructuringWrites.BindFrame | src/processing/script/destructuring.ts:158-167 | native destructuring changes only the variables that the pattern binds |
| DestructuringWrites.LowerWrites | src/processing/script/destructuring.ts:48-167 | the lowering writes only targets of the pattern and temporaries that it issued itself or derived from its base |
| DestructuringLax.LowerMirrors | src/processing/script/destructuring.ts:28-167 | for every pattern the emitted assignments throw exactly when lax destructuring throws, and else reach the same variables |
| DestructuringMeaning.LockstepMeans | src/processing/script/destructuring.ts:28-167 | going through native and lax destructuring in lockstep tells how they come to differ: alike, both thrown, a forgiving site, an inexact rest or a stale key |
| DestructuringMeaning.SafeNeverDiffers | src/processing/script/destructuring.ts:59-109 | in a safe pattern every key selects what it selects natively, and without a rest nothing is inexact |
| DestructuringMeaning.LowerMeaning | src/processing/script/destructuring.ts:28-167 | for every nested pattern, base name and counter, the emitted assignments reach the store that destructuring reaches, temporaries apart |
| DestructuringMeaning.LoweringPreservesMeaning | src/processing/script/destructuring.ts:28-167 | the emitted assignments give every variable of the page its native value (ECMA-262 sections 13.15.5 and 14.3.3) and change no temporary issued before |
| DestructuringMeaning.LoweringWithoutRest | src/processing/script/destructuring.ts:28-167 | without an object rest this holds on every value on which native destructuring succeeds |
| DestructuringMeaning.LoweringIsLax | src/processing/script/destructuring.ts:28-167 | the lowered code throws exactly when lax destructuring does, and else gives every variable of the page its lax value |
| DestructuringMeaning.ThrowLostExactly | src/processing/script/destructuring.ts:59-139 | a native throw is lost exactly when a forgiving site is reached from which lax destructuring ends; no throw is added |
| DestructuringMeaning.ThrowsWithoutRest | src/processing/script/destructuring.ts:59-139 | without an object rest this is so on all values |
| DestructuringMeaning.RestKeptExactly | src/processing/script/destructuring.ts:72-96 | at any depth the rest gets its native value exactly when the keys read again exclude the same properties as the selected ones |
| DestructuringMeaning.StaleKeyMatters | src/processing/script/destructuring.ts:72-107 | at any depth a variable bound by the first stale key has its native value exactly when that key selects an equal value |
| DestructuringMeaning.ExactIsNative | src/processing/script/destructuring.ts:59-109 | destructuring that honours every excluded key is native destructuring |
| DestructuringMeaning.NoRestIsExact | src/processing/script/destructuring.ts:59-109 | without a rest the two notions agree on all values |
| DestructuringLax.PartKeeps | src/processing/script/destructuring.ts:48-57 | the lowering of a part keeps every temporary that the enclosing pattern still needs |
| DestructuringLax.HoistsMeaning | src/processing/script/destructuring.ts:72-90 | after the hoisted computed keys each key selects the property that the pattern names |
| DestructuringMeaning.AssignmentValue | src/processing/script/destructuring.ts:48-139 | the first temporary keeps the value of the right side, and it is unchanged exactly when the pattern is no array pattern over another iterable |
| DestructuringLimits.ReassignedKeyChangesRest | src/processing/script/destructuring.ts:72-96 | an input on which a reassigned computed key changes the rest |
| DestructuringLimits.StaleKeySelectsOther | src/processing/script/destructuring.ts:72-107 | an input on which a key evaluated up front selects another property |
| DestructuringLimits.EmptyPatternAcceptsNull | src/processing/script/destructuring.ts:59-67 | the empty object pattern accepts null, which native destructuring rejects |
| DestructuringLimits.ArrayPatternAcceptsObject | src/processing/script/destructuring.ts:111-139 | inputs on which an array pattern accepts a value that is not iterable |
| DestructuringLimits.TempNamesCanRepeat | src/processing/script/destructuring.ts:92-107 | a pattern whose lowering emits one temporary name twice |
| DestructuringNames.TempNamesDistinct | src/processing/script/destructuring.ts:72-135 | all temporaries that a lowering declares, those of hoisted keys and of repeated keys included, are distinct unless a key has a dollar sign, a repeated key meets a part that is named by its index, or a hoisted key is beside a key that generates `_hh` |
| DestructuringBases.PropertyTemps | src/processing/script/destructuring.ts:92-107 | each property's temporary is declared with its part of the value under the base name, the segment of its key and, if an earlier key gave that segment, its index; without dollar signs in keys these names differ pairwise, also those of equal keys |
| DestructuringBases.EqualKeysDiffer | src/processing/script/destructuring.ts:99-104 | `{ user: { name }, user: { id } }` gets a second temporary with the index |
| DestructuringBases.IndexedPartRepeats | src/processing/script/destructuring.ts:92-107 | that index is the second cause of repeated names: whenever it names a part of the first property, the lowering declares a name twice |
| DestructuringIdentifiers.TempsAreIdentifiers | src/processing/script/transformers/temp-variables.ts:14-27 | whatever the literal keys are, every temporary is made of letters, digits, underscores and dollar signs |
| DestructuringIdentifiers.SanitizedExactly | src/processing/script/transformers/temp-variables.ts:22-23 | a literal key adds exactly the letters and digits of its text to a name, in order |
| DestructuringPass.Pass.TempIdentifierOrExisting | src/processing/script/destructuring.ts:48-57 | an existing temporary is used, else a new one is emitted and returned |
| DestructuringPass.Pass.Process | src/processing/script/destructuring.ts:158-167 | the pass appends exactly the lowering of the pattern and leaves the counter where it says |
| DestructuringPass.Pass.CollectRestKeys | src/processing/script/destructuring.ts:72-90 | the loop emits the hoists of computed keys and collects the names for the rest in order |
| DestructuringPass.Pass.ProcessObjectPattern | src/processing/script/destructuring.ts:59-109 | the loops of the object pattern emit its lowering: the hoists, each property under its base name, and the rest last |
| DestructuringPass.Pass.ProcessArrayPattern | src/processing/script/destructuring.ts:111-139 | the loop of the array pattern emits its lowering, holes skipped and the rest from its index |
| ScriptChanges.Collector.AddChange | src/processing/script/transform.ts:97-110 | nothing below a transformed ancestor, the change of the outermost `new` once, else the change itself |
| ScriptChanges.Collector.RunTransformers | src/processing/script/transform.ts:182-199 | the loop over transformers computes the replacement, whether the node counts as transformed, and its temporaries |
| ScriptChanges.Collector.TransformSelf | src/processing/script/transform.ts:170-204 | the node itself offers its own change exactly when it is inserted or replaced |
| ScriptChanges.Collector.Transform | src/processing/script/transform.ts:170-213 | a visit adds exactly the changes of the subtree, subject to the state handed down |
| ScriptChanges.Collector.TransformAll | src/processing/script/transform.ts:68-91 | children add their changes and their temporaries in order, those of nested blocks apart |
| ScriptChanges.Collector.TransformProgram | src/processing/script/transform.ts:215-227 | the whole walk collects the changes of the program |
| ScriptTemps.VisitExactly | src/processing/script/transform.ts:182-204 | transformers run up to the first null or final result; this decides whether the node counts as transformed, whether it offers a change and of which kind, which children are walked and which temporaries are asked for |
| ScriptTemps.TempsInWalkOrder | src/processing/script/transform.ts:80-89 | the temporaries of a block are those of the nodes reached from it without entering another block, each once, in the order of the walk |
| ScriptTemps.DeclaredExactly | src/processing/script/transform.ts:112-121 | every declaration in the collected changes belongs to a block or the program and names exactly the temporaries of its own nodes, in the order of the walk |
| ScriptTemps.NamesAreDeclared | src/processing/script/transform.ts:112-121 | every temporary that a node asks for is in the declaration of its block if nothing is transformed and no `new` is met on the way down to that block |
| ScriptCoverage.ChangesWithin | src/processing/script/transform.ts:59-66 | every change lies inside the range of the visited node |
| ScriptCoverage.ChangesApart | src/processing/script/transform.ts:97-227 | no two collected changes overlap |
| ScriptCoverage.CoveredExactly | src/processing/script/transform.ts:97-227 | a transformed node is covered by exactly one change if something is offered at its outermost transformed ancestor or `new` expression, else by none |
| ScriptCoverage.CoveredOnce | src/processing/script/transform.ts:97-227 | without lost replacements every transformed node and declaration is covered by exactly one change |
| ScriptCoverage.LostHides | src/processing/script/transform.ts:186-204 | a chain that returns null after a replacement hides everything below it |
| ScriptSplice.SortedSorts | src/processing/script/index.ts:144-145 | the sorted changes are a permutation of the collected ones, ordered by start, end and declarations first |
| ScriptSplice.SortedIsStable | src/processing/script/index.ts:144-145 | changes of equal rank keep their order |
| ScriptSplice.ApplyChanges | src/processing/script/index.ts:136-164 | the loop returns the splice of the sorted changes and leaves the array sorted |
| ScriptSplice.SpliceOfChanges | src/processing/script/index.ts:136-164 | for disjoint changes in any order the result is the source with exactly their ranges regenerated |
| ScriptSplice.RangeRegenerated | src/processing/script/index.ts:147-159 | each change is regenerated at the place its range has moved to, a sequence outside statements and sequences in parentheses and everything else between spaces |
| ScriptSplice.CharCopied | src/processing/script/index.ts:147-161 | every other character is copied once, shifted by the growth before it |
| ScriptSplice.SpliceLength | src/processing/script/index.ts:147-163 | nothing else is in the result |
| ScriptSplice.OrderDoesNotMatter | src/processing/script/index.ts:144-145 | the order in which changes were collected does not matter |
| ScriptRender.SortedIsDocOrder | src/processing/script/index.ts:144-145 | sorting puts the collected changes in document order, declarations before what starts at the same offset |
| ScriptRender.SpliceRenders | src/processing/script/index.ts:136-164 | splicing the changes of a node renders the transformed node |
| ScriptRender.ScriptIsRendered | src/processing/script/index.ts:136-164 | collecting and splicing gives the source text rendered from the transformed tree |
| ScriptObject.ObjectScriptIsRendered | src/processing/script/index.ts:77-164 | for an object literal, parsed inside parentheses, the result is that rendered text without the two parentheses |
| ScriptObject.SpliceDropsParentheses | src/processing/script/index.ts:137-163 | with the offset of -1 the loop leaves out the two parentheses and nothing else, declarations in front of them included |
| HtmlComments.RemoveHtmlComments | src/processing/script/index.ts:38-45 | the loop ends, no comment line is left, and the lines with code are the same in the same order |
| HtmlComments.ReplaceShorter | src/processing/script/index.ts:40-42 | each round that finds something shortens the text |
| HtmlComments.ReplaceKeepsCode | src/processing/script/index.ts:14-42 | one global replacement changes no line with code |
| ActiveWindow.ActiveWindowTracker.MakeCurrentWindowActive | src/client/sandbox/event/active-window-tracker.ts:48-61 | the new fields and the messages sent |
| ActiveWindow.ActiveWindowTracker.OnServiceMessage | src/client/sandbox/event/active-window-tracker.ts:32-41 | the new fields and the messages sent when a message arrives |
| ActiveWindow.StepInv | src/client/sandbox/event/active-window-tracker.ts:17-61 | every step keeps one token for each active iframe and the record of the top window |
| ActiveWindow.ActivationGuard | src/client/sandbox/event/active-window-tracker.ts:48-61 | an activation keeps the invariant exactly when the window is the top one or inactive |
| ActiveWindow.ReachableStates | src/client/sandbox/event/active-window-tracker.ts:17-61 | in every reachable state an iframe is active exactly when it holds its one token, and without messages exactly one window is active |
| ActiveWindow.DeliveryProgress | src/client/sandbox/event/active-window-tracker.ts:32-41 | every delivery uses up pending work |
| ActiveWindow.DeliveriesSettle | src/client/sandbox/event/active-window-tracker.ts:32-61 | any order of deliveries ends within the pending work and with exactly one active window |
| ActiveWindow.LastActivationWins | src/client/sandbox/event/active-window-tracker.ts:32-61 | a window that activates itself is active at once, and of all activations of a run the one that the top window processed last wins: without messages its window is the only active one |
| ActiveWindow.ActivationSettles | src/client/sandbox/event/active-window-tracker.ts:48-61 | activating the top window or an iframe at rest makes it the only active window after any deliveries until none is left |
| Transport.TransportInWorker.AsyncServiceMsg | src/client/transport/transport-in-worker.ts:42-73 | a call takes the next identifier, registers its callback, counts it, and posts or holds the message |
| Transport.TransportInWorker.ProcessQueue | src/client/transport/transport-in-worker.ts:25-30 | the held messages are posted in order and none is left |
| Transport.TransportInWorker.OnWorkerMessage | src/client/transport/transport-in-worker.ts:32-40 | a reply calls and removes the callback of its identifier, and an unknown one does nothing |
| Transport.TransportWorker.QueuedAsyncServiceMsg | src/client/transport-worker/index.ts:29-46 | the message joins the queue of its command and is sent if it is alone there |
| Transport.TransportWorker.OnResult | src/client/transport-worker/index.ts:35-42 | the head of the queue gets the result and the next message is sent |
| Transport.TransportWorker.HandleEvent | src/client/transport-worker/request.ts:11-49 | the XHR is gone, and its message is answered or posted once more, as the function says for the kind of event, the status and the text |
| TransportProtocol.AcceptInv | src/client/transport-worker/index.ts:25-72 | an arriving message keeps queues, running requests, posts and the retry budget in step |
| TransportProtocol.RunningIsHead | src/client/transport-worker/index.ts:35-46 | the running request of a command is for the head of its queue |
| TransportProtocol.RetryInv | src/client/transport-worker/request.ts:24-40 | an XHR that ends without a response and may be resent keeps them in step, uses up the budget and answers nothing |
| TransportProtocol.FinishInv | src/client/transport-worker/request.ts:11-49 | every end of a request keeps them in step, and each reply is about its own message |
| TransportProtocol.FinishIsComplete | src/client/transport-worker/request.ts:11-49 | any other event answers the message of its own XHR |
| TransportRuns.EveryRun | src/client/transport/transport-in-worker.ts:25-73 | the invariant of the whole system of windows, channels, worker and replies holds in every run |
| TransportRuns.ReplyFindsCallback | src/client/transport/transport-in-worker.ts:32-40 | a reply on its way always finds the callback of the message that it answers |
| TransportRuns.ArrivalOrder | src/client/transport/transport-in-worker.ts:25-73 | the messages of a window, held ones first, reach the worker in the order of the calls |
| TransportRuns.CommandOrder | src/client/transport-worker/index.ts:29-46 | queued messages of a command are posted and answered in arrival order across all ports, at most one in flight |
| TransportRuns.PostedAtMostTwice | src/client/transport-worker/request.ts:11-40 | each message is posted at most twice, and again only after a first time |
| TransportRuns.FiresOnce | src/client/transport/transport-in-worker.ts:32-66 | a callback fires at most once, with the reply to its own message |
| TransportResults.ResultOfLastEvent | src/client/transport-worker/request.ts:11-49 | in every run a callback gets the result of the event that ended the last XHR of its message: the text of a response and no error, or an error with status and text, without a response only after the second POST, or after the only one if resending is disabled |
| TransportResults.ResentExactly | src/client/transport-worker/request.ts:11-49 | a message is posted again exactly when its first XHR ended without a response and resending is allowed, and answered exactly when an XHR got a response or none is to follow |
| TransportIds.IdsRepeatExactly | src/client/utils/integer-id-generator.ts:1-16 | two calls of a window get one identifier exactly when a multiple of 2^54 - 1 calls lies between them |
| TransportIds.CallsAreEnabled | src/client/transport/transport-in-worker.ts:42-66 | so a window that made fewer calls always has a free identifier for the next one |
| TransportRuns.ActiveCount | src/client/transport/transport-in-worker.ts:32-66 | the active count equals the number of pending callbacks between steps |
| TransportRuns.NothingLost | src/client/transport/transport-in-worker.ts:25-73 | when nothing is on its way every call has had its callback |
| SyncCookies.ParseFormatted | src/utils/cookie.ts:58-125 | parsing a formatted record gives exactly what the text form keeps of it |
| SyncCookies.CodecRoundTrip | src/utils/cookie.ts:58-125 | all fields come back exactly when dates are valid and the age is absent or an integer; infinite ages come back as absent or as a number |
| SyncCookies.FormatFields | src/utils/cookie.ts:58-100 | the text is eight fields and the value: type letters, session, encoded key, domain and path, and expiration, last access and age in radix 36 |
| SyncCookies.ParsedTextStays | src/utils/cookie.ts:90-154 | a record that was read is formatted and deleted under the text it was read from, also with another value |
| SyncCookies.PreparedOnce | src/utils/cookie.ts:90-100 | a record without texts gets them from its fields once, and its formatted text is the same before and after |
| SyncCookies.ChangedTextIsFormatted | src/utils/cookie.ts:127-141 | changing the type in the text agrees with formatting the changed record exactly when there was a type before or there is none after |
| SyncCookies.ChangedTextParses | src/utils/cookie.ts:102-141 | a reader of the changed text gets the record with the new flags |
| SyncCookies.CookieRecord.PrepareSyncCookieProperties | src/utils/cookie.ts:90-93 | the cached texts are kept or become those of the record |
| SyncCookies.CookieRecord.ChangeSyncTypeTo | src/utils/cookie.ts:127-141 | the flags and both texts change as the function says |
| CookieSort.SortByOutdatedAndActual | src/utils/cookie.ts:30-56 | the loops return the sorted records and leave the array as the settled records |
| CookieSort.NothingLost | src/utils/cookie.ts:30-56 | outdated and actual records together are a permutation of the input |
| CookieSort.ActualIsBest | src/utils/cookie.ts:23-56 | the actual records are exactly the best ones of the identities that occur: of session, key, domain and path |
| CookieSort.ActualIsLatest | src/utils/cookie.ts:23-56 | each identity has one actual record, which is the one accessed last exactly when no dated record is hidden by an undated one; with valid dates it always is |
| CookieSort.BestIsLatest | src/utils/cookie.ts:38-49 | behind the last undated record the best one is the one accessed last, the later one on ties |
| CookieSort.BestIsLatestExactly | src/utils/cookie.ts:38-49 | the best record is the latest one exactly when each dated record before the last undated one has one behind it that is at least as late |
| CookieSort.InvalidDateHidesLatest | src/utils/cookie.ts:39-47 | an invalid date makes an earlier record the actual one |
| SyncCookieExchange.ParseClientSyncCookieStr | src/utils/cookie.ts:76-88 | the records of the list, separated; an exception when one text raises it |
| SyncCookieExchange.ListIsRead | src/utils/cookie.ts:76-125 | the records that the browser lists are read in the same order |
| SyncCookieExchange.ListFailsExactly | src/utils/cookie.ts:76-125 | the list cannot be read exactly when one of its texts has no name before '=' or an eight-part name that cannot be decoded |
| SyncCookieExchange.NamelessCookieFails | src/utils/cookie.ts:76-125 | one cookie without a name loses the list |
| SyncCookieExchange.WriteNotLost | src/request-pipeline/context/index.ts:267-275 | a client record of the session is handed to the cookie jar or superseded by one at least as new |
| SyncCookieExchange.DeletedAfterApplied | src/request-pipeline/header-transforms/transforms.ts:32-63 | every deletion is for a record the client sent, under its text and with a date in the past, and for a client write only after it was handed over or superseded |
| SyncCookieExchange.DeletedExactly | src/request-pipeline/header-transforms/transforms.ts:42-63 | deleted are all outdated records, all actual ones that only the client wrote, and of the others exactly those from the server for which a newer record is set |
| SyncCookieExchange.VisibleExactly | src/request-pipeline/header-transforms/transforms.ts:32-41 | the records the server sends are exactly those of the cookies that scripts may see |
| SyncCookieExchange.ServerCookieIsSent | src/request-pipeline/header-transforms/transforms.ts:32-41 | a visible cookie of the server reaches the client as a server record that parses back |
| ClientCookies.Settings.UpdateClientCookieStr | src/client/sandbox/cookie/index.ts:240-266 | the string becomes the join of the updated entries |
| ClientCookies.ApplyIsMapUpdate | src/client/sandbox/cookie/index.ts:240-266 | an update sets or removes exactly the cookie of its key and keeps the others in order |
| ClientCookies.ApplyKeepsPlaces | src/client/sandbox/cookie/index.ts:248-263 | a cookie that is set again keeps its place, a new one comes last |
| ClientCookies.ApplyKeepsJar | src/client/sandbox/cookie/index.ts:240-266 | names stay unique |
| ClientCookies.TextRefinesJar | src/client/sandbox/cookie/index.ts:240-266 | after any sequence of updates the string is the text of the ordered map and reads back as it |
| CookieRedelivery.SyncWindowCookie | src/client/sandbox/cookie/index.ts:168-175 | the loop sets exactly the cookies of the message whose records the document has |
| CookieRedelivery.DeliveredExactly | src/client/sandbox/cookie/index.ts:168-175 | a message applies the cookies whose records the document has, each once and in order |
| CookieRedelivery.RedeliveryKeepsValues | src/client/sandbox/cookie/index.ts:168-175 | delivering any list again leaves the cookie of every name as it is |
| CookieRedelivery.NamesStayExactly | src/client/sandbox/cookie/index.ts:240-266 | a second run of updates keeps the order of the names exactly when no key is set again after its removal before an absent one, never removed, is set for the first time |
| CookieRedelivery.RedeliveryIsHarmless | src/client/sandbox/cookie/index.ts:168-175 | so delivering a list again changes nothing exactly then |
| CookieRedelivery.RedeliveryIsAlwaysHarmless | src/client/sandbox/cookie/index.ts:168-175 | a list changes no jar when delivered again exactly when it does not change the empty one |
| CookieRedelivery.MessageAgain | src/client/sandbox/cookie/index.ts:168-175 | the same for the cookie string of the document and the message |
| CookieRedelivery.RemovedThenSetMoves | src/client/sandbox/cookie/index.ts:168-175 | an input on which the order changes |
| ClientCookies.SearchMeansEntry | src/client/sandbox/cookie/index.ts:268-273 | a record is reported when its first occurrence ends the first entry that contains it |
| ClientCookies.FoundExactly | src/client/sandbox/cookie/index.ts:268-273 | if no other entry contains the record it is reported exactly when it is in the list |
| ClientCookies.FoundInsideAnother | src/client/sandbox/cookie/index.ts:268-273 | a record of the windows is reported when only one of client and windows is there |
| WindowSync.WindowList.GetWindowsForSync | src/client/sandbox/cookie/window-sync.ts:74-83 | the recursion appends the windows of the tree in order without the initiator and the top |
| WindowSync.ToldOnce | src/client/sandbox/cookie/window-sync.ts:74-83 | each window but the initiator and the top is told exactly once |
| WindowSync.EveryWindow | src/client/sandbox/cookie/window-sync.ts:74-83 | the windows of a tree are those at the end of any path of frames |
| WindowSync.SyncMessage.SendMessage | src/client/sandbox/cookie/window-sync.ts:98-106 | the new attempts, timer, sends and resolution |
| WindowSync.SyncMessage.OnDone | src/client/sandbox/cookie/window-sync.ts:66-71 | a done message resolves a registered message and does nothing otherwise |
| WindowSync.EveryRun | src/client/sandbox/cookie/window-sync.ts:85-111 | in every run a message either waits with a timer or is resolved once with nothing sent later |
| WindowSync.SendsExactly | src/client/sandbox/cookie/window-sync.ts:85-111 | in every run a message is sent once and again by every timer that does not give up, at most five times exactly when the fifth timer, if it fires, finds a parent, and it is resolved exactly when a done message came or a timer from the fifth on found a parent |
| WindowSync.BoundedDelivery | src/client/sandbox/cookie/window-sync.ts:85-111 | unless the fifth timer finds the window removed: at most five sends, one resolution within 7500 ms, nothing sent after it |
| WindowSync.ResolvedStays | src/client/sandbox/cookie/window-sync.ts:66-111 | late or repeated done messages and timeouts change nothing after the resolution |
| WindowSync.EventuallyResolved | src/client/sandbox/cookie/window-sync.ts:98-110 | from every state of a run at most five timeouts that find a parent resolve the message |
| WindowSync.TimeoutsAlone | src/client/sandbox/cookie/window-sync.ts:98-110 | timeouts alone resolve it exactly when one from the fifth on finds a parent |
| WindowSync.RemovedWindowNeverGivenUp | src/client/sandbox/cookie/window-sync.ts:98-106 | an input: when the parent stays null, n timeouts make n + 1 sends and no resolution |
| WindowSync.RemovedAfterAll | src/client/sandbox/cookie/window-sync.ts:164-184 | the initiating cookies are removed once, exactly when every message is resolved, and not before any of them |
| WindowSync.RemovedExactly | src/client/sandbox/cookie/window-sync.ts:98-184 | they are removed exactly when every message was answered or given up |
| WindowSync.RemovedInTime | src/client/sandbox/cookie/window-sync.ts:141-185 | unless a fifth timer finds its window removed, every message is resolved and the cookies are removed within 7500 ms |
| Percent.Utf8RoundTrip | src/utils/url.ts:179 | the UTF-8 bytes of a character decode to it |
| Percent.RoundTrip | src/utils/url.ts:179 | decodeURIComponent undoes encodeURIComponent |
| Percent.Utf8Bytes | src/utils/url.ts:179 | the bytes of a character are those of UTF-8 (RFC 3629 section 3) |
| Percent.EncodedText | src/utils/url.ts:179 | letters, digits and the unreserved marks stay, every other character becomes the escapes of its bytes |
| Numbers.IntRoundTrip | src/utils/cookie.ts:69-71 | parseInt undoes toString in the same radix |
| ProxyDescriptor.ParseResourceType | src/utils/url.ts:62-74 | the loop sets exactly the properties whose flags occur |
| ProxyDescriptor.GetResourceTypeString | src/utils/url.ts:76-88 | the loop prints the flags of the properties in order |
| ProxyDescriptor.TypeRoundTrip | src/utils/url.ts:62-88 | parsing a printed resource type gives the same properties |
| ProxyDescriptor.TypeInOrder | src/utils/url.ts:50-88 | the flags are printed in the order i, f, s, e, h, w, c, a, o |
| ProxyDescriptor.TypeHas | src/utils/url.ts:50-74 | each flag is read wherever it stands |
| ProxyDescriptor.ShortOriginRoundTrip | src/utils/url.ts:90-99 | restoring undoes shortening exactly on null, secure origins, and plain ones that do not look shortened |
| ProxyDescriptor.OriginRoundTrip | src/utils/url.ts:90-224 | an encoded short origin is read back although it is restored before it is decoded |
| ProxyDescriptor.DataRoundTrip | src/utils/url.ts:211-226 | the data after the resource type are read back exactly when they fit it |
| ProxyDescriptor.DescriptorRoundTrip | src/utils/url.ts:161-229 | a printed descriptor is read back, charset in lower case, exactly when its data fit the resource type |
| ProxyDescriptor.DescriptorText | src/utils/url.ts:161-185 | the printed descriptor: session, window, type, charset in lower case, credentials and encoded short origin, with their separators |
| ProxyDescriptor.DataIsRead | src/utils/url.ts:199-229 | a field behind a resource type is the charset, the origin or the credentials, by the flags of the type |
| Urls.ParsePrinted | src/utils/url.ts:290-368 | printing canonical parts and parsing gives the same parts |
| Urls.PrintParsed | src/utils/url.ts:290-368 | the parts of a URL with a host are canonical and print as the processed URL |
| Urls.PrintedRoundTrip | src/utils/url.ts:290-368 | printed parts are read back exactly when they are canonical |
| UrlCase.ConvertedText | src/utils/url.ts:143-150 | protocol and host are put in lower case within the text and nothing else changes, exactly for URLs with a host, file URLs with two slashes, and about and relative ones without |
| UrlCase.ConvertedParts | src/utils/url.ts:143-150 | for these the parts change in the same way, exactly when processing once more has no slashes to drop |
| Urls.DefaultPortOmitted | src/utils/url.ts:458-474 | a default port is removed, and nothing else changes, exactly when a delimiter follows; a second call changes nothing |
| Urls.QueryTakenForCredentials | src/utils/url.ts:19 | of a name and a query with an '@' before any slash, what precedes the '@' is read as credentials and what follows it as the host |
| Urls.QueryIsRead | src/utils/url.ts:19 | a name and a query are read as such exactly when the query has no '@' before its first slash |
| UrlForms.UrlIsRead | src/utils/url.ts:290-306 | a written out URL is read as protocol, host name, port and rest; the host ends at the first of seven characters |
| UrlForms.PortIsLeftOut | src/utils/url.ts:458-474 | port 80 of http and port 443 of https go, every other port stays |
| UrlForms.WebSlashes | src/utils/url.ts:387-403 | two slashes stay of more behind http:, https: or nothing, as long as at most a hundred have to go |
| UrlForms.FileSlashes | src/utils/url.ts:387-400 | three slashes stay of more behind file:, and a drive letter gets three |
| UrlForms.BreaksAreRemoved | src/utils/url.ts:152-159 | line feeds and tabs do not matter |
| UrlForms.SpacesAreDropped | src/utils/url.ts:19 | nor do white space in front and up to a hundred of it behind |
| ProxyUrls.BuildProxyUrl | src/utils/url.ts:161-185 | the parameters that are pushed one by one make the printed proxy URL |
| ProxyUrls.ProxyUrlRoundTrip | src/utils/url.ts:161-284 | a printed proxy URL is read back exactly when the destination is about:blank or about:error, with or without a hash, or its protocol is http:, https: or file:, in any case of letters; then session, window, type, lower-case charset, credentials, origin, proxy address and the destination without default port come back |
| ProxyUrls.MisfitIsNotReadBack | src/utils/url.ts:161-284 | data that do not fit the resource type do not come back |
| ProxyUrls.DestinationParts | src/utils/url.ts:143-284 | the parts of the destination are those of the given URL with protocol and host in lower case; port 80 of http and 443 of https go, and nothing else changes, exactly when there is a host name and a delimiter follows |
| BufferLines.CreateLineIterator | src/utils/buffer.ts:9-26 | the loop yields the lines of the buffer, and none for an empty one |
| BufferLines.JoinLines | src/utils/buffer.ts:9-33 | joining the lines with CRLF restores the buffer |
| BufferLines.LinesUnbroken | src/utils/buffer.ts:15-23 | no line contains a CRLF |
| BufferLines.SplitJoined | src/utils/buffer.ts:9-33 | lines without a CRLF that were joined are split into the same lines |
| BufferLines.ConcatChunks | src/utils/buffer.ts:28-33 | the chunks that appending makes concatenate to the joined lines |
| Multipart.PrintIsLines | src/upload/form-data.ts:127-153 | a printed form is its lines with a CRLF between them |
| MultipartRoundTrip.ParsePrinted | src/upload/form-data.ts:88-153 | parsing a printed form gives the form in normal form (RFC 2046 section 5.1.1) |
| MultipartRoundTrip.NormalBodyIsReproduced | src/upload/form-data.ts:88-153 | a body in normal form is reproduced byte for byte |
| MultipartField.InputNameIsRead | src/upload/form-data-entry.ts:5-21 | the name of a field without quotes is read |
| MultipartField.FileNameIsRead | src/upload/form-data-entry.ts:5-21 | its file name is read exactly unless the name ends in the beginning of a file name parameter |
| MultipartField.FileIsRead | src/upload/form-data.ts:88-153 | a form with one file, as a browser writes it, is read as one entry with its name, file name, headers and content, and is reproduced |
| MultipartParts.EntriesArePushed | src/upload/form-data.ts:93-107 | the entries are the parts that delimiter lines push, in the order of the pushes |
| MultipartParts.EveryPartIsKept | src/upload/form-data.ts:93-107 | every part becomes one entry, in order, exactly when one end delimiter and no delimiter after it follow the first part |
| MultipartParts.WellEndedParts | src/upload/form-data.ts:93-107 | so the entries of such a body are its parts |
| MultipartFixedPoint.HeaderIsRead | src/upload/form-data-entry.ts:52-68 | what is read from any header line prints as one line, which reads the same exactly when the name has no second colon |
| MultipartFixedPoint.FormAmong | src/upload/form-data.ts:93-124 | in a printed form only the printed headers are read as headers, even when one of them is a delimiter |
| MultipartFixedPoint.OnePrintIsFixed | src/upload/form-data.ts:88-153 | for every body one parse and print reaches a fixed point with the same names, headers, contents, preamble and epilogue, exactly when no header has a second colon in its name or prints as a delimiter |
| MultipartFixedPoint.OneLineIsFaithful | src/upload/form-data-entry.ts:52-68 | header lines without a lone line break never do so as long as the boundary has no colon |
| MultipartFixedPoint.SecondColon | src/upload/form-data-entry.ts:7-68 | a header line whose printed form reads differently |
| FormData.FormDataEntry.SetRawHeaderLine | src/upload/form-data-entry.ts:52-60 | the header replaces one of the same name in its place or comes last, and a content disposition sets the names |
| FormData.FormDataEntry.AddFileInfo | src/upload/form-data-entry.ts:34-50 | names, body and the two headers become those of the file; raw header names are kept |
| FormData.FormDataEntry.CloneWithRawHeaders | src/upload/form-data-entry.ts:75-82 | a new entry with the header names and without values, body and names |
| FormData.FormDataEntry.ToBuffer | src/upload/form-data-entry.ts:62-73 | the headers in order, an empty line and the body |
| FormData.FormDataObject.ParseLine | src/upload/form-data.ts:93-124 | one line moves the fields as it moves the parser; a delimiter pushes the current object itself |
| FormData.FormDataObject.ParseBodyLines | src/upload/form-data.ts:88-125 | the loop appends preamble, entries and epilogue of the parsed form to what the form has, and two new entries are one object exactly when they are the same part |
| FormData.FormDataObject.GetEntriesByName | src/upload/form-data.ts:53-60 | the entries of a name, the same objects, in order |
| FormData.SlotsExist | src/upload/form-data.ts:20-25 | every list of entry objects is shown by numbered slots, equal numbers for equal objects |
| FormData.FormDataObject.RemoveEntry | src/upload/form-data.ts:23-25 | exactly the entries of the name disappear |
| FormData.FormDataObject.InjectFileInfo | src/upload/form-data.ts:27-43 | the loop over the files refills and appends entries in place as the function on slots says, whatever objects are shared |
| FormData.FormDataObject.ExpandUploads | src/upload/form-data.ts:62-72 | the list becomes the expanded one, whatever objects are shared, and the one of the entries as values if none is |
| FormData.FormDataObject.ToBuffer | src/upload/form-data.ts:127-153 | nothing without a boundary, else the text of the form; the list of the preamble grows |
| FormData.FirstPrint | src/upload/form-data.ts:127-153 | the first call of toBuffer prints the form |
| FormData.SecondPrintRepeats | src/upload/form-data.ts:131-152 | a second call prints everything once more |
| UploadExpansion.InjectHolds | src/upload/form-data.ts:27-43 | the first entries of the name hold the files in order, with their two headers and the other ones kept, there are as many as the larger of the two counts, and all other entries keep place and content |
| UploadExpansion.ExpansionConserves | src/upload/form-data.ts:62-72 | the hidden entries disappear, the last input of each name has its files, no entry changes its place among the kept ones, and all entries that no input names keep content and order |
| UploadSharing.SharedInjection | src/upload/form-data.ts:27-43 | with shared objects each place shows the last file that reached its object, so every file is at its place exactly when the objects reached differ |
| UploadSharing.SharedExpansionKeepsOthers | src/upload/form-data.ts:62-72 | whatever is shared, entries that no input names keep content and order |
| UploadSharing.UnsharedExpansion | src/upload/form-data.ts:62-72 | without shared objects the expansion is that of the entries as values |
| UploadSharing.SharedEntryLosesFile | src/upload/form-data.ts:27-43 | an entry that is twice in the list loses the first of two files |
| UploadNames.CandidatesDiffer | src/upload/storage.ts:72-77 | different numbers give different names |
| UploadNames.CandidateSpelled | src/upload/storage.ts:71-77 | the number stands before the last dot of the name, or at its end without one |
| UploadNames.Pigeonhole | src/upload/storage.ts:76-77 | as long as every candidate exists there are no more of them than different existing names |
| UploadNames.GenerateName | src/upload/storage.ts:71-80 | the search ends within that many steps with the first name that does not exist |
| UploadNames.Store | src/upload/storage.ts:99-116 | each file is written under the first free name for it with its own item of data, or fails under its given name |
| UploadNames.StoredApart | src/upload/storage.ts:101-114 | the files of one call have names that differ from each other and from those before, and the i-th holds the i-th item |
| Hover.HoverSandbox.ClearHoverMarkerUntilJointParent | src/client/sandbox/event/hover.ts:39-67 | the loop finds the lowest common element and removes the markers up to it |
| Hover.HoverSandbox.SetHoverMarker | src/client/sandbox/event/hover.ts:15-34 | the loop marks the elements up to the joint parent and that one |
| Hover.HoverSandbox.DoHover | src/client/sandbox/event/hover.ts:75-83 | the markers are those of clearing all and marking the new path; each element of one path only is written once, the lowest common one twice, and nothing else |
| Hover.MarksFollowHover | src/client/sandbox/event/hover.ts:15-91 | after any hovers the marked elements are exactly the ancestors-or-self of the element hovered last |
| Listeners.EventContext.IsDifferentHandler | src/client/sandbox/event/listeners.ts:61-68 | the search tells whether the listener is not yet in the table |
| Listeners.EventContext.AddEventListener | src/client/sandbox/event/listeners.ts:131-160 | tables and native list after adding a listener of the page |
| Listeners.EventContext.RemoveEventListener | src/client/sandbox/event/listeners.ts:161-180 | tables and native list after removing a listener of the page |
| Listeners.EventContext.GetWrapper | src/client/sandbox/event/listening-context.ts:91-110 | the loop takes the first matching listener and its wrapper out of both tables |
| Listeners.EventContext.UpdateInternalAfterHandlers | src/client/sandbox/event/listening-context.ts:112-119 | the loop moves each internal handler to the end of the native list |
| Listeners.EventContext.AddInternalAfterHandler | src/client/sandbox/event/listening-context.ts:48-55 | the handler comes first in its table and last in the native list |
| Listeners.AddInv | src/client/sandbox/event/listeners.ts:131-160 | adding keeps the tables parallel, without repetitions, and matched one to one and in order with the native list |
| Listeners.RemoveInv | src/client/sandbox/event/listeners.ts:161-180 | removing keeps this |
| Listeners.AddAfterInv | src/client/sandbox/event/listening-context.ts:48-55 | registering an internal handler keeps this |
| Listeners.NativeCallsPage | src/client/sandbox/event/listeners.ts:131-180 | the native list calls the listeners of the table in their order |
| Listeners.EveryRun | src/client/sandbox/event/listeners.ts:127-182 | in every run the page has the listeners of a plain event target (DOM Standard section 2.7), in the same order |
| Listeners.InternalComesLast | src/client/sandbox/event/listening-context.ts:112-119 | in every run each internal handler comes after every listener of the page |
| Listeners.OrderAfterAdd | src/client/sandbox/event/listening-context.ts:48-119 | after the page adds a new listener the native list is the dispatcher, the listeners of the page in order and the internal handlers, the newest first |

## Left out

Weaker than the repository's own wording:

- ScriptCoverage.CoveredOnce: one change for each node holds when no transformer chain ends with null after a replacement; CoveredExactly has the condition for every tree.
- ScriptRender.ScriptIsRendered: the ranges of source nodes are nested, siblings come in source order, and only the first child of a block is inserted, as the parser and the transformers make them.
- ScriptObject.ObjectScriptIsRendered: a change that covers a parenthesis itself, such as a regenerated whole statement, is spliced (SpliceOfChanges) but is not related to the rendered tree.
- ProxyUrls.ProxyUrlRoundTrip: identifiers, type, charset and origin without the separators, and a text without white space within the 80000 characters that the URL expression allows.
- MultipartRoundTrip.NormalBodyIsReproduced: a form is well formed when each header reads back from its own line, the names are those of the content disposition, and no line is a delimiter.
- MultipartFixedPoint.OnePrintIsFixed: the boundary itself contains no CRLF, which a header value cannot hold.
- FormData.FormDataObject.ParseBodyLines: a boundary is set; without one the code fails on the first line, as nothing is compared with it.
- UrlCase.ConvertedParts: a processed text without white space within the 80000 characters that the URL expression allows, as in ProxyUrls.DestinationParts.
- ProxyUrls.DestinationParts: special pages have fixed parts and are not covered.
- DestructuringIdentifiers.TempsAreIdentifiers: identifier keys of the pattern consist of ASCII letters, digits, underscores and dollar signs.
- ScriptTemps.NamesAreDeclared: below a transformed node or a `new` the declaration is part of the regenerated text.
- UrlForms.UrlIsRead: file and about URLs and URLs with credentials are not of this form.
- MultipartField.FileIsRead: names and file names without quotes and line breaks.
- CookieRedelivery.SyncWindowCookie: what setCookie makes of a record is a parameter, so expiry and the clock are not modelled.
- UploadNames.GenerateName: names without `%`, which the format function would interpret, and without directories.
- Numbers.IntRoundTrip: integers, so fractions of a radix-36 age and times beyond 2^53 are not covered.

Not modelled:

- The JavaScript parser and generator, the individual transformers, the script header, source maps and the removal of trailing semicolons.
- Object values as property keys, lengths of array-like objects that are no numbers, member expressions as assignment targets, getters, prototypes and iterators with side effects in destructuring.
- Windows that are removed while active, and native automation, in the active-window tracker and the cookie sandbox.
- The synchronous transport, the socket transport, the store of rejected messages, replies that are no JSON, and identifiers that are given out again while their callback waits.
- Cookie synchronization across windows opened separately (`src/client/sandbox/cookie/window-sync.ts:153-162`) and done messages of a top window that is not the opener.
- The parsing of assignments to `document.cookie` and the cookie jar.
- Timers that fire late, so the bound of 7500 ms counts the waiting times that the code asks for.
- Letters outside ASCII under case changes, lone surrogates, and URLs given as URL objects.
- Sets of URLs, resolution of URLs as destinations, sub-domain and same-origin checks.
- The expression that takes the boundary from the content type, base64, JSON and UTF-8 decoding of uploads: they are parameters or the identity.
- Reading and copying stored uploads and creating their directory.
- Label associations, text nodes and disposal in the hover sandbox.
- `once` and `signal` options, invalid listeners, internal handlers that come first, dispatch flags and the restart of listening.
- Caches, agents, sockets, style processing and the overrides of browser interfaces.
