# AS2 engine core, modelled in Dafny

This project models the core of the as2-lib AS2 engine (RFC 4130: EDI over HTTP with S/MIME and
signed receipts). It covers five pieces:

- **Partnership** (`partnership.dfy`, `partnership_aliasing.dfy`). A partnership has a name and three
  string maps: sender IDs, receiver IDs and attributes. The model covers directional matching
  (`matches` / `compareIDs`), the map setters and `copyFrom`.
- **Processor dispatch** (`processor.dfy`). Modules live in an ordered registry. `handle` runs every
  module that claims an action, collects failures without stopping, and ends in one of three ways:
  an aggregate failure, "no module", or success. `startActiveModules` and `stopActiveModules` make a
  best-effort pass over the modules that have a lifecycle.
- **ProcessorException** (`processor_exception.dfy`). It holds the processor and a non-empty,
  ordered list of causes. `getMessage` is the base message plus one line-led section per cause.
- **Message** (`message.dfy`). The model covers the header accessors, both `setData` overloads with
  content-type and disposition mirroring, the data history that `setData` appends to, and `setMDN`/`getMDN`.
- **MDN** (`mdn.dfy`, `decimal.dfy`). The MDN constructor swaps AS2-From and AS2-To (section 6.2 of
  RFC 4130). `generateMessageID` builds `<OPENAS2-date-NNNN@receiver_sender>`, the msg-id shape of
  section 3.6.4 of RFC 5322. The four-digit `DecimalFormat ("0000")` rendering is modelled with its
  parse.

The model is functional. Java objects are immutable datatypes, and a Java `null` is `Option.None`.
A thrown exception is a `Result.Failure` or a dedicated outcome constructor.

Things the model takes as parameters instead of modelling them:

- Module behaviour: the `canHandle`, `handle`, `start` and `stop` functions.
- The message type a module works on: a type parameter `M`.
- The options map: a type parameter `O`.
- The clock: `formatNow`, which renders the current time with a date pattern.
- The secure random draw: a number below 10000.
- The stack-trace text of a cause.
- The base message of an `OpenAS2Exception`.

Modelling choices a reader should know:

- **Header store.** The header store of `AbstractBaseMessage` is not part of this model. Headers are
  a plain `map<string, string>`, and setting a header to null removes it. Header-name lookup is
  exact, not case-insensitive.
- **Null rendering.** `PrintWriter.print` and `StringBuilder.append` render a null string as
  `"null"` (`Wrappers.JavaText`). So an aggregate failure whose base message is null starts with
  "null". A missing AS2 ID appears as "null" in an MDN message id.
- **Dispatch state.** One `handle` call gives every module the same message object and the same
  options map (`Processors.Exchange`). A module's `handle` may change either, and every later
  `canHandle` and `handle` sees the change. `canHandle` is taken to change neither. `Processors.Walk` returns the message and options before
  each module's turn, and `Processors.IsPass` is the position-by-position reference definition of a
  pass.
- **Date-format source.** The MDN reads its date format from its own partnership
  (`AS2MessageMDN.java:67`). It reads the AS2 IDs from the partnership of the original message
  (`AS2MessageMDN.java:74`). The model keeps both sources as written, and
  `As2Mdn.MessageIdPartnershipSources` states the separation.

## Model

| member | source | states |
|---|---|---|
| `Partnerships.CompareIDs` | src/main/java/com/helger/as2lib/partner/Partnership.java:169-183 | the entry loop answers true iff the reference map is non-empty and the candidate binds every reference key to the same value, whatever the iteration order |
| `Partnerships.MatchPartnership` | src/main/java/com/helger/as2lib/partner/Partnership.java:163-167 | `matches` holds exactly when both the sender-ID and the receiver-ID comparison hold, and then both reference maps are non-empty |
| `Partnerships.EmptyReferenceNeverMatches` | src/main/java/com/helger/as2lib/partner/Partnership.java:169-172 | an empty reference sender-ID or receiver-ID map matches no candidate |
| `Partnerships.ExtraCandidateKeysIrrelevant` | src/main/java/com/helger/as2lib/partner/Partnership.java:174-182 | adding candidate entries under keys the reference lacks never changes the comparison, in either direction |
| `Partnerships.MatchDependsOnlyOnReferenceKeys` | src/main/java/com/helger/as2lib/partner/Partnership.java:163-182 | a candidate agreeing with a matching candidate on the reference's keys also matches |
| `Partnerships.SelfMatch` | src/main/java/com/helger/as2lib/partner/Partnership.java:163-182 | a partnership matches itself iff both its ID maps are non-empty |
| `Partnerships.MatchIsNotSymmetric` | src/main/java/com/helger/as2lib/partner/Partnership.java:174-182 | some P matches Q while Q does not match P: matching is directional |
| `Partnerships.AddAttributes` | src/main/java/com/helger/as2lib/partner/Partnership.java:93-97 | merge: the keys are the union, incoming values override, untouched keys keep their values, null changes nothing, other fields unchanged |
| `Partnerships.SetAttributes` | src/main/java/com/helger/as2lib/partner/Partnership.java:99-103 | clear then add: the attributes become exactly the argument, or empty for null |
| `Partnerships.SetSenderIDs` | src/main/java/com/helger/as2lib/partner/Partnership.java:156-161 | the whole sender map is replaced by the argument, empty for null, nothing else changes |
| `Partnerships.SetReceiverIDs` | src/main/java/com/helger/as2lib/partner/Partnership.java:127-132 | the whole receiver map is replaced by the argument, empty for null, nothing else changes |
| `Partnerships.CopyFrom` | src/main/java/com/helger/as2lib/partner/Partnership.java:185-192 | after the copy, IDs and attributes equal the source's; the name is the source's when non-null, otherwise kept |
| `Partnerships.CopyFromSelfAndMatching` | src/main/java/com/helger/as2lib/partner/Partnership.java:185-192 | copying from itself is the identity, and a copy matches exactly what its source matches |
| `PartnershipAliasing.CopyFromAsWritten` | src/main/java/com/helger/as2lib/partner/Partnership.java:185-192 | the step-by-step copy on an object store changes only the target object |
| `PartnershipAliasing.DistinctCopyIsSnapshotCopy` | src/main/java/com/helger/as2lib/partner/Partnership.java:185-192 | on two distinct objects the code as written equals the snapshot copy and leaves the source alone |
| `PartnershipAliasing.SelfCopyAsWrittenEmptiesMaps` | src/main/java/com/helger/as2lib/partner/Partnership.java:185-192 | `p.copyFrom (p)` as written empties all three maps of `p` |
| `PartnershipAliasing.SelfCopyCounterexample` | src/main/java/com/helger/as2lib/partner/Partnership.java:185-192 | a concrete partnership matches itself before `copyFrom (this)` and not after, while the snapshot copy keeps it unchanged |
| `Processors.AddModule` | src/main/java/com/helger/as2lib/processor/DefaultProcessor.java:56-60 | null is rejected; otherwise the module is appended last and the earlier modules keep their order |
| `Processors.ActiveModules` | src/main/java/com/helger/as2lib/processor/DefaultProcessor.java:69-78 | a module is in the active list iff it is registered and has the active capability |
| `Processors.ActiveModulesAppend` | src/main/java/com/helger/as2lib/processor/DefaultProcessor.java:69-78 | the active list of a concatenation is the concatenation of the active lists: registration order is kept |
| `Processors.AddModuleActive` | src/main/java/com/helger/as2lib/processor/DefaultProcessor.java:56-78 | registering a module extends the active list by it exactly when it is active |
| `Processors.Walk` | src/main/java/com/helger/as2lib/processor/DefaultProcessor.java:87-99 | the dispatch loop visits every registered module once, in order, threading the message and options; a module that does not claim the action records no failure |
| `Processors.WalkIsAPass` | src/main/java/com/helger/as2lib/processor/DefaultProcessor.java:87-99 | the loop is a pass: each module is handled, once, iff it claims the action on the message and options as the earlier modules left them, a non-claiming module leaves them alone, and a failure never stops later modules |
| `Processors.PassIsUnique` | src/main/java/com/helger/as2lib/processor/DefaultProcessor.java:87-99 | any pass from the same starting message is the loop's: which modules are handled, and with what outcome, is fully determined |
| `Processors.Causes` | src/main/java/com/helger/as2lib/processor/DefaultProcessor.java:90-98 | a cause is collected iff some visited module recorded it as its failure, and there are never more causes than visits |
| `Processors.CausesAppend` | src/main/java/com/helger/as2lib/processor/DefaultProcessor.java:90-98 | collecting distributes over concatenation: the causes of earlier modules precede those of later ones, so the list is in registration order, one entry per failure |
| `Processors.CausesNeedAClaimant` | src/main/java/com/helger/as2lib/processor/DefaultProcessor.java:101-104 | a collected cause implies some module claimed the action, so with no claimant the cause list is empty |
| `Processors.Handle` | src/main/java/com/helger/as2lib/processor/DefaultProcessor.java:80-105 | fails with a ProcessorException carrying exactly the collected causes iff any was collected; reports no-module iff no module claimed; succeeds iff some module claimed and none failed |
| `Processors.NoClaimantMeansNoModule` | src/main/java/com/helger/as2lib/processor/DefaultProcessor.java:101-104 | when no module ever claims the action, the outcome is the no-module condition, not an aggregate failure |
| `Processors.SecondOfThreeFails` | src/main/java/com/helger/as2lib/processor/DefaultProcessor.java:87-102 | of three modules, only the second claims and throws: the aggregate failure has exactly its cause, and only it was handled |
| `Processors.RunLifecycle` | src/main/java/com/helger/as2lib/processor/DefaultProcessor.java:107-131 | the lifecycle loop visits every active module in order and hands each failure to terminate without ending the loop |
| `Processors.EveryFailureTerminated` | src/main/java/com/helger/as2lib/processor/DefaultProcessor.java:109-117 | the failure of any visited module is among those handed to terminate |
| `Processors.StartActiveModules` | src/main/java/com/helger/as2lib/processor/DefaultProcessor.java:107-118 | every registered active module is started, in order; the failures passed to terminate are those of the started modules, in order |
| `Processors.StopActiveModules` | src/main/java/com/helger/as2lib/processor/DefaultProcessor.java:120-131 | every registered active module is stopped, in order; the failures passed to terminate are those of the stopped modules, in order |
| `ProcessorExceptions.NewProcessorException` | src/main/java/com/helger/as2lib/exception/ProcessorException.java:50-58 | a null processor is rejected first, then a null or empty cause list; otherwise the exception stores that processor and those causes in order |
| `ProcessorExceptions.GetCauses` | src/main/java/com/helger/as2lib/exception/ProcessorException.java:66-71 | the returned cause list is never empty |
| `ProcessorExceptions.ConstructThenRead` | src/main/java/com/helger/as2lib/exception/ProcessorException.java:50-71 | getProcessor and getCauses return the constructor's processor and the same causes, in the same order and number |
| `ProcessorExceptions.GetMessage` | src/main/java/com/helger/as2lib/exception/ProcessorException.java:73-86 | the message starts with the base message (or "null") followed by a line break, has at least one character per cause beyond it, and ends exactly where the last cause's section ends |
| `ProcessorExceptions.MessageSectionOfCause` | src/main/java/com/helger/as2lib/exception/ProcessorException.java:73-86 | in the message itself, right after the base text, the k-th cause's section is a line break followed by its stack trace, placed after the sections of all earlier causes |
| `ProcessorExceptions.SectionOfCause` | src/main/java/com/helger/as2lib/exception/ProcessorException.java:73-86 | the k-th section is a line break followed by cause k's stack trace, between the ends of the sections of the causes before it and up to it |
| `Messages.AccessorsRoundTrip` | src/main/java/com/helger/as2lib/message/AbstractMessage.java:62-162 | the content-type, disposition and subject setters are read back by their getters and touch no other header; setMDN/getMDN round-trip |
| `Messages.SetData` | src/main/java/com/helger/as2lib/message/AbstractMessage.java:102-128 | getData returns the new body; a non-null item is appended to the history, and a null one leaves it unchanged; for a body, content type and disposition mirror it or are cleared when unreadable; for null they keep their values; other headers are unchanged |
| `Messages.SetDataTracked` | src/main/java/com/helger/as2lib/message/AbstractMessage.java:130-145 | null is rejected; an unreadable content type raises the wrapped exception and leaves the message unchanged; otherwise one item with the body's content type is appended and returned, and the message is exactly what the two-argument `setData` produces with that item |
| `Messages.HistoryIsAppendOnly` | src/main/java/com/helger/as2lib/message/AbstractMessage.java:126-127 | after any run of setData calls the history is the old one followed by the supplied items in call order, and with an item in every call it grows by exactly the number of calls |
| `As2Mdn.NewMdn` | src/main/java/com/helger/as2lib/message/AS2MessageMDN.java:55-61 | the MDN's AS2-To is the original's AS2-From and its AS2-From the original's AS2-To; other headers are as the base constructor left them |
| `As2Mdn.SwapTwiceRestoresRouting` | src/main/java/com/helger/as2lib/message/AS2MessageMDN.java:55-61 | swapping the swapped routing headers gives back the original's AS2-From and AS2-To |
| `As2Mdn.DatePattern` | src/main/java/com/helger/as2lib/message/AS2MessageMDN.java:53-67 | the date pattern is the partnership's date-format attribute, or "ddMMyyyyHHmmssZ" when absent |
| `As2Mdn.GenerateMessageId` | src/main/java/com/helger/as2lib/message/AS2MessageMDN.java:63-80 | the id always starts with "<OPENAS2-" and ends with ">" |
| `As2Mdn.MessageIdSegments` | src/main/java/com/helger/as2lib/message/AS2MessageMDN.java:66-79 | the id is the prefix, the date in the chosen pattern, a dash, four digits parsing back to the draw, an at-sign, then the receiver's AS2 ID, an underscore and the sender's AS2 ID |
| `As2Mdn.MessageIdPartnershipSources` | src/main/java/com/helger/as2lib/message/AS2MessageMDN.java:67-77 | the date pattern depends only on the MDN's partnership and the AS2 IDs only on the original message's |
| `Decimal.Format0000RoundTrip` | src/main/java/com/helger/as2lib/message/AS2MessageMDN.java:70-71 | for 0 <= r < 10000 the DecimalFormat("0000") rendering is exactly four digits and parses back to r |

## Findings

| source | as written | input that shows it | evidently intended | confidence | as-written member | corrected member |
|---|---|---|---|---|---|---|
| src/main/java/com/helger/as2lib/partner/Partnership.java:185-192 | `copyFrom` calls `setSenderIDs (source.m_aSenderIDs)` and the other setters. Each setter first clears the target's map and then reads the source's map. When source and target are the same object, it reads a map it has just emptied. | `p.copyFrom (p)` for a `p` with sender IDs `{as2_id: A}` and receiver IDs `{as2_id: B}`: afterwards both maps are empty and `p` no longer matches itself | copying a partnership from itself changes nothing | medium; not executed (no caller of `copyFrom` is part of the model, so whether any passes `this` is open) | `PartnershipAliasing.SelfCopyCounterexample` | `Partnerships.CopyFrom` |

## Left out

- `ICryptoHelper` (signing, verification, encryption, decryption, MIC and keystore access) is left out. It is an interface of external cryptographic and MIME operations with no logic to model beyond its algorithm-name constants.
- Java object-stream serialization (`readObject` / `writeObject`) is left out. It depends on `ObjectOutputStream` and on the byte encoding of `MimeBodyPart`.
- `toString` of `AbstractMessage` and of `Partnership`, and `getLoggingText`, are left out. They are diagnostic renderings only.
- Date formatting (`DateUtil.getFormattedDateNow`) and `VerySecureRandom` are parameters, not behaviour. `formatNow` stands for the first, and is taken never to fail on the configured pattern: a `mid_date_format` that the date formatter rejects would make `generateMessageID` throw, which is not modelled. A number `random < 10000` stands for the second; `nextInt (10000)` guarantees that range, so `GenerateMessageId` requires it.
- What a module's `handle`, `canHandle`, `start` and `stop` do, and what `OpenAS2Exception.terminate ()` does, are opaque. Failures handed to terminate are collected as a list.
- `canHandle` is taken to be a side-effect-free query. It receives the same mutable message and options map as `handle`, but the model passes them to it unchanged, so "a module that does not claim the action leaves them alone" (`Processors.WalkIsAPass`) holds only under this assumption.
- Module-internal state is not modelled: a module's `canHandle` and `handle` depend only on the module, the action, the message and the options. So a module registered twice behaves the same way on both visits given the same message and options.
- Unchecked exceptions are left out. A module's `canHandle`, `handle`, `start` or `stop` can throw a `RuntimeException`. The dispatch loop and the `startActiveModules`/`stopActiveModules` loops catch only `OpenAS2Exception`, so such an exception ends the loop. Module outcomes here are only success or an `OpenAS2Exception`, and `Processors.StartActiveModules`/`Processors.StopActiveModules` reach every active module only under that assumption.
- `getHistory` hands out the message's live `DataHistory` object, not a copy. `DataHistory` is outside the model, and the history is a value here. So `Messages.HistoryIsAppendOnly` covers only changes made through `setData`; a caller holding the returned history can change it in other ways.
- `getAllModules` and the defensive copies in `getCauses` and the constructor add nothing in a value model. Later mutation of a caller's list cannot reach a stored sequence.
- The header store and its case-insensitive lookup (`AbstractBaseMessage`) are not part of this model. Headers are an exact-key map where a null value removes the header.
- `StringMap` is outside the modelled classes and is taken to hold no null values. So a reference key always has a value, and a key missing from the candidate is a mismatch. `EqualsUtils.equals` would treat a stored null as equal to a missing key; that case is not modelled.
- `Decimal.Format0000` renders ASCII digits. `new DecimalFormat ("0000")` uses the default locale's digit symbols, so the four-digit round trip of `Decimal.Format0000RoundTrip` and `As2Mdn.MessageIdSegments` assumes a locale with Latin digits.
- `DataHistoryItem` is reduced to its content type, and `IMessageMDN` to its headers and partnership. Their classes are not part of this model, and any timestamp a `DataHistoryItem` carries is not modelled.
- `generateMessageID` calls `getAttribute (key, default)`, which this version of `Partnership.java` does not declare; it is modelled as `Partnerships.GetAttributeOr`.
- `AbstractMessageMDN`'s constructor is not part of this model. Its result is the `base` parameter of `As2Mdn.NewMdn`.
- The single-key partnership accessors are plain map reads and writes. `getSenderID`, `getReceiverID`, `setName` and the two-argument attribute lookup appear only as helpers (`Partnerships.GetSenderID`, `Partnerships.GetReceiverID`, `Partnerships.SetName`, `Partnerships.GetAttributeOr`). `setAttribute`, the one-argument `getAttribute`, `setSenderID`, `setReceiverID`, `containsSenderID`, `containsReceiverID` and `getName` are not modelled.
- `CAS2Header` and `CPartnershipIDs` are outside the modelled classes. The model spells the header names as in RFC 4130 and assumes the spelling of the two partnership keys. No property depends on these spellings beyond the keys being distinct.
- The line separator written by `println ()` is platform-dependent. The model uses "\n".
- `ProcessorExceptions.GetMessage`: its own ensures state only the shape of the message (base first, then a line break, at least one character per cause). Where each cause's section sits in the message is stated by `ProcessorExceptions.MessageSectionOfCause`, and `GetMessage` itself states that the message ends after the last section.
- Concurrency is left out. `DefaultProcessor`, `Partnership` and `AbstractMessage` have no synchronisation.
